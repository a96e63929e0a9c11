/** The token scanner of package bufio: a sliding, growing buffer between a reader and
    a split function. The tokens do not depend on the buffer or on how the input
    arrives. */
module Scanner {
  import opened Common
  import opened IO

  datatype Step = Step(advance: int, token: Option<seq<byte>>, err: Option<Error>)
  type SplitFunc = (seq<byte>, bool) -> Step

  const START_BUF_SIZE: nat := 4096
  const MAX_EMPTY: nat := 100

  function Later(s: Step, k: nat): (r: Step) { s.(advance := s.advance + k) }

  predicate Final(s: Step) { s.err.Some? || s.token.Some? }

  /** What the split function says of data before the end of the input still counts
      when more follows: a token or an error is final, and bytes skipped can be
      dropped. */
  predicate Extends(split: SplitFunc, data: seq<byte>, more: seq<byte>, atEOF: bool) {
    var s := split(data, false);
    if Final(s) then
      split(data + more, atEOF) == s
    else
      && 0 <= s.advance <= |data|
      && (data[s.advance..] + more != [] || atEOF ==>
            split(data + more, atEOF) == Later(split(data[s.advance..] + more, atEOF), s.advance))
  }

  ghost predicate Stable(split: SplitFunc) {
    && (forall data: seq<byte>, atEOF: bool ::
          split(data, atEOF).err == None && (data != [] || atEOF) ==> 0 <= split(data, atEOF).advance <= |data|)
    && (forall data: seq<byte>, more: seq<byte>, atEOF: bool ::
          data != [] ==> Extends(split, data, more, atEOF))
  }

  lemma StableAt(split: SplitFunc, data: seq<byte>, more: seq<byte>, atEOF: bool)
    requires Stable(split) && data != []
    ensures Extends(split, data, more, atEOF)
  {
  }

  /** What a scan of the whole input has to come to: the answer of the split function,
      a failure because no window of limit bytes holds the token, or, when the
      input ends exactly at the limit, one of the two. */
  datatype Verdict = Answer(step: Step) | TooLong | Either(step: Step)

  function Put(v: Verdict, k: nat): (r: Verdict) {
    match v
    case Answer(s) => Answer(Later(s, k))
    case TooLong => TooLong
    case Either(s) => Either(Later(s, k))
  }

  ghost function Judge(split: SplitFunc, input: seq<byte>, limit: nat): (r: Verdict)
    decreases |input|
  {
    if limit == 0 then TooLong
    else if |input| < limit then Answer(split(input, true))
    else
      var s := split(input[..limit], false);
      if Final(s) then Answer(s)
      else if 0 < s.advance <= |input| then Put(Judge(split, input[s.advance..], limit), s.advance)
      else if |input| > limit then TooLong
      else Either(split(input, true))
  }

  lemma JudgeUnfold(split: SplitFunc, input: seq<byte>, limit: nat)
    requires limit > 0
    ensures Judge(split, input, limit) ==
      if |input| < limit then Answer(split(input, true))
      else
        var s := split(input[..limit], false);
        if Final(s) then Answer(s)
        else if 0 < s.advance <= |input| then Put(Judge(split, input[s.advance..], limit), s.advance)
        else if |input| > limit then TooLong
        else Either(split(input, true))
  {
  }

  /** A window that settles the answer settles the verdict. */
  lemma JudgeFinal(split: SplitFunc, input: seq<byte>, m: nat, limit: nat)
    requires Stable(split) && 0 < m <= |input| && m <= limit && Final(split(input[..m], false))
    ensures Judge(split, input, limit) == Answer(split(input[..m], false))
  {
    var head := input[..m];
    if |input| < limit {
      assert Extends(split, head, input[m..], true);
      assert head + input[m..] == input;
    } else {
      assert Extends(split, head, input[m..limit], false);
      assert head + input[m..limit] == input[..limit];
    }
  }

  lemma Cuts(s: seq<byte>, k: nat, m: nat, n: nat)
    requires k <= m <= n <= |s|
    ensures s[..m] + s[m..n] == s[..n] && s[..m][k..] + s[m..n] == s[k..][..n - k]
    ensures s[..|s|] == s && s[k..][..|s| - k] == s[k..] && s[m..|s|] == s[m..]
  {
  }

  /** Dropping what the split function skips in some window keeps the verdict. */
  lemma {:induction false} JudgeSkip(split: SplitFunc, input: seq<byte>, m: nat, limit: nat)
    requires Stable(split) && 0 < m <= |input| && m <= limit && !Final(split(input[..m], false))
    ensures 0 <= split(input[..m], false).advance <= m
    ensures var k := split(input[..m], false).advance;
      Judge(split, input, limit) == Put(Judge(split, input[k..], limit), k)
    decreases |input|
  {
    hide Stable;
    hide Judge;
    var head := input[..m];
    StableAt(split, head, input[m..], true);
    var k := split(head, false).advance;
    var rest := input[k..];
    JudgeUnfold(split, input, limit);
    JudgeUnfold(split, rest, limit);
    Cuts(input, k, m, |input|);
    if k == 0 {
      assert rest == input;
    } else if |input| >= limit && m < limit {
      StableAt(split, head, input[m..limit], false);
      var w := rest[..limit - k];
      Cuts(input, k, m, limit);
      if Final(split(w, false)) {
        JudgeFinal(split, rest, limit - k, limit);
      } else {
        JudgeSkip(split, rest, limit - k, limit);
        SliceOfSlice(input, k, split(w, false).advance, |rest|);
      }
    }
  }

  /** An input that fits the window has the answer of the split function. */
  lemma JudgeFits(split: SplitFunc, input: seq<byte>, limit: nat)
    requires Stable(split) && |input| <= limit && 0 < limit
    ensures Judge(split, input, limit) in {Answer(split(input, true)), Either(split(input, true))}
  {
    if |input| == limit {
      assert input[..limit] == input == input + [];
      assert Extends(split, input, [], true);
      var k := split(input, false).advance;
      assert 0 <= k <= |input| ==> input[k..] + [] == input[k..];
    }
  }

  /** An answer is what the split function says of all of the input. */
  lemma {:induction false} JudgeIsSplit(split: SplitFunc, input: seq<byte>, limit: nat)
    requires Stable(split)
    ensures var v := Judge(split, input, limit); v != TooLong ==> v.step == split(input, true)
    decreases |input|
  {
    if 0 < limit <= |input| {
      var w, more := input[..limit], input[limit..];
      var s := split(w, false);
      assert w + more == input;
      assert Extends(split, w, more, true);
      if !Final(s) && s.advance > 0 {
        assert w[s.advance..] + more == input[s.advance..];
        JudgeIsSplit(split, input[s.advance..], limit);
      }
    }
  }

  datatype Reply = Yes | No | Panic | More

  /** The verdict on a window, the input after it, and whether reading goes on. */
  ghost function Expect(split: SplitFunc, limit: nat, w: seq<byte>, rest: seq<byte>, open: bool): (r: Verdict) {
    if open then Judge(split, w + rest, limit) else Answer(split(w, true))
  }

  /** The verdict leaves v open at most where the reader decides. */
  predicate Decides(v: Verdict, w: Verdict) {
    v == w || (v.Either? && w == Answer(v.step))
  }

  /** A scan of input with verdict v has come to the window w, having skipped k bytes. */
  ghost predicate Tracks(split: SplitFunc, limit: nat, input: seq<byte>, v: Verdict,
                         w: seq<byte>, rest: seq<byte>, open: bool, k: nat) {
    && k <= |input| && input[k..] == (if open then w + rest else w)
    && Decides(v, Put(Expect(split, limit, w, rest, open), k))
  }

  lemma TrackStart(split: SplitFunc, limit: nat, w: seq<byte>, rest: seq<byte>, open: bool)
    ensures Tracks(split, limit, if open then w + rest else w, Expect(split, limit, w, rest, open), w, rest, open, 0)
  {
  }

  lemma TrackFinal(split: SplitFunc, limit: nat, input: seq<byte>, v: Verdict,
                   w: seq<byte>, rest: seq<byte>, open: bool, k: nat)
    requires Stable(split) && Tracks(split, limit, input, v, w, rest, open, k)
    requires w != [] || !open
    requires |w| <= limit
    requires Final(split(w, !open)) || !open
    ensures v != TooLong && v.step == split(w, !open).(advance := split(w, !open).advance + k)
    ensures var s := split(w, !open); s.err == None ==>
      && 0 <= s.advance <= |w| && k + s.advance <= |input|
      && input[k + s.advance..] == if open then w[s.advance..] + rest else w[s.advance..]
  {
    var s := split(w, !open);
    if s.err == None {
      assert 0 <= s.advance <= |w|;
      assert input[k..][s.advance..] == input[k + s.advance..];
      assert (w + rest)[s.advance..] == w[s.advance..] + rest;
    }
    if open {
      assert (w + rest)[..|w|] == w;
      JudgeFinal(split, w + rest, |w|, limit);
    }
  }

  lemma TrackSkip(split: SplitFunc, limit: nat, input: seq<byte>, v: Verdict,
                  w: seq<byte>, rest: seq<byte>, k: nat)
    requires Stable(split) && Tracks(split, limit, input, v, w, rest, true, k)
    requires w != [] && |w| <= limit && !Final(split(w, false))
    ensures 0 <= split(w, false).advance <= |w|
    ensures var n := split(w, false).advance; Tracks(split, limit, input, v, w[n..], rest, true, k + n)
  {
    assert (w + rest)[..|w|] == w;
    JudgeSkip(split, w + rest, |w|, limit);
    var n := split(w, false).advance;
    assert (w + rest)[n..] == w[n..] + rest;
  }

  lemma TrackFill(split: SplitFunc, limit: nat, input: seq<byte>, v: Verdict, w: seq<byte>, rest: seq<byte>,
                  k: nat, w': seq<byte>, rest': seq<byte>, open': bool)
    requires Stable(split) && Tracks(split, limit, input, v, w, rest, true, k)
    requires w' + rest' == w + rest && (open' || rest' == []) && |w'| <= limit && 0 < limit
    ensures Tracks(split, limit, input, v, w', rest', open', k)
  {
    if !open' {
      assert w' + rest' == w';
      JudgeFits(split, w', limit);
    }
  }

  lemma TrackTooLong(split: SplitFunc, limit: nat, input: seq<byte>, v: Verdict,
                     w: seq<byte>, rest: seq<byte>, k: nat)
    requires Tracks(split, limit, input, v, w, rest, true, k)
    requires |w| == limit && (w == [] || (!Final(split(w, false)) && split(w, false).advance == 0))
    ensures v != TooLong ==> v.Either?
  {
    assert (w + rest)[..limit] == w;
  }

  class Scanner {
    const r: Source
    const split: SplitFunc
    const maxTokenSize: int
    ghost const limit: nat
    var token: Option<seq<byte>>
    var buf: array<byte>
    var start: nat
    var end: nat
    var err: Option<Error>
    var empties: nat
    var done: bool

    /** A scanner with its split function and, as Buffer sets them, its first buffer
        and maximum; the larger of the two sizes is the limit. */
    constructor (r: Source, split: SplitFunc, buf: array<byte>, max: int)
      requires r.Valid()
      ensures Valid() && Sized() && this.r == r && this.split == split && this.buf == buf
      ensures maxTokenSize == max && limit == if max > buf.Length then max else buf.Length
      ensures err == None && !done && Pending() == r.rest
    {
      this.r := r;
      this.split := split;
      this.maxTokenSize := max;
      this.limit := if max > buf.Length then max else buf.Length;
      this.buf := buf;
      token, start, end, err, empties, done := None, 0, 0, None, 0, false;
    }

    predicate Valid()
      reads this, r
    {
      && r.Valid() && start <= end <= buf.Length
      && (err == None ==> empties == 0)
    }

    /** The bounds on the buffer. */
    ghost predicate Sized()
      reads this`buf
    {
      && maxTokenSize <= limit && buf.Length <= limit
      && (buf.Length == limit || maxTokenSize == limit)
    }

    function Window(): (w: seq<byte>)
      requires start <= end <= buf.Length
      reads this`buf, this`start, this`end, buf
      ensures |w| == end - start
    {
      buf[start..end]
    }

    /** The input still to be scanned: reading stops at the first error. */
    ghost function Pending(): (v: seq<byte>)
      requires start <= end <= buf.Length
      reads this, buf, r
    {
      if err == None then Window() + r.rest else Window()
    }

    lemma WindowFits()
      requires Valid() && Sized()
      ensures |Window()| <= limit
    {
    }

    /** What the next scan has to come to. */
    ghost function Expected(): (v: Verdict)
      requires start <= end <= buf.Length
      reads this, buf, r
    {
      Expect(split, limit, Window(), r.rest, err == None)
    }

    /** The error of a scan; the end of the input is none. */
    function Err(): (e: Option<Error>)
      reads this`err
      ensures e != Some(EOF)
    {
      if err == Some(EOF) then None else err
    }

    /** Records the first error other than the end of the input. */
    method SetErr(e: Error)
      modifies this`err
      ensures err == if old(err) == None || old(err) == Some(EOF) then Some(e) else old(err)
    {
      if err == None || err == Some(EOF) {
        err := Some(e);
      }
    }

    method Advance(n: int) returns (ok: bool)
      requires Valid()
      modifies this`start, this`err
      ensures Valid() && (ok <==> 0 <= n <= end - old(start))
      ensures start == if ok then old(start) + n else old(start)
      ensures ok ==> Window() == old(Window())[n..]
      ensures err == if ok || (old(err) != None && old(err) != Some(EOF)) then old(err)
                     else Some(if n < 0 then ErrNegativeAdvance else ErrAdvanceTooFar)
    {
      if n < 0 {
        SetErr(ErrNegativeAdvance);
        return false;
      }
      if n > end - start {
        SetErr(ErrAdvanceTooFar);
        return false;
      }
      SliceOfSlice(buf[..end], start, n, end - start);
      start := start + n;
      return true;
    }

    /** Slides the data to the front of the buffer, or grows the buffer. It fails only
        if the data fills a buffer of the largest size. */
    method MakeRoom() returns (ok: bool)
      requires Valid() && Sized() && err == None
      modifies this`buf, this`start, this`end, this`err, buf
      ensures Valid() && Sized() && Window() == old(Window())
      ensures buf == old(buf) || fresh(buf)
      ensures ok ==> err == None && end < buf.Length
      ensures !ok ==> err == Some(ErrTooLong) && old(start) == 0 && old(end) == limit
    {
      if start > 0 && (end == buf.Length || start > buf.Length / 2) {
        Copy(buf, 0, buf[start..end], 0);
        end := end - start;
        start := 0;
      }
      if end == buf.Length {
        if buf.Length >= maxTokenSize {
          SetErr(ErrTooLong);
          return false;
        }
        var newSize := buf.Length * 2;
        if newSize == 0 {
          newSize := START_BUF_SIZE;
        }
        if newSize > maxTokenSize {
          newSize := maxTokenSize;
        }
        var newBuf := new byte[newSize];
        Copy(newBuf, 0, buf[start..end], 0);
        buf := newBuf;
        end := end - start;
        start := 0;
      }
      return true;
    }

    /** Reads until something arrives or the reader fails. */
    method Fill()
      requires Valid() && err == None && end < buf.Length
      modifies this`end, this`err, this`empties, buf, r
      ensures Valid()
      ensures err == None || (err == Some(r.fin) && r.rest == [])
              || (err == Some(ErrNoProgress) && r.mostIdle > MAX_EMPTY)
      ensures empties == 0
      ensures Window() + r.rest == old(Window() + r.rest)
      ensures |r.rest| + (if err == None then 1 else 0) < |old(r.rest)| + 1
    {
      var loop := 0;
      while true
        invariant Valid() && err == None && end < buf.Length
        invariant empties == 0 && end == old(end) && r.rest == old(r.rest) && Window() == old(Window())
        invariant loop + r.idle <= r.mostIdle
        decreases r.idle
      {
        var chunk, e := r.Read(buf.Length - end);
        Copy(buf, end, chunk, start);
        end := end + |chunk|;
        AppendThree(old(Window()), chunk, r.rest);
        if e != None {
          SetErr(e.value);
          break;
        }
        if |chunk| > 0 {
          empties := 0;
          break;
        }
        loop := loop + 1;
        if loop > MAX_EMPTY {
          SetErr(ErrNoProgress);
          break;
        }
      }
    }

    /** Makes room and reads. */
    method ReadMore() returns (ok: bool)
      requires Valid() && Sized() && err == None
      modifies this`buf, this`start, this`end, this`err, this`empties, buf, r
      ensures |old(Window())| <= limit
      ensures Valid() && Sized() && (buf == old(buf) || fresh(buf)) && empties == 0
      ensures !ok ==> err == Some(ErrTooLong) && old(start) == 0 && old(end) == limit && r.rest == old(r.rest)
      ensures ok ==> err == None || (err == Some(r.fin) && r.rest == [])
                     || (err == Some(ErrNoProgress) && r.mostIdle > MAX_EMPTY)
      ensures ok ==> 0 < limit && |Window()| <= limit && Window() + r.rest == old(Window() + r.rest)
      ensures ok ==> |r.rest| + (if err == None then 1 else 0) < |old(r.rest)| + 1
    {
      ok := MakeRoom();
      if ok {
        Fill();
      }
    }

    /** Asks the split function about the data at hand. */
    method Ask() returns (reply: Reply)
      requires Valid() && !done && (err == None ==> start < end)
      modifies this`token, this`done, this`err, this`empties, this`start
      ensures Valid()
      ensures var s := split(old(Window()), old(err).Some?);
        if s.err == Some(ErrFinalToken) then
          reply == Yes && done && token == s.token && err == old(err)
        else if s.err.Some? then
          reply == No && !done && err == if old(err) == None || old(err) == Some(EOF) then s.err else old(err)
        else if s.advance < 0 || s.advance > |old(Window())| then
          reply == No && !done && start == old(start)
          && err == if old(err) != None && old(err) != Some(EOF) then old(err)
                    else Some(if s.advance < 0 then ErrNegativeAdvance else ErrAdvanceTooFar)
        else
          && !done && err == old(err) && start == old(start) + s.advance && token == s.token
          && Window() == old(Window())[s.advance..]
          && (s.token == None ==> reply == More && empties == old(empties))
          && (s.token.Some? ==> empties == if err == None || s.advance > 0 then 0 else old(empties) + 1)
          && (s.token.Some? ==> reply == if empties > MAX_EMPTY then Panic else Yes)
    {
      hide Window;
      var step := split(Window(), err != None);
      if step.err != None {
        if step.err == Some(ErrFinalToken) {
          token := step.token;
          done := true;
          return Yes;
        }
        SetErr(step.err.value);
        return No;
      }
      var legal := Advance(step.advance);
      if !legal {
        return No;
      }
      token := step.token;
      if step.token == None {
        return More;
      }
      if err == None || step.advance > 0 {
        empties := 0;
      } else {
        empties := empties + 1;
        if empties > MAX_EMPTY {
          return Panic;
        }
      }
      return Yes;
    }

    /** What a scan with input v.step has come to when it returns. */
    ghost predicate Did(v: Verdict, input: seq<byte>, oldErr: Option<Error>, oldEmpties: nat, reply: Reply)
      requires Valid()
      reads this, buf, r
    {
      || (v != TooLong && Follows(v.step, input, oldErr, oldEmpties, reply))
      || (!v.Answer? && reply == No && !done && err == Some(ErrTooLong))
    }

    ghost predicate Follows(s: Step, input: seq<byte>, oldErr: Option<Error>, oldEmpties: nat, reply: Reply)
      requires Valid()
      reads this, buf, r
    {
      if s.err == Some(ErrFinalToken) then
        reply == Yes && done && token == s.token
      else if s.err.Some? then
        reply == No && !done &&
        (err == s.err || (err.Some? && err != Some(EOF) && err == if oldErr == None then Some(r.fin) else oldErr))
      else if s.token.Some? then
        && reply in {Yes, Panic} && !done && token == s.token
        && 0 <= s.advance <= |input| && Pending() == input[s.advance..]
        && (reply == Panic ==> s.advance == 0 && oldErr.Some? && oldEmpties >= MAX_EMPTY)
        && (err == oldErr || (oldErr == None && err == Some(r.fin)))
      else
        reply == No && !done && start == end && err == if oldErr == None then Some(r.fin) else oldErr
    }

    /** The scanner is on its way through input. */
    ghost predicate OnTrack(input: seq<byte>, v: Verdict, k: nat)
      requires Valid()
      reads this, buf, r
    {
      && Stable(split) && r.mostIdle <= MAX_EMPTY
      && Tracks(split, limit, input, v, Window(), r.rest, err == None, k)
    }

    /** The split function wants to see more than the window. */
    ghost predicate Stuck()
      requires Valid()
      reads this, buf, r
    {
      start == 0 && Window() != [] ==>
        !Final(split(Window(), false)) && split(Window(), false).advance == 0
    }

    /** The first half of a round of the loop of Scan: the data at hand. */
    method Try(ghost input: seq<byte>, ghost v: Verdict, ghost k: nat) returns (reply: Reply, ghost k': nat)
      requires Valid() && Sized() && !done
      modifies this`token, this`done, this`err, this`empties, this`start, this`end
      ensures Valid()
      ensures reply == More ==> !done && err == None && old(err) == None && empties == 0
      ensures old(OnTrack(input, v, k)) ==>
                if reply == More then OnTrack(input, v, k') && Stuck()
                else old(k == 0 || empties == 0) ==> Did(v, input, old(err), old(empties), reply)
    {
      hide Judge, Stable, Tracks, Expect, Decides, Put, Later, Window, Sized;
      WindowFits();
      reply, k' := More, k;
      ghost var w, open, known := Window(), err == None, OnTrack(input, v, k);
      if end > start || err != None {
        ghost var s := split(w, !open);
        if known && (Final(s) || !open) {
          TrackFinal(split, limit, input, v, w, r.rest, open, k);
        } else if known {
          TrackSkip(split, limit, input, v, w, r.rest, k);
        }
        reply := Ask();
        if reply != More {
          return;
        }
        k' := if known && open then k + s.advance else k;
      }
      if err != None {
        start, end := 0, 0;
        return No, k';
      }
    }

    /** The second half: reading on. */
    method Refill(ghost input: seq<byte>, ghost v: Verdict, ghost k: nat) returns (reply: Reply)
      requires Valid() && Sized() && !done && err == None
      modifies this`buf, this`start, this`end, this`err, this`empties, buf, r
      ensures Valid() && Sized() && (buf == old(buf) || fresh(buf)) && reply in {No, More}
      ensures empties == 0
      ensures reply == More ==> |r.rest| + (if err == None then 1 else 0) < |old(r.rest)| + 1
      ensures old(OnTrack(input, v, k) && Stuck()) ==>
                if reply == More then OnTrack(input, v, k) && (err == None || err == Some(r.fin))
                else !v.Answer? && err == Some(ErrTooLong)
    {
      hide Judge, Stable, Tracks, Expect, Sized;
      ghost var w, rest, known := Window(), r.rest, OnTrack(input, v, k) && Stuck();
      var more := ReadMore();
      if known {
        if more {
          TrackFill(split, limit, input, v, w, rest, k, Window(), r.rest, err == None);
        } else {
          TrackTooLong(split, limit, input, v, w, rest, k);
        }
      }
      reply := if more then More else No;
    }

    /** The next token. With a stable split function the token, and whether there is
        one, follow from the bytes of the input, however it arrives. */
    method Scan() returns (reply: Reply)
      requires Valid() && Sized()
      modifies this, buf, r
      ensures Valid() && Sized() && (buf == old(buf) || fresh(buf))
      ensures reply != More && (old(done) ==> reply == No && unchanged(this))
      ensures !old(done) && Stable(split) && r.mostIdle <= MAX_EMPTY ==>
                Did(old(Expected()), old(Pending()), old(err), old(empties), reply)
    {
      hide Judge, Stable, Tracks, Expect, Sized;
      if done {
        return No;
      }
      ghost var k: nat := 0;
      ghost var input, v := Pending(), Expected();
      TrackStart(split, limit, Window(), r.rest, err == None);
      ghost var known := OnTrack(input, v, 0);
      while true
        invariant Valid() && Sized() && !done
        invariant buf == old(buf) || fresh(buf)
        invariant old(err).Some? ==> err == old(err) && empties == old(empties) && k == 0
        invariant old(err) == None ==> empties == 0
        invariant known ==> OnTrack(input, v, k)
        invariant known ==> err == old(err) || (old(err) == None && err == Some(r.fin))
        decreases |r.rest| + if err == None then 1 else 0
      {
        reply, k := Try(input, v, k);
        if reply != More {
          return;
        }
        reply := Refill(input, v, k);
        if reply != More {
          return;
        }
      }
    }
  }

  /** Every token moves the scanner on, so that it ends. */
  ghost predicate Progressive(split: SplitFunc) {
    forall data: seq<byte>, atEOF: bool ::
      split(data, atEOF).err == None && split(data, atEOF).token.Some? ==> split(data, atEOF).advance > 0
  }

  ghost predicate Quiet(split: SplitFunc) {
    forall data: seq<byte>, atEOF: bool :: split(data, atEOF).err == None
  }

  function Text(token: Option<seq<byte>>): (r: seq<byte>) {
    if token.Some? then token.value else []
  }

  /** The tokens of a whole scan of the input, ended or not by one that is too long. */
  ghost predicate Course(split: SplitFunc, input: seq<byte>, limit: nat, tokens: seq<seq<byte>>, tooLong: bool)
    decreases |input|
  {
    var v := Judge(split, input, limit);
    || (v != TooLong && CourseAfter(split, input, v.step, limit, tokens, tooLong))
    || (!v.Answer? && tokens == [] && tooLong)
  }

  ghost predicate CourseAfter(split: SplitFunc, input: seq<byte>, s: Step, limit: nat,
                              tokens: seq<seq<byte>>, tooLong: bool)
    decreases |input|, 0
  {
    if s.err == None && s.token.Some? then
      && 0 < s.advance <= |input| && tokens != [] && tokens[0] == s.token.value
      && Course(split, input[s.advance..], limit, tokens[1..], tooLong)
    else
      !tooLong && tokens == if s.err == Some(ErrFinalToken) then [Text(s.token)] else []
  }

  /** With these tokens a scan of the input has come to the bytes left. */
  ghost predicate Passed(split: SplitFunc, input: seq<byte>, limit: nat, tokens: seq<seq<byte>>, left: seq<byte>) {
    forall ts: seq<seq<byte>>, b: bool ::
      Course(split, left, limit, ts, b) ==> Course(split, input, limit, tokens + ts, b)
  }

  lemma PassedNone(split: SplitFunc, input: seq<byte>, limit: nat)
    ensures Passed(split, input, limit, [], input)
  {
    forall ts: seq<seq<byte>>, b: bool | Course(split, input, limit, ts, b)
      ensures Course(split, input, limit, [] + ts, b)
    {
      assert [] + ts == ts;
    }
  }

  lemma PassedOne(split: SplitFunc, input: seq<byte>, limit: nat, tokens: seq<seq<byte>>, left: seq<byte>, s: Step)
    requires Passed(split, input, limit, tokens, left)
    requires Judge(split, left, limit) in {Answer(s), Either(s)}
    requires s.err == None && s.token.Some? && 0 < s.advance <= |left|
    ensures Passed(split, input, limit, tokens + [s.token.value], left[s.advance..])
  {
    forall ts: seq<seq<byte>>, b: bool | Course(split, left[s.advance..], limit, ts, b)
      ensures Course(split, input, limit, tokens + [s.token.value] + ts, b)
    {
      assert ([s.token.value] + ts)[1..] == ts;
      assert CourseAfter(split, left, s, limit, [s.token.value] + ts, b);
      assert tokens + [s.token.value] + ts == tokens + ([s.token.value] + ts);
    }
  }

  lemma PassedEnd(split: SplitFunc, input: seq<byte>, limit: nat, tokens: seq<seq<byte>>, left: seq<byte>,
                  last: seq<seq<byte>>, tooLong: bool)
    requires Passed(split, input, limit, tokens, left) && Course(split, left, limit, last, tooLong)
    ensures Course(split, input, limit, tokens + last, tooLong)
  {
  }

  lemma PassedTooLong(split: SplitFunc, input: seq<byte>, limit: nat, tokens: seq<seq<byte>>, left: seq<byte>)
    requires Passed(split, input, limit, tokens, left) && !Judge(split, left, limit).Answer?
    ensures Course(split, input, limit, tokens, true)
  {
    assert Course(split, left, limit, [], true);
    PassedEnd(split, input, limit, tokens, left, [], true);
    assert tokens + [] == tokens;
  }

  lemma {:induction false} JudgeAdvances(split: SplitFunc, input: seq<byte>, limit: nat)
    requires Stable(split) && Progressive(split)
    ensures var v := Judge(split, input, limit); v != TooLong ==>
      && 0 < limit && (Quiet(split) ==> v.step.err == None)
      && (v.step.err == None && v.step.token.Some? ==> 0 < v.step.advance)
    decreases |input|
  {
    if 0 < limit <= |input| {
      var s := split(input[..limit], false);
      if !Final(s) && 0 < s.advance <= |input| {
        JudgeAdvances(split, input[s.advance..], limit);
      }
    }
  }

  lemma CourseEnd(split: SplitFunc, input: seq<byte>, limit: nat, tokens: seq<seq<byte>>, left: seq<byte>, s: Step)
    requires Passed(split, input, limit, tokens, left) && Judge(split, left, limit) in {Answer(s), Either(s)}
    requires s.err.Some? || s.token == None
    ensures Course(split, input, limit, tokens + if s.err == Some(ErrFinalToken) then [Text(s.token)] else [], false)
  {
    var last := if s.err == Some(ErrFinalToken) then [Text(s.token)] else [];
    assert CourseAfter(split, left, s, limit, last, false);
    PassedEnd(split, input, limit, tokens, left, last, false);
  }

  /** Once reading is over the window is all there is, and it fits. */
  lemma ExpectedIsJudged(split: SplitFunc, limit: nat, w: seq<byte>, rest: seq<byte>, open: bool)
    requires Stable(split) && (open || (|w| <= limit && 0 < limit))
    ensures Decides(Judge(split, if open then w + rest else w, limit), Expect(split, limit, w, rest, open))
  {
    if !open {
      JudgeFits(split, w, limit);
    }
  }

  /** A run of Scan to the end. */
  method ScanAll(s: Scanner) returns (tokens: seq<seq<byte>>)
    requires s.Valid() && s.Sized() && s.err == None && !s.done && s.r.mostIdle <= MAX_EMPTY
    requires Stable(s.split) && Progressive(s.split)
    modifies s, s.buf, s.r
    ensures || (Course(s.split, old(s.Pending()), s.limit, tokens, true) && s.err == Some(ErrTooLong))
            || (Course(s.split, old(s.Pending()), s.limit, tokens, false)
                && (Quiet(s.split) ==> s.err == Some(s.r.fin)))
  {
    hide Stable, Progressive, Quiet, Passed, Course, Judge, Expect, Scanner.Sized, Extends;
    tokens := [];
    ghost var input := s.Pending();
    PassedNone(s.split, input, s.limit);
    while true
      invariant s.Valid() && s.Sized() && !s.done && (s.buf == old(s.buf) || fresh(s.buf))
      invariant s.err == None || (s.err == Some(s.r.fin) && 0 < s.limit)
      invariant Passed(s.split, input, s.limit, tokens, s.Pending())
      decreases |s.Pending()|
    {
      ghost var left, v, oldErr, oldEmpties := s.Pending(), s.Expected(), s.err, s.empties;
      s.WindowFits();
      ExpectedIsJudged(s.split, s.limit, s.Window(), s.r.rest, s.err == None);
      JudgeAdvances(s.split, left, s.limit);
      ghost var before := tokens;
      var reply := s.Scan();
      if reply == Yes {
        tokens := tokens + [Text(s.token)];
      }
      if reply == Yes && !s.done {
        PassedOne(s.split, input, s.limit, before, left, v.step);
      } else if v != TooLong && s.Follows(v.step, left, oldErr, oldEmpties, reply) {
        CourseEnd(s.split, input, s.limit, before, left, v.step);
        assert before + [] == before;
      } else {
        PassedTooLong(s.split, input, s.limit, before, left);
      }
      if reply != Yes || s.done {
        break;
      }
    }
  }
}
