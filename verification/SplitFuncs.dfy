/** The split functions of package bufio: each is stable, and its tokens are the
    bytes, lines, runes or words of the input. */
module SplitFuncs {
  import opened Common
  import opened IO
  import opened Scanner
  import opened Utf8
  import opened TextLines

  // Lines

  function ScanLines(data: seq<byte>, atEOF: bool): (r: Step) {
    if atEOF && data == [] then Step(0, None, None)
    else
      var i := IndexByte(data, NL);
      if i >= 0 then Step(i + 1, Some(DropCR(data[..i])), None)
      else if atEOF then Step(|data|, Some(DropCR(data)), None)
      else Step(0, None, None)
  }

  /** Every line, with its newline, takes up at most limit bytes, and the unterminated
      last one at most last bytes. */
  predicate Within(input: seq<byte>, limit: int, last: int) {
    var i := IndexByte(input, NL);
    if i >= 0 then i + 1 <= limit && Within(input[i + 1..], limit, last) else |input| <= last
  }

  lemma LinesExtend(data: seq<byte>, more: seq<byte>, atEOF: bool)
    requires data != []
    ensures Extends(ScanLines, data, more, atEOF)
  {
    var i := IndexByte(data, NL);
    if i >= 0 {
      assert (data + more)[..i] == data[..i];
      IndexUnique(data + more, NL, i);
    } else {
      assert data[0..] + more == data + more;
    }
  }

  lemma LinesStable()
    ensures Stable(ScanLines) && Progressive(ScanLines) && Quiet(ScanLines)
  {
    forall data: seq<byte>, more: seq<byte>, atEOF: bool | data != []
      ensures Extends(ScanLines, data, more, atEOF)
    {
      LinesExtend(data, more, atEOF);
    }
  }

  lemma LinesJudged(input: seq<byte>, limit: nat)
    ensures var v, i := Judge(ScanLines, input, limit), IndexByte(input, NL);
      if 0 <= i < limit then v == Answer(Step(i + 1, Some(DropCR(input[..i])), None))
      else if 0 <= i || |input| > limit || limit == 0 then v == TooLong
      else
        var s := if input == [] then Step(0, None, None) else Step(|input|, Some(DropCR(input)), None);
        v == if |input| == limit then Either(s) else Answer(s)
  {
    if 0 < limit <= |input| {
      var i := IndexByte(input, NL);
      IndexPrefix(input, NL, limit);
      assert 0 <= i < limit ==> input[..limit][..i] == input[..i];
    }
  }

  /** A scan for lines yields the lines of the input from the first on. It yields all
      of them if each fits the limit, and stops at a line that does not. */
  lemma {:induction false} LinesCourse(input: seq<byte>, limit: nat, tokens: seq<seq<byte>>, tooLong: bool)
    requires Course(ScanLines, input, limit, tokens, tooLong)
    ensures tokens <= Lines(input)
    ensures !tooLong ==> tokens == Lines(input) && Within(input, limit, limit)
    ensures tooLong ==> !Within(input, limit, limit - 1)
    decreases |input|
  {
    hide Judge;
    LinesJudged(input, limit);
    var v, i := Judge(ScanLines, input, limit), IndexByte(input, NL);
    if v != TooLong && CourseAfter(ScanLines, input, v.step, limit, tokens, tooLong) {
      LinesAfter(input, v.step, limit, tokens, tooLong);
    }
  }

  lemma LinesUnfold(input: seq<byte>, limit: int, last: int)
    ensures var i := IndexByte(input, NL);
      if i >= 0 then
        && Lines(input) == [DropCR(input[..i])] + Lines(input[i + 1..])
        && (Within(input, limit, last) <==> i + 1 <= limit && Within(input[i + 1..], limit, last))
      else
        && Lines(input) == (if input == [] then [] else [DropCR(input)])
        && (Within(input, limit, last) <==> |input| <= last)
  {
    hide IndexByte, DropCR;
  }

  lemma OneMore(tokens: seq<seq<byte>>, head: seq<byte>, tail: seq<seq<byte>>)
    requires tokens != [] && tokens[0] == head && tokens[1..] <= tail
    ensures tokens <= [head] + tail
    ensures tokens[1..] == tail ==> tokens == [head] + tail
  {
    assert tokens == [head] + tokens[1..];
  }

  lemma {:induction false} LinesAfter(input: seq<byte>, s: Step, limit: nat, tokens: seq<seq<byte>>, tooLong: bool)
    requires CourseAfter(ScanLines, input, s, limit, tokens, tooLong)
    requires var i := IndexByte(input, NL);
      if i >= 0 then i < limit && s == Step(i + 1, Some(DropCR(input[..i])), None)
      else
        |input| <= limit
        && s == if input == [] then Step(0, None, None) else Step(|input|, Some(DropCR(input)), None)
    ensures tokens <= Lines(input)
    ensures !tooLong ==> tokens == Lines(input) && Within(input, limit, limit)
    ensures tooLong ==> !Within(input, limit, limit - 1)
    decreases |input|, 0
  {
    hide Judge, ScanLines, Lines, Within, IndexByte, DropCR;
    LinesUnfold(input, limit, limit);
    LinesUnfold(input, limit, limit - 1);
    if s.token.Some? {
      var rest := input[s.advance..];
      LinesCourse(rest, limit, tokens[1..], tooLong);
      OneMore(tokens, s.token.value, Lines(rest));
      if IndexByte(input, NL) < 0 {
        LinesEnd(input, limit, limit - 1);
      }
    }
  }

  lemma LinesEnd(input: seq<byte>, limit: nat, last: int)
    ensures Lines(input[|input|..]) == [] && (0 <= last ==> Within(input[|input|..], limit, last))
  {
    assert input[|input|..] == [];
  }

  /** Reading lines with a scanner: the client's loop. */
  method ReadLines(s: Scanner) returns (tokens: seq<seq<byte>>)
    requires s.Valid() && s.Sized() && s.err == None && !s.done && s.r.mostIdle <= MAX_EMPTY
    requires s.split == ScanLines
    modifies s, s.buf, s.r
    ensures tokens <= Lines(old(s.Pending()))
    ensures Within(old(s.Pending()), s.limit, s.limit - 1) ==>
              tokens == Lines(old(s.Pending())) && s.err == Some(s.r.fin)
    ensures !Within(old(s.Pending()), s.limit, s.limit) ==> s.err == Some(ErrTooLong)
  {
    hide Stable, Progressive, Quiet, Within, Course, Scanner.Sized;
    LinesStable();
    ghost var input := s.Pending();
    tokens := ScanAll(s);
    if Course(s.split, input, s.limit, tokens, true) && s.err == Some(ErrTooLong) {
      LinesCourse(input, s.limit, tokens, true);
    } else {
      LinesCourse(input, s.limit, tokens, false);
    }
  }

  const MAX_SCAN_TOKEN_SIZE: int := 65536

  /** The defaults: lines, no buffer yet, and tokens of up to 64 kilobytes. */
  method NewScanner(r: Source) returns (s: Scanner)
    requires r.Valid()
    ensures s.Valid() && s.Sized() && fresh(s) && fresh(s.buf) && s.r == r && s.split == ScanLines
    ensures s.limit == MAX_SCAN_TOKEN_SIZE && s.err == None && !s.done && s.Pending() == r.rest
  {
    var buf := new byte[0];
    s := new Scanner(r, ScanLines, buf, MAX_SCAN_TOKEN_SIZE);
  }

  /** A client of the defaults: all lines of a reader, if none is too long. */
  method AllLines(r: Source) returns (lines: seq<seq<byte>>, e: Option<Error>)
    requires r.Valid() && r.mostIdle <= MAX_EMPTY
    modifies r
    ensures lines <= Lines(old(r.rest))
    ensures Within(old(r.rest), MAX_SCAN_TOKEN_SIZE, MAX_SCAN_TOKEN_SIZE - 1) ==>
              lines == Lines(old(r.rest)) && e == if r.fin == EOF then None else Some(r.fin)
    ensures !Within(old(r.rest), MAX_SCAN_TOKEN_SIZE, MAX_SCAN_TOKEN_SIZE) ==> e == Some(ErrTooLong)
  {
    hide Scanner.Sized, Within;
    var s := NewScanner(r);
    lines := ReadLines(s);
    e := s.Err();
  }

  // Bytes and runes

  /** The source is never called with no data before the end of the input. */
  function ScanBytes(data: seq<byte>, atEOF: bool): (r: Step) {
    if data == [] then Step(0, None, None) else Step(1, Some(data[..1]), None)
  }

  function ScanRunes(data: seq<byte>, atEOF: bool): (r: Step) {
    if data == [] then Step(0, None, None)
    else if data[0] < RUNE_SELF then Step(1, Some(data[..1]), None)
    else
      var width := DecodeRune(data).1;
      if width > 1 then Step(width, Some(data[..width]), None)
      else if !atEOF && !FullRune(data) then Step(0, None, None)
      else Step(1, Some(EncodeRune(RUNE_ERROR)), None)
  }

  function Singles(input: seq<byte>): (r: seq<seq<byte>>) {
    if input == [] then [] else [[input[0]]] + Singles(input[1..])
  }

  /** The runes of the input as a range loop sees them, each encoded anew. */
  function Runes(input: seq<byte>): (r: seq<seq<byte>>) {
    if input == [] then []
    else
      var (r, width) := DecodeRune(input);
      [EncodeRune(r)] + Runes(input[width..])
  }

  lemma BytesStable()
    ensures Stable(ScanBytes) && Progressive(ScanBytes) && Quiet(ScanBytes)
  {
    forall data: seq<byte>, more: seq<byte>, atEOF: bool | data != []
      ensures Extends(ScanBytes, data, more, atEOF)
    {
      assert (data + more)[..1] == data[..1];
    }
  }

  lemma RunesExtend(data: seq<byte>, more: seq<byte>, atEOF: bool)
    requires data != []
    ensures Extends(ScanRunes, data, more, atEOF)
  {
    hide DecodeRune, EncodeRune;
    if FullRune(data) {
      DecodePrefix(data, more);
      assert forall n :: 0 <= n <= |data| ==> (data + more)[..n] == data[..n];
    } else {
      DecodeShort(data);
      assert data[0..] + more == data + more;
    }
  }

  lemma RunesStable()
    ensures Stable(ScanRunes) && Progressive(ScanRunes) && Quiet(ScanRunes)
  {
    forall data: seq<byte>, more: seq<byte>, atEOF: bool | data != []
      ensures Extends(ScanRunes, data, more, atEOF)
    {
      RunesExtend(data, more, atEOF);
    }
  }

  lemma RunesStep(input: seq<byte>)
    requires input != []
    ensures ScanRunes(input, true) == Step(DecodeRune(input).1, Some(EncodeRune(DecodeRune(input).0)), None)
  {
    if input[0] < RUNE_SELF || DecodeRune(input).1 > 1 {
      EncodeDecode(input);
    }
  }

  /** A scan for bytes yields every byte, if the buffer can hold one. */
  lemma {:induction false} BytesCourse(input: seq<byte>, limit: nat, tokens: seq<seq<byte>>, tooLong: bool)
    requires Course(ScanBytes, input, limit, tokens, tooLong) && 1 <= limit
    ensures tokens == Singles(input) && !tooLong
    decreases |input|
  {
    BytesStable();
    JudgeIsSplit(ScanBytes, input, limit);
    if input != [] {
      BytesCourse(input[1..], limit, tokens[1..], tooLong);
      assert tokens == [tokens[0]] + tokens[1..];
      assert input[..1] == [input[0]];
    }
  }

  /** A scan for runes yields every rune, if the buffer can hold any. */
  lemma {:induction false} RunesCourse(input: seq<byte>, limit: nat, tokens: seq<seq<byte>>, tooLong: bool)
    requires Course(ScanRunes, input, limit, tokens, tooLong) && 4 <= limit
    ensures tokens == Runes(input) && !tooLong
    decreases |input|
  {
    hide DecodeRune, EncodeRune, Stable, Extends;
    RunesStable();
    JudgeIsSplit(ScanRunes, input, limit);
    if input != [] {
      RunesStep(input);
      var width := DecodeRune(input).1;
      RunesCourse(input[width..], limit, tokens[1..], tooLong);
      assert tokens == [tokens[0]] + tokens[1..];
    }
  }

  // Words

  predicate IsSpace(r: rune) {
    || r in {0x20, 0x09, 0x0A, 0x0B, 0x0C, 0x0D, 0x85, 0xA0} || 0x2000 <= r <= 0x200A
    || r in {0x1680, 0x2028, 0x2029, 0x202F, 0x205F, 0x3000}
  }

  /** The length of the spaces at the front. */
  function Spaces(data: seq<byte>): (k: nat)
    ensures k <= |data|
  {
    if data == [] then 0
    else
      var (r, width) := DecodeRune(data);
      if IsSpace(r) then width + Spaces(data[width..]) else 0
  }

  /** The length up to the first space, and the width of that. */
  function WordEnd(data: seq<byte>): (e: (nat, nat))
    ensures e.0 + e.1 <= |data|
    ensures e.1 == 0 ==> e.0 == |data|
  {
    if data == [] then (0, 0)
    else
      var (r, width) := DecodeRune(data);
      if IsSpace(r) then (0, width) else
        var e := WordEnd(data[width..]);
        (width + e.0, e.1)
  }

  function ScanWords(data: seq<byte>, atEOF: bool): (r: Step) {
    var start := Spaces(data);
    var d := data[start..];
    var e := WordEnd(d);
    if e.1 > 0 then Step(start + e.0 + e.1, Some(d[..e.0]), None)
    else if atEOF && d != [] then Step(|data|, Some(d), None)
    else Step(start, None, None)
  }

  /** The first loop of the split function. */
  method SkipSpaces(data: seq<byte>) returns (start: nat)
    ensures start == Spaces(data)
  {
    hide DecodeRune, IsSpace;
    start := 0;
    while start < |data|
      invariant 0 <= start <= |data| && Spaces(data) == start + Spaces(data[start..])
    {
      var (r, width) := DecodeRune(data[start..]);
      if !IsSpace(r) {
        break;
      }
      SliceOfSlice(data, start, width, |data| - start);
      start := start + width;
    }
  }

  /** The second loop: the first space from start on and its width. */
  method FindSpace(data: seq<byte>, start: nat) returns (i: nat, width: nat)
    requires start <= |data|
    ensures start <= i && (i - start, width) == WordEnd(data[start..])
  {
    hide DecodeRune, IsSpace;
    i := start;
    while i < |data|
      invariant start <= i <= |data|
      invariant var e, e' := WordEnd(data[start..]), WordEnd(data[i..]); e == (i - start + e'.0, e'.1)
    {
      var r;
      var d := DecodeRune(data[i..]);
      r, width := d.0, d.1;
      if IsSpace(r) {
        return;
      }
      SliceOfSlice(data, i, width, |data| - i);
      i := i + width;
    }
    width := 0;
  }

  method WordsLoop(data: seq<byte>, atEOF: bool) returns (s: Step)
    ensures s == ScanWords(data, atEOF)
  {
    hide Spaces, WordEnd;
    var start := SkipSpaces(data);
    var i, width := FindSpace(data, start);
    SliceOfSlice(data, start, 0, i - start);
    if width > 0 {
      return Step(i + width, Some(data[start..i]), None);
    }
    if atEOF && |data| > start {
      return Step(|data|, Some(data[start..]), None);
    }
    return Step(start, None, None);
  }

  /** The words of the input: what lies between spaces. */
  function Words(input: seq<byte>): (r: seq<seq<byte>>)
    decreases |input|
  {
    var d := input[Spaces(input)..];
    if d == [] then []
    else
      var e := WordEnd(d);
      WordEndAhead(d);
      [d[..e.0]] + Words(d[e.0 + e.1..])
  }

  lemma WordEndAhead(d: seq<byte>)
    ensures d != [] ==> WordEnd(d).0 + WordEnd(d).1 > 0
  {
  }

  lemma SpacesOver(data: seq<byte>)
    ensures Spaces(data[Spaces(data)..]) == 0
  {
    if data != [] && IsSpace(DecodeRune(data).0) {
      var width := DecodeRune(data).1;
      SpacesOver(data[width..]);
      assert data[width..][Spaces(data[width..])..] == data[Spaces(data)..];
    }
  }

  lemma {:induction false} SpacesExtend(data: seq<byte>, more: seq<byte>)
    ensures Spaces(data + more) == Spaces(data) + Spaces(data[Spaces(data)..] + more)
  {
    hide DecodeRune, IsSpace;
    if data != [] && FullRune(data) && IsSpace(DecodeRune(data).0) {
      DecodePrefix(data, more);
      var width := DecodeRune(data).1;
      SpacesExtend(data[width..], more);
      assert (data + more)[width..] == data[width..] + more;
      assert data[width..][Spaces(data[width..])..] == data[Spaces(data)..];
    } else {
      if data != [] && !FullRune(data) {
        DecodeShort(data);
        assert !IsSpace(RUNE_ERROR) by { NotSpace(); }
      }
      assert data[0..] + more == data + more;
    }
  }

  lemma NotSpace()
    ensures !IsSpace(RUNE_ERROR)
  {
  }

  /** There is no space where only continuation bytes are left. */
  lemma {:induction false} NoEndShort(data: seq<byte>)
    requires forall i :: 0 <= i < |data| ==> Continues(data[i])
    ensures WordEnd(data) == (|data|, 0)
  {
    if data != [] {
      NoEndShort(data[1..]);
    }
  }

  lemma {:induction false} WordEndExtend(data: seq<byte>, more: seq<byte>)
    requires WordEnd(data).1 > 0
    ensures WordEnd(data + more) == WordEnd(data) && FullRune(data)
  {
    hide DecodeRune, IsSpace;
    var (r, width) := DecodeRune(data);
    if !FullRune(data) {
      DecodeShort(data);
      NotSpace();
      NoEndShort(data[1..]);
      assert false;
    }
    DecodePrefix(data, more);
    if !IsSpace(r) {
      WordEndExtend(data[width..], more);
      assert (data + more)[width..] == data[width..] + more;
    }
  }

  lemma WordsExtend(data: seq<byte>, more: seq<byte>, atEOF: bool)
    ensures Extends(ScanWords, data, more, atEOF)
  {
    hide Spaces, WordEnd;
    var k := Spaces(data);
    var all, d := data + more, data[k..];
    SpacesExtend(data, more);
    DropOfAppend(data, more, k);
    SpacesOver(data);
    if WordEnd(d).1 > 0 {
      WordEndExtend(d, more);
      FirstNotSpace(d, more);
      TakeOfAppend(d, more, 0, WordEnd(d).0);
    } else {
      SliceOfSlice(all, k, Spaces(d + more), |d + more|);
    }
  }

  lemma FirstNotSpace(d: seq<byte>, more: seq<byte>)
    requires Spaces(d) == 0 && FullRune(d)
    ensures Spaces(d + more) == 0
  {
    hide DecodeRune, IsSpace;
    DecodePrefix(d, more);
  }

  lemma WordsStable()
    ensures Stable(ScanWords) && Progressive(ScanWords) && Quiet(ScanWords)
  {
    hide DecodeRune, IsSpace, Extends;
    forall data: seq<byte>, more: seq<byte>, atEOF: bool | data != []
      ensures Extends(ScanWords, data, more, atEOF)
    {
      WordsExtend(data, more, atEOF);
    }
  }

  lemma WordNonempty(input: seq<byte>)
    ensures var d := input[Spaces(input)..]; d != [] ==> WordEnd(d).0 > 0
  {
    hide DecodeRune, IsSpace;
    SpacesOver(input);
  }

  lemma WordsUnfold(input: seq<byte>)
    ensures var d := input[Spaces(input)..];
      Words(input) == if d == [] then [] else [d[..WordEnd(d).0]] + Words(d[WordEnd(d).0 + WordEnd(d).1..])
  {
    hide Spaces, WordEnd;
    WordEndAhead(input[Spaces(input)..]);
  }

  /** What the split function says of all of the input, where d is what follows its
      leading spaces. */
  lemma WordsAnswer(input: seq<byte>, d: seq<byte>)
    requires d == input[Spaces(input)..]
    ensures var s := ScanWords(input, true);
      if d == [] then s.token == None
      else
        && s.token == Some(d[..WordEnd(d).0]) && 0 < s.advance <= |input|
        && input[s.advance..] == d[WordEnd(d).0 + WordEnd(d).1..]
  {
    hide Spaces, WordEnd;
    WordNonempty(input);
    if d != [] && WordEnd(d).1 > 0 {
      SliceOfSlice(input, Spaces(input), WordEnd(d).0 + WordEnd(d).1, |d|);
    } else if d != [] {
      WordsLast(input, d, |d|);
    }
  }

  lemma WordsLast(input: seq<byte>, d: seq<byte>, n: nat)
    requires d == input[Spaces(input)..] && d != [] && WordEnd(d) == (n, 0)
    ensures ScanWords(input, true) == Step(|input|, Some(d), None)
    ensures d[..n] == d && input[|input|..] == d[n..]
  {
    hide Spaces, WordEnd;
  }

  lemma WordsPeek(w: seq<byte>)
    ensures var s := ScanWords(w, false);
      if WordEnd(w[Spaces(w)..]).1 > 0 then Final(s) else !Final(s) && s.advance == Spaces(w)
  {
    hide Spaces, WordEnd;
  }

  lemma WordsStep(input: seq<byte>)
    ensures var s := ScanWords(input, true);
      if s.token == None then Words(input) == []
      else
        && s.token.value != [] && 0 < s.advance <= |input|
        && Words(input) == [s.token.value] + Words(input[s.advance..])
  {
    hide Spaces, WordEnd, Words, ScanWords;
    WordNonempty(input);
    WordsUnfold(input);
    WordsAnswer(input, input[Spaces(input)..]);
  }

  lemma {:induction false} EndStarts(d: seq<byte>)
    requires WordEnd(d).1 > 0
    ensures WordEnd(d).0 < |d| && !Continues(d[WordEnd(d).0])
  {
    var (r, width) := DecodeRune(d);
    if !IsSpace(r) {
      EndStarts(d[width..]);
    }
  }

  lemma {:induction false} WordEndPrefix(d: seq<byte>, n: nat)
    requires n <= |d| && WordEnd(d).1 > 0 && WordEnd(d).0 + WordEnd(d).1 <= n
    ensures WordEnd(d[..n]).1 > 0
  {
    var p := d[..n];
    EndStarts(d);
    assert p[WordEnd(d).0] == d[WordEnd(d).0];
    if !FullRune(p) {
      DecodeShort(p);
      assert false;
    }
    PrefixStep(d, n);
    var (r, width) := DecodeRune(d);
    if !IsSpace(r) {
      WordEndPrefix(d[width..], n - width);
    }
  }

  lemma PrefixStep(d: seq<byte>, n: nat)
    requires n <= |d| && FullRune(d[..n])
    ensures DecodeRune(d[..n]) == DecodeRune(d)
    ensures d[..n][DecodeRune(d).1..] == d[DecodeRune(d).1..][..n - DecodeRune(d).1]
  {
    DecodePrefix(d[..n], d[n..]);
    assert d[..n] + d[n..] == d;
  }

  lemma WordsStuck(input: seq<byte>, limit: nat)
    requires 4 <= limit <= |input| && Spaces(input) == 0
    requires Spaces(input[..limit]) == 0 && WordEnd(input[..limit]).1 == 0
    ensures Judge(ScanWords, input, limit) == if |input| > limit then TooLong else Either(ScanWords(input, true))
    ensures WordEnd(input).1 > 0 ==> WordEnd(input).0 + WordEnd(input).1 > limit
    ensures |input| == limit ==> WordEnd(input).1 == 0
  {
    hide Spaces, WordEnd, ScanWords;
    WordsPeek(input[..limit]);
    assert input[..limit][0..] == input[..limit];
    if WordEnd(input).1 > 0 && WordEnd(input).0 + WordEnd(input).1 <= limit {
      WordEndPrefix(input, limit);
    }
    assert |input| == limit ==> input[..limit] == input;
  }

  /** A word is too long if it does not fit the window together with the space that
      ends it. */
  lemma {:induction false} WordsJudged(input: seq<byte>, limit: nat)
    requires 4 <= limit
    ensures var v, d := Judge(ScanWords, input, limit), input[Spaces(input)..];
      if d == [] then v.Answer?
      else if WordEnd(d).1 > 0 then v.Answer? == (WordEnd(d).0 + WordEnd(d).1 <= limit) && !v.Either?
      else if |d| < limit then v.Answer? else if |d| == limit then v.Either? else v.TooLong?
    decreases |input|
  {
    hide Spaces, WordEnd, DecodeRune, ScanWords, Judge;
    JudgeUnfold(ScanWords, input, limit);
    if |input| >= limit {
      var w, more := input[..limit], input[limit..];
      WordsPeek(w);
      var k := Spaces(w);
      var u := w[k..];
      Cuts(input, k, limit, |input|);
      SpacesExtend(w, more);
      SpacesOver(w);
      if WordEnd(u).1 > 0 {
        WordEndExtend(u, more);
        FirstNotSpace(u, more);
      } else if k > 0 {
        WordsJudged(input[k..], limit);
        SliceOfSlice(input, k, Spaces(input[k..]), |input| - k);
      } else {
        assert u == w && input[0..] == input;
        FirstNotSpace(w, more);
        WordsStuck(input, limit);
      }
    }
  }

  /** Every word, with the space that ends it, takes up at most limit bytes, and the
      unterminated last one at most last bytes. */
  predicate WordsWithin(input: seq<byte>, limit: int, last: int)
    decreases |input|
  {
    var d := input[Spaces(input)..];
    var e := WordEnd(d);
    WordEndAhead(d);
    d == [] || if e.1 > 0 then e.0 + e.1 <= limit && WordsWithin(d[e.0 + e.1..], limit, last) else |d| <= last
  }

  lemma WithinUnfold(input: seq<byte>, limit: int, last: int)
    ensures var d := input[Spaces(input)..];
      var e := WordEnd(d);
      WordsWithin(input, limit, last) ==
      (d == [] || if e.1 > 0 then e.0 + e.1 <= limit && WordsWithin(d[e.0 + e.1..], limit, last) else |d| <= last)
  {
    hide Spaces, WordEnd;
  }

  lemma WithinNothing(limit: int, last: int)
    ensures WordsWithin([], limit, last)
  {
  }

  /** A scan for words yields the words of the input from the first on. It yields all of
      them if each fits the limit, and stops at a word that does not. None is empty. */
  lemma {:induction false} WordsCourse(input: seq<byte>, limit: nat, tokens: seq<seq<byte>>, tooLong: bool)
    requires Course(ScanWords, input, limit, tokens, tooLong) && 4 <= limit
    ensures tokens <= Words(input) && [] !in tokens
    ensures !tooLong ==> tokens == Words(input) && WordsWithin(input, limit, limit)
    ensures tooLong ==> !WordsWithin(input, limit, limit - 1)
    decreases |input|
  {
    hide ScanWords, Words, Stable, Judge, WordEnd, Spaces, WordsWithin;
    WordsStable();
    JudgeIsSplit(ScanWords, input, limit);
    WordsStep(input);
    WordsAnswer(input, input[Spaces(input)..]);
    WordsJudged(input, limit);
    WithinUnfold(input, limit, limit);
    WithinUnfold(input, limit, limit - 1);
    assert Quiet(ScanWords);
    var v := Judge(ScanWords, input, limit);
    if v != TooLong && CourseAfter(ScanWords, input, v.step, limit, tokens, tooLong) && v.step.token.Some? {
      WordsCourse(input[v.step.advance..], limit, tokens[1..], tooLong);
      WithinNothing(limit, limit - 1);
      assert tokens == [tokens[0]] + tokens[1..];
    }
  }

  /** The characters with the property White_Space of Unicode. */
  const WHITE_SPACE: set<rune> := {
    0x09, 0x0A, 0x0B, 0x0C, 0x0D, 0x20, 0x85, 0xA0, 0x1680, 0x2000, 0x2001, 0x2002, 0x2003, 0x2004,
    0x2005, 0x2006, 0x2007, 0x2008, 0x2009, 0x200A, 0x2028, 0x2029, 0x202F, 0x205F, 0x3000
  }

  lemma SpaceIsWhite(r: rune)
    ensures IsSpace(r) <==> r in WHITE_SPACE
    ensures r in WHITE_SPACE ==> ValidRune(r)
  {
  }

  function Encoded(runes: seq<rune>): (s: seq<byte>) {
    if runes == [] then [] else EncodeRune(runes[0]) + Encoded(runes[1..])
  }

  predicate White(runes: seq<rune>) { forall r :: r in runes ==> r in WHITE_SPACE }

  predicate Solid(runes: seq<rune>) { forall r :: r in runes ==> ValidRune(r) && r !in WHITE_SPACE }

  /** A word and the white space after it. */
  datatype Spaced = Spaced(word: seq<rune>, gap: seq<rune>) {
    predicate Ok() { word != [] && Solid(word) && gap != [] && White(gap) }
  }

  function SpacedText(ws: seq<Spaced>): (s: seq<byte>) {
    if ws == [] then [] else Encoded(ws[0].word) + Encoded(ws[0].gap) + SpacedText(ws[1..])
  }

  function WordsOf(ws: seq<Spaced>): (r: seq<seq<byte>>) {
    if ws == [] then [] else [Encoded(ws[0].word)] + WordsOf(ws[1..])
  }

  lemma EncodedStep(runes: seq<rune>, more: seq<byte>)
    requires runes != [] && ValidRune(runes[0])
    ensures var s, p := Encoded(runes) + more, EncodeRune(runes[0]);
      s != [] && DecodeRune(s) == (runes[0], |p|) && s[|p|..] == Encoded(runes[1..]) + more
    ensures |Encoded(runes)| == |EncodeRune(runes[0])| + |Encoded(runes[1..])|
  {
    hide EncodeRune, DecodeRune, RuneLen;
    DecodeEncode(runes[0], Encoded(runes[1..]) + more);
    EncodedLength(runes[0]);
    Front(EncodeRune(runes[0]), Encoded(runes[1..]), more);
  }

  lemma Front(a: seq<byte>, b: seq<byte>, c: seq<byte>)
    ensures a + b + c == a + (b + c) && (a + (b + c))[|a|..] == b + c
  {
  }

  lemma EncodedLength(r: rune)
    requires ValidRune(r)
    ensures |EncodeRune(r)| == RuneLen(r)
  {
  }

  lemma {:induction false} SpacesOf(runes: seq<rune>, more: seq<byte>)
    requires White(runes)
    ensures Spaces(Encoded(runes) + more) == |Encoded(runes)| + Spaces(more)
  {
    hide EncodeRune, DecodeRune, IsSpace;
    if runes == [] {
      assert [] + more == more;
    } else {
      assert runes[0] in runes;
      SpaceIsWhite(runes[0]);
      EncodedStep(runes, more);
      SpacesOf(runes[1..], more);
    }
  }

  lemma {:induction false} WordEndOf(runes: seq<rune>, more: seq<byte>)
    requires Solid(runes)
    ensures var e := WordEnd(more); WordEnd(Encoded(runes) + more) == (|Encoded(runes)| + e.0, e.1)
  {
    hide EncodeRune, DecodeRune, IsSpace;
    if runes == [] {
      assert [] + more == more;
    } else {
      assert runes[0] in runes;
      SpaceIsWhite(runes[0]);
      EncodedStep(runes, more);
      WordEndOf(runes[1..], more);
    }
  }

  /** A word is no space, and the first space ends it. */
  lemma WordAndGap(word: seq<rune>, gap: seq<rune>, more: seq<byte>)
    requires word != [] && Solid(word) && White(gap)
    ensures Spaces(Encoded(word) + more) == 0
    ensures gap != [] ==> WordEnd(Encoded(gap) + more) == (0, |EncodeRune(gap[0])|)
  {
    hide EncodeRune, DecodeRune, IsSpace;
    assert word[0] in word;
    SpaceIsWhite(word[0]);
    EncodedStep(word, more);
    if gap != [] {
      assert gap[0] in gap;
      SpaceIsWhite(gap[0]);
      EncodedStep(gap, more);
    }
  }

  lemma FirstWord(lead: seq<rune>, w: Spaced, more: seq<byte>)
    requires White(lead) && w.Ok()
    ensures Words(Encoded(lead) + (Encoded(w.word) + (Encoded(w.gap) + more)))
         == [Encoded(w.word)] + Words(Encoded(w.gap[1..]) + more)
  {
    hide Spaces, WordEnd, Encoded, Words, EncodeRune, DecodeRune, IsSpace;
    var after := Encoded(w.gap) + more;
    var d := Encoded(w.word) + after;
    SpacesOf(lead, d);
    WordAndGap(w.word, w.gap, after);
    WordAndGap(w.word, w.gap, more);
    WordEndOf(w.word, after);
    assert w.gap[0] in w.gap;
    SpaceIsWhite(w.gap[0]);
    EncodedStep(w.gap, more);
    WordsUnfold(Encoded(lead) + d);
    assert (Encoded(lead) + d)[|Encoded(lead)|..] == d;
    SliceOfSlice(d, |Encoded(w.word)|, |EncodeRune(w.gap[0])|, |after|);
    assert d[|Encoded(w.word)|..] == after && d[..|Encoded(w.word)|] == Encoded(w.word);
  }

  lemma LastWord(lead: seq<rune>, last: seq<rune>)
    requires White(lead) && Solid(last)
    ensures Words(Encoded(lead) + Encoded(last)) == if last == [] then [] else [Encoded(last)]
  {
    hide Spaces, WordEnd, Words, EncodeRune, DecodeRune, IsSpace;
    var d := Encoded(last);
    SpacesOf(lead, d);
    WordEndOf(last, []);
    NothingLeft();
    assert d + [] == d && (Encoded(lead) + d)[|Encoded(lead)|..] == d;
    if last != [] {
      WordAndGap(last, [], []);
    }
    WordsUnfold(Encoded(lead) + d);
    assert d[..|d|] == d && d[|d|..] == [];
  }

  lemma NothingLeft()
    ensures Words([]) == [] && Spaces([]) == 0 && WordEnd([]) == (0, 0)
  {
  }

  /** The words of a text are those it was made of, whatever white space stands before,
      between and after them. */
  lemma {:induction false} SpacedWords(lead: seq<rune>, ws: seq<Spaced>, last: seq<rune>)
    requires White(lead) && (forall w :: w in ws ==> w.Ok()) && Solid(last)
    ensures Words(Encoded(lead) + (SpacedText(ws) + Encoded(last)))
         == WordsOf(ws) + if last == [] then [] else [Encoded(last)]
    decreases |ws|
  {
    hide Words, Encoded;
    if ws == [] {
      LastWord(lead, last);
      assert [] + Encoded(last) == Encoded(last);
    } else {
      var w, more := ws[0], SpacedText(ws[1..]) + Encoded(last);
      assert w in ws;
      FirstWord(lead, w, more);
      SpacedWords(w.gap[1..], ws[1..], last);
      assert Encoded(w.word) + Encoded(w.gap) + SpacedText(ws[1..]) + Encoded(last)
          == Encoded(w.word) + (Encoded(w.gap) + more);
    }
  }
}
