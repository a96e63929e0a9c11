/** The buffered writer of package bufio, over a sink that may fail or write short:
    what it has accepted is always what the sink has, followed by what it holds. */
module Writer {
  import opened Common
  import opened IO
  import opened Utf8

  const DEFAULT_SIZE: nat := 4096
  const MAX_EMPTY: nat := 100

  /** What the sink has answered during a call explains the error of the call: it was there
      before, and then the sink was left alone, or it comes of the last answer. Without an
      error there was none among the answers. */
  predicate Explained(before: seq<Reply>, after: seq<Reply>, had: Option<Error>, err: Option<Error>) {
    && before <= after
    && (had.Some? ==> after == before && err == had)
    && (err.Some? && had == None ==> before < after && err == after[|after| - 1].Fault())
    && (err == None ==> forall i :: |before| <= i < |after| ==> after[i].err == None)
  }

  lemma ExplainedTwice(a: seq<Reply>, b: seq<Reply>, c: seq<Reply>,
                       x: Option<Error>, y: Option<Error>, z: Option<Error>)
    requires Explained(a, b, x, y) && Explained(b, c, y, z)
    ensures Explained(a, c, x, z)
  {
  }

  lemma ExplainedOne(before: seq<Reply>, r: Reply)
    ensures Explained(before, before + [r], None, r.Fault()) && (r.err.Some? ==> r.Fault() == r.err)
    ensures Explained(before, before + [r], None, r.err)
    ensures forall x :: Explained(before, before, x, x)
  {
  }

  class Writer {
    const buf: array<byte>
    var wr: Sink
    var err: Option<Error>
    var n: nat

    constructor (wr: Sink, size: int)
      ensures Valid() && this.wr == wr && fresh(buf) && err == None && Accepted() == wr.data
      ensures buf.Length == if size <= 0 then DEFAULT_SIZE else size
    {
      this.wr := wr;
      buf := new byte[if size <= 0 then DEFAULT_SIZE else size];
      err, n := None, 0;
    }

    predicate Valid()
      reads this
    {
      n <= buf.Length && 0 < buf.Length
    }

    /** Every byte accepted for the present sink, in order. */
    ghost function Accepted(): (r: seq<byte>)
      requires n <= buf.Length
      reads this`n, this`wr, buf, wr
    {
      wr.data + buf[..n]
    }

    method Reset(w: Sink)
      requires Valid()
      modifies this
      ensures Valid() && wr == w && err == None && n == 0 && Accepted() == w.data
    {
      err, n, wr := None, 0, w;
    }

    function Available(): (a: nat)
      requires Valid()
      reads this
    {
      buf.Length - n
    }

    /** Gives the sink what is held. Without an error the sink then has everything. */
    method Flush() returns (e: Option<Error>)
      requires Valid()
      modifies this`n, this`err, buf, wr
      ensures Valid() && Accepted() == old(Accepted()) && e == err && n <= old(n)
      ensures e == None ==> n == 0 && wr.data == old(Accepted())
      ensures old(err).Some? || old(n) == 0 ==>
                wr.data == old(wr.data) && n == old(n) && err == old(err) && wr.replies == old(wr.replies)
      ensures old(err) == None && old(n) > 0 ==>
                exists r :: wr.replies == old(wr.replies) + [r] && r.asked == old(n) && r.n <= r.asked
                            && err == r.Fault() && n == if err == None then 0 else r.asked - r.n
      ensures Explained(old(wr.replies), wr.replies, old(err), err)
    {
      ExplainedOne(wr.replies, Reply(0, 0, None));
      hide Explained;
      if err != None {
        return err;
      }
      if n == 0 {
        return None;
      }
      ghost var held := buf[..n];
      var k;
      k, e := wr.Write(buf[..n]);
      ghost var reply := Reply(n, k, e);
      ExplainedOne(old(wr.replies), reply);
      assert wr.replies == old(wr.replies) + [reply];
      if k < n && e == None {
        e := Some(ErrShortWrite);
      }
      assert old(wr.data) + held == wr.data + held[k..];
      if e != None {
        if k > 0 && k < n {
          Copy(buf, 0, buf[k..n], 0);
        }
        assert buf[..n - k] == held[k..];
        n := n - k;
        err := e;
        return e;
      }
      n := 0;
    }

    /** Copies as much of p as fits into the buffer. */
    method Fill(p: seq<byte>) returns (k: nat)
      requires Valid()
      modifies this`n, buf
      ensures Valid() && k == (if |p| < old(Available()) then |p| else old(Available()))
      ensures n == old(n) + k && Accepted() == old(Accepted()) + p[..k]
    {
      k := if |p| < Available() then |p| else Available();
      ghost var held := buf[..n];
      Copy(buf, n, p[..k], 0);
      n := n + k;
      AppendThree(wr.data, held, p[..k]);
    }

    /** Accepts p, or a part of it and an error. After an error nothing is accepted and
        the sink is left alone. */
    method Write(p: seq<byte>) returns (nn: nat, e: Option<Error>)
      requires Valid()
      modifies this`n, this`err, buf, wr
      ensures Valid() && nn <= |p| && Accepted() == old(Accepted()) + p[..nn]
      ensures e == err && (e == None ==> nn == |p|)
      ensures old(err).Some? ==> nn == 0 && wr.data == old(wr.data) && err == old(err)
      ensures Explained(old(wr.replies), wr.replies, old(err), err)
      ensures |p| <= old(Available()) ==> wr.data == old(wr.data) && wr.replies == old(wr.replies)
    {
      ExplainedOne(wr.replies, Reply(0, 0, None));
      hide Accepted, Explained;
      nn := 0;
      var q := p;
      while |q| > Available() && err == None
        invariant Valid() && nn <= |p| && q == p[nn..] && Accepted() == old(Accepted()) + p[..nn]
        invariant old(err).Some? ==> nn == 0 && wr.data == old(wr.data) && err == old(err)
        invariant Explained(old(wr.replies), wr.replies, old(err), err)
        invariant |p| <= old(Available()) ==>
                    && nn == 0 && Available() == old(Available())
                    && wr.data == old(wr.data) && wr.replies == old(wr.replies)
        decreases |q|, err == None, n
      {
        ghost var replies := wr.replies;
        var k := WriteSome(q);
        ExplainedTwice(old(wr.replies), replies, wr.replies, old(err), None, err);
        PieceAccepted(old(Accepted()), p, nn, k);
        nn := nn + k;
        q := q[k..];
      }
      if err != None {
        return nn, err;
      }
      var k := Fill(q);
      PieceAccepted(old(Accepted()), p, nn, k);
      nn := nn + k;
      return nn, None;
    }

    /** What does not fit goes past the buffer if that is empty; otherwise the buffer is
        filled and flushed. */
    method WriteSome(q: seq<byte>) returns (k: nat)
      requires Valid() && err == None && |q| > Available()
      modifies this`n, this`err, buf, wr
      ensures Valid() && k <= |q| && Accepted() == old(Accepted()) + q[..k]
      ensures k > 0 || err.Some? || n < old(n)
      ensures Explained(old(wr.replies), wr.replies, None, err)
    {
      hide Accepted, Explained;
      if n == 0 {
        k := WritePast(q);
      } else {
        k := Fill(q);
        var e := Flush();
      }
    }

    /** A large write with nothing held goes past the buffer. */
    method WritePast(q: seq<byte>) returns (k: nat)
      requires Valid() && n == 0 && err == None && q != []
      modifies this`err, wr
      ensures Valid() && k <= |q| && Accepted() == old(Accepted()) + q[..k]
      ensures err == None ==> k > 0
      ensures wr.replies == old(wr.replies) + [Reply(|q|, k, err)] && Explained(old(wr.replies), wr.replies, None, err)
    {
      k, err := wr.Write(q);
      ExplainedOne(old(wr.replies), Reply(|q|, k, err));
      assert old(wr.data) + q[..k] + [] == old(wr.data) + [] + q[..k];
    }

    method WriteString(s: seq<byte>) returns (nn: nat, e: Option<Error>)
      requires Valid()
      modifies this`n, this`err, buf, wr
      ensures Valid() && nn <= |s| && Accepted() == old(Accepted()) + s[..nn]
      ensures e == err && (e == None ==> nn == |s|)
      ensures old(err).Some? ==> nn == 0 && wr.data == old(wr.data) && err == old(err)
      ensures Explained(old(wr.replies), wr.replies, old(err), err)
      ensures |s| <= old(Available()) ==> wr.data == old(wr.data) && wr.replies == old(wr.replies)
    {
      ExplainedOne(wr.replies, Reply(0, 0, None));
      hide Accepted, Explained;
      nn := 0;
      var q := s;
      while |q| > Available() && err == None
        invariant Valid() && nn <= |s| && q == s[nn..] && Accepted() == old(Accepted()) + s[..nn]
        invariant old(err).Some? ==> nn == 0 && wr.data == old(wr.data) && err == old(err)
        invariant Explained(old(wr.replies), wr.replies, old(err), err)
        invariant |s| <= old(Available()) ==>
                    && nn == 0 && Available() == old(Available())
                    && wr.data == old(wr.data) && wr.replies == old(wr.replies)
        decreases |q|, err == None, n
      {
        var k := Fill(q);
        PieceAccepted(old(Accepted()), s, nn, k);
        nn := nn + k;
        q := q[k..];
        ghost var replies := wr.replies;
        var e' := Flush();
        ExplainedTwice(old(wr.replies), replies, wr.replies, old(err), None, err);
      }
      if err != None {
        return nn, err;
      }
      var k := Fill(q);
      PieceAccepted(old(Accepted()), s, nn, k);
      nn := nn + k;
      return nn, None;
    }

    method WriteByte(c: byte) returns (e: Option<Error>)
      requires Valid()
      modifies this`n, this`err, buf, wr
      ensures Valid() && e == err && Accepted() == old(Accepted()) + if e == None then [c] else []
      ensures old(err).Some? ==> wr.data == old(wr.data) && err == old(err)
      ensures Explained(old(wr.replies), wr.replies, old(err), err)
      ensures old(Available()) > 0 ==> wr.data == old(wr.data) && wr.replies == old(wr.replies)
    {
      ExplainedOne(wr.replies, Reply(0, 0, None));
      hide Explained;
      if err != None {
        return err;
      }
      if Available() <= 0 {
        e := Flush();
        if e != None {
          return err;
        }
      }
      ghost var held := buf[..n];
      buf[n] := c;
      n := n + 1;
      assert buf[..n] == held + [c];
      return None;
    }

    method WriteRune(r: rune) returns (size: nat, e: Option<Error>)
      requires Valid()
      modifies this`n, this`err, buf, wr
      ensures Valid() && size <= |RuneBytes(r)| && Accepted() == old(Accepted()) + RuneBytes(r)[..size]
      ensures e == err && (e == None ==> size == |RuneBytes(r)|)
      ensures old(err).Some? ==> size == 0 && wr.data == old(wr.data) && err == old(err)
      ensures Explained(old(wr.replies), wr.replies, old(err), err)
      ensures old(Available()) >= (if r < RUNE_SELF then 1 else 4) ==>
                wr.data == old(wr.data) && wr.replies == old(wr.replies)
    {
      ExplainedOne(wr.replies, Reply(0, 0, None));
      hide Accepted, EncodeRune, Explained;
      var p := RuneBytes(r);
      if r < RUNE_SELF {
        e := WriteByte(r % 256);
        return if e == None then 1 else 0, e;
      }
      if err != None {
        return 0, err;
      }
      if Available() < 4 {
        e := Flush();
        if err != None {
          return 0, err;
        }
        if Available() < 4 {
          ghost var replies := wr.replies;
          size, e := WriteString(p);
          ExplainedTwice(old(wr.replies), replies, wr.replies, old(err), None, err);
          return;
        }
      }
      size := Fill(p);
      e := None;
    }

    /** Reads r to its end. An error of the sink or of r ends it early. */
    method ReadFrom(r: Source) returns (count: nat, e: Option<Error>)
      requires Valid() && r.Valid()
      modifies this`n, this`err, buf, wr, r
      ensures Valid() && r.Valid() && count <= |old(r.rest)| && r.rest == old(r.rest)[count..]
      ensures Accepted() == old(Accepted()) + old(r.rest)[..count]
      ensures e == None ==> r.rest == [] && r.fin == EOF && err == None
      ensures old(err).Some? ==> count == 0 && wr.data == old(wr.data) && e == err == old(err)
      ensures e.Some? ==> e == err || (e == Some(r.fin) && r.fin != EOF)
                          || (e == Some(ErrNoProgress) && r.mostIdle >= MAX_EMPTY)
      ensures Explained(old(wr.replies), wr.replies, old(err), err)
      ensures |old(r.rest)| < old(Available()) ==> wr.data == old(wr.data) && wr.replies == old(wr.replies)
    {
      ExplainedOne(wr.replies, Reply(0, 0, None));
      hide Accepted, Explained;
      if err != None {
        return 0, err;
      }
      ghost var input := r.rest;
      count := 0;
      e := None;
      while true
        invariant Valid() && r.Valid() && err == None && e == None
        invariant count <= |input| && r.rest == input[count..] && Accepted() == old(Accepted()) + input[..count]
        invariant Explained(old(wr.replies), wr.replies, None, None)
        invariant |input| < old(Available()) ==>
                    Available() == old(Available()) - count && wr.data == old(wr.data) && wr.replies == old(wr.replies)
        decreases |r.rest|
      {
        ghost var replies := wr.replies;
        e := FlushFull();
        ExplainedTwice(old(wr.replies), replies, wr.replies, None, None, err);
        if e != None {
          return count, e;
        }
        var nr, m := 0, 0;
        while nr < MAX_EMPTY
          invariant Valid() && r.Valid() && err == None && e == None && m == 0 && n < buf.Length
          invariant r.rest == input[count..] && Accepted() == old(Accepted()) + input[..count]
          invariant Explained(old(wr.replies), wr.replies, None, None)
          invariant |input| < old(Available()) ==>
                      && Available() == old(Available()) - count
                      && wr.data == old(wr.data) && wr.replies == old(wr.replies)
          invariant nr <= MAX_EMPTY && nr + r.idle <= r.mostIdle
        {
          m, e := ReadChunk(r);
          if m != 0 || e != None {
            break;
          }
          nr := nr + 1;
        }
        if nr == MAX_EMPTY {
          return count, Some(ErrNoProgress);
        }
        PieceAccepted(old(Accepted()), input, count, m);
        count := count + m;
        if e != None {
          break;
        }
      }
      if e == Some(EOF) {
        ghost var replies := wr.replies;
        e := FlushFull();
        ExplainedTwice(old(wr.replies), replies, wr.replies, None, None, err);
      }
    }

    /** Flushes if there is no room. */
    method FlushFull() returns (e: Option<Error>)
      requires Valid() && err == None
      modifies this`n, this`err, buf, wr
      ensures Valid() && Accepted() == old(Accepted()) && e == err && (e == None ==> n < buf.Length)
      ensures old(Available()) > 0 ==> n == old(n) && wr.data == old(wr.data) && wr.replies == old(wr.replies)
      ensures Explained(old(wr.replies), wr.replies, None, err)
    {
      ExplainedOne(wr.replies, Reply(0, 0, None));
      hide Explained;
      e := None;
      if Available() == 0 {
        e := Flush();
      }
    }

    /** One read of r into the free part of the buffer. */
    method ReadChunk(r: Source) returns (m: nat, e: Option<Error>)
      requires Valid() && r.Valid() && n < buf.Length
      modifies this`n, buf, r
      ensures Valid() && r.Valid() && m <= |old(r.rest)| && r.rest == old(r.rest)[m..] && n == old(n) + m
      ensures Accepted() == old(Accepted()) + old(r.rest)[..m]
      ensures e.Some? ==> e.value == r.fin && r.rest == []
      ensures m == 0 && e == None ==> r.idle < old(r.idle)
    {
      var chunk;
      ghost var held := buf[..n];
      chunk, e := r.Read(buf.Length - n);
      Copy(buf, n, chunk, 0);
      m := |chunk|;
      n := n + m;
      assert old(r.rest)[..m] == chunk;
      AppendThree(wr.data, held, chunk);
    }
  }

  function Concat(ps: seq<seq<byte>>): (r: seq<byte>) {
    if ps == [] then [] else ps[0] + Concat(ps[1..])
  }

  /** Any run of writes and then a flush: the sink has the bytes in order, all of them
      if no error came back, and otherwise the first of them. The error is one that was
      there before or comes of the sink's last answer. */
  method WriteAll(b: Writer, ps: seq<seq<byte>>) returns (e: Option<Error>)
    requires b.Valid()
    modifies b`n, b`err, b.buf, b.wr
    ensures b.Valid()
    ensures b.wr.data <= old(b.Accepted()) + Concat(ps)
    ensures e == None ==> b.wr.data == old(b.Accepted()) + Concat(ps)
    ensures e == b.err && Explained(old(b.wr.replies), b.wr.replies, old(b.err), e)
  {
    ExplainedOne(b.wr.replies, Reply(0, 0, None));
    hide Writer.Accepted, Explained;
    ghost var done := old(b.Accepted());
    assert done + Concat(ps) == old(b.Accepted()) + Concat(ps);
    var i := 0;
    while i < |ps|
      invariant b.Valid() && 0 <= i <= |ps|
      invariant b.Accepted() <= done && (b.err == None ==> b.Accepted() == done)
      invariant done + Concat(ps[i..]) == old(b.Accepted()) + Concat(ps)
      invariant Explained(old(b.wr.replies), b.wr.replies, old(b.err), b.err)
    {
      ghost var replies, had := b.wr.replies, b.err;
      var nn, e' := b.Write(ps[i]);
      ExplainedTwice(old(b.wr.replies), replies, b.wr.replies, old(b.err), had, b.err);
      assert ps[i..][1..] == ps[i + 1..];
      assert done + (ps[i] + Concat(ps[i + 1..])) == done + ps[i] + Concat(ps[i + 1..]);
      done := done + ps[i];
      i := i + 1;
    }
    ghost var replies, had := b.wr.replies, b.err;
    e := b.Flush();
    ExplainedTwice(old(b.wr.replies), replies, b.wr.replies, old(b.err), had, b.err);
    SinkHasFirst(b);
    assert done + Concat(ps[i..]) == done + [];
  }

  lemma SinkHasFirst(b: Writer)
    requires b.Valid()
    ensures b.wr.data <= b.Accepted()
  {
  }

  lemma PieceAccepted(before: seq<byte>, p: seq<byte>, nn: nat, k: nat)
    requires nn <= |p| && k <= |p| - nn
    ensures before + p[..nn] + p[nn..][..k] == before + p[..nn + k]
    ensures p[nn..][k..] == p[nn + k..]
  {
    assert p[..nn + k] == p[..nn] + p[nn..][..k];
  }
}
