/** The decoder with push-back that package fmt puts on a plain reader: it asks for one
    byte at a time and keeps the bytes it has read too far. */
module RuneReader {
  import opened Common
  import opened IO
  import opened Utf8

  /** Bytes left over: only the last of them can begin a rune. */
  predicate Leftover(s: seq<byte>) {
    |s| <= 3 && forall i :: 0 <= i < |s| - 1 ==> Continues(s[i])
  }

  /** Bytes read one by one until they make a full rune, or until the end: those
      beyond the rune that they begin with. */
  lemma LeftoverOf(s: seq<byte>, n: nat)
    requires 1 <= |s| <= 4 && DecodeRune(s).1 == n && !FullRune(s[..|s| - 1])
    ensures n <= |s| && Leftover(s[n..])
  {
    var p := s[..|s| - 1];
    if |s| > 1 {
      DecodeShort(p);
      assert forall i :: 0 <= i < |p| ==> p[i] == s[i];
    }
  }

  lemma WholeFull(p: seq<byte>, more: seq<byte>)
    requires FullRune(p) || more == []
    ensures FullRune(p + more) == FullRune(p)
  {
    if FullRune(p) {
      DecodePrefix(p, more);
    } else {
      assert p + more == p;
    }
  }

  lemma FullIsEnough(p: seq<byte>, more: seq<byte>)
    requires FullRune(p) || more == []
    ensures DecodeRune(p + more) == DecodeRune(p)
  {
    if FullRune(p) {
      DecodePrefix(p, more);
    } else {
      assert p + more == p;
    }
  }

  class RuneReader {
    const reader: Source
    const buf: array<byte>
    const pendBuf: array<byte>
    var pending: nat
    var peekRune: rune

    constructor (reader: Source)
      requires reader.Valid()
      ensures Valid() && this.reader == reader && fresh(buf) && fresh(pendBuf)
      ensures Rest() == reader.rest && peekRune == -1
    {
      this.reader := reader;
      buf := new byte[4];
      pendBuf := new byte[4];
      pending, peekRune := 0, -1;
      new;
      assert Rest() == [] + reader.rest;
    }

    predicate Valid()
      reads this, reader, pendBuf
    {
      && reader.Valid() && buf != pendBuf && buf.Length == 4 && pendBuf.Length == 4
      && pending <= 3 && Leftover(pendBuf[0..pending])
    }

    /** The bytes not yet decoded. */
    ghost function Rest(): (r: seq<byte>)
      requires pending <= pendBuf.Length
      reads this`pending, reader, pendBuf
    {
      pendBuf[0..pending] + reader.rest
    }

    /** The runes to come, the one put back first. */
    ghost function Ahead(): (r: seq<rune>)
      requires pending <= pendBuf.Length
      reads this, reader, pendBuf
    {
      (if peekRune >= 0 then [peekRune] else []) + DecodeAll(Rest())
    }

    /** One byte of the reader, which may take several reads: io.ReadFull. */
    method ReadFull() returns (b: byte, e: Option<Error>)
      requires reader.Valid()
      modifies reader
      ensures reader.Valid()
      ensures e == None ==> [b] + reader.rest == old(reader.rest)
      ensures e.Some? ==> e.value == reader.fin && old(reader.rest) == [] == reader.rest
    {
      while true
        invariant reader.Valid() && reader.rest == old(reader.rest)
        decreases reader.idle
      {
        var chunk, err := reader.Read(1);
        if |chunk| == 1 {
          assert chunk == [chunk[0]];
          return chunk[0], None;
        }
        if err != None {
          return 0, err;
        }
      }
    }

    /** The next byte, left over or read. */
    method ReadByte() returns (b: byte, e: Option<Error>)
      requires Valid()
      modifies this`pending, pendBuf, reader
      ensures Valid()
      ensures e == None ==> [b] + Rest() == old(Rest())
      ensures e == None ==> pending == 0 || (pending < old(pending) && Continues(b))
      ensures e.Some? ==> e.value == reader.fin && old(Rest()) == [] == Rest() && pending == 0
    {
      if pending > 0 {
        ghost var left, rest := pendBuf[0..pending], reader.rest;
        b := pendBuf[0];
        assert b == left[0];
        Copy(pendBuf, 0, pendBuf[1..], 0);
        pending := pending - 1;
        assert pendBuf[0..pending] == left[1..] && left == [b] + left[1..];
        AppendThree([b], left[1..], rest);
        return b, None;
      }
      assert Rest() == [] + reader.rest == reader.rest;
      b, e := ReadFull();
      if e == None {
        pendBuf[0] := b;
      }
      assert Rest() == [] + reader.rest == reader.rest;
    }

    /** Keeps the bytes read too far. */
    method Keep(size: nat, n: nat)
      requires Valid() && pending == 0 && size <= n <= 4 && Leftover(buf[size..n])
      modifies this`pending, pendBuf
      ensures Valid() && Rest() == buf[size..n] + reader.rest && buf[0..n] == old(buf[0..n])
    {
      Copy(pendBuf, pending, buf[size..n], 0);
      pending := pending + (n - size);
    }

    /** Decodes the bytes in buf and keeps those beyond the rune. */
    method Decode(n: nat, ghost all: seq<byte>) returns (rr: rune, size: nat)
      requires Valid() && 1 <= n <= 4 && buf[0..n] + Rest() == all
      requires !FullRune(buf[0..n - 1]) && (n > 1 ==> pending == 0)
      requires FullRune(buf[0..n]) || Rest() == []
      modifies this`pending, pendBuf
      ensures Valid() && size <= |all| && (rr, size) == DecodeRune(all) && Rest() == all[size..]
    {
      hide DecodeRune, FullRune;
      ghost var p := buf[0..n];
      var d := DecodeRune(buf[0..n]);
      rr, size := d.0, d.1;
      FullIsEnough(p, Rest());
      DropOfAppend(p, Rest(), size);
      assert p[..n - 1] == buf[0..n - 1];
      LeftoverOf(p, size);
      if size < n {
        SliceOfSlice(p, size, 0, n - size);
        assert p[size..] == buf[size..n];
        Keep(size, n);
      } else {
        assert p[size..] == [] && [] + Rest() == Rest();
      }
    }

    /** The next rune from the bytes: what direct decoding of all of them gives. If the
        reader fails within a rune, other than by ending, the bytes of that rune are
        lost. */
    method ReadFresh() returns (rr: rune, size: nat, e: Option<Error>)
      requires Valid() && peekRune < 0
      modifies this, buf, pendBuf, reader
      ensures Valid()
      ensures e == None ==>
                && old(Rest()) != [] && (rr, size) == DecodeRune(old(Rest())) && size <= |old(Rest())|
                && Rest() == old(Rest())[size..] && peekRune == -1 - rr
      ensures e.Some? ==> e.value == reader.fin && Rest() == [] && peekRune == old(peekRune) && (rr, size) == (0, 0)
      ensures e.Some? <==> old(Rest()) == [] || (reader.fin != EOF && !FullRune(old(Rest())))
    {
      hide DecodeRune, FullRune, Rest, Leftover;
      ghost var all := Rest();
      var b;
      b, e := ReadByte();
      if e != None {
        return 0, 0, e;
      }
      buf[0] := b;
      assert buf[0..1] == [b];
      if b < RUNE_SELF {
        DecodeOne([b] + Rest());
        DropHead([b], Rest());
        peekRune := -1 - b;
        return b, 1, None;
      }
      Alone(b);
      var n: nat;
      n, e := Collect(all);
      WholeFull(buf[0..n], Rest());
      if e != None {
        if e != Some(EOF) {
          return 0, 0, e;
        }
        e := None;
      }
      rr, size := Decode(n, all);
      peekRune := -1 - rr;
    }

    /** The next rune, the one put back first. */
    method ReadRune() returns (rr: rune, size: int, e: Option<Error>)
      requires Valid()
      modifies this, buf, pendBuf, reader
      ensures Valid()
      ensures e == None ==> old(Ahead()) == [rr] + Ahead() && peekRune == -1 - rr < 0
      ensures old(peekRune) >= 0 ==> rr == old(peekRune) && Rest() == old(Rest())
      ensures e == None ==> size == if old(peekRune) >= 0 then RuneLen(rr) else |old(Rest())| - |Rest()|
      ensures e.Some? ==> e.value == reader.fin && Rest() == [] && peekRune == old(peekRune) && rr == size == 0
      ensures e.Some? <==> old(peekRune) < 0 &&
                             (old(Rest()) == [] || (reader.fin != EOF && !FullRune(old(Rest()))))
    {
      hide DecodeRune, FullRune, Rest, DecodeAll;
      if peekRune >= 0 {
        rr := peekRune;
        peekRune := -1 - peekRune;
        return rr, RuneLen(rr), None;
      }
      FirstRune(Rest());
      rr, size, e := ReadFresh();
    }

    /** Reads on until the bytes in buf are a full rune, or the reader fails. */
    method Collect(ghost all: seq<byte>) returns (n: nat, e: Option<Error>)
      requires Valid() && buf[0..1] + Rest() == all && (pending == 0 || FullRune(buf[0..1]))
      modifies this`pending, buf, pendBuf, reader
      ensures Valid() && 1 <= n <= 4 && buf[0..n] + Rest() == all
      ensures !FullRune(buf[0..n - 1]) && (n > 1 ==> pending == 0)
      ensures pending == 0 || FullRune(buf[0..n])
      ensures if e == None then FullRune(buf[0..n])
              else e.value == reader.fin && !FullRune(buf[0..n]) && Rest() == [] && pending == 0
    {
      hide FullRune, Rest, Leftover;
      n := 1;
      while !FullRune(buf[0..n])
        invariant Valid() && 1 <= n <= 4 && buf[0..n] + Rest() == all
        invariant pending == 0 || (n == 1 && FullRune(buf[0..n]))
        invariant !FullRune(buf[0..n - 1])
        decreases 4 - n
      {
        ghost var had, rest := buf[0..n], Rest();
        Small(had);
        var b;
        b, e := ReadByte();
        if e != None {
          return;
        }
        buf[n] := b;
        assert buf[0..n] == had && buf[0..n + 1] == had + [b];
        AppendThree(had, [b], Rest());
        n := n + 1;
      }
      e := None;
    }

    method UnreadRune() returns (ok: bool)
      requires Valid()
      modifies this`peekRune
      ensures Valid() && Rest() == old(Rest()) && (ok <==> old(peekRune) < 0)
      ensures peekRune == if ok then -1 - old(peekRune) else old(peekRune)
    {
      if peekRune >= 0 {
        return false;
      }
      peekRune := -1 - peekRune;
      return true;
    }
  }

  lemma FirstRune(s: seq<byte>)
    ensures s != [] ==> DecodeAll(s) == [DecodeRune(s).0] + DecodeAll(s[DecodeRune(s).1..])
  {
  }

  lemma Small(p: seq<byte>)
    requires !FullRune(p)
    ensures |p| <= 3
  {
  }

  lemma Alone(b: byte)
    ensures Continues(b) ==> FullRune([b])
  {
  }

  /** The runes up to the first that is not complete. */
  function DecodeComplete(s: seq<byte>): (runes: seq<rune>)
    ensures runes <= DecodeAll(s)
  {
    if !FullRune(s) then [] else [DecodeRune(s).0] + DecodeComplete(s[DecodeRune(s).1..])
  }

  /** What a reader of s yields: all the runes of direct decoding, but only the complete
      ones if it fails other than by ending. */
  function Yields(s: seq<byte>, fin: Error): (r: seq<rune>) {
    if fin == EOF then DecodeAll(s) else DecodeComplete(s)
  }

  lemma YieldsStep(s: seq<byte>, fin: Error)
    ensures if s == [] || (fin != EOF && !FullRune(s)) then Yields(s, fin) == []
            else Yields(s, fin) == [DecodeRune(s).0] + Yields(s[DecodeRune(s).1..], fin)
  {
  }

  /** Every rune of the reader, one put back before them. */
  method ReadAll(r: RuneReader) returns (runes: seq<rune>, e: Error)
    requires r.Valid()
    modifies r, r.buf, r.pendBuf, r.reader
    ensures r.Valid() && e == r.reader.fin
    ensures runes == old(if r.peekRune >= 0 then [r.peekRune] else []) + Yields(old(r.Rest()), r.reader.fin)
  {
    hide DecodeRune, FullRune, RuneReader.Rest, Yields;
    runes := [];
    if r.peekRune >= 0 {
      var rr, size, err := r.ReadRune();
      runes := [rr];
    }
    while true
      invariant r.Valid() && r.peekRune < 0
      invariant old(if r.peekRune >= 0 then [r.peekRune] else []) + Yields(old(r.Rest()), r.reader.fin)
                == runes + Yields(r.Rest(), r.reader.fin)
      decreases |r.Rest()|
    {
      ghost var rest := r.Rest();
      YieldsStep(rest, r.reader.fin);
      var rr, size, err := r.ReadFresh();
      if err != None {
        assert runes + [] == runes;
        return runes, err.value;
      }
      assert runes + ([rr] + Yields(r.Rest(), r.reader.fin)) == runes + [rr] + Yields(r.Rest(), r.reader.fin);
      runes := runes + [rr];
    }
  }

  /** Unreading before anything was read succeeds, and invents a rune. */
  method UnreadFirst(reader: Source) returns (r: RuneReader, rr: rune)
    requires reader.Valid()
    modifies reader
    ensures rr == 0 && r.reader == reader && r.Valid() && r.Rest() == old(reader.rest)
  {
    hide RuneReader.Rest;
    r := new RuneReader(reader);
    var ok := r.UnreadRune();
    var size, e;
    rr, size, e := r.ReadRune();
  }

  /** Reading a rune and putting it back changes nothing that is read afterwards. */
  method ReadUnread(r: RuneReader) returns (e: Option<Error>)
    requires r.Valid()
    modifies r, r.buf, r.pendBuf, r.reader
    ensures r.Valid() && (e == None ==> r.Ahead() == old(r.Ahead()))
  {
    var rr, size;
    rr, size, e := r.ReadRune();
    if e == None {
      var ok := r.UnreadRune();
      assert r.Ahead() == [rr] + DecodeAll(r.Rest());
    }
  }
}
