/** The buffered reader of package bufio. Sliding, short reads and full buffers do not
    show: every operation is described by the bytes still to come. */
module Reader {
  import opened Common
  import opened IO
  import opened TextLines
  import opened Utf8

  const MIN_SIZE: nat := 16
  const MAX_EMPTY: nat := 100

  /** The first line of the input and what comes after it. An unterminated last line
      is taken as it is. */
  function Line(input: seq<byte>): (r: seq<byte>) {
    var i := IndexByte(input, NL);
    if i >= 0 then DropCR(input[..i]) else input
  }

  function After(input: seq<byte>): (rest: seq<byte>)
    ensures input != [] ==> |rest| < |input|
  {
    var i := IndexByte(input, NL);
    if i >= 0 then input[i + 1..] else []
  }

  function KeptLines(input: seq<byte>): (r: seq<seq<byte>>)
    decreases |input|
  {
    if input == [] then [] else [Line(input)] + KeptLines(After(input))
  }

  predicate EndsInCR(s: seq<byte>) {
    s != [] && s[|s| - 1] == CR
  }

  /** What a search for delim from s on says about the whole. */
  lemma SearchFrom(had: seq<byte>, s: nat, delim: byte)
    requires s <= |had| && delim !in had[..s]
    ensures var i := IndexByte(had[s..], delim);
      if i < 0 then delim !in had else had[s + i] == delim && delim !in had[..s + i]
  {
    IndexOfSuffix(had, delim, s);
  }

  /** A line read in pieces is the pieces joined, if no piece ends between the two
      bytes of a line end. */
  lemma LineInPieces(head: seq<byte>, tail: seq<byte>)
    requires NL !in head && !(EndsInCR(head) && tail != [] && tail[0] == NL)
    ensures Line(head + tail) == head + Line(tail) && After(head + tail) == After(tail)
  {
    hide DropCR, IndexByte;
    var all, i := head + tail, IndexByte(tail, NL);
    DropHead(head, tail);
    IndexOfSuffix(all, NL, |head|);
    if i >= 0 {
      var j := |head| + i;
      assert all[..j] == head + tail[..i] by { TakePast(head, tail, i); }
      assert all[j + 1..] == tail[i + 1..] by { SliceOfSlice(all, |head|, i + 1, |tail|); }
      assert IndexByte(all, NL) == j;
      DropCRPast(head, tail[..i]);
    } else {
      assert IndexByte(all, NL) < 0;
    }
  }

  lemma TakePast(a: seq<byte>, b: seq<byte>, i: nat)
    requires i <= |b|
    ensures (a + b)[..|a| + i] == a + b[..i]
  {
  }

  lemma DropCRPast(head: seq<byte>, t: seq<byte>)
    requires t != [] || !EndsInCR(head)
    ensures DropCR(head + t) == head + DropCR(t)
  {
    if t == [] {
      assert head + t == head;
    }
  }

  /** The reader's lines and the scanner's are the same, but for a carriage return at
      the end of an unterminated last line. */
  lemma {:induction false} KeptLinesAreLines(input: seq<byte>)
    ensures KeptLines(input) == Lines(input) <==> !EndsInCR(input)
    ensures |KeptLines(input)| == |Lines(input)|
  {
    hide KeptLines, Lines;
    KeptUnfold(input);
    var i := IndexByte(input, NL);
    if i >= 0 {
      var rest, head := input[i + 1..], DropCR(input[..i]);
      KeptLinesAreLines(rest);
      assert EndsInCR(rest) == EndsInCR(input) by {
        assert rest != [] ==> rest[|rest| - 1] == input[|input| - 1];
      }
      SameTail(head, KeptLines(rest), Lines(rest));
    } else if input != [] {
      SameHead(input, DropCR(input));
    }
  }

  lemma KeptUnfold(input: seq<byte>)
    ensures var i := IndexByte(input, NL);
      if i >= 0 then
        && KeptLines(input) == [DropCR(input[..i])] + KeptLines(input[i + 1..])
        && Lines(input) == [DropCR(input[..i])] + Lines(input[i + 1..])
      else if input == [] then KeptLines(input) == [] && Lines(input) == []
      else KeptLines(input) == [input] && Lines(input) == [DropCR(input)]
  {
    hide IndexByte, DropCR;
    NoLine();
  }

  lemma SameTail(h: seq<byte>, a: seq<seq<byte>>, b: seq<seq<byte>>)
    ensures [h] + a == [h] + b <==> a == b
  {
    assert ([h] + a)[1..] == a && ([h] + b)[1..] == b;
  }

  lemma SameHead(a: seq<byte>, b: seq<byte>)
    ensures [a] == [b] <==> a == b
  {
    assert [a][0] == a && [b][0] == b;
  }

  function Concat(ss: seq<seq<byte>>): (r: seq<byte>) {
    if ss == [] then [] else Concat(ss[..|ss| - 1]) + ss[|ss| - 1]
  }

  class Reader {
    const buf: array<byte>
    const rd: Source
    var r: nat
    var w: nat
    var err: Option<Error>
    var lastByte: int
    var lastRuneSize: int

    constructor (rd: Source, size: int)
      requires rd.Valid() && rd.fin != ErrBufferFull
      ensures Valid() && this.rd == rd && fresh(buf)
      ensures buf.Length == if size < MIN_SIZE then MIN_SIZE else size
      ensures Pending() == rd.rest && err == None && lastByte == lastRuneSize == -1
    {
      this.rd := rd;
      buf := new byte[if size < MIN_SIZE then MIN_SIZE else size];
      r, w, err, lastByte, lastRuneSize := 0, 0, None, -1, -1;
    }

    /** The error is that of the reader at its end, or it has been idle for too long. */
    predicate Ended(e: Error)
      reads rd
    {
      || (e == rd.fin && rd.rest == [])
      || (e == ErrNoProgress && rd.mostIdle >= MAX_EMPTY)
    }

    /** The reader underneath does not pretend to be a full buffer. */
    predicate Valid()
      reads this, rd
    {
      && rd.Valid() && rd.fin != ErrBufferFull && MIN_SIZE <= buf.Length && r <= w <= buf.Length
      && (err.Some? ==> Ended(err.value)) && lastByte < 256
    }

    function Buffered(): (b: seq<byte>)
      requires r <= w <= buf.Length
      reads this`r, this`w, buf
      ensures |b| == w - r
    {
      buf[r..w]
    }

    /** The bytes still to come. */
    ghost function Pending(): (p: seq<byte>)
      requires r <= w <= buf.Length
      reads this`r, this`w, buf, rd
      ensures |p| == w - r + |rd.rest|
    {
      Buffered() + rd.rest
    }

    method Slide()
      requires Valid()
      modifies this`r, this`w, buf
      ensures Valid() && r == 0 && w == old(w - r) && Buffered() == old(Buffered())
    {
      if r > 0 {
        Copy(buf, 0, buf[r..w], 0);
        w := w - r;
        r := 0;
      }
    }

    /** One read into the free part of the buffer. */
    method ReadChunk() returns (n: nat, e: Option<Error>)
      requires Valid() && r == 0 && w < buf.Length
      modifies this`w, buf, rd
      ensures rd.Valid() && w == old(w) + n && w <= buf.Length && n <= |old(rd.rest)|
      ensures Buffered() == old(Buffered()) + old(rd.rest)[..n] && rd.rest == old(rd.rest)[n..]
      ensures e.Some? ==> e.value == rd.fin && rd.rest == []
      ensures n == 0 && e == None ==> rd.idle < old(rd.idle)
    {
      var chunk;
      chunk, e := rd.Read(buf.Length - w);
      Copy(buf, w, chunk, 0);
      n := |chunk|;
      w := w + n;
      DropHead(chunk, rd.rest);
    }

    /** Slides the data to the front and reads a new chunk. */
    method Fill()
      requires Valid() && w - r < buf.Length
      modifies this`r, this`w, this`err, buf, rd
      ensures Valid() && Pending() == old(Pending()) && r == 0
      ensures |old(Buffered())| <= w && Buffered()[..|old(Buffered())|] == old(Buffered())
      ensures err == None ==> old(err) == None && |rd.rest| < |old(rd.rest)|
      ensures |rd.rest| <= |old(rd.rest)|
    {
      hide Buffered;
      ghost var had, rest := Buffered(), rd.rest;
      Slide();
      var i := MAX_EMPTY;
      while i > 0
        invariant Valid() && r == 0 && w < buf.Length && rd.rest == rest && err == old(err)
        invariant w == |had| && Buffered() == had
        invariant MAX_EMPTY - i + rd.idle <= rd.mostIdle
      {
        var n, e := ReadChunk();
        AppendThree(had, rest[..n], rest[n..]);
        assert rest[..n] + rest[n..] == rest;
        TakeOfAppend(had, rest[..n], 0, |had|);
        if e != None {
          err := e;
          return;
        }
        if n > 0 {
          return;
        }
        i := i - 1;
      }
      err := Some(ErrNoProgress);
    }

    method ReadErr() returns (e: Option<Error>)
      requires Valid()
      modifies this`err
      ensures Valid() && e == old(err) && err == None
    {
      e := err;
      err := None;
    }

    /** The next n bytes, which stay; fewer only with an error that says why. */
    method Peek(n: int) returns (p: seq<byte>, e: Option<Error>)
      requires Valid()
      modifies this, buf, rd
      ensures Valid() && Pending() == old(Pending()) && p <= Pending()
      ensures n < 0 ==> p == [] && e == Some(ErrNegativeCount)
      ensures n >= 0 ==> if e == None then |p| == n else |p| < n
      ensures n >= 0 ==> (e == Some(ErrBufferFull) <==> n > buf.Length)
      ensures n >= 0 && e.Some? ==> p == Buffered() && if n > buf.Length then |p| < buf.Length ==> err.Some?
                                                       else Ended(e.value)
      ensures n >= 0 ==> lastByte == lastRuneSize == -1
      ensures n <= old(w - r) ==> rd.calls == old(rd.calls)
    {
      if n < 0 {
        return [], Some(ErrNegativeCount);
      }
      lastByte, lastRuneSize := -1, -1;
      while w - r < n && w - r < buf.Length && err == None
        invariant Valid() && Pending() == old(Pending())
        invariant lastByte == lastRuneSize == -1
        invariant n <= old(w - r) ==> w - r == old(w - r) && rd.calls == old(rd.calls)
        decreases |rd.rest| + if err == None then 1 else 0
      {
        Fill();
      }
      if n > buf.Length {
        return Buffered(), Some(ErrBufferFull);
      }
      var m := n;
      e := None;
      if w - r < n {
        m := w - r;
        e := ReadErr();
        if e == None {
          e := Some(ErrBufferFull);
        }
      }
      return buf[r..r + m], e;
    }

    /** A large read with nothing buffered goes past the buffer. */
    method ReadPast(p: array<byte>) returns (n: nat, e: Option<Error>)
      requires Valid() && p != buf && r == w && err == None
      modifies this, rd, p
      ensures Valid() && n <= p.Length && r == old(r) && w == old(w)
      ensures p[..n] + Pending() == old(Pending()) && p[n..] == old(p[n..])
      ensures e.Some? ==> Ended(e.value)
      ensures n > 0 ==> lastByte == p[n - 1] && lastRuneSize == -1
      ensures rd.calls == old(rd.calls) + 1
      ensures n == 0 && e == None && p.Length > 0 ==> rd.idle < old(rd.idle)
    {
      var chunk;
      chunk, err := rd.Read(p.Length);
      CopyTo(p, chunk);
      n := |chunk|;
      if n > 0 {
        lastByte, lastRuneSize := p[n - 1], -1;
      }
      e := ReadErr();
    }

    /** One read into the empty buffer. */
    method Load() returns (n: nat)
      requires Valid() && r == w && err == None
      modifies this`r, this`w, this`err, buf, rd
      ensures Valid() && Pending() == old(Pending()) && r == 0 && w == n && rd.calls == old(rd.calls) + 1
      ensures n == 0 && err == None ==> rd.idle < old(rd.idle)
    {
      r, w := 0, 0;
      var chunk;
      chunk, err := rd.Read(buf.Length);
      Copy(buf, 0, chunk, 0);
      n := |chunk|;
      w := w + n;
    }

    /** Copies out of the buffer. */
    method Take(p: array<byte>) returns (n: nat)
      requires Valid() && p != buf && r < w && 0 < p.Length
      modifies this`r, this`lastByte, this`lastRuneSize, p
      ensures Valid() && 0 < n <= p.Length && r > 0 && n == if p.Length < old(w - r) then p.Length else old(w - r)
      ensures p[..n] + Pending() == old(Pending()) && p[n..] == old(p[n..])
      ensures lastByte == p[n - 1] && lastRuneSize == -1
    {
      hide Pending, Buffered;
      n := if p.Length < w - r then p.Length else w - r;
      var data := Cut(n);
      LastOf(buf, r - n, r);
      CopyTo(p, data);
      assert p[n - 1] == p[..n][n - 1];
      lastByte, lastRuneSize := buf[r - 1], -1;
    }

    /** Reads into p, from at most one read of the reader underneath. */
    method Read(p: array<byte>) returns (n: nat, e: Option<Error>)
      requires Valid() && p != buf
      modifies this, buf, rd, p
      ensures Valid() && n <= p.Length
      ensures p[..n] + Pending() == old(Pending()) && p[n..] == old(p[n..])
      ensures e.Some? ==> Ended(e.value) && (n > 0 ==> p.Length >= buf.Length && old(r == w))
      ensures rd.calls == old(rd.calls) + if old(r == w && err == None) && p.Length > 0 then 1 else 0
      ensures old(r < w) ==> e == None && n == if p.Length < old(w - r) then p.Length else old(w - r)
      ensures old(r == w) && (p.Length == 0 || old(err).Some?) ==> n == 0 && e == old(err)
      ensures old(r == w && err == None) && 0 < p.Length && n == 0 && e == None ==> rd.idle < old(rd.idle)
      ensures n > 0 ==> lastByte == p[n - 1] && lastRuneSize == -1 && (r > 0 || w == 0)
    {
      n := p.Length;
      if n == 0 {
        if w - r > 0 {
          return 0, None;
        }
        e := ReadErr();
        return 0, e;
      }
      if r == w {
        if err != None {
          e := ReadErr();
          return 0, e;
        }
        if p.Length >= buf.Length {
          n, e := ReadPast(p);
          return n, e;
        }
        n := Load();
        if n == 0 {
          e := ReadErr();
          return 0, e;
        }
      }
      n := Take(p);
      return n, None;
    }

    method ReadByte() returns (c: byte, e: Option<Error>)
      requires Valid()
      modifies this, buf, rd
      ensures Valid()
      ensures e == None ==> [c] + Pending() == old(Pending()) && lastByte == c && r > 0
      ensures e.Some? ==> Ended(e.value) && Pending() == old(Pending()) && Buffered() == []
      ensures lastRuneSize == -1 && (e.Some? ==> lastByte == old(lastByte) && c == 0)
      ensures old(r < w) ==> rd.calls == old(rd.calls)
    {
      hide Pending, Buffered;
      lastRuneSize := -1;
      while r == w
        invariant Valid() && Pending() == old(Pending())
        invariant old(r < w) ==> r < w && rd.calls == old(rd.calls)
        invariant lastRuneSize == -1 && lastByte == old(lastByte)
        decreases |rd.rest| + if err == None then 1 else 0, r == w
      {
        if err != None {
          e := ReadErr();
          return 0, e;
        }
        Fill();
      }
      var data := Cut(1);
      c := data[0];
      assert data == [c];
      lastByte := c;
      return c, None;
    }

    /** Puts the last byte read back. */
    method UnreadByte() returns (e: Option<Error>)
      requires Valid()
      modifies this, buf
      ensures Valid()
      ensures e == None <==> old(lastByte) >= 0 && (old(r) > 0 || old(w) == 0)
      ensures e == None ==> Pending() == [old(lastByte)] + old(Pending()) && lastByte == lastRuneSize == -1
      ensures e.Some? ==> e == Some(ErrInvalidUnreadByte) && Pending() == old(Pending()) && lastByte == old(lastByte)
    {
      if lastByte < 0 || (r == 0 && w > 0) {
        return Some(ErrInvalidUnreadByte);
      }
      ghost var had := Buffered();
      if r > 0 {
        r := r - 1;
      } else {
        w := 1;
      }
      buf[r] := lastByte;
      assert Buffered() == [old(lastByte)] + had;
      lastByte, lastRuneSize := -1, -1;
      return None;
    }

    /** Takes the first n bytes of the buffer. */
    method Cut(n: nat) returns (line: seq<byte>)
      requires Valid() && n <= w - r
      modifies this`r
      ensures Valid() && r == old(r) + n
      ensures line == old(Buffered())[..n] && Buffered() == old(Buffered())[n..]
      ensures line + Pending() == old(Pending()) && buf[r - n..r] == line
    {
      line := buf[r..r + n];
      r := r + n;
      assert old(Buffered()) == line + Buffered();
    }

    method CutAll() returns (line: seq<byte>)
      requires Valid()
      modifies this`r
      ensures Valid() && r == w
      ensures line == old(Buffered()) && line + Pending() == old(Pending())
    {
      line := Cut(w - r);
      assert line == old(Buffered());
    }

    method CutLine(i: nat, delim: byte) returns (line: seq<byte>)
      requires Valid() && i < w - r && Buffered()[i] == delim && delim !in Buffered()[..i]
      modifies this`r
      ensures Valid() && r > 0 && line + Pending() == old(Pending())
      ensures |line| == i + 1 <= buf.Length && line[i] == delim && delim !in line[..i]
    {
      line := Cut(i + 1);
      assert line[..i] == old(Buffered())[..i];
    }

    lemma FullBuffer()
      requires r == 0 && w == buf.Length
      ensures Buffered() == buf[..]
    {
    }

    /** Puts the carriage return at the end of a full buffer back. */
    method PutBack(line: seq<byte>) returns (rest: seq<byte>)
      requires Valid() && r == w == buf.Length && buf[..] == line && EndsInCR(line)
      modifies this`r
      ensures Valid() && rest == line[..|line| - 1] && rest + Pending() == line + old(Pending())
      ensures Pending() != [] && Pending()[0] == CR
    {
      r := r - 1;
      rest := line[..|line| - 1];
      assert Buffered() == [CR];
      assert line == rest + [CR] && old(Buffered()) == [];
    }

    /** Reads on until delim is in the buffer, or nothing more can be read into it. */
    method Seek(delim: byte) returns (i: int)
      requires Valid()
      modifies this`r, this`w, this`err, buf, rd
      ensures Valid() && Pending() == old(Pending())
      ensures i >= 0 ==> i < w - r && Buffered()[i] == delim && delim !in Buffered()[..i]
      ensures i < 0 ==> delim !in Buffered() && (err != None || (r == 0 && w == buf.Length))
      ensures delim in old(Buffered()) ==> rd.calls == old(rd.calls)
    {
      hide Pending, Buffered, IndexByte;
      var s := 0;
      i := -1;
      while true
        invariant Valid() && Pending() == old(Pending())
        invariant 0 <= s <= w - r && delim !in Buffered()[..s]
        invariant delim in old(Buffered()) ==> s == 0 && Buffered() == old(Buffered()) && rd.calls == old(rd.calls)
        decreases |rd.rest| + if err == None then 1 else 0
      {
        i := IndexByte(Buffered()[s..], delim);
        SearchFrom(Buffered(), s, delim);
        if i >= 0 || err != None || w - r >= buf.Length {
          i := if i >= 0 then i + s else i;
          break;
        }
        s := w - r;
        Fill();
      }
    }

    /** Reads through the first delim, with the bytes left in the buffer. */
    method ReadSlice(delim: byte) returns (line: seq<byte>, e: Option<Error>)
      requires Valid()
      modifies this, buf, rd
      ensures Valid() && line + Pending() == old(Pending()) && |line| <= buf.Length
      ensures e == None ==> line != [] && line[|line| - 1] == delim && delim !in line[..|line| - 1]
      ensures e.Some? ==> delim !in line && r == w && (e == Some(ErrBufferFull) || Ended(e.value))
      ensures e == Some(ErrBufferFull) ==> w == buf.Length && buf[..] == line
      ensures line != [] ==> lastByte == line[|line| - 1] && lastRuneSize == -1 && r > 0
      ensures delim in old(Buffered()) ==> rd.calls == old(rd.calls)
    {
      hide Pending, Buffered, IndexByte;
      var i := Seek(delim);
      e := None;
      if i >= 0 {
        line := CutLine(i, delim);
      } else if err != None {
        line := CutAll();
        e := ReadErr();
      } else {
        FullBuffer();
        line := CutAll();
        e := Some(ErrBufferFull);
      }
      if line != [] {
        lastByte, lastRuneSize := line[|line| - 1], -1;
      }
    }

    /** Reads a line, or as much of it as fits the buffer. */
    method ReadLine() returns (line: seq<byte>, isPrefix: bool, e: Option<Error>)
      requires Valid()
      modifies this, buf, rd
      ensures Valid()
      ensures isPrefix ==> e == None && line != [] && line + Pending() == old(Pending())
      ensures isPrefix ==> Line(old(Pending())) == line + Line(Pending()) && After(old(Pending())) == After(Pending())
      ensures e.Some? ==> Ended(e.value) && line == [] && r == w && Pending() == old(Pending())
      ensures !isPrefix && e == None ==> old(Pending()) != []
      ensures !isPrefix && e == None && rd.mostIdle < MAX_EMPTY ==>
                line == Line(old(Pending())) && Pending() == After(old(Pending()))
    {
      hide Pending, Line, After, IndexByte;
      ghost var input := Pending();
      line, e := ReadSlice(NL);
      if e == Some(ErrBufferFull) {
        if |line| > 0 && line[|line| - 1] == CR {
          line := PutBack(line);
        }
        LineInPieces(line, Pending());
        return line, true, None;
      }
      isPrefix := false;
      if |line| == 0 {
        return;
      }
      SliceIsLine(line, Pending(), e == None);
      e := None;
      if line[|line| - 1] == NL {
        var drop := 1;
        if |line| > 1 && line[|line| - 2] == CR {
          drop := 2;
        }
        line := line[..|line| - drop];
      }
    }

    /** Reads through the first delim: full buffers, and the rest. */
    method CollectFragments(delim: byte)
      returns (fullBuffers: seq<seq<byte>>, frag: seq<byte>, totalLen: nat, e: Option<Error>)
      requires Valid()
      modifies this, buf, rd
      ensures Valid() && totalLen == |Concat(fullBuffers) + frag|
      ensures Concat(fullBuffers) + frag + Pending() == old(Pending())
      ensures delim !in Concat(fullBuffers)
      ensures e == None ==> frag != [] && frag[|frag| - 1] == delim && delim !in frag[..|frag| - 1]
      ensures e.Some? ==> delim !in frag && Ended(e.value) && r == w
    {
      hide Pending, Buffered;
      fullBuffers, totalLen := [], 0;
      ghost var input := Pending();
      while true
        invariant Valid() && Concat(fullBuffers) + Pending() == input
        invariant delim !in Concat(fullBuffers) && totalLen == |Concat(fullBuffers)|
        decreases |Pending()|
      {
        ghost var before, left := Concat(fullBuffers), Pending();
        frag, e := ReadSlice(delim);
        assert before + frag + Pending() == before + (frag + Pending());
        if e == None || e != Some(ErrBufferFull) {
          break;
        }
        fullBuffers := fullBuffers + [frag];
        totalLen := totalLen + |frag|;
        assert fullBuffers[..|fullBuffers| - 1] + [frag] == fullBuffers;
      }
      totalLen := totalLen + |frag|;
    }

    /** The shortest part of the input that ends in delim, or all of it and an error. */
    method ReadBytes(delim: byte) returns (res: array<byte>, e: Option<Error>)
      requires Valid()
      modifies this, buf, rd
      ensures Valid() && fresh(res) && res[..] + Pending() == old(Pending())
      ensures e == None ==> var i := IndexByte(old(Pending()), delim); i >= 0 && res[..] == old(Pending())[..i + 1]
      ensures e.Some? ==> Ended(e.value) && delim !in res[..]
      ensures e.Some? && rd.mostIdle < MAX_EMPTY ==> res[..] == old(Pending()) && delim !in old(Pending())
    {
      hide Pending, Buffered, IndexByte;
      ghost var input := Pending();
      var full, frag, n, err := CollectFragments(delim);
      e := err;
      res := Gather(full, frag, n);
      if e == None {
        FirstDelim(Concat(full), frag, Pending(), delim);
      } else if rd.mostIdle < MAX_EMPTY {
        AtEnd();
        assert res[..] + [] == res[..];
      }
    }

    /** All the fragments in an array of just their length. */
    static method Gather(full: seq<seq<byte>>, frag: seq<byte>, total: nat) returns (all: array<byte>)
      requires total == |Concat(full) + frag|
      ensures fresh(all) && all[..] == Concat(full) + frag
    {
      all := new byte[total];
      var n := 0;
      for i := 0 to |full|
        modifies all
        invariant n == |Concat(full[..i])| && n <= all.Length && all[..n] == Concat(full[..i])
      {
        ConcatBound(full, i);
        Copy(all, n, full[i], 0);
        n := n + |full[i]|;
        assert full[..i + 1][..i] == full[..i];
      }
      assert full[..|full|] == full;
      Copy(all, n, frag, 0);
      assert all[..] == all[0..n + |frag|];
    }

    /** Skips as much of n bytes as is buffered, after a read if there is nothing. */
    method SkipSome(n: nat) returns (skip: nat, ghost skipped: seq<byte>)
      requires Valid() && 0 < n
      modifies this`r, this`w, this`err, buf, rd
      ensures Valid() && skip == |skipped| <= n && skipped + Pending() == old(Pending())
      ensures skip < n ==> r == w && (err == None ==> skip > 0)
      ensures skip == n ==> r > 0
      ensures n <= old(w - r) ==> skip == n && rd.calls == old(rd.calls)
    {
      hide Pending, Buffered;
      skip := w - r;
      if skip == 0 {
        Fill();
        skip := w - r;
      }
      if skip > n {
        skip := n;
      }
      var line := Cut(skip);
      skipped := line;
    }

    /** Skips n bytes, or fewer with an error. */
    method Discard(n: int) returns (discarded: int, e: Option<Error>)
      requires Valid()
      modifies this, buf, rd
      ensures Valid()
      ensures n < 0 ==> discarded == 0 && e == Some(ErrNegativeCount) && Pending() == old(Pending())
      ensures n >= 0 ==> 0 <= discarded <= n && discarded <= |old(Pending())|
                         && Pending() == old(Pending())[discarded..]
      ensures n >= 0 ==> if e == None then discarded == n else discarded < n && r == w && Ended(e.value)
      ensures lastByte == old(lastByte) && lastRuneSize == old(lastRuneSize) && (e == None && n > 0 ==> r > 0)
      ensures n <= old(w - r) ==> rd.calls == old(rd.calls)
    {
      hide Pending, Buffered;
      if n < 0 {
        return 0, Some(ErrNegativeCount);
      }
      if n == 0 {
        return 0, None;
      }
      var remain := n;
      ghost var gone: seq<byte> := [];
      while true
        invariant lastByte == old(lastByte) && lastRuneSize == old(lastRuneSize)
        invariant n <= old(w - r) ==> remain == n && w - r == old(w - r) && rd.calls == old(rd.calls)
        invariant Valid() && 0 < remain <= n && |gone| == n - remain && gone + Pending() == old(Pending())
        decreases |Pending()|
      {
        var skip, skipped := SkipSome(remain);
        AppendThree(gone, skipped, Pending());
        gone := gone + skipped;
        DropHead(gone, Pending());
        remain := remain - skip;
        if remain == 0 {
          return n, None;
        }
        if err != None {
          e := ReadErr();
          return n - remain, e;
        }
      }
    }

    /** Reads until the buffer begins with a full rune, if it can. */
    method FillRune()
      requires Valid()
      modifies this`r, this`w, this`err, buf, rd
      ensures Valid() && Pending() == old(Pending())
      ensures r + 4 <= w || FullRune(Buffered()) || err.Some? || w - r == buf.Length
      ensures r == w ==> err.Some?
      ensures FullRune(old(Buffered())) ==> rd.calls == old(rd.calls)
    {
      hide Pending, Buffered, FullRune;
      while r + 4 > w && !FullRune(Buffered()) && err == None && w - r < buf.Length
        invariant Valid() && Pending() == old(Pending())
        invariant FullRune(old(Buffered())) ==> Buffered() == old(Buffered()) && rd.calls == old(rd.calls)
        decreases |rd.rest| + if err == None then 1 else 0
      {
        Fill();
      }
    }

    /** The next rune: what decoding all of the input gives, however it arrives. */
    method ReadRune() returns (c: rune, size: nat, e: Option<Error>)
      requires Valid()
      modifies this, buf, rd
      ensures Valid() && (e == None <==> size > 0)
      ensures e == None ==> size <= |old(Pending())| && Pending() == old(Pending())[size..]
      ensures e == None && rd.mostIdle < MAX_EMPTY ==> (c, size) == DecodeRune(old(Pending()))
      ensures e == None ==> lastRuneSize == size <= r && buf[r - size..r] == old(Pending())[..size]
      ensures e == None ==> lastByte == buf[r - 1]
      ensures e.Some? ==> Ended(e.value) && Pending() == old(Pending()) && r == w && c == 0
      ensures e.Some? ==> lastByte == old(lastByte) && lastRuneSize == -1
      ensures FullRune(old(Buffered())) ==> rd.calls == old(rd.calls)
    {
      hide Pending, Buffered, DecodeRune, FullRune;
      FillRune();
      lastRuneSize := -1;
      if r == w {
        e := ReadErr();
        return 0, 0, e;
      }
      c, size := TakeRune();
      e := None;
    }

    method TakeRune() returns (c: rune, size: nat)
      requires Valid() && r < w && (r + 4 <= w || FullRune(Buffered()) || err.Some? || w - r == buf.Length)
      modifies this`r, this`lastByte, this`lastRuneSize
      ensures Valid() && 0 < size <= |old(Pending())| && Pending() == old(Pending())[size..]
      ensures rd.mostIdle < MAX_EMPTY ==> (c, size) == DecodeRune(old(Pending()))
      ensures lastRuneSize == size <= r && buf[r - size..r] == old(Pending())[..size] && lastByte == buf[r - 1]
    {
      hide Pending, Buffered, DecodeRune, FullRune;
      WindowDecodes();
      c, size := buf[r], 1;
      if c >= RUNE_SELF {
        var d := DecodeRune(Buffered());
        c, size := d.0, d.1;
      }
      var taken := Cut(size);
      DropHead(taken, Pending());
      lastByte, lastRuneSize := buf[r - 1], size;
    }

    /** A window with a full rune, or with all there is, decodes like the input. */
    lemma WindowDecodes()
      requires Valid() && r < w
      requires r + 4 <= w || FullRune(Buffered()) || err.Some? || w - r == buf.Length
      ensures Buffered()[0] == buf[r]
      ensures buf[r] < RUNE_SELF ==> DecodeRune(Buffered()) == (buf[r], 1)
      ensures rd.mostIdle < MAX_EMPTY ==> DecodeRune(Pending()) == DecodeRune(Buffered())
    {
      if FullRune(Buffered()) {
        DecodePrefix(Buffered(), rd.rest);
      } else if rd.mostIdle < MAX_EMPTY {
        assert Buffered() + [] == Buffered();
      }
    }

    /** After an error other than idling nothing is left once the buffer is empty. */
    lemma AtEnd()
      requires Valid() && r == w && rd.rest == []
      ensures Pending() == []
    {
    }

    /** Puts the last rune read back. */
    method UnreadRune() returns (e: Option<Error>)
      requires Valid()
      modifies this
      ensures Valid()
      ensures e == None <==> 0 <= old(lastRuneSize) <= old(r)
      ensures e == None ==> r == old(r) - old(lastRuneSize) && Pending() == buf[r..old(r)] + old(Pending())
      ensures e == None ==> lastByte == lastRuneSize == -1
      ensures e.Some? ==> Pending() == old(Pending())
    {
      if lastRuneSize < 0 || r < lastRuneSize {
        return Some(ErrInvalidUnreadRune);
      }
      r := r - lastRuneSize;
      assert Buffered() == buf[r..old(r)] + old(Buffered());
      lastByte, lastRuneSize := -1, -1;
      return None;
    }
  }

  /** Joining the pieces of ReadLine: the client's loop. The line is None at the end. */
  method JoinLine(b: Reader) returns (line: Option<seq<byte>>)
    requires b.Valid() && b.rd.mostIdle < MAX_EMPTY
    modifies b, b.buf, b.rd
    ensures b.Valid()
    ensures line == if old(b.Pending()) == [] then None else Some(Line(old(b.Pending())))
    ensures b.Pending() == After(old(b.Pending()))
  {
    hide Reader.Pending, Line, After, IndexByte;
    NoLine();
    line := None;
    ghost var joined: seq<byte> := [];
    while true
      invariant b.Valid()
      invariant joined == if line.Some? then line.value else []
      invariant line == None ==> b.Pending() == old(b.Pending())
      invariant line.Some? ==> old(b.Pending()) != []
      invariant Line(old(b.Pending())) == joined + Line(b.Pending()) && After(old(b.Pending())) == After(b.Pending())
      decreases |b.Pending()|
    {
      ghost var left := b.Pending();
      var frag, isPrefix, e := b.ReadLine();
      if e != None {
        assert joined + [] == joined;
        break;
      }
      assert isPrefix ==> |b.Pending()| < |left|;
      line := Some((if line.Some? then line.value else []) + frag);
      assert joined + frag + Line(b.Pending()) == joined + (frag + Line(b.Pending()));
      joined := joined + frag;
      if !isPrefix {
        break;
      }
    }
  }

  lemma LastOf(a: array<byte>, i: nat, j: nat)
    requires i < j <= a.Length
    ensures a[i..j][j - i - 1] == a[j - 1]
  {
  }

  lemma NoLine()
    ensures Line([]) == [] && After([]) == []
  {
  }

  /** Reading lines with a buffered reader, whatever its size. */
  method ReadAllLines(b: Reader) returns (lines: seq<seq<byte>>)
    requires b.Valid() && b.rd.mostIdle < MAX_EMPTY
    modifies b, b.buf, b.rd
    ensures b.Valid() && lines == KeptLines(old(b.Pending())) && b.Pending() == []
  {
    hide Reader.Pending, Line, After;
    lines := [];
    while true
      invariant b.Valid()
      invariant KeptLines(old(b.Pending())) == lines + KeptLines(b.Pending())
      decreases |b.Pending()|
    {
      ghost var left := b.Pending();
      var line := JoinLine(b);
      if line == None {
        NoLine();
        break;
      }
      assert lines + ([line.value] + KeptLines(b.Pending())) == lines + [line.value] + KeptLines(b.Pending());
      lines := lines + [line.value];
    }
  }

  /** Reading a byte and putting it back changes nothing. */
  method ReadUnread(b: Reader) returns (e: Option<Error>)
    requires b.Valid()
    modifies b, b.buf, b.rd
    ensures b.Valid() && b.Pending() == old(b.Pending())
  {
    var c;
    c, e := b.ReadByte();
    if e == None {
      var e' := b.UnreadByte();
    }
  }

  /** So does reading a rune and putting it back. */
  method ReadUnreadRune(b: Reader) returns (e: Option<Error>)
    requires b.Valid()
    modifies b, b.buf, b.rd
    ensures b.Valid() && b.Pending() == old(b.Pending())
  {
    hide DecodeRune, FullRune, Reader.Pending, Reader.Buffered;
    var c, size;
    c, size, e := b.ReadRune();
    if e == None {
      assert old(b.Pending()) == old(b.Pending())[..size] + b.Pending();
      var e' := b.UnreadRune();
    }
  }

  /** Discard leaves the byte to put back stale: after it UnreadByte puts back the byte
      read before. The input is restored if and only if that equals the byte discarded
      last. */
  method DiscardUnread(b: Reader, n: nat) returns (done: bool)
    requires b.Valid() && 0 < n && b.rd.mostIdle < MAX_EMPTY
    modifies b, b.buf, b.rd
    ensures b.Valid() && (done <==> |old(b.Pending())| > n)
    ensures done ==> b.Pending() == [old(b.Pending())[0]] + old(b.Pending())[n + 1..]
    ensures done ==> (b.Pending() == old(b.Pending())[n..] <==> old(b.Pending())[0] == old(b.Pending())[n])
  {
    hide Reader.Pending, Reader.Buffered;
    ghost var input := b.Pending();
    var c, e := b.ReadByte();
    if e != None {
      b.AtEnd();
      return false;
    }
    DropHead([c], b.Pending());
    var k;
    k, e := b.Discard(n);
    if e != None {
      b.AtEnd();
      return false;
    }
    SliceOfSlice(input, 1, n, |input| - 1);
    e := b.UnreadByte();
    assert input[n..] == [input[n]] + input[n + 1..];
    assert b.Pending()[0] == c && input[n..][0] == input[n];
    done := true;
  }

  /** A slice that ends in its first newline, or is all there is, is a line. */
  lemma SliceIsLine(line: seq<byte>, rest: seq<byte>, terminated: bool)
    requires line != [] && (if terminated then line[|line| - 1] == NL && NL !in line[..|line| - 1] else NL !in line)
    ensures terminated ==> Line(line + rest) == DropCR(line[..|line| - 1]) && After(line + rest) == rest
    ensures !terminated && rest == [] ==> Line(line + rest) == line && After(line + rest) == rest
  {
    var all, n := line + rest, |line| - 1;
    if terminated {
      assert all[..n] == line[..n];
      IndexUnique(all, NL, n);
      assert all[n + 1..] == rest;
    } else if rest == [] {
      assert all == line;
    }
  }

  lemma FirstDelim(head: seq<byte>, frag: seq<byte>, rest: seq<byte>, delim: byte)
    requires delim !in head && frag != [] && frag[|frag| - 1] == delim && delim !in frag[..|frag| - 1]
    ensures var all, n := head + frag + rest, |head + frag|;
      IndexByte(all, delim) == n - 1 && all[..n] == head + frag
  {
    var all, n := head + frag + rest, |head + frag|;
    assert all[..n - 1] == head + frag[..|frag| - 1];
    IndexUnique(all, delim, n - 1);
  }

  lemma {:induction false} ConcatBound(ss: seq<seq<byte>>, i: nat)
    requires i < |ss|
    ensures |Concat(ss[..i])| + |ss[i]| <= |Concat(ss)|
    decreases |ss|
  {
    if i == |ss| - 1 {
    } else {
      var front := ss[..|ss| - 1];
      ConcatBound(front, i);
      assert front[..i] == ss[..i];
    }
  }
}
