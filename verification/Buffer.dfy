/** The growing byte buffer of package bytes: a queue of bytes that spends, over any
    run, at most two byte copies on growing for every byte written. */
module Buffer {
  import opened Common
  import opened IO
  import opened TextLines
  import opened Utf8

  const SMALL: nat := 64
  const MIN_READ: nat := 512

  /** The last operation: OP_READ, OP_INVALID, or the size of the rune read. */
  const OP_READ: int := -1
  const OP_INVALID: int := 0

  function Max(a: int, b: int): (r: int) { if a < b then b else a }

  /** What is set aside for the next copy: a buffer more than half full has paid for
      its excess twice. */
  function Saved(len: nat, capacity: nat): (r: nat) { Max(0, 2 * len - capacity) }

  /** The work of grow for n more bytes: the new capacity and the bytes copied. */
  function GrowWork(unread: nat, len: nat, capacity: nat, isNil: bool, n: nat): (r: (nat, nat)) {
    var len' := if unread == 0 then 0 else len;
    if n <= capacity - len' then (capacity, 0)
    else if isNil && n <= SMALL then (SMALL, 0)
    else if n <= capacity / 2 - unread then (capacity, unread)
    else (2 * capacity + n, unread)
  }

  /** Where the bytes written go. */
  function Start(unread: nat, len: nat, capacity: nat, capacity': nat, cost: nat): (r: nat) {
    if capacity' == capacity && cost == 0 then (if unread == 0 then 0 else len) else unread
  }

  /** Copying is paid for by what was set aside and two units for each byte written,
      even if only two or three of four bytes asked for are. */
  lemma Amortized(unread: nat, len: nat, capacity: nat, isNil: bool, n: nat, kept: nat)
    requires unread <= len <= capacity && (isNil ==> capacity == 0)
    requires kept <= n && (kept == n || (n == 4 && kept >= 2))
    ensures var (capacity', cost) := GrowWork(unread, len, capacity, isNil, n);
      cost + Saved(Start(unread, len, capacity, capacity', cost) + kept, capacity') <= Saved(len, capacity) + 2 * kept
  {
    var len' := if unread == 0 then 0 else len;
    if n <= capacity - len' {
      assert GrowWork(unread, len, capacity, isNil, n) == (capacity, 0);
    } else if isNil && n <= SMALL {
      assert GrowWork(unread, len, capacity, isNil, n) == (SMALL, 0);
    } else if n <= capacity / 2 - unread {
      assert 2 * (unread + n) <= capacity;
    } else {
      assert GrowWork(unread, len, capacity, isNil, n) == (2 * capacity + n, unread);
    }
  }

  lemma SavedLess(a: nat, b: nat, capacity: nat)
    requires a <= b
    ensures Saved(a, capacity) <= Saved(b, capacity)
  {
  }

  /** Writing into free room. */
  lemma FitsFree(len: nat, capacity: nat, kept: nat)
    ensures Saved(len + kept, capacity) <= Saved(len, capacity) + 2 * kept
  {
  }

  class Buffer {
    var store: array<byte>
    var isNil: bool
    var len: nat
    var off: nat
    var lastRead: int
    ghost var written: nat      // bytes written
    ghost var reserved: nat     // bytes asked for by Grow and ReadFrom
    ghost var copied: nat       // bytes copied in grow

    /** The zero value. */
    constructor ()
      ensures Valid() && Paid() && Contents() == [] && fresh(store) && written == reserved == copied == 0
      ensures off == 0 && lastRead == OP_INVALID
    {
      store := new byte[0];
      isNil, len, off, lastRead := true, 0, 0, OP_INVALID;
      written, reserved, copied := 0, 0, 0;
    }

    predicate Valid()
      reads this
    {
      && off <= len <= store.Length && (isNil ==> store.Length == 0)
      && OP_READ <= lastRead <= 4
    }

    /** Copying never exceeds twice what was written or reserved. */
    ghost predicate Paid()
      reads this`store, this`len, this`written, this`reserved, this`copied
    {
      copied + Saved(len, store.Length) <= 2 * (written + reserved)
    }

    function Span(i: nat, j: nat): (c: seq<byte>)
      requires i <= j <= store.Length
      reads this`store, store
      ensures |c| == j - i
    {
      store[i..j]
    }

    function Until(i: nat): (c: seq<byte>)
      requires off <= i <= store.Length
      reads this`store, this`off, store
      ensures |c| == i - off
    {
      Span(off, i)
    }

    /** The n bytes before the unread ones. */
    function Behind(n: nat): (c: seq<byte>)
      requires n <= off <= store.Length
      reads this`store, this`off, store
      ensures |c| == n
    {
      Span(off - n, off)
    }

    lemma Spans(i: nat, j: nat, k: nat)
      requires i <= j <= k <= store.Length
      ensures Span(i, k) == Span(i, j) + Span(j, k) && Span(i, k)[..j - i] == Span(i, j)
      ensures j == i + 1 ==> Span(i, j) == [store[i]]
    {
      CutSlice(store, i, j, k);
    }

    function All(): (c: seq<byte>)
      reads this`store, store
    {
      store[..]
    }

    /** The unread bytes. */
    function Contents(): (c: seq<byte>)
      requires off <= len <= store.Length
      reads this`store, this`off, this`len, store
      ensures |c| == len - off
    {
      Until(len)
    }

    method Reset()
      requires Valid()
      modifies this`len, this`off, this`lastRead
      ensures Valid() && Contents() == [] && len == 0 && lastRead == OP_INVALID && (old(Paid()) ==> Paid())
    {
      len, off, lastRead := 0, 0, OP_INVALID;
    }

    /** Keeps the first n unread bytes. It panics if there are not so many. */
    method Truncate(n: int) returns (panics: bool)
      requires Valid()
      modifies this`len, this`off, this`lastRead
      ensures Valid() && (old(Paid()) ==> Paid()) && lastRead == OP_INVALID
      ensures panics <==> n < 0 || n > |old(Contents())|
      ensures Contents() == if panics then old(Contents()) else old(Contents())[..n]
    {
      if n == 0 {
        Reset();
        return false;
      }
      lastRead := OP_INVALID;
      if n < 0 || n > len - off {
        return true;
      }
      PrefixUntil(off + n);
      len := off + n;
      return false;
    }

    lemma PrefixUntil(i: nat)
      requires Valid() && off <= i <= len
      ensures Until(i) == Contents()[..i - off]
    {
      SliceOfSlice(store[..len], off, 0, i - off);
    }

    method TryGrowByReslice(n: nat) returns (i: nat, ok: bool)
      requires Valid()
      modifies this`len
      ensures ok <==> n <= store.Length - old(len)
      ensures if ok then i == old(len) && len == i + n else len == old(len)
      ensures Valid() && (ok ==> Until(i) == old(Contents())) && (!ok ==> Contents() == old(Contents()))
    {
      var l := len;
      if n <= store.Length - l {
        len := l + n;
        return l, true;
      }
      return 0, false;
    }

    /** Slides the unread bytes down, if they leave half of the capacity free, or moves
        them to a bigger array. */
    method Move(n: nat)
      requires Valid()
      modifies this`store, this`isNil, this`len, this`off, this`copied, store
      ensures Valid() && (store == old(store) || fresh(store))
      ensures off == 0 && len == old(len - off) + n && Until(len - n) == old(Contents())
      ensures store.Length == if n <= old(store.Length) / 2 - old(len - off) then old(store.Length)
                              else 2 * old(store.Length) + n
      ensures copied == old(copied) + old(len - off)
    {
      var c, m := store.Length, len - off;
      if n <= c / 2 - m {
        Copy(store, 0, store[off..len], 0);
      } else {
        var bigger := new byte[2 * c + n];
        Copy(bigger, 0, store[off..len], 0);
        store, isNil := bigger, false;
      }
      copied := copied + m;
      off := 0;
      len := m + n;
    }

    /** Makes room for n more bytes, from the index returned on. */
    method GrowBy(n: nat) returns (i: nat)
      requires Valid()
      modifies this`store, this`isNil, this`len, this`off, this`lastRead, this`copied, store
      ensures Valid() && (store == old(store) || fresh(store))
      ensures off <= i && len == i + n && Until(i) == old(Contents())
      ensures off == 0 || (off == old(off) && store == old(store) && All() == old(All()))
      ensures off != 0 <==> old(off < len && off != 0) && n <= old(store.Length - len)
      ensures lastRead == if old(off == len && off != 0) then OP_INVALID else old(lastRead)
      ensures var (capacity, cost) := GrowWork(old(len - off), old(len), old(store.Length), old(isNil), n);
        && store.Length == capacity && copied == old(copied) + cost
        && i == Start(old(len - off), old(len), old(store.Length), capacity, cost)
    {
      hide Until, All;
      ghost var unread := Contents();
      var m := len - off;
      if m == 0 && off != 0 {
        assert unread == [];
        Reset();
      }
      i := GrowFrom(n);
    }

    method FirstAlloc(n: nat)
      requires Valid() && isNil && n <= SMALL
      modifies this`store, this`isNil, this`len
      ensures Valid() && fresh(store) && store.Length == SMALL && off == 0 && len == n
      ensures Until(0) == old(Contents())
    {
      store := new byte[SMALL];
      isNil, len := false, n;
    }

    method GrowFrom(n: nat) returns (i: nat)
      requires Valid() && (off == len ==> len == 0)
      modifies this`store, this`isNil, this`len, this`off, this`copied, store
      ensures Valid() && (store == old(store) || fresh(store))
      ensures off <= i && len == i + n && Until(i) == old(Contents())
      ensures off == 0 || (off == old(off) && store == old(store) && All() == old(All()))
      ensures var (capacity, cost) := GrowWork(old(len - off), old(len), old(store.Length), old(isNil), n);
        && store.Length == capacity && copied == old(copied) + cost
        && i == Start(old(len - off), old(len), old(store.Length), capacity, cost)
    {
      hide Until, All;
      var m, ok := len - off, false;
      i, ok := TryGrowByReslice(n);
      if ok {
        return i;
      }
      if isNil && n <= SMALL {
        FirstAlloc(n);
        return 0;
      }
      Move(n);
      return m;
    }

    /** GrowBy and who pays for it: kept of the n bytes will stay. */
    method GrowPaid(n: nat, ghost kept: nat) returns (m: nat)
      requires Valid() && kept <= n && (kept == n || (n == 4 && kept >= 2))
      modifies this`store, this`isNil, this`len, this`off, this`lastRead, this`copied, store
      ensures Valid() && (store == old(store) || fresh(store))
      ensures off <= m && len == m + n && Until(m) == old(Contents())
      ensures off == 0 || (off == old(off) && store == old(store) && All() == old(All()))
      ensures off != 0 <==> old(off < len && off != 0) && n <= old(store.Length - len)
      ensures lastRead == if old(off == len && off != 0) then OP_INVALID else old(lastRead)
      ensures copied + Saved(m + kept, store.Length) <= old(copied + Saved(len, store.Length)) + 2 * kept
    {
      hide Saved, GrowWork, Until, Start, All;
      Amortized(len - off, len, store.Length, isNil, n, kept);
      m := GrowBy(n);
    }

    /** Room for n bytes to be written, of which kept will stay. */
    method Room(n: nat, ghost kept: nat) returns (m: nat)
      requires Valid() && kept <= n && (kept == n || (n == 4 && kept >= 2))
      modifies this`store, this`isNil, this`len, this`off, this`lastRead, this`copied, store
      ensures Valid() && (store == old(store) || fresh(store))
      ensures off <= m && len == m + n && Until(m) == old(Contents())
      ensures old(lastRead) == OP_INVALID ==> lastRead == OP_INVALID
      ensures copied + Saved(m + kept, store.Length) <= old(copied + Saved(len, store.Length)) + 2 * kept
    {
      hide Saved, Until;
      FitsFree(len, store.Length, kept);
      var ok;
      m, ok := TryGrowByReslice(n);
      if !ok {
        m := GrowPaid(n, kept);
      }
    }

    /** Puts p into the room made for it. */
    method Place(m: nat, p: seq<byte>)
      requires Valid() && off <= m && len == m + |p|
      modifies store
      ensures Contents() == old(Until(m)) + p
    {
      Copy(store, m, p, off);
    }

    method PlaceByte(m: nat, c: byte)
      requires Valid() && off <= m && len == m + 1
      modifies store
      ensures Contents() == old(Until(m)) + [c]
    {
      store[m] := c;
      assert store[off..len] == store[off..m] + [c];
    }

    /** Skips k bytes. */
    method Skip(k: nat) returns (data: seq<byte>)
      requires Valid() && k <= len - off
      modifies this`off
      ensures Valid() && off == old(off) + k && data == old(Contents())[..k] && |data| == k
      ensures data + Contents() == old(Contents()) && Behind(|data|) == data
    {
      hide Span;
      Spans(off, off + k, len);
      data := Span(off, off + k);
      off := off + k;
    }

    /** Appends p. */
    method Write(p: seq<byte>) returns (n: nat)
      requires Valid()
      modifies this, store
      ensures Valid() && (store == old(store) || fresh(store)) && lastRead == OP_INVALID
      ensures n == |p| && Contents() == old(Contents()) + p
      ensures written == old(written) + |p| && reserved == old(reserved) && (old(Paid()) ==> Paid())
    {
      hide Saved, Until;
      lastRead := OP_INVALID;
      var m := Room(|p|, |p|);
      Place(m, p);
      written := written + |p|;
      return |p|;
    }

    method WriteByte(c: byte)
      requires Valid()
      modifies this, store
      ensures Valid() && (store == old(store) || fresh(store)) && lastRead == OP_INVALID
      ensures Contents() == old(Contents()) + [c]
      ensures written == old(written) + 1 && reserved == old(reserved) && (old(Paid()) ==> Paid())
    {
      hide Saved, Until;
      lastRead := OP_INVALID;
      var m := Room(1, 1);
      PlaceByte(m, c);
      written := written + 1;
    }

    /** Appends the bytes for r, four at most. */
    method WriteRune(r: rune) returns (n: nat)
      requires Valid()
      modifies this, store
      ensures Valid() && (store == old(store) || fresh(store)) && lastRead == OP_INVALID
      ensures n == |RuneBytes(r)| && Contents() == old(Contents()) + RuneBytes(r)
      ensures written == old(written) + n && reserved == old(reserved) && (old(Paid()) ==> Paid())
    {
      hide Saved, EncodeRune, Until;
      RuneBytesEncode(r);
      if r < RUNE_SELF {
        WriteByte(r % 256);
        return 1;
      }
      var p := RuneBytes(r);
      n := |p|;
      lastRead := OP_INVALID;
      var m := Room(4, n);
      len := m + n;
      Place(m, p);
      written := written + n;
    }

    method TrimTo(m: nat)
      requires Valid() && off <= m <= len
      modifies this`len
      ensures Valid() && len == m && Contents() == Until(m)
    {
      len := m;
    }

    /** Reserves room for n more bytes; what is unread stays. */
    method Grow(n: int) returns (panics: bool)
      requires Valid()
      modifies this, store
      ensures Valid() && (store == old(store) || fresh(store)) && (panics <==> n < 0)
      ensures Contents() == old(Contents()) && written == old(written)
      ensures !panics ==> n <= store.Length - len && reserved == old(reserved) + n
      ensures off == 0 || (off == old(off) && store == old(store) && All() == old(All()))
      ensures panics ==> unchanged(this) && All() == old(All())
      ensures !panics ==> (off != 0 <==> old(off < len && off != 0) && n <= old(store.Length - len))
      ensures !panics ==> lastRead == if old(off == len && off != 0) then OP_INVALID else old(lastRead)
      ensures old(Paid()) ==> Paid()
    {
      hide Saved, Until, All, Contents;
      if n < 0 {
        return true;
      }
      var m := GrowPaid(n, n);
      SavedLess(m, m + n, store.Length);
      reserved := reserved + n;
      TrimTo(m);
      return false;
    }

    /** Appends all that r has. */
    method ReadFrom(r: Source) returns (n: nat, e: Option<Error>)
      requires Valid() && r.Valid()
      modifies this, store, r
      ensures Valid() && r.Valid() && (store == old(store) || fresh(store))
      ensures r.rest == [] && n == |old(r.rest)| && Contents() == old(Contents()) + old(r.rest)
      ensures e == if r.fin == EOF then None else Some(r.fin)
      ensures lastRead == OP_INVALID && (old(Paid()) ==> Paid())
    {
      hide Saved, GrowWork, Contents, Paid;
      lastRead := OP_INVALID;
      n := 0;
      ghost var input, had := r.rest, Contents();
      while true
        invariant Valid() && r.Valid() && (store == old(store) || fresh(store)) && (old(Paid()) ==> Paid())
        invariant lastRead == OP_INVALID
        invariant n <= |input| && r.rest == input[n..] && Contents() == had + input[..n]
        decreases |r.rest|, r.idle
      {
        var m;
        m, e := ReadMore(r);
        Pieces(had, input, n, m);
        n := n + m;
        if e != None {
          assert n == |input| && input[..n] == input;
          return n, if e == Some(EOF) then None else e;
        }
      }
    }

    /** Makes room and reads once. */
    method ReadMore(r: Source) returns (m: nat, e: Option<Error>)
      requires Valid() && r.Valid() && lastRead == OP_INVALID
      modifies this, store, r
      ensures Valid() && r.Valid() && (store == old(store) || fresh(store))
      ensures lastRead == OP_INVALID && (old(Paid()) ==> Paid())
      ensures m <= |old(r.rest)| && r.rest == old(r.rest)[m..] && Contents() == old(Contents()) + old(r.rest)[..m]
      ensures e.Some? ==> e.value == r.fin && r.rest == []
      ensures m == 0 && e == None ==> r.idle < old(r.idle)
    {
      hide Saved, GrowWork, Contents, Paid, All;
      var panics := Grow(MIN_READ);
      m, e := ReadChunk(r);
    }

    /** One read of r into the free part of the array. */
    method ReadChunk(r: Source) returns (m: nat, e: Option<Error>)
      requires Valid() && r.Valid() && len < store.Length
      modifies this`len, this`written, store, r
      ensures Valid() && r.Valid() && m <= |old(r.rest)| && r.rest == old(r.rest)[m..] && (old(Paid()) ==> Paid())
      ensures Contents() == old(Contents()) + old(r.rest)[..m]
      ensures e.Some? ==> e.value == r.fin && r.rest == []
      ensures m == 0 && e == None ==> r.idle < old(r.idle)
    {
      var chunk;
      chunk, e := r.Read(store.Length - len);
      Copy(store, len, chunk, off);
      m := |chunk|;
      len := len + m;
      written := written + m;
      assert old(r.rest)[..m] == chunk;
      assert store[off..len] == store[..][off..len] == old(Contents()) + chunk;
    }

    /** Takes the next n bytes, or all there are. */
    method Next(n: nat) returns (data: seq<byte>)
      requires Valid()
      modifies this`off, this`lastRead
      ensures Valid() && (old(Paid()) ==> Paid())
      ensures data == old(Contents())[..if n < |old(Contents())| then n else |old(Contents())|]
      ensures data + Contents() == old(Contents())
      ensures lastRead == if data == [] then OP_INVALID else OP_READ
      ensures off == old(off) + |data| && Behind(|data|) == data
    {
      hide Until, Saved, Contents, Behind;
      lastRead := OP_INVALID;
      var k := if n > len - off then len - off else n;
      data := Skip(k);
      lastRead := if k > 0 then OP_READ else lastRead;
    }

    /** Reads into p. */
    method Read(p: array<byte>) returns (n: nat, e: Option<Error>)
      requires Valid() && p != store
      modifies this`len, this`off, this`lastRead, p
      ensures Valid() && (old(Paid()) ==> Paid())
      ensures n == if p.Length < |old(Contents())| then p.Length else |old(Contents())|
      ensures p[..n] + Contents() == old(Contents()) && p[n..] == old(p[n..])
      ensures e == if old(Contents()) == [] && p.Length > 0 then Some(EOF) else None
      ensures lastRead == if n == 0 then OP_INVALID else OP_READ
      ensures n > 0 ==> off >= n && Behind(n) == p[..n]
    {
      lastRead := OP_INVALID;
      if len <= off {
        Reset();
        if p.Length == 0 {
          return 0, None;
        }
        return 0, Some(EOF);
      }
      var data := Next(p.Length);
      CopyTo(p, data);
      n := |data|;
      return n, None;
    }

    method TakeOne() returns (c: byte)
      requires Valid() && off < len
      modifies this`off, this`lastRead
      ensures Valid() && [c] + Contents() == old(Contents())
      ensures lastRead == OP_READ && off > 0 && Behind(1) == [c]
    {
      hide Span;
      Spans(off, off + 1, len);
      c := store[off];
      off := off + 1;
      lastRead := OP_READ;
    }

    method ReadByte() returns (c: byte, e: Option<Error>)
      requires Valid()
      modifies this`len, this`off, this`lastRead
      ensures Valid() && (old(Paid()) ==> Paid())
      ensures e == None <==> old(Contents()) != []
      ensures e == None ==> [c] + Contents() == old(Contents())
      ensures e == None ==> lastRead == OP_READ && off > 0 && Behind(1) == [c] && len == old(len)
      ensures e.Some? ==> e == Some(EOF) && Contents() == [] && lastRead == OP_INVALID && c == 0
    {
      hide Saved, Contents;
      if len <= off {
        Reset();
        return 0, Some(EOF);
      }
      c := TakeOne();
      return c, None;
    }

    method ReadRune() returns (r: rune, size: nat, e: Option<Error>)
      requires Valid()
      modifies this`len, this`off, this`lastRead
      ensures Valid() && (old(Paid()) ==> Paid())
      ensures e == None <==> old(Contents()) != []
      ensures e == None ==> (r, size) == DecodeRune(old(Contents())) && lastRead == size <= off
      ensures e == None ==> Behind(size) + Contents() == old(Contents())
      ensures e.Some? ==> e == Some(EOF) && Contents() == [] && lastRead == OP_INVALID && r == size == 0
    {
      if len <= off {
        Reset();
        return 0, 0, Some(EOF);
      }
      hide DecodeRune;
      var c := store[off];
      if c < RUNE_SELF {
        DecodeOne(store[off..len]);
        var data := Skip(1);
        lastRead := 1;
        return c, 1, None;
      }
      var d := DecodeRune(store[off..len]);
      var data := Skip(d.1);
      lastRead := d.1;
      return d.0, d.1, None;
    }

    /** Takes the bytes through the first delim, or all and an error. */
    method ReadBytes(delim: byte) returns (line: seq<byte>, e: Option<Error>)
      requires Valid()
      modifies this`off, this`lastRead
      ensures Valid() && (old(Paid()) ==> Paid())
      ensures var i := IndexByte(old(Contents()), delim);
        if i >= 0 then e == None && line == old(Contents())[..i + 1]
        else e == Some(EOF) && line == old(Contents())
      ensures line + Contents() == old(Contents())
      ensures lastRead == OP_READ && off == old(off) + |line| && Behind(|line|) == line
    {
      hide IndexByte, Contents, Behind;
      var i := IndexByte(Contents(), delim);
      var end := off + i + 1;
      e := None;
      if i < 0 {
        end := len;
        e := Some(EOF);
      }
      line := Skip(end - off);
      lastRead := OP_READ;
      assert old(Contents())[..|old(Contents())|] == old(Contents());
    }

    /** Puts the last byte read back. */
    method UnreadByte() returns (ok: bool)
      requires Valid()
      modifies this`off, this`lastRead
      ensures Valid() && (old(Paid()) ==> Paid()) && lastRead == OP_INVALID
      ensures ok <==> old(lastRead) != OP_INVALID
      ensures off == if ok && old(off) > 0 then old(off) - 1 else old(off)
      ensures off <= old(off) && Contents() == Span(off, old(off)) + old(Contents())
    {
      if lastRead == OP_INVALID {
        return false;
      }
      lastRead := OP_INVALID;
      hide Span;
      Spans(if off > 0 then off - 1 else 0, off, len);
      if off > 0 {
        off := off - 1;
      }
      return true;
    }

    /** Puts the last rune read back. */
    method UnreadRune() returns (ok: bool)
      requires Valid()
      modifies this`off, this`lastRead
      ensures Valid() && (old(Paid()) ==> Paid())
      ensures ok <==> old(lastRead) > OP_INVALID
      ensures lastRead == if ok then OP_INVALID else old(lastRead)
      ensures off == if ok && old(lastRead) <= old(off) then old(off) - old(lastRead) else old(off)
      ensures off <= old(off) && Contents() == Span(off, old(off)) + old(Contents())
    {
      if lastRead <= OP_INVALID {
        return false;
      }
      hide Span;
      Spans(if off >= lastRead then off - lastRead else off, off, len);
      if off >= lastRead {
        off := off - lastRead;
      }
      lastRead := OP_INVALID;
      return true;
    }

    /** Gives the unread bytes to w. */
    method WriteTo(w: Sink) returns (n: nat, e: Option<Error>)
      requires Valid()
      modifies this`len, this`off, this`lastRead, w
      ensures Valid() && (old(Paid()) ==> Paid()) && lastRead == OP_INVALID
      ensures w.data + Contents() == old(w.data) + old(Contents())
      ensures n <= |old(Contents())| && w.data == old(w.data) + old(Contents())[..n]
      ensures e == None ==> n == |old(Contents())| && Contents() == []
      ensures if old(Contents()) == [] then w.replies == old(w.replies) && e == None
              else
                && old(w.replies) < w.replies && |w.replies| == |old(w.replies)| + 1
                && e == w.replies[|old(w.replies)|].Fault()
    {
      hide Saved, Contents, Behind;
      lastRead := OP_INVALID;
      n := 0;
      ghost var had, all := w.data, Contents();
      if len - off > 0 {
        var m, e' := w.Write(Contents());
        var nBytes := len - off;
        var data := Skip(m);
        AppendThree(had, data, Contents());
        n := m;
        if e' != None {
          return n, e';
        }
        if m != nBytes {
          return n, Some(ErrShortWrite);
        }
        assert Contents() == [];
      }
      Reset();
      return n, None;
    }
  }

  /** UnreadByte after ReadBytes always reports success. The documentation promises an
      error when nothing was read or when the read ended in an error; it is right if and
      only if there was a delimiter. If nothing was read, an older byte comes back, or
      none. */
  method LineUnread(b: Buffer, delim: byte) returns (line: seq<byte>, e: Option<Error>, ok: bool)
    requires b.Valid()
    modifies b
    ensures b.Valid() && line <= old(b.Contents()) && (line == [] <==> old(b.Contents()) == [])
    ensures ok && ((ok <==> line != [] && e == None) <==> IndexByte(old(b.Contents()), delim) >= 0)
    ensures line != [] ==> b.Contents() == line[|line| - 1..] + old(b.Contents())[|line|..]
    ensures line == [] ==> |b.Contents()| == if old(b.off) > 0 then 1 else 0
  {
    hide Buffer.Contents, IndexByte;
    line, e := b.ReadBytes(delim);
    DropHead(line, b.Contents());
    ghost var end := b.off;
    ok := b.UnreadByte();
    if line != [] {
      LastOf(b.store[..], end - |line|, end);
    }
  }

  /** Growing does not forget that there was a read, but may forget what was read: the
      byte comes back if and only if other bytes are unread and all of them can stay where
      they are. */
  method GrowUnread(b: Buffer, n: nat) returns (ok: bool)
    requires b.Valid() && b.Contents() != []
    modifies b, b.store
    ensures b.Valid() && (ok <==> |old(b.Contents())| > 1)
    ensures var room := n <= old(b.store.Length - b.len);
            b.Contents() == if ok && room then old(b.Contents()) else old(b.Contents())[1..]
  {
    hide Buffer.Contents, Buffer.Span, Buffer.All;
    var c, e := b.ReadByte();
    DropHead([c], b.Contents());
    SpanOfAll(b, b.off - 1, b.off);
    var panics := b.Grow(n);
    if b.off == 0 {
      EmptySpan(b);
    } else {
      SpanOfAll(b, b.off - 1, b.off);
    }
    ok := b.UnreadByte();
  }

  lemma SpanOfAll(b: Buffer, i: nat, j: nat)
    requires i <= j <= b.store.Length
    ensures |b.All()| == b.store.Length && b.Span(i, j) == b.All()[i..j]
  {
  }

  lemma EmptySpan(b: Buffer)
    ensures b.Span(0, 0) == []
  {
  }

  lemma Pieces(had: seq<byte>, s: seq<byte>, n: nat, m: nat)
    requires n <= |s| && m <= |s| - n
    ensures had + s[..n] + s[n..][..m] == had + s[..n + m] && s[n..][m..] == s[n + m..]
  {
    assert s[..n] + s[n..][..m] == s[..n + m];
    AppendThree(had, s[..n], s[n..][..m]);
  }

  lemma LastOf(s: seq<byte>, i: nat, j: nat)
    requires i < j <= |s|
    ensures s[i..j][j - i - 1..] == s[j - 1..j]
  {
  }

  // Whole runs

  datatype Op =
    | Put(p: seq<byte>) | PutByte(c: byte) | PutRune(r: rune)
    | Get(n: nat) | Fetch(n: nat) | GetByte | GetRune | GetLine(delim: byte)
    | UngetByte | UngetRune
    | Keep(size: int) | Clear | Reserve(more: int)

  /** What an operation takes from the front of the queue. */
  function Taken(q: seq<byte>, op: Op): (t: seq<byte>)
    ensures t <= q
  {
    match op
    case Get(n) => q[..if n < |q| then n else |q|]
    case Fetch(n) => q[..if n < |q| then n else |q|]
    case GetByte => if q == [] then [] else q[..1]
    case GetRune => q[..DecodeRune(q).1]
    case GetLine(delim) => var i := IndexByte(q, delim); if i >= 0 then q[..i + 1] else q
    case _ => []
  }

  /** The operation on a queue of bytes. */
  function Apply(q: seq<byte>, op: Op): (r: seq<byte>) {
    match op
    case Put(p) => q + p
    case PutByte(c) => q + [c]
    case PutRune(r) => q + RuneBytes(r)
    case Keep(n) => if 0 <= n <= |q| then q[..n] else q
    case Clear => []
    case _ => q[|Taken(q, op)|..]
  }

  /** Which unread method may follow. */
  function Kind(q: seq<byte>, op: Op): (r: int) {
    match op
    case GetLine(_) => OP_READ
    case GetRune => |Taken(q, op)|
    case _ => if Taken(q, op) == [] then OP_INVALID else OP_READ
  }

  /** The queue, the bytes the last operation took from it, and lastRead. */
  datatype View = View(data: seq<byte>, back: seq<byte>, kind: int)

  /** The bytes taken can be put back once. Two cases are odd: after a ReadBytes that
      found nothing an old byte may come back, and Grow may make the bytes taken
      unavailable. */
  predicate Does(v: View, op: Op, v': View) {
    match op
    case UngetByte =>
      if v.kind == OP_INVALID then v' == v
      else if v.back != [] then v' == View(v.back[|v.back| - 1..] + v.data, [], OP_INVALID)
      else v'.back == [] && v'.kind == OP_INVALID && (v'.data == v.data || (v.data == [] && |v'.data| == 1))
    case UngetRune =>
      if v.kind <= OP_INVALID then v' == v
      else v' == View(v.back + v.data, [], OP_INVALID)
    case Reserve(_) => v' == v || (v'.data == v.data && v'.back == [] && v'.kind in {v.kind, OP_INVALID})
    case _ => v' == View(Apply(v.data, op), Taken(v.data, op), Kind(v.data, op))
  }

  ghost predicate Shows(b: Buffer, v: View)
    requires b.Valid()
    reads b, b.store
  {
    && b.Contents() == v.data && b.lastRead == v.kind
    && |v.back| <= b.off && b.Behind(|v.back|) == v.back
    && (v.back != [] && v.kind > 0 ==> |v.back| == v.kind)
    && (v.back == [] && v.kind != OP_INVALID ==> b.off == 0 || (v.data == [] && v.kind == OP_READ))
  }

  function Puts(op: Op): (r: nat) {
    match op
    case Put(p) => |p|
    case PutByte(_) => 1
    case PutRune(r) => |RuneBytes(r)|
    case _ => 0
  }

  function Reserves(op: Op): (r: nat) {
    match op
    case Reserve(n) => if n > 0 then n else 0
    case _ => 0
  }

  function TotalPut(ops: seq<Op>): (r: nat) {
    if ops == [] then 0 else TotalPut(ops[..|ops| - 1]) + Puts(ops[|ops| - 1])
  }

  function TotalReserved(ops: seq<Op>): (r: nat) {
    if ops == [] then 0 else TotalReserved(ops[..|ops| - 1]) + Reserves(ops[|ops| - 1])
  }

  /** The operation has taken its bytes from the front of q. */
  ghost predicate Took(b: Buffer, q: seq<byte>, op: Op)
    requires b.Valid()
    reads b, b.store
  {
    var t := Taken(q, op);
    b.Contents() == Apply(q, op) && b.lastRead == Kind(q, op) && |t| <= b.off && b.Behind(|t|) == t
  }

  method DoNext(b: Buffer, n: nat)
    requires b.Valid() && b.Paid()
    modifies b`off, b`lastRead
    ensures b.Valid() && b.Paid() && Took(b, old(b.Contents()), Get(n))
  {
    hide Buffer.Paid, Buffer.Contents;
    ghost var q := b.Contents();
    var data := b.Next(n);
    DropHead(data, b.Contents());
    assert data == Taken(q, Get(n));
  }

  method DoFetch(b: Buffer, n: nat)
    requires b.Valid() && b.Paid()
    modifies b`len, b`off, b`lastRead
    ensures b.Valid() && b.Paid() && Took(b, old(b.Contents()), Fetch(n))
  {
    hide Buffer.Paid, Buffer.Contents;
    ghost var q := b.Contents();
    var p := new byte[n];
    var k, e := b.Read(p);
    DropHead(p[..k], b.Contents());
    assert p[..k] == Taken(q, Fetch(n));
  }

  method DoByte(b: Buffer)
    requires b.Valid() && b.Paid()
    modifies b`len, b`off, b`lastRead
    ensures b.Valid() && b.Paid() && Took(b, old(b.Contents()), GetByte)
  {
    hide Buffer.Paid, Buffer.Contents;
    ghost var q := b.Contents();
    var c, e := b.ReadByte();
    if e == None {
      DropHead([c], b.Contents());
      assert q[..1] == [c] == b.Behind(1);
    }
  }

  method DoRune(b: Buffer)
    requires b.Valid() && b.Paid()
    modifies b`len, b`off, b`lastRead
    ensures b.Valid() && b.Paid() && Took(b, old(b.Contents()), GetRune)
  {
    hide Buffer.Paid, Buffer.Contents, DecodeRune;
    var r, size, e := b.ReadRune();
    if e == None {
      DropHead(b.Behind(size), b.Contents());
    }
  }

  method DoLine(b: Buffer, delim: byte)
    requires b.Valid() && b.Paid()
    modifies b`off, b`lastRead
    ensures b.Valid() && b.Paid() && Took(b, old(b.Contents()), GetLine(delim))
  {
    hide Buffer.Paid, Buffer.Contents, IndexByte, Took;
    ghost var q := b.Contents();
    var line, e := b.ReadBytes(delim);
    LineTook(b, q, delim, line);
  }

  lemma LineTook(b: Buffer, q: seq<byte>, delim: byte, line: seq<byte>)
    requires b.Valid() && line == Taken(q, GetLine(delim)) && q == line + b.Contents()
    requires b.lastRead == OP_READ && |line| <= b.off && b.Behind(|line|) == line
    ensures Took(b, q, GetLine(delim))
  {
    hide IndexByte, Buffer.Contents;
    DropHead(line, b.Contents());
  }

  /** The operations that take bytes from the front. */
  method DoRead(b: Buffer, op: Op, ghost v: View) returns (ghost v': View)
    requires b.Valid() && b.Paid() && Shows(b, v)
    requires op.Get? || op.Fetch? || op.GetByte? || op.GetRune? || op.GetLine?
    modifies b`len, b`off, b`lastRead
    ensures b.Valid() && b.Paid() && Does(v, op, v') && Shows(b, v')
  {
    hide Buffer.Paid, Took, Apply, Taken, Kind;
    match op {
      case Get(n) => DoNext(b, n);
      case Fetch(n) => DoFetch(b, n);
      case GetByte => DoByte(b);
      case GetRune => DoRune(b);
      case GetLine(delim) => DoLine(b, delim);
    }
    TookShows(b, v.data, op);
    v' := View(Apply(v.data, op), Taken(v.data, op), Kind(v.data, op));
  }

  lemma TookShows(b: Buffer, q: seq<byte>, op: Op)
    requires b.Valid() && Took(b, q, op)
    requires op.Get? || op.Fetch? || op.GetByte? || op.GetRune? || op.GetLine?
    ensures Shows(b, View(Apply(q, op), Taken(q, op), Kind(q, op)))
  {
    hide DecodeRune, IndexByte;
  }

  method DoUnreadByte(b: Buffer, ghost v: View) returns (ghost v': View)
    requires b.Valid() && b.Paid() && Shows(b, v)
    modifies b`off, b`lastRead
    ensures b.Valid() && b.Paid() && Does(v, UngetByte, v') && Shows(b, v')
  {
    hide Buffer.Paid, Buffer.Contents, Buffer.Span, Apply, Taken, Kind;
    LastBack(b, |v.back|);
    ghost var last := b.Span(if b.off > 0 then b.off - 1 else 0, b.off);
    var ok := b.UnreadByte();
    v' := if ok then View(last + v.data, [], OP_INVALID) else v;
    Cleared(b);
  }

  /** The byte before the unread ones is the last of those taken. */
  lemma LastBack(b: Buffer, n: nat)
    requires b.Valid() && n <= b.off
    ensures n > 0 ==> b.Behind(n)[n - 1..] == b.Span(b.off - 1, b.off)
    ensures b.Span(b.off, b.off) == [] && forall q: seq<byte> :: b.Span(b.off, b.off) + q == q
  {
  }

  lemma Cleared(b: Buffer)
    requires b.Valid()
    ensures b.Behind(0) == []
  {
  }

  method DoUnreadRune(b: Buffer, ghost v: View) returns (ghost v': View)
    requires b.Valid() && b.Paid() && Shows(b, v)
    modifies b`off, b`lastRead
    ensures b.Valid() && b.Paid() && Does(v, UngetRune, v') && Shows(b, v')
  {
    hide Buffer.Paid, Buffer.Contents;
    ghost var off := b.off;
    var ok := b.UnreadRune();
    v' := if ok then View(b.Contents(), [], OP_INVALID) else v;
    if ok && b.off == off {
      assert b.store[off..off] + v.data == v.data;
    }
  }

  method DoWrite(b: Buffer, op: Op, ghost v: View) returns (ghost v': View)
    requires b.Valid() && b.Paid() && Shows(b, v)
    requires op.Put? || op.PutByte? || op.PutRune? || op.Keep? || op.Clear?
    modifies b, b.store
    ensures b.Valid() && b.Paid() && (b.store == old(b.store) || fresh(b.store))
    ensures Does(v, op, v') && Shows(b, v')
    ensures b.written == old(b.written) + Puts(op) && b.reserved == old(b.reserved)
  {
    hide EncodeRune, DecodeRune, IndexByte, Buffer.Paid, Buffer.Contents, Shows;
    assert b.Contents() == v.data by { Shown(b, v); }
    match op {
      case Put(p) => var n := b.Write(p);
      case PutByte(c) => b.WriteByte(c);
      case PutRune(r) => var n := b.WriteRune(r);
      case Keep(n) => var panics := b.Truncate(n);
      case Clear => b.Reset();
    }
    v' := View(Apply(v.data, op), [], OP_INVALID);
    NothingBack(b);
  }

  lemma Shown(b: Buffer, v: View)
    requires b.Valid() && Shows(b, v)
    ensures b.Contents() == v.data
  {
  }

  lemma NothingBack(b: Buffer)
    requires b.Valid() && b.lastRead == OP_INVALID
    ensures Shows(b, View(b.Contents(), [], OP_INVALID))
  {
  }

  method DoReserve(b: Buffer, n: int, ghost v: View) returns (ghost v': View)
    requires b.Valid() && b.Paid() && Shows(b, v)
    modifies b, b.store
    ensures b.Valid() && b.Paid() && (b.store == old(b.store) || fresh(b.store))
    ensures Does(v, Reserve(n), v') && Shows(b, v')
    ensures b.written == old(b.written) && b.reserved == old(b.reserved) + Reserves(Reserve(n))
  {
    hide Buffer.Paid;
    ghost var off := b.off;
    var panics := b.Grow(n);
    v' := if panics then v else View(v.data, [], b.lastRead);
    if b.off == off && b.lastRead == v.kind && b.All() == old(b.All()) {
      v' := v;
    }
  }

  /** Each operation is that on the queue. */
  method Do(b: Buffer, op: Op, ghost v: View) returns (ghost v': View)
    requires b.Valid() && b.Paid() && Shows(b, v)
    modifies b, b.store
    ensures b.Valid() && b.Paid() && (b.store == old(b.store) || fresh(b.store))
    ensures Does(v, op, v') && Shows(b, v')
    ensures b.written == old(b.written) + Puts(op) && b.reserved == old(b.reserved) + Reserves(op)
  {
    hide Buffer.Paid, Does, Shows;
    match op {
      case UngetByte => v' := DoUnreadByte(b, v);
      case UngetRune => v' := DoUnreadRune(b, v);
      case Reserve(n) => v' := DoReserve(b, n, v);
      case Get(_) => v' := DoRead(b, op, v);
      case Fetch(_) => v' := DoRead(b, op, v);
      case GetByte => v' := DoRead(b, op, v);
      case GetRune => v' := DoRead(b, op, v);
      case GetLine(_) => v' := DoRead(b, op, v);
      case _ => v' := DoWrite(b, op, v);
    }
  }

  /** Any run from the zero value behaves as a queue whose last read can be taken back,
      and copies at most two bytes on growing for each byte written or asked for. */
  method Run(ops: seq<Op>) returns (b: Buffer, ghost views: seq<View>)
    ensures b.Valid() && |views| == |ops| + 1 && views[0] == View([], [], OP_INVALID)
    ensures forall i :: 0 <= i < |ops| ==> Does(views[i], ops[i], views[i + 1])
    ensures Shows(b, views[|ops|])
    ensures b.written == TotalPut(ops) && b.copied <= 2 * (TotalPut(ops) + TotalReserved(ops))
  {
    hide Does, Shows, Puts, Reserves, TotalPut, TotalReserved, Buffer.Contents;
    b := Zero();
    ghost var v := View([], [], OP_INVALID);
    views := [v];
    NothingPut();
    for i := 0 to |ops|
      invariant b.Valid() && b.Paid() && fresh(b) && fresh(b.store) && Shows(b, v)
      invariant |views| == i + 1 && views[0] == View([], [], OP_INVALID) && views[i] == v
      invariant forall j :: 0 <= j < i ==> Does(views[j], ops[j], views[j + 1])
      invariant b.written == TotalPut(ops[..i]) && b.reserved == TotalReserved(ops[..i])
    {
      Totals(ops, i);
      v := Do(b, ops[i], v);
      views := views + [v];
    }
    assert ops[..|ops|] == ops;
  }

  method Zero() returns (b: Buffer)
    ensures fresh(b) && fresh(b.store) && b.Valid() && b.Paid() && Shows(b, View([], [], OP_INVALID))
    ensures b.written == b.reserved == 0
  {
    b := new Buffer();
  }

  lemma NothingPut()
    ensures TotalPut([]) == TotalReserved([]) == 0
  {
  }

  lemma Totals(ops: seq<Op>, i: nat)
    requires i < |ops|
    ensures TotalPut(ops[..i + 1]) == TotalPut(ops[..i]) + Puts(ops[i])
    ensures TotalReserved(ops[..i + 1]) == TotalReserved(ops[..i]) + Reserves(ops[i])
  {
    assert ops[..i + 1][..i] == ops[..i];
  }

  predicate Unreads(op: Op) { op.UngetByte? || op.UngetRune? }

  function Queue(ops: seq<Op>): (r: seq<byte>) {
    if ops == [] then [] else Apply(Queue(ops[..|ops| - 1]), ops[|ops| - 1])
  }

  /** Without unread methods the run is that of a plain queue. */
  lemma {:induction false} PlainQueue(ops: seq<Op>, views: seq<View>)
    requires |views| == |ops| + 1 && views[0].data == []
    requires forall i :: 0 <= i < |ops| ==> Does(views[i], ops[i], views[i + 1]) && !Unreads(ops[i])
    ensures views[|ops|].data == Queue(ops)
    decreases |ops|
  {
    if ops != [] {
      var n := |ops| - 1;
      PlainQueue(ops[..n], views[..n + 1]);
      assert Does(views[n], ops[n], views[n + 1]);
    }
  }

  /** A read and the unread that fits it cancel out. */
  lemma ReadThenUnread(v: View, op: Op, v1: View, v2: View)
    requires Does(v, op, v1) && !Unreads(op) && !op.Reserve? && Taken(v.data, op) != []
    requires Does(v1, if op == GetRune then UngetRune else UngetByte, v2)
    requires op == GetRune || |Taken(v.data, op)| == 1
    ensures v2.data == v.data
  {
    var t := Taken(v.data, op);
    assert t + v.data[|t|..] == v.data;
    assert |t| == 1 ==> t[|t| - 1..] == t;
  }
}
