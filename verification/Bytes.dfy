/** Substring search of package bytes: the Rabin-Karp searches from either end, and
    Index over them and over the search that a machine may have. */
module Bytes {
  import opened Common

  const M: int := 0x1_0000_0000         // uint32
  const PrimeRK: int := 16777619
  type uint32 = x: int | 0 <= x < M

  predicate MatchAt(s: seq<byte>, sep: seq<byte>, i: int) {
    0 <= i <= |s| - |sep| && s[i..i + |sep|] == sep
  }

  /** r is the greatest match position, or -1. */
  ghost predicate IsLast(s: seq<byte>, sep: seq<byte>, r: int) {
    && (r == -1 || MatchAt(s, sep, r))
    && forall j: int :: r < j ==> !MatchAt(s, sep, j)
  }

  /** r is the least match position, or -1. */
  ghost predicate IsFirst(s: seq<byte>, sep: seq<byte>, r: int) {
    && (r == -1 || MatchAt(s, sep, r))
    && forall j: int :: (r == -1 || j < r) ==> !MatchAt(s, sep, j)
  }

  function Pow(b: int, e: nat): (r: int) {
    if e == 0 then 1 else b * Pow(b, e - 1)
  }

  /** The hashes without wrap-around: s[0] is the most significant digit of Hash and
      the least significant one of RevHash. */
  function Hash(s: seq<byte>): (r: int) {
    if s == [] then 0 else Hash(s[..|s| - 1]) * PrimeRK + s[|s| - 1]
  }

  function RevHash(s: seq<byte>): (r: int) {
    if s == [] then 0 else RevHash(s[1..]) * PrimeRK + s[0]
  }

  lemma {:induction false} PowSquare(b: int, e: nat)
    ensures Pow(b * b, e) == Pow(b, 2 * e)
  {
    if e > 0 {
      PowSquare(b, e - 1);
      assert Pow(b, 2 * e) == b * (b * Pow(b, 2 * (e - 1)));
    }
  }

  /** Reducing the operands first does not change a product modulo 2^32. */
  lemma MulMod(a: int, b: int)
    ensures (a % M) * (b % M) % M == a * b % M
  {
    var x, y := a / M, b / M;
    var r, t := a % M, b % M;
    assert a * b == (x * M + r) * b == x * b * M + r * b;
    assert r * b == r * (y * M + t) == r * y * M + r * t;
    Drop(r * t, x * b + r * y);
  }

  lemma Drop(a: int, k: int)
    ensures (a + k * M) % M == a % M
  {
  }

  lemma {:induction false} HashSplit(s: seq<byte>)
    requires |s| > 0
    ensures Hash(s) == s[0] * Pow(PrimeRK, |s| - 1) + Hash(s[1..])
    ensures RevHash(s) == s[|s| - 1] * Pow(PrimeRK, |s| - 1) + RevHash(s[..|s| - 1])
  {
    var n := |s|;
    if n > 1 {
      HashSplit(s[..n - 1]);
      HashSplit(s[1..]);
      assert s[..n - 1][1..] == s[1..][..n - 2];
      assert s[1..][..n - 2] == s[..n - 1][1..];
      assert Pow(PrimeRK, n - 1) == PrimeRK * Pow(PrimeRK, n - 2);
      Shift(s[0], Pow(PrimeRK, n - 2));
      Shift(s[n - 1], Pow(PrimeRK, n - 2));
    }
  }

  lemma Shift(c: int, p: int)
    ensures (c * p) * PrimeRK == c * (PrimeRK * p)
  {
  }

  /** One step of the backward search: window i + 1 becomes window i. */
  lemma RollBack(s: seq<byte>, n: nat, i: nat)
    requires 0 < n && i + 1 + n <= |s|
    ensures RevHash(s[i..i + n]) == RevHash(s[i + 1..i + 1 + n]) * PrimeRK + s[i] - Pow(PrimeRK, n) * s[i + n]
  {
    var w, w' := s[i + 1..i + 1 + n], s[i..i + n];
    HashSplit(w);
    assert w[..n - 1] == w'[1..];
    Scale(s[i + n], Pow(PrimeRK, n - 1), RevHash(w'[1..]));
  }

  /** One step of the forward search. */
  lemma RollForward(s: seq<byte>, n: nat, i: nat)
    requires 0 < n <= i < |s|
    ensures Hash(s[i + 1 - n..i + 1]) == Hash(s[i - n..i]) * PrimeRK + s[i] - Pow(PrimeRK, n) * s[i - n]
  {
    var w, w' := s[i - n..i], s[i + 1 - n..i + 1];
    HashSplit(w);
    assert w[1..] == w'[..n - 1];
    Scale(s[i - n], Pow(PrimeRK, n - 1), Hash(w[1..]));
  }

  lemma Scale(c: int, p: int, h: int)
    ensures (c * p + h) * PrimeRK == h * PrimeRK + (PrimeRK * p) * c
  {
    Shift(c, p);
  }

  /** uint32 arithmetic: one more digit. */
  function Digit(h: uint32, c: byte): (r: uint32) {
    (h * PrimeRK % M + c) % M
  }

  lemma DigitMod(h: int, c: byte)
    ensures Digit(h % M, c) == (h * PrimeRK + c) % M
  {
    MulModSmall(h, PrimeRK, h * PrimeRK);
    Combine(h * PrimeRK, c, 0);
  }

  /** A prefix and a suffix grow by one digit. */
  lemma HashDigit(s: seq<byte>, i: nat)
    requires i < |s|
    ensures Digit(Hash(s[..i]) % M, s[i]) == Hash(s[..i + 1]) % M
    ensures Digit(RevHash(s[i + 1..]) % M, s[i]) == RevHash(s[i..]) % M
  {
    assert s[..i + 1][..i] == s[..i];
    assert s[i..][1..] == s[i + 1..];
    DigitMod(Hash(s[..i]), s[i]);
    DigitMod(RevHash(s[i + 1..]), s[i]);
  }

  lemma EmptyHash()
    ensures Hash([]) == 0 && RevHash([]) == 0
  {
  }

  /** uint32 arithmetic: h*PrimeRK + in - pow*out, reduced after every operation. */
  function Roll(h: uint32, in_: byte, pow: uint32, out: byte): (r: uint32) {
    ((h * PrimeRK % M + in_) % M - pow * out % M) % M
  }

  lemma RollMod(h: int, in_: byte, pow: int, out: byte)
    ensures Roll(h % M, in_, pow % M, out) == (h * PrimeRK + in_ - pow * out) % M
  {
    var a, b := h * PrimeRK, pow * out;
    MulModSmall(h, PrimeRK, a);
    MulModSmall(pow, out, b);
    Combine(a, in_, b);
  }

  lemma MulModSmall(x: int, y: uint32, xy: int)
    requires xy == x * y
    ensures x % M * y % M == xy % M
  {
    MulMod(x, y);
    assert y % M == y;
  }

  lemma Combine(a: int, c: int, b: int)
    ensures ((a % M + c) % M - b % M) % M == (a + c - b) % M
  {
  }

  /** The multiplicative factor, by repeated squaring. */
  method Power(n: nat) returns (pow: uint32)
    ensures pow == Pow(PrimeRK, n) % M
  {
    pow := 1;
    var sq: uint32 := PrimeRK;
    var i := n;
    ghost var p, q := 1, PrimeRK;
    while i > 0
      invariant pow == p % M && sq == q % M && p * Pow(q, i) == Pow(PrimeRK, n)
    {
      PowStep(p, q, i);
      MulMod(p, q);
      MulMod(q, q);
      if i % 2 != 0 {
        pow := pow * sq % M;
        p := p * q;
      }
      sq := sq * sq % M;
      q := q * q;
      i := i / 2;
    }
  }

  lemma PowStep(p: int, q: int, i: nat)
    requires i > 0
    ensures (if i % 2 != 0 then p * q else p) * Pow(q * q, i / 2) == p * Pow(q, i)
  {
    PowSquare(q, i / 2);
    if i % 2 != 0 {
      assert Pow(q, i) == q * Pow(q, 2 * (i / 2));
      Assoc(p, q, Pow(q, 2 * (i / 2)));
    }
  }

  lemma Assoc(a: int, b: int, c: int)
    ensures (a * b) * c == a * (b * c)
  {
  }

  method HashStrBytes(sep: seq<byte>) returns (hash: uint32, pow: uint32)
    ensures hash == Hash(sep) % M && pow == Pow(PrimeRK, |sep|) % M
  {
    hide Hash;
    hide Digit;
    EmptyHash();
    hash := 0;
    for i := 0 to |sep|
      invariant hash == Hash(sep[..i]) % M
    {
      HashDigit(sep, i);
      hash := Digit(hash, sep[i]);
    }
    assert sep[..|sep|] == sep;
    pow := Power(|sep|);
  }

  method HashStrRevBytes(sep: seq<byte>) returns (hash: uint32, pow: uint32)
    ensures hash == RevHash(sep) % M && pow == Pow(PrimeRK, |sep|) % M
  {
    hide RevHash;
    hide Digit;
    EmptyHash();
    hash := 0;
    assert sep[|sep|..] == [];
    for i := |sep| downto 0
      invariant hash == RevHash(sep[i..]) % M
    {
      HashDigit(sep, i);
      hash := Digit(hash, sep[i]);
    }
    pow := Power(|sep|);
  }

  method LastIndexByte(s: seq<byte>, c: byte) returns (r: int)
    ensures IsLast(s, [c], r)
  {
    for i := |s| downto 0
      invariant forall j: int :: i <= j ==> !MatchAt(s, [c], j)
    {
      if s[i] == c {
        return i;
      }
    }
    return -1;
  }

  /** The greatest match position, for every s and sep. */
  method LastIndex(s: seq<byte>, sep: seq<byte>) returns (r: int)
    ensures IsLast(s, sep, r)
  {
    var n := |sep|;
    if n == 0 {
      return |s|;
    } else if n == 1 {
      assert sep == [sep[0]];
      r := LastIndexByte(s, sep[0]);
      return;
    } else if n == |s| {
      if s == sep {
        assert s[0..0 + n] == s;
        return 0;
      }
      assert !MatchAt(s, sep, 0);
      return -1;
    } else if n > |s| {
      return -1;
    }
    hide RevHash;
    hide Digit;
    hide Roll;
    hide Pow;
    EmptyHash();
    var hashss, pow := HashStrRevBytes(sep);
    var last := |s| - n;
    var h: uint32 := 0;
    assert s[|s|..] == [];
    for i := |s| downto last
      invariant h == RevHash(s[i..]) % M
    {
      HashDigit(s, i);
      h := Digit(h, s[i]);
    }
    assert s[last..last + n] == s[last..];
    if h == hashss && s[last..] == sep {
      return last;
    }
    for i := last downto 0
      invariant h == RevHash(s[i..i + n]) % M
      invariant forall j: int :: i <= j ==> !MatchAt(s, sep, j)
    {
      RollBack(s, n, i);
      RollMod(RevHash(s[i + 1..i + 1 + n]), s[i], Pow(PrimeRK, n), s[i + n]);
      h := Roll(h, s[i], pow, s[i + n]);
      if h == hashss && s[i..i + n] == sep {
        return i;
      }
    }
    return -1;
  }

  /** The least match position. */
  method IndexRabinKarpBytes(s: seq<byte>, sep: seq<byte>) returns (r: int)
    requires 0 < |sep| <= |s|
    ensures IsFirst(s, sep, r)
  {
    hide Hash;
    hide Digit;
    hide Roll;
    hide Pow;
    EmptyHash();
    var hashsep, pow := HashStrBytes(sep);
    var n := |sep|;
    var h: uint32 := 0;
    for i := 0 to n
      invariant h == Hash(s[..i]) % M
    {
      HashDigit(s, i);
      h := Digit(h, s[i]);
    }
    assert s[..n] == s[0..n];
    if h == hashsep && s[..n] == sep {
      return 0;
    }
    var i := n;
    while i < |s|
      invariant n <= i <= |s|
      invariant h == Hash(s[i - n..i]) % M
      invariant forall j: int :: j <= i - n ==> !MatchAt(s, sep, j)
    {
      RollForward(s, n, i);
      RollMod(Hash(s[i - n..i]), s[i], Pow(PrimeRK, n), s[i - n]);
      h := Roll(h, s[i], pow, s[i - n]);
      i := i + 1;
      if h == hashsep && s[i - n..i] == sep {
        return i - n;
      }
    }
    return -1;
  }

  method IndexByte(s: seq<byte>, c: byte) returns (r: int)
    ensures IsFirst(s, [c], r)
  {
    for i := 0 to |s|
      invariant forall j: int :: j < i ==> !MatchAt(s, [c], j)
    {
      if s[i] == c {
        return i;
      }
    }
    return -1;
  }

  /** What package bytealg says of the machine: the longest separator and text for its
      own search, and when that search is better than skipping. */
  datatype Machine = Machine(maxLen: nat, maxBruteForce: nat, cutover: int -> int)

  /** The machine's search; only what it finds is modelled. */
  method MachineIndex(s: seq<byte>, sep: seq<byte>) returns (r: int)
    ensures IsFirst(s, sep, r)
  {
    if |sep| <= |s| {
      for i := 0 to |s| - |sep| + 1
        invariant forall j: int :: j < i ==> !MatchAt(s, sep, j)
      {
        if s[i..i + |sep|] == sep {
          return i;
        }
      }
    }
    return -1;
  }

  /** For a short separator: skips with IndexByte while that pays, then falls back on
      the machine's search. */
  method IndexShort(s: seq<byte>, sep: seq<byte>, cutover: int -> int) returns (r: int)
    requires 2 <= |sep| < |s|
    ensures IsFirst(s, sep, r)
  {
    var n := |sep|;
    var c0, c1 := sep[0], sep[1];
    var i, fails, t := 0, 0, |s| - n + 1;
    while i < t
      invariant 0 <= i <= t
      invariant forall j: int :: j < i ==> !MatchAt(s, sep, j)
    {
      if s[i] != c0 {
        var o := IndexByte(s[i + 1..t], c0);
        Skip(s, sep, i, t, o);
        if o < 0 {
          return -1;
        }
        i := i + o + 1;
      }
      if s[i + 1] == c1 && s[i..i + n] == sep {
        return i;
      }
      SecondByte(s, sep, i);
      fails := fails + 1;
      i := i + 1;
      if fails > cutover(i) {
        var j := MachineIndex(s[i..], sep);
        Rebase(s, sep, i, j);
        return if j >= 0 then i + j else -1;
      }
    }
    return -1;
  }

  /** For a long separator: skips with IndexByte while that pays, then falls back on
      Rabin-Karp. */
  method IndexLong(s: seq<byte>, sep: seq<byte>) returns (r: int)
    requires 2 <= |sep| < |s|
    ensures IsFirst(s, sep, r)
  {
    var n := |sep|;
    var c0, c1 := sep[0], sep[1];
    var i, fails, t := 0, 0, |s| - n + 1;
    while i < t
      invariant 0 <= i <= t
      invariant forall j: int :: j < i ==> !MatchAt(s, sep, j)
    {
      if s[i] != c0 {
        var o := IndexByte(s[i + 1..t], c0);
        Skip(s, sep, i, t, o);
        if o < 0 {
          break;
        }
        i := i + o + 1;
      }
      if s[i + 1] == c1 && s[i..i + n] == sep {
        return i;
      }
      SecondByte(s, sep, i);
      i := i + 1;
      fails := fails + 1;
      if fails >= 4 + i / 16 && i < t {
        var j := IndexRabinKarpBytes(s[i..], sep);
        Rebase(s, sep, i, j);
        if j < 0 {
          return -1;
        }
        return i + j;
      }
    }
    return -1;
  }

  /** The least match position, on any machine. */
  method Index(s: seq<byte>, sep: seq<byte>, machine: Machine) returns (r: int)
    ensures IsFirst(s, sep, r)
  {
    var n := |sep|;
    if n == 0 {
      assert s[0..0] == sep;
      return 0;
    } else if n == 1 {
      assert sep == [sep[0]];
      r := IndexByte(s, sep[0]);
      return;
    } else if n == |s| {
      if sep == s {
        assert s[0..0 + n] == s;
        return 0;
      }
      assert !MatchAt(s, sep, 0);
      return -1;
    } else if n > |s| {
      return -1;
    } else if n <= machine.maxLen {
      if |s| <= machine.maxBruteForce {
        r := MachineIndex(s, sep);
      } else {
        r := IndexShort(s, sep, machine.cutover);
      }
      return;
    }
    r := IndexLong(s, sep);
  }

  lemma SecondByte(s: seq<byte>, sep: seq<byte>, i: nat)
    requires |sep| >= 2 && i + |sep| <= |s|
    ensures MatchAt(s, sep, i) ==> s[i + 1] == sep[1]
  {
    assert s[i..i + |sep|][1] == s[i + 1];
  }

  /** Positions that do not hold the first byte cannot be matches. */
  lemma Skip(s: seq<byte>, sep: seq<byte>, i: nat, t: nat, o: int)
    requires |sep| >= 2 && t == |s| - |sep| + 1 && i < t && s[i] != sep[0]
    requires IsFirst(s[i + 1..t], [sep[0]], o)
    ensures -1 <= o < t - i - 1
    ensures forall j: int :: i <= j && (o < 0 || j < i + o + 1) ==> !MatchAt(s, sep, j)
  {
    forall j: int | i <= j && (o < 0 || j < i + o + 1) ensures !MatchAt(s, sep, j) {
      if i < j < t {
        assert !MatchAt(s[i + 1..t], [sep[0]], j - i - 1);
        assert s[i + 1..t][j - i - 1] == s[j] == s[j..j + |sep|][0];
      } else if j == i {
        assert s[j] == s[j..j + |sep|][0];
      }
    }
  }

  /** A search in the rest of s, in terms of s. */
  lemma Rebase(s: seq<byte>, sep: seq<byte>, i: nat, j: int)
    requires i <= |s| && IsFirst(s[i..], sep, j)
    requires forall k: int :: k < i ==> !MatchAt(s, sep, k)
    ensures IsFirst(s, sep, if j < 0 then -1 else i + j)
  {
    forall k: int | k >= i ensures MatchAt(s, sep, k) <==> MatchAt(s[i..], sep, k - i) {
      if k + |sep| <= |s| {
        assert s[i..][k - i..k - i + |sep|] == s[k..k + |sep|];
      }
    }
    if j >= 0 {
      assert MatchAt(s, sep, i + j);
    }
    forall k: int | (j < 0 || k < i + j) ensures !MatchAt(s, sep, k) {
      if k >= i {
        assert !MatchAt(s[i..], sep, k - i);
      }
    }
  }
}
