/** UTF-8 as package utf8 reads it: one error of width 1 for each byte that is not
    part of a shortest, in-range encoding. */
module Utf8 {
  import opened Common

  type rune = int
  const RUNE_ERROR: rune := 0xFFFD
  const RUNE_SELF: int := 0x80
  const MAX_RUNE: rune := 0x10FFFF

  /** The length that a first byte announces, and the bounds on the second byte. */
  datatype Lead = Lead(size: nat, lo: int, hi: int)

  function First(b: byte): (x: Lead)
    ensures 1 <= x.size <= 4
  {
    if b < 0x80 || b < 0xC2 || b > 0xF4 then Lead(1, 0x80, 0xBF)
    else if b < 0xE0 then Lead(2, 0x80, 0xBF)
    else if b == 0xE0 then Lead(3, 0xA0, 0xBF)
    else if b == 0xED then Lead(3, 0x80, 0x9F)
    else if b < 0xF0 then Lead(3, 0x80, 0xBF)
    else if b == 0xF0 then Lead(4, 0x90, 0xBF)
    else if b == 0xF4 then Lead(4, 0x80, 0x8F)
    else Lead(4, 0x80, 0xBF)
  }

  predicate Continues(b: byte) { 0x80 <= b <= 0xBF }

  predicate FullRune(p: seq<byte>): (full: bool)
    ensures full ==> p != []
  {
    if p == [] then false
    else
      var x := First(p[0]);
      || |p| >= x.size
      || (|p| > 1 && (p[1] < x.lo || x.hi < p[1]))
      || (|p| > 2 && !Continues(p[2]))
  }

  /** Four groups of six bits, the first on the left. */
  function Join(a: int, b: int, c: int, d: int): (r: int) {
    a * 262144 + b * 4096 + c * 64 + d
  }

  function DecodeRune(p: seq<byte>): (r: (rune, nat))
    ensures r.1 <= |p| && (p == [] <==> r.1 == 0)
    ensures r.1 <= 4 && r.0 >= 0
  {
    if p == [] then (RUNE_ERROR, 0)
    else
      var x := First(p[0]);
      if x.size == 1 then (if p[0] < RUNE_SELF then p[0] else RUNE_ERROR, 1)
      else if |p| < x.size then (RUNE_ERROR, 1)
      else if p[1] < x.lo || x.hi < p[1] then (RUNE_ERROR, 1)
      else if x.size == 2 then (Join(0, 0, p[0] % 32, p[1] % 64), 2)
      else if !Continues(p[2]) then (RUNE_ERROR, 1)
      else if x.size == 3 then (Join(0, p[0] % 16, p[1] % 64, p[2] % 64), 3)
      else if !Continues(p[3]) then (RUNE_ERROR, 1)
      else (Join(p[0] % 8, p[1] % 64, p[2] % 64, p[3] % 64), 4)
  }

  /** The runes of s, one error for each byte that is not part of an encoding. */
  function DecodeAll(s: seq<byte>): (r: seq<rune>) {
    if s == [] then [] else [DecodeRune(s).0] + DecodeAll(s[DecodeRune(s).1..])
  }

  predicate Surrogate(r: rune) { 0xD800 <= r <= 0xDFFF }

  predicate ValidRune(r: rune) { 0 <= r <= MAX_RUNE && !Surrogate(r) }

  /** EncodeRune, with the error rune for what has no encoding. */
  function EncodeRune(r: rune): (p: seq<byte>)
    ensures 1 <= |p| <= 4
  {
    if 0 <= r < 0x80 then [r]
    else if 0 <= r < 0x800 then [0xC0 + r / 64, 0x80 + r % 64]
    else if r < 0 || r > MAX_RUNE || Surrogate(r) then [0xEF, 0xBF, 0xBD]
    else if r < 0x10000 then [0xE0 + r / 4096, 0x80 + r / 64 % 64, 0x80 + r % 64]
    else [0xF0 + r / 262144, 0x80 + r / 4096 % 64, 0x80 + r / 64 % 64, 0x80 + r % 64]
  }

  /** What a WriteRune method appends: the test of the sources for ASCII lets negative
      runes through, of which the lowest byte is written. */
  function RuneBytes(r: rune): (p: seq<byte>)
    ensures 1 <= |p| <= 4
  {
    if r < RUNE_SELF then [r % 256] else EncodeRune(r)
  }

  /** That is the encoding of r, except when r is negative. */
  lemma RuneBytesEncode(r: rune)
    ensures RuneBytes(r) == EncodeRune(r) <==> r >= 0
    ensures r >= RUNE_SELF ==> |RuneBytes(r)| >= 2
  {
  }

  function RuneLen(r: rune): (v: int) {
    if r < 0 then -1
    else if r < 0x80 then 1
    else if r < 0x800 then 2
    else if Surrogate(r) then -1
    else if r < 0x10000 then 3
    else if r <= MAX_RUNE then 4
    else -1
  }

  /** What is decoded from a full rune does not depend on what follows it. */
  lemma DecodePrefix(p: seq<byte>, more: seq<byte>)
    requires FullRune(p)
    ensures FullRune(p + more) && DecodeRune(p + more) == DecodeRune(p)
  {
  }

  /** Only as many bytes as make a full rune are needed; short of it decoding fails. */
  lemma DecodeShort(p: seq<byte>)
    requires p != [] && !FullRune(p)
    ensures DecodeRune(p) == (RUNE_ERROR, 1) && |p| <= 3
    ensures forall i :: 0 < i < |p| ==> Continues(p[i])
  {
  }

  lemma JoinSplit(r: rune)
    requires 0 <= r
    ensures r == Join(r / 262144, r / 4096 % 64, r / 64 % 64, r % 64)
  {
    assert r / 4096 == r / 64 / 64 && r / 262144 == r / 64 / 64 / 64;
  }

  lemma SplitJoin(a: int, b: int, c: int, d: int)
    requires 0 <= a && 0 <= b < 64 && 0 <= c < 64 && 0 <= d < 64
    ensures var r := Join(a, b, c, d);
      r / 262144 == a && r / 4096 % 64 == b && r / 64 % 64 == c && r % 64 == d && r / 64 == a * 4096 + b * 64 + c
      && r / 4096 == a * 64 + b
  {
    var r := Join(a, b, c, d);
    assert r / 64 == a * 4096 + b * 64 + c;
    assert r / 4096 == r / 64 / 64 == a * 64 + b;
    assert r / 262144 == r / 64 / 64 / 64;
  }

  lemma DecodeTwo(r: rune, more: seq<byte>)
    requires 0x80 <= r < 0x800
    ensures DecodeRune([0xC0 + r / 64, 0x80 + r % 64] + more) == (r, 2)
  {
    var p := [0xC0 + r / 64, 0x80 + r % 64] + more;
    assert p[0] % 32 == r / 64 && p[1] % 64 == r % 64;
    assert r == r / 64 * 64 + r % 64;
  }

  lemma DecodeThree(r: rune, a: int, b: int, c: int, more: seq<byte>)
    requires 0x800 <= r < 0x10000 && !Surrogate(r)
    requires r == Join(0, a, b, c) && 0 <= a && 0 <= b < 64 && 0 <= c < 64
    ensures DecodeRune([0xE0 + a, 0x80 + b, 0x80 + c] + more) == (r, 3) && a < 16
  {
    assert a < 16;
    var p := [0xE0 + a, 0x80 + b, 0x80 + c] + more;
    assert p[0] % 16 == a && p[1] % 64 == b && p[2] % 64 == c;
  }

  lemma DecodeFour(r: rune, a: int, b: int, c: int, d: int, more: seq<byte>)
    requires 0x10000 <= r <= MAX_RUNE
    requires r == Join(a, b, c, d) && 0 <= a && 0 <= b < 64 && 0 <= c < 64 && 0 <= d < 64
    ensures DecodeRune([0xF0 + a, 0x80 + b, 0x80 + c, 0x80 + d] + more) == (r, 4) && a < 5
  {
    assert a < 5;
    var p := [0xF0 + a, 0x80 + b, 0x80 + c, 0x80 + d] + more;
    assert p[0] % 8 == a && p[1] % 64 == b && p[2] % 64 == c && p[3] % 64 == d;
  }

  /** Decoding undoes encoding. */
  lemma DecodeEncode(r: rune, more: seq<byte>)
    requires ValidRune(r)
    ensures DecodeRune(EncodeRune(r) + more) == (r, RuneLen(r))
  {
    hide Join, DecodeRune;
    JoinSplit(r);
    if r < 0x80 {
      DecodeOne([r] + more);
    } else if r < 0x800 {
      DecodeTwo(r, more);
    } else if r < 0x10000 {
      assert r / 4096 % 64 == r / 4096 && r / 262144 == 0;
      DecodeThree(r, r / 4096, r / 64 % 64, r % 64, more);
    } else {
      DecodeFour(r, r / 262144, r / 4096 % 64, r / 64 % 64, r % 64, more);
    }
  }

  /** A byte below 0x80 is a rune of its own. */
  lemma DecodeOne(s: seq<byte>)
    requires s != [] && s[0] < 0x80
    ensures DecodeRune(s) == (s[0], 1) && FullRune(s)
  {
  }

  lemma EncodeTwo(a: int, b: int)
    requires 2 <= a < 32 && 0 <= b < 64
    ensures var r := Join(0, 0, a, b); 0x80 <= r < 0x800 && EncodeRune(r) == [0xC0 + a, 0x80 + b]
  {
    SplitJoin(0, 0, a, b);
  }

  lemma EncodeThree(a: int, b: int, c: int)
    requires 0 <= a < 16 && 0 <= b < 64 && 0 <= c < 64 && (a == 0 ==> b >= 32) && (a == 13 ==> b < 32)
    ensures var r := Join(0, a, b, c);
      0x800 <= r < 0x10000 && !Surrogate(r) && EncodeRune(r) == [0xE0 + a, 0x80 + b, 0x80 + c]
  {
    SplitJoin(0, a, b, c);
  }

  lemma EncodeFour(a: int, b: int, c: int, d: int)
    requires 0 <= a < 5 && 0 <= b < 64 && 0 <= c < 64 && 0 <= d < 64 && (a == 0 ==> b >= 16) && (a == 4 ==> b < 16)
    ensures var r := Join(a, b, c, d);
      0x10000 <= r <= MAX_RUNE && EncodeRune(r) == [0xF0 + a, 0x80 + b, 0x80 + c, 0x80 + d]
  {
    SplitJoin(a, b, c, d);
  }

  /** A decoded rune is valid, and encoding it gives its bytes back. */
  lemma EncodeDecode(p: seq<byte>)
    requires DecodeRune(p).1 > 1 || (p != [] && p[0] < RUNE_SELF)
    ensures var (r, n) := DecodeRune(p);
      ValidRune(r) && EncodeRune(r) == p[..n]
  {
    hide Join, EncodeRune;
    var n := DecodeRune(p).1;
    if n == 1 {
      EncodeOne(p[0]);
    } else if n == 2 {
      EncodeTwo(p[0] % 32, p[1] % 64);
    } else if n == 3 {
      EncodeThree(p[0] % 16, p[1] % 64, p[2] % 64);
    } else {
      EncodeFour(p[0] % 8, p[1] % 64, p[2] % 64, p[3] % 64);
    }
  }

  /** Decoding fails, with a width of one byte, exactly where no encoding begins. */
  lemma DecodeError(p: seq<byte>)
    requires p != []
    ensures DecodeRune(p) == (RUNE_ERROR, 1) <==> forall r | ValidRune(r) :: !(EncodeRune(r) <= p)
  {
    hide EncodeRune, Join;
    forall r | ValidRune(r) && EncodeRune(r) <= p
      ensures DecodeRune(p).0 == r && (r == RUNE_ERROR ==> DecodeRune(p).1 == 3)
    {
      DecodeEncode(r, p[|EncodeRune(r)|..]);
      assert EncodeRune(r) + p[|EncodeRune(r)|..] == p;
    }
    if DecodeRune(p).1 > 1 || p[0] < RUNE_SELF {
      EncodeDecode(p);
      assert EncodeRune(DecodeRune(p).0) <= p;
    }
  }

  lemma EncodeOne(b: byte)
    requires b < RUNE_SELF
    ensures EncodeRune(b) == [b]
  {
  }
}
