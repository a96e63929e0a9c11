/** The fused multiply-add of package math, on bit patterns. */
module FMA {
  import opened Arith
  import opened Word
  import opened Double

  function Nonzero(x: u64): (r: bit) { if x != 0 then 1 else 0 }
  function Zero(x: u64): (r: bit) { if x == 0 then 1 else 0 }

  /** A double word u1:u2. */
  function Wide(u: (u64, u64)): (v: nat) { u.0 * W64 + u.1 }

  function ShlWide(u1: u64, u2: u64, n: nat): (r: (u64, u64)) {
    (OrW(OrW(Shl(u1, n), Shr(u2, Minus(64, n))), Shl(u2, Minus(n, 64))), Shl(u2, n))
  }

  function ShrWide(u1: u64, u2: u64, n: nat): (r: (u64, u64)) {
    (Shr(u1, n), OrW(OrW(Shr(u2, n), Shl(u1, Minus(64, n))), Shr(u1, Minus(n, 64))))
  }

  function ShrCompress(u1: u64, u2: u64, n: nat): (r: (u64, u64)) {
    if n == 0 then (u1, u2)
    else if n == 64 then (0, OrW(u1, Nonzero(u2)))
    else if n >= 128 then (0, Nonzero(OrW(u1, u2)))
    else if n < 64 then
      var r := ShrWide(u1, u2, n);
      (r.0, OrW(r.1, Nonzero(AndW(u2, Minus(Shl(1, n), 1)))))
    else
      var r := ShrWide(u1, u2, n);
      (r.0, OrW(r.1, Nonzero(OrW(AndW(u1, Minus(Shl(1, n - 64), 1)), u2))))
  }

  function LzWide(u1: u64, u2: u64): (r: nat) {
    var l := LeadingZeros64(u1);
    if l == 64 then l + LeadingZeros64(u2) else l
  }

  /** Sign, biased exponent and mantissa; a subnormal mantissa is normalized and
      the exponent goes below 1 instead. */
  function Split(b: u64): (r: (u64, int, u64)) {
    var exp := AndW(Shr(b, 52), MASK);
    var mantissa := AndW(b, FRAC - 1);
    if exp == 0 then
      var shift := Minus(LeadingZeros64(mantissa), 11);
      (Shr(b, 63), 1 - shift, Shl(mantissa, shift))
    else
      (Shr(b, 63), exp, OrW(mantissa, Shl(1, 52)))
  }

  /** A signed double-word significand with its exponent. */
  datatype Term = Term(s: u64, e: int, hi: u64, lo: u64)

  function Product(x: u64, y: u64): (r: Term) {
    var (xs, xe, xm) := Split(x);
    var (ys, ye, ym) := Split(y);
    var pe := xe + ye - BIAS + 1;
    var pm := Mul64(Shl(xm, 10), Shl(ym, 11));
    var is62zero := AndW(Shr(Not(pm.0), 62), 1);
    var shifted := ShlWide(pm.0, pm.1, is62zero);
    Term(XorW(xs, ys), pe - is62zero, shifted.0, shifted.1)
  }

  function Addend(z: u64): (r: Term) {
    var (zs, ze, zm) := Split(z);
    Term(zs, ze, Shl(zm, 10), 0)
  }

  predicate Smaller(p: Term, z: Term) {
    p.e < z.e || (p.e == z.e && (p.hi < z.hi || (p.hi == z.hi && p.lo < z.lo)))
  }

  /** Aligns z under p (p not smaller), adds or subtracts, and leaves a mantissa
      with its top bit at position 62 whose lowest bit is sticky. */
  function Combine(p: Term, z: Term): (r: (int, u64))
    requires p.e >= z.e
  {
    var a := ShrCompress(z.hi, z.lo, p.e - z.e);
    if p.s == z.s then
      var lo := Add64(p.lo, a.1, 0);
      var hi := Add64(p.hi, a.0, lo.1).0;
      (p.e - Shr(Not(hi), 63), ShrCompress(hi, lo.0, 64 + Shr(hi, 63)).1)
    else
      var lo := Sub64(p.lo, a.1, 0);
      var hi := Sub64(p.hi, a.0, lo.1).0;
      var nz := LzWide(hi, lo.0);
      var m := ShlWide(hi, lo.0, Minus(nz, 1));
      (p.e - nz, OrW(m.0, Nonzero(m.1)))
  }

  /** Rounds a 63-bit mantissa to 53 bits, ties to even, and packs it. */
  function Round(s: u64, e: int, m: u64): (r: u64) {
    if e > 1022 + BIAS || (e == 1022 + BIAS && Shr(Plus(m, Shl(1, 9)), 63) == 1) then
      Plus(Shl(s, 63), INF)
    else
      var m' := if e < 0 then OrW(Shr(m, -e), Nonzero(AndW(m, Minus(Shl(1, -e), 1)))) else m;
      var r := AndW(Shr(Plus(m', Shl(1, 9)), 10), Not(Zero(XorW(AndW(m', Minus(Shl(1, 10), 1)), Shl(1, 9)))));
      var e' := if e < 0 || Nonzero(r) == 0 then 0 else e;
      Plus(Plus(Shl(s, 63), Shl(e', 52)), r)
  }

  /** The language leaves open which NaN a built-in operator returns. */
  datatype Outcome = AnyNaN | Bits(b: u64)

  /** The built-in multiplication. */
  function Times(x: u64, y: u64): (r: Outcome) {
    var s := if SignBit(x) == SignBit(y) then 0 else SIGN;
    if IsNaN(x) || IsNaN(y) || (IsInf(x) && Magnitude(y) == 0) || (Magnitude(x) == 0 && IsInf(y)) then AnyNaN
    else if IsInf(x) || IsInf(y) then Bits(s + INF)
    else Bits(s + RoundTo(Mul(Units(Magnitude(x)), Units(Magnitude(y))), 1074))
  }

  /** The built-in addition. */
  function Sum(a: u64, z: u64): (r: Outcome) {
    if IsNaN(a) || IsNaN(z) || (IsInf(a) && IsInf(z) && a != z) then AnyNaN
    else if IsInf(a) then Bits(a)
    else if IsInf(z) then Bits(z)
    else
      var n := SignedAt(a, 0) + SignedAt(z, 0);
      if n == 0 then Bits(if SignBit(a) == SignBit(z) == 1 then SIGN else 0)
      else Bits((if n < 0 then SIGN else 0) + RoundTo(Abs(n), 0))
  }

  function FMA(x: u64, y: u64, z: u64): (r: Outcome) {
    if x % SIGN == 0 || y % SIGN == 0 || z % SIGN == 0
       || AndW(x, INF) == INF || AndW(y, INF) == INF then
      var p := Times(x, y);
      if p == AnyNaN then AnyNaN else Sum(p.b, z)
    else if AndW(z, INF) == INF then
      Bits(z)
    else
      Bits(Fused(Product(x, y), Addend(z)))
  }

  function Fused(p: Term, z: Term): (r: u64) {
    var (big, small) := if Smaller(p, z) then (z, p) else (p, z);
    var (e, m) := Combine(big, small);
    Round(big.s, e, m)
  }

  // ---- what the double-word helpers compute

  /** Two double words with disjoint halves. */
  lemma Joined(a: u64, b: u64, k: nat)
    requires a % Pow2(k) == 0 && b < Pow2(k)
    ensures OrW(OrW(a, b), 0) == a + b && OrW(OrW(b, a), 0) == a + b
  {
    OrDisjoint(a, b, k);
    OrCommutes(b, a);
    OrZero(a + b);
  }

  lemma ShlWideCorrect(u1: u64, u2: u64, n: nat)
    requires n < 128 && Wide((u1, u2)) * Pow2(n) < W64 * W64
    ensures Wide(ShlWide(u1, u2, n)) == Wide((u1, u2)) * Pow2(n)
  {
    hide Pow2;
    hide ShlWide;
    var d := Pow2(n);
    Distribute(u1, u2, W64, d);
    if n < 64 {
      Bounded(u1 * d, u2 * d);
      ShlWideNear(u1, u2, n);
    } else {
      assert d == Pow2(n - 64) * W64 by { Pow2Add(n - 64, 64); W64IsPow2(); }
      Top(u1, u2, Pow2(n - 64), d);
      ShlWideFar(u2, n);
    }
  }

  lemma ShlWideNear(u1: u64, u2: u64, n: nat)
    requires n < 64 && u1 * Pow2(n) < W64
    ensures Wide(ShlWide(u1, u2, n)) == u1 * Pow2(n) * W64 + u2 * Pow2(n)
  {
    hide Pow2;
    hide Shl;
    hide Shr;
    hide High;
    hide Low;
    hide OrW;
    hide Minus;
    Counts(n);
    ShlFits(u1, n);
    ShlOut(u2, Minus(n, 64));
    ShrIsHigh(u2, 64 - n);
    ShlIsLow(u1, n);
    ShlIsLow(u2, n);
    Joined(Shl(u1, n), Shr(u2, 64 - n), n);
  }

  /** The shift counts below zero wrap to counts that clear the word. */
  lemma Counts(n: nat)
    requires n < 128
    ensures if n <= 64 then Minus(64, n) == 64 - n else Minus(64, n) >= 64
    ensures if n >= 64 then Minus(n, 64) == n - 64 else Minus(n, 64) >= 64
  {
  }

  lemma ShlWideFar(u2: u64, n: nat)
    requires 64 <= n < 128 && u2 * Pow2(n - 64) < W64
    ensures Wide(ShlWide(0, u2, n)) == u2 * Pow2(n - 64) * W64
  {
    hide Pow2;
    hide Shl;
    hide Shr;
    hide OrW;
    hide Minus;
    Counts(n);
    ShlOut(0, n);
    ShlOut(u2, n);
    ShlFits(u2, n - 64);
    OrCases(Shl(u2, n - 64));
    ShrIsHigh(u2, Minus(64, n));
    if n == 64 {
      HighLowZero(u2);
      Pow2Zero();
    }
  }

  lemma OrCases(x: u64)
    ensures OrW(OrW(0, x), x) == x && OrW(OrW(0, 0), x) == x && OrW(OrW(0, x), 0) == x
  {
    OrSelf(x);
    OrZero(x);
    OrZero(0);
  }

  lemma Distribute(a: nat, b: nat, w: nat, d: nat)
    ensures (a * w + b) * d == a * d * w + b * d
  {
  }

  lemma Bounded(a: nat, b: nat)
    requires a * W64 + b < W64 * W64
    ensures a < W64
  {
  }

  /** With a count of 64 or more only the low word survives. */
  lemma Top(u1: u64, u2: u64, c: nat, d: nat)
    requires c > 0 && d == c * W64 && u1 * d * W64 + u2 * d < W64 * W64
    ensures u1 == 0 && u2 * c < W64 && u2 * d == u2 * c * W64
  {
    assert u2 * d == u2 * c * W64;
    Bounded(u1 * d, u2 * d);
    MulMono(1, c, W64);
    if u1 > 0 {
      MulMono(1, u1, d);
    }
    Bounded(u2 * c, 0);
  }

  lemma ShrWideCorrect(u1: u64, u2: u64, n: nat)
    requires 0 < n < 128
    ensures Wide(ShrWide(u1, u2, n)) == High(Wide((u1, u2)), n)
    ensures Low(Wide((u1, u2)), n) == if n < 64 then Low(u2, n) else Low(u1, n - 64) * W64 + u2
  {
    hide Pow2;
    hide High;
    hide Low;
    hide ShrWide;
    if n < 64 {
      ShrWideNear(u1, u2, n);
      HighLow(u1, n);
      HighLow(u2, n);
      assert Pow2(n) * Pow2(64 - n) == W64 by { Pow2Add(n, 64 - n); W64IsPow2(); }
      Regroup(High(u1, n), Low(u1, n), High(u2, n), Low(u2, n), Pow2(n), Pow2(64 - n), W64);
      HighLowUnique(Wide((u1, u2)), n, High(u1, n) * W64 + Low(u1, n) * Pow2(64 - n) + High(u2, n), Low(u2, n));
    } else {
      var t := n - 64;
      ShrWideFar(u1, u2, n);
      HighLow(u1, t);
      assert Pow2(n) == Pow2(t) * W64 by { Pow2Add(t, 64); W64IsPow2(); }
      LowPart(Low(u1, t), u2, Pow2(t));
      Distribute(High(u1, t), Low(u1, t), Pow2(t), W64);
      MulAssoc(High(u1, t), Pow2(t), W64);
      MulSwap(High(u1, t), Pow2(t), W64);
      HighLowUnique(Wide((u1, u2)), n, High(u1, t), Low(u1, t) * W64 + u2);
    }
  }

  lemma ShrWideNear(u1: u64, u2: u64, n: nat)
    requires 0 < n < 64
    ensures Wide(ShrWide(u1, u2, n)) == High(u1, n) * W64 + Low(u1, n) * Pow2(64 - n) + High(u2, n)
  {
    hide Pow2;
    hide Shl;
    hide Shr;
    hide High;
    hide Low;
    hide OrW;
    hide Minus;
    Counts(n);
    ShrIsHigh(u1, n);
    ShrIsHigh(u2, n);
    ShrIsHigh(u1, Minus(n, 64));
    ShlIsLow(u1, 64 - n);
    Joined(Shl(u1, 64 - n), Shr(u2, n), 64 - n);
  }

  lemma ShrWideFar(u1: u64, u2: u64, n: nat)
    requires 64 <= n < 128
    ensures Wide(ShrWide(u1, u2, n)) == High(u1, n - 64)
  {
    hide Pow2;
    hide Shl;
    hide Shr;
    hide High;
    hide Low;
    hide OrW;
    hide Minus;
    Counts(n);
    ShrIsHigh(u1, n);
    ShrIsHigh(u2, n);
    ShrIsHigh(u1, n - 64);
    OrCases(High(u1, n - 64));
    OrCases(0);
    if n == 64 {
      HighLowZero(u1);
      Pow2Zero();
      ShlFits(u1, 0);
    } else {
      ShlOut(u1, Minus(64, n));
    }
  }

  lemma LowPart(l: nat, u2: u64, c: nat)
    requires l < c
    ensures l * W64 + u2 < c * W64
  {
  }

  lemma Regroup(h1: nat, l1: nat, h2: nat, l2: nat, c: nat, d: nat, w: nat)
    requires c * d == w
    ensures (h1 * c + l1) * w + (h2 * c + l2) == (h1 * w + l1 * d + h2) * c + l2
  {
    assert (h1 * c) * w == (h1 * w) * c;
    assert l1 * w == (l1 * d) * c;
  }

  /** The core of the alignment step: shifting a double word right and keeping
      one sticky bit, for every shift count. */
  lemma ShrCompressCorrect(u1: u64, u2: u64, n: nat)
    ensures Wide(ShrCompress(u1, u2, n)) == Sticky(Wide((u1, u2)), n)
  {
    hide Pow2;
    hide High;
    hide Low;
    hide ShrWide;
    hide OrW;
    if n == 0 {
      HighLowZero(Wide((u1, u2)));
    } else if n >= 128 {
      assert Wide((u1, u2)) < Pow2(n) by { Pow2Add(64, 64); W64IsPow2(); Pow2Mono(128, n); }
      HighLowUnique(Wide((u1, u2)), n, 0, Wide((u1, u2)));
      OrWNonzero(u1, u2);
    } else if n < 64 {
      ShrCompressNear(u1, u2, n);
    } else {
      ShrCompressFar(u1, u2, n);
    }
  }

  lemma ShrCompressNear(u1: u64, u2: u64, n: nat)
    requires 0 < n < 64
    ensures Wide(ShrCompress(u1, u2, n)) == Sticky(Wide((u1, u2)), n)
  {
    hide Pow2;
    hide High;
    hide Low;
    hide ShrWide;
    hide OrW;
    hide AndW;
    hide Minus;
    hide Shl;
    var r := ShrWide(u1, u2, n);
    ShrWideCorrect(u1, u2, n);
    Ones(n);
    MaskLow(u2, n);
    OrWBit(r.1, Nonzero(Low(u2, n)));
  }

  lemma MaskLow(u: u64, n: nat)
    requires n < 64
    ensures AndW(u, Minus(Shl(1, n), 1)) == Low(u, n) < W64
  {
    Ones(n);
    AndMask(u, n);
    LowIsMod(u, n);
  }

  lemma ShrCompressFar(u1: u64, u2: u64, n: nat)
    requires 64 <= n < 128
    ensures Wide(ShrCompress(u1, u2, n)) == Sticky(Wide((u1, u2)), n)
  {
    hide Pow2;
    hide High;
    hide Low;
    hide ShrWide;
    hide OrW;
    hide AndW;
    hide Minus;
    hide Shl;
    if n == 64 {
      ShrCompressWord(u1, u2);
    } else {
      hide Wide;
      ShrWideCorrect(u1, u2, n);
      LostFar(u1, u2, n);
      StickyWord(ShrWide(u1, u2, n), Nonzero(OrW(AndW(u1, Minus(Shl(1, n - 64), 1)), u2)));
    }
  }

  lemma LostFar(u1: u64, u2: u64, n: nat)
    requires 64 < n < 128
    ensures Nonzero(OrW(AndW(u1, Minus(Shl(1, n - 64), 1)), u2)) == 0 <==> Low(Wide((u1, u2)), n) == 0
  {
    hide Pow2, High, Low, ShrWide, OrW, AndW, Minus, Shl;
    ShrWideCorrect(u1, u2, n);
    MaskLow(u1, n - 64);
    OrWNonzero(Low(u1, n - 64), u2);
  }

  /** A lost bit makes a double word odd. */
  lemma StickyWord(r: (u64, u64), b: bit)
    ensures Wide((r.0, OrW(r.1, b))) == if b == 1 && Wide(r) % 2 == 0 then Wide(r) + 1 else Wide(r)
  {
    hide OrW;
    OrWBit(r.1, b);
  }

  lemma ShrCompressWord(u1: u64, u2: u64)
    ensures Wide(ShrCompress(u1, u2, 64)) == Sticky(Wide((u1, u2)), 64)
  {
    hide Pow2;
    hide High;
    hide Low;
    hide ShrWide;
    hide OrW;
    ShrWideCorrect(u1, u2, 64);
    HighLowZero(u1);
    OrWBit(u1, Nonzero(u2));
    ShrWideFar(u1, u2, 64);
  }

  lemma OrWNonzero(x: u64, y: u64)
    ensures OrW(x, y) == 0 <==> x == 0 && y == 0
  {
    OrNonzero(x, y);
  }

  lemma OrWBit(x: u64, b: bit)
    ensures OrW(x, b) == if b == 1 && x % 2 == 0 then x + 1 else x
  {
    OrBit(x, b);
  }

  lemma LowIsMod(a: nat, n: nat)
    ensures Low(a, n) == a % Pow2(n) <= a
  {
    HighLow(a, n);
    MulMono(0, High(a, n), Pow2(n));
  }

  lemma Ones(n: nat)
    requires n < 64
    ensures Shl(1, n) == Pow2(n) && Minus(Shl(1, n), 1) == Pow2(n) - 1
  {
    W64IsPow2();
    Pow2Mono(n, 63);
    Pow2Mono(n, 64);
    ShlFits(1, n);
  }

  lemma LzWideCorrect(u1: u64, u2: u64)
    requires Wide((u1, u2)) > 0
    ensures var l := LzWide(u1, u2); l < 128 && Pow2(127 - l) <= Wide((u1, u2)) < Pow2(128 - l)
  {
    hide Pow2;
    W64IsPow2();
    BitLenBounds(u1, 64);
    BitLenBounds(u2, 64);
    if u1 > 0 {
      var k := BitLen(u1);
      Pow2Add(k - 1, 64);
      Pow2Add(k, 64);
      MulMono(u1 + 1, Pow2(k), W64);
      MulMono(Pow2(k - 1), u1, W64);
    } else {
      assert BitLen(0) == 0;
    }
  }

  // ---- unpacking

  /** Split yields a mantissa with its top bit at position 52 and an exponent
      that make up the exact value. */
  lemma SplitCorrect(b: u64)
    requires Finite(b) && Magnitude(b) != 0
    ensures var (s, e, m) := Split(b);
            && s == SignBit(b) && -51 <= e <= 2046 && FRAC <= m < 2 * FRAC
            && m * Pow2(e + 51) == Units(Magnitude(b)) * FRAC
  {
    hide Pow2;
    hide Shr;
    hide Shl;
    hide AndW;
    hide OrW;
    hide LeadingZeros64;
    hide Minus;
    var p := Magnitude(b);
    Fields(b);
    SmallPowers();
    if p < FRAC {
      SplitSubnormal(p);
      Pow2Zero();
    } else {
      NormalUnits(p);
    }
  }

  lemma NormalUnits(p: pattern)
    requires FRAC <= p < INF
    ensures 1 <= p / FRAC <= 2046
    ensures Units(p) * Pow2(52) == (FRAC + p % FRAC) * Pow2(p / FRAC + 51)
  {
    hide Pow2;
    var t := p / FRAC - 1;
    Pow2Add(t, 52);
    MulAssoc(FRAC + p % FRAC, Pow2(t), Pow2(52));
  }

  lemma SplitSubnormal(p: pattern)
    requires 0 < p < FRAC
    ensures LeadingZeros64(p) >= 11
    ensures var n := Minus(LeadingZeros64(p), 11);
            1 <= n <= 52 && FRAC <= Shl(p, n) < 2 * FRAC && Shl(p, n) == p * Pow2(n)
            && Shl(p, n) * Pow2(52 - n) == p * Pow2(52)
  {
    hide Pow2;
    SmallPowers();
    BitLenBounds(p, 52);
    BitLenBounds(p, 0);
    var l := BitLen(p);
    var n := 53 - l;
    assert Minus(LeadingZeros64(p), 11) == n;
    Pow2Add(l - 1, n);
    Pow2Add(l, n);
    MulMono(Pow2(l - 1), p, Pow2(n));
    MulStrict(p, Pow2(l), Pow2(n));
    ShlFits(p, n);
    Pow2Add(n, 52 - n);
    MulAssoc(p, Pow2(n), Pow2(52 - n));
  }

  const P126: int := 0x4000_0000_0000_0000 * W64      // 2^126

  /** t is a normalized, even double word that stands for n units of 2^-2148. */
  ghost predicate Denotes(t: Term, n: int) {
    && t.s < 2 && -1125 <= t.e
    && SIGN <= 2 * t.hi && t.hi < SIGN && t.lo % 2 == 0
    && n * P126 == Wide((t.hi, t.lo)) * Pow2(t.e + 1125)
  }

  lemma AddendCorrect(z: u64)
    requires Finite(z) && Magnitude(z) != 0
    ensures Denotes(Addend(z), Fine(Magnitude(z))) && Addend(z).s == SignBit(z)
  {
    hide Pow2;
    hide Split;
    hide Shl;
    SplitCorrect(z);
    var (s, e, m) := Split(z);
    SmallPowers();
    ShlFits(m, 10);
    var p := Magnitude(z);
    FinerValue(p, 0, 1074);
    Pow2Add(e + 51, 1074);
    ScaleEquation(m, Pow2(e + 51), Units(p), Pow2(1074));
  }

  lemma ScaleEquation(m: nat, c: nat, u: nat, k: nat)
    requires m * c == u * FRAC
    ensures u * k * P126 == m * 1024 * W64 * (c * k)
  {
    assert m * 1024 * W64 * (c * k) == (m * c) * k * (1024 * W64);
    assert u * k * P126 == u * FRAC * k * (1024 * W64);
  }

  lemma ProductCorrect(x: u64, y: u64)
    requires Finite(x) && Magnitude(x) != 0 && Finite(y) && Magnitude(y) != 0
    ensures Denotes(Product(x, y), Units(Magnitude(x)) * Units(Magnitude(y)))
    ensures Product(x, y).s == (if SignBit(x) == SignBit(y) then 0 else 1)
  {
    hide Pow2;
    hide Split;
    hide Product;
    hide Units;
    SplitCorrect(x);
    SplitCorrect(y);
    var (xs, xe, xm) := Split(x);
    var (ys, ye, ym) := Split(y);
    ProductWide(x, y);
    var i := xe + ye - 1022 - Product(x, y).e;
    ExponentSum(xe, ye, i);
    ProductEquation(xm, Pow2(xe + 51), Units(Magnitude(x)), ym, Pow2(ye + 51), Units(Magnitude(y)),
                    Pow2(i), Pow2(xe + ye + 103 - i));
  }

  lemma Rescaled(xm: nat, ym: nat, x': nat, y': nat)
    requires x' == xm * 1024 && y' == ym * 2048
    ensures x' * y' == (xm * 1024) * (ym * 2048) == xm * ym * 0x20_0000
  {
    calc {
      (xm * 1024) * (ym * 2048);
      xm * (1024 * ym) * 2048;
      xm * ym * 0x20_0000;
    }
  }

  lemma ProductWide(x: u64, y: u64)
    requires var (s, e, m) := Split(x); s < 2 && FRAC <= m < 2 * FRAC
    requires var (s, e, m) := Split(y); s < 2 && FRAC <= m < 2 * FRAC
    ensures var (xs, xe, xm) := Split(x); var (ys, ye, ym) := Split(y);
            var p := Product(x, y);
            var i := xe + ye - 1022 - p.e;
            && 0 <= i <= 1 && SIGN <= 2 * p.hi && p.hi < SIGN && p.lo % 2 == 0
            && Wide((p.hi, p.lo)) == xm * ym * 0x20_0000 * Pow2(i)
            && p.s == if xs == ys then 0 else 1
  {
    hide Pow2;
    hide Split;
    hide Shl;
    hide Shr;
    hide AndW;
    hide ShlWide;
    hide Mul64;
    hide XorW;
    var (xs, xe, xm) := Split(x);
    var (ys, ye, ym) := Split(y);
    SmallPowers();
    ShlFits(xm, 10);
    ShlFits(ym, 11);
    var pm := Mul64(Shl(xm, 10), Shl(ym, 11));
    Rescaled(xm, ym, Shl(xm, 10), Shl(ym, 11));
    ProductRange(xm, ym, pm.0, pm.1);
    var i := AndW(Shr(Not(pm.0), 62), 1);
    Bit62(pm.0);
    assert Pow2(i) == i + 1 by { Pow2One(); Pow2Zero(); }
    assert Wide(pm) * Pow2(i) < W64 * W64;
    ShlWideCorrect(pm.0, pm.1, i);
    XorSigns(xs, ys);
    var p := Product(x, y);
    Normalized(pm.0, pm.1, i, p.hi, p.lo);
  }

  lemma Normalized(hi: u64, lo: u64, i: u64, hi': u64, lo': u64)
    requires 0x2000_0000_0000_0000 <= hi < SIGN && lo % 4 == 0
    requires i == if 2 * hi < SIGN then 1 else 0
    requires hi' * W64 + lo' == if i == 0 then hi * W64 + lo else 2 * (hi * W64 + lo)
    ensures SIGN <= 2 * hi' && hi' < SIGN && lo' % 2 == 0
  {
    if i == 0 {
      SameWord(hi', lo', hi, lo);
      EvenQuarter(lo);
    } else {
      DoubleWord(hi', lo', hi, lo);
      TopAt62(hi', hi);
    }
  }

  lemma EvenQuarter(lo: nat)
    requires lo % 4 == 0
    ensures lo % 2 == 0
  {
    DivMod(lo, 4);
    DivModUnique(lo, 2, 2 * (lo / 4), 0);
  }

  lemma TopAt62(hi': nat, hi: nat)
    requires 0x2000_0000_0000_0000 <= hi && 2 * hi < SIGN && 2 * hi <= hi' <= 2 * hi + 1
    ensures SIGN <= 2 * hi' && hi' < SIGN
  {
  }

  lemma SameWord(hi': u64, lo': u64, hi: u64, lo: u64)
    requires hi' * W64 + lo' == hi * W64 + lo
    ensures hi' == hi && lo' == lo
  {
    DivModUnique(hi' * W64 + lo', W64, hi', lo');
    DivModUnique(hi * W64 + lo, W64, hi, lo);
  }

  lemma DoubleWord(hi': u64, lo': u64, hi: u64, lo: u64)
    requires hi' * W64 + lo' == 2 * (hi * W64 + lo) && 2 * hi < SIGN
    ensures 2 * hi <= hi' <= 2 * hi + 1 && lo' % 2 == 0
  {
    var c := if 2 * lo < W64 then 0 else 1;
    DivModUnique(hi' * W64 + lo', W64, hi', lo');
    DivModUnique(hi' * W64 + lo', W64, 2 * hi + c, 2 * lo - c * W64);
  }

  lemma XorSigns(a: u64, b: u64)
    requires a < 2 && b < 2
    ensures XorW(a, b) == if a == b then 0 else 1
  {
    XorZero(a, b);
    assert Xor(1, 0) == 1 && Xor(0, 1) == 1;
    assert a != b ==> (a == 1 && b == 0) || (a == 0 && b == 1);
  }

  lemma ProductRange(xm: nat, ym: nat, hi: u64, lo: u64)
    requires FRAC <= xm < 2 * FRAC && FRAC <= ym < 2 * FRAC
    requires hi * W64 + lo == (xm * 1024) * (ym * 2048)
    ensures hi * W64 + lo == xm * ym * 0x20_0000
    ensures 0x2000_0000_0000_0000 <= hi < SIGN && lo % 4 == 0
  {
    MulMono(FRAC, xm, FRAC);
    MulMono(FRAC, ym, xm);
    MulStrict(xm, 2 * FRAC, ym);
    MulStrict(ym, 2 * FRAC, 2 * FRAC);
    Rescaled(xm, ym, xm * 1024, ym * 2048);
    WordsOf(xm * ym, hi, lo);
  }

  lemma WordsOf(t: nat, hi: u64, lo: u64)
    requires FRAC * FRAC <= t < 4 * FRAC * FRAC && hi * W64 + lo == t * 0x20_0000
    ensures 0x2000_0000_0000_0000 <= hi < SIGN && lo % 4 == 0
  {
  }

  lemma Bit62(hi: u64)
    requires hi < SIGN
    ensures AndW(Shr(Not(hi), 62), 1) == if 2 * hi < SIGN then 1 else 0
  {
    hide Pow2;
    SmallPowers();
    var t := Shr(Not(hi), 62);
    assert t == if 2 * hi < SIGN then 3 else 2;
    assert And(3, 1) == 1 && And(2, 1) == 0;
  }

  lemma ExponentSum(xe: int, ye: int, i: nat)
    requires xe >= -51 && ye >= -51 && i <= 1
    ensures Pow2(i) * Pow2(xe + ye + 103 - i) == Pow2(xe + 51) * Pow2(ye + 51) * 2
  {
    hide Pow2;
    Pow2Add(i, xe + ye + 103 - i);
    Pow2Add(xe + 51, ye + 51);
    Pow2Add(xe + ye + 102, 1);
    Pow2One();
  }

  lemma ProductEquation(xm: nat, xc: nat, ux: nat, ym: nat, yc: nat, uy: nat, c: nat, d: nat)
    requires xm * xc == ux * FRAC && ym * yc == uy * FRAC
    requires c * d == xc * yc * 2
    ensures ux * uy * P126 == xm * ym * 0x20_0000 * c * d
  {
    assert xm * ym * 0x20_0000 * c * d == (xm * ym) * (c * d) * 0x20_0000;
    assert (xm * ym) * (xc * yc) == (xm * xc) * (ym * yc);
    assert (ux * FRAC) * (uy * FRAC) == ux * uy * (FRAC * FRAC);
  }

  // ---- adding and subtracting aligned terms

  function Word128(t: Term): (r: nat) { Wide((t.hi, t.lo)) }

  /** Both terms over the smaller exponent. */
  lemma Aligned(p: Term, z: Term, np: int, nz: int)
    requires Denotes(p, np) && Denotes(z, nz) && p.e >= z.e
    ensures var d, c := Pow2(p.e - z.e), Pow2(z.e + 1125);
            && (np + nz) * P126 == (Word128(p) * d + Word128(z)) * c
            && (np - nz) * P126 == (Word128(p) * d - Word128(z)) * c
  {
    hide Pow2;
    hide Wide;
    Pow2Add(p.e - z.e, z.e + 1125);
    var d, c := Pow2(p.e - z.e), Pow2(z.e + 1125);
    Combined(Word128(p), d, Word128(z), c);
  }

  lemma Combined(w: nat, d: nat, v: nat, c: nat)
    ensures (w * d + v) * c == w * (d * c) + v * c
    ensures (w * d - v) * c == w * (d * c) - v * c
  {
  }

  /** A mantissa of 63 bits stands for n units, with a sticky lowest bit. */
  ghost predicate Condenses(r: (int, u64), n: nat) {
    r.0 + 1190 >= 0 && SIGN <= 2 * r.1 && r.1 < SIGN && r.1 == Sticky(n * P126, r.0 + 1190)
  }

  lemma CombineSum(p: Term, z: Term, np: nat, nz: nat)
    requires Denotes(p, np) && Denotes(z, nz) && p.e >= z.e && p.s == z.s
    ensures Condenses(Combine(p, z), np + nz)
  {
    hide Pow2;
    hide Combine;
    hide Sticky;
    var d, j := p.e - z.e, z.e + 1125;
    var b := Word128(p) * Pow2(d) + Word128(z);
    var (e, m) := Combine(p, z);
    var s := Word128(p) + Sticky(Word128(z), d);
    Aligned(p, z, np, nz);
    SumWords(p, z);
    StickyAdd(Word128(p), Word128(z), d);
    var n := e + 1190 - d - j;
    StickyCompose(b, d, n);
    StickyScale(b, j, d + n);
  }

  /** The add branch computes a sticky shift of the 128-bit sum. */
  lemma SumWords(p: Term, z: Term)
    requires p.e >= z.e && p.s == z.s && p.e >= -1125
    requires SIGN <= 2 * p.hi && p.hi < SIGN && z.hi < SIGN
    ensures var (e, m) := Combine(p, z);
            var n := e - p.e + 65;
            && 64 <= n <= 65 && SIGN <= 2 * m && m < SIGN
            && m == Sticky(Word128(p) + Sticky(Word128(z), p.e - z.e), n)
  {
    hide Pow2;
    hide Sticky;
    hide ShrCompress;
    hide Shr;
    hide Add64;
    var a := ShrCompress(z.hi, z.lo, p.e - z.e);
    ShrCompressCorrect(z.hi, z.lo, p.e - z.e);
    StickyBounds(Word128(z), p.e - z.e);
    var lo := Add64(p.lo, a.1, 0);
    var hi := Add64(p.hi, a.0, lo.1).0;
    AddWords(p.hi, p.lo, a.0, a.1);
    ShrCompressCorrect(hi, lo.0, 64 + Shr(hi, 63));
    TopBit(hi);
    TopPart(hi, lo.0);
    var r := ShrCompress(hi, lo.0, 64 + Shr(hi, 63));
    assert r.0 == 0;
  }

  lemma AddWords(u1: u64, u2: u64, v1: u64, v2: u64)
    requires SIGN <= 2 * u1 && u1 < SIGN && Wide((v1, v2)) <= SIGN * W64
    ensures var lo := Add64(u2, v2, 0); var hi := Add64(u1, v1, lo.1).0;
            Wide((hi, lo.0)) == Wide((u1, u2)) + Wide((v1, v2)) && SIGN <= 2 * hi
  {
  }

  lemma TopBit(hi: u64)
    ensures Shr(hi, 63) == (if hi >= SIGN then 1 else 0) && Shr(Not(hi), 63) == 1 - Shr(hi, 63)
  {
    hide Pow2;
    SmallPowers();
  }

  lemma TopPart(hi: u64, lo: u64)
    requires SIGN <= 2 * hi
    ensures var m := Sticky(Wide((hi, lo)), 64 + Shr(hi, 63)); SIGN <= 2 * m && m < SIGN
  {
    hide Pow2;
    hide High;
    hide Low;
    hide Shr;
    TopBit(hi);
    W64IsPow2();
    var w := Wide((hi, lo));
    HighLowUnique(w, 64, hi, lo);
    HighLowAdd(w, 64, 1);
    assert High(hi, 1) == hi / 2 by { Pow2One(); HighLowHalf(hi, 1); HighLowZero(hi / 2); }
  }

  lemma CombineDifference(p: Term, z: Term, np: nat, nz: nat)
    requires Denotes(p, np) && Denotes(z, nz) && p.e >= z.e && p.s != z.s && np > nz
    ensures Condenses(Combine(p, z), np - nz)
  {
    hide Pow2;
    hide Combine;
    hide Sticky;
    hide Word128;
    var d, j, a := p.e - z.e, z.e + 1125, (np - nz) * P126;
    var b := Word128(p) * Pow2(d) - Word128(z);
    Aligned(p, z, np, nz);
    PositiveFactor(b, Pow2(j), a);
    var (e, m) := Combine(p, z);
    var s := Word128(p) - Sticky(Word128(z), d);
    assert Word128(p) % 2 == 0 by { Word128Even(p); }
    StickySub(Word128(p), Word128(z), d);
    StickyBounds(b, d);
    DifferenceWords(p, z, s);
    if p.e - e <= 65 {
      ShallowCancellation(s, b, p.e - e, d, j, m, a);
    } else {
      NoLoss(p, z, s, p.e - e);
      DeepCancellation(s, p.e - e, d, j, m, a);
    }
  }

  lemma Word128Even(t: Term)
    requires t.lo % 2 == 0
    ensures Word128(t) % 2 == 0
  {
    var half := W64 / 2;
    assert t.hi * W64 == 2 * (t.hi * half);
    DivModUnique(Word128(t), 2, t.hi * half + t.lo / 2, 0);
  }

  lemma ShallowCancellation(s: nat, b: nat, l: nat, d: nat, j: nat, m: nat, a: nat)
    requires 1 <= l <= 65 && s == Sticky(b, d) && m == Sticky(s * Pow2(l - 1), 64) && a == b * Pow2(j)
    ensures m == Sticky(a, d + j + 65 - l)
  {
    hide Pow2;
    hide Sticky;
    StickyScale(s, l - 1, 65 - l);
    StickyCompose(b, d, 65 - l);
    StickyScale(b, j, d + 65 - l);
  }

  lemma PositiveFactor(b: int, c: nat, a: nat)
    requires a > 0 && a == b * c
    ensures b > 0
  {
    if b <= 0 {
      MulMono(0, -b, c);
    }
  }

  /** The mantissa is s, shifted until its top bit is at position 62. */
  ghost predicate Normalizes(r: (int, u64), pe: int, s: nat) {
    var l := pe - r.0;
    && 1 <= l < 128 && Pow2(127 - l) <= s < Pow2(128 - l)
    && SIGN <= 2 * r.1 && r.1 < SIGN && r.1 == Sticky(s * Pow2(l - 1), 64)
  }

  /** The subtract branch normalizes the difference s by its leading zeros. */
  lemma DifferenceWords(p: Term, z: Term, s: nat)
    requires p.e >= z.e && p.s != z.s && p.hi < SIGN
    requires s > 0 && s == Word128(p) - Sticky(Word128(z), p.e - z.e)
    ensures Normalizes(Combine(p, z), p.e, s)
  {
    hide Pow2;
    hide Sticky;
    hide ShrCompress;
    hide ShlWide;
    hide LzWide;
    hide OrW;
    hide Sub64;
    var a := ShrCompress(z.hi, z.lo, p.e - z.e);
    ShrCompressCorrect(z.hi, z.lo, p.e - z.e);
    var lo := Sub64(p.lo, a.1, 0);
    var hi := Sub64(p.hi, a.0, lo.1).0;
    SubWords(p.hi, p.lo, a.0, a.1);
    LzWideCorrect(hi, lo.0);
    var l := LzWide(hi, lo.0);
    LeadingPosition(s, l);
    ShlWideCorrect(hi, lo.0, l - 1);
    var r := ShlWide(hi, lo.0, l - 1);
    StickyTop(r.0, r.1);
  }

  lemma SubWords(u1: u64, u2: u64, v1: u64, v2: u64)
    requires u1 < SIGN && Wide((v1, v2)) <= Wide((u1, u2))
    ensures var lo := Sub64(u2, v2, 0); var hi := Sub64(u1, v1, lo.1).0;
            Wide((hi, lo.0)) == Wide((u1, u2)) - Wide((v1, v2))
  {
  }

  lemma LeadingPosition(s: nat, l: nat)
    requires s < SIGN * W64 && l < 128 && Pow2(127 - l) <= s < Pow2(128 - l)
    ensures 1 <= l && P126 <= s * Pow2(l - 1) < 2 * P126
  {
    hide Pow2;
    SmallPowers();
    W64IsPow2();
    assert Pow2(126) == P126 by { Pow2Add(62, 64); }
    assert Pow2(127) == 2 * P126 by { Pow2Add(63, 64); }
    if l == 0 {
    } else {
      Pow2Add(127 - l, l - 1);
      Pow2Add(128 - l, l - 1);
      MulMono(Pow2(127 - l), s, Pow2(l - 1));
      MulStrict(s, Pow2(128 - l), Pow2(l - 1));
    }
  }

  lemma StickyTop(hi: u64, lo: u64)
    requires P126 <= Wide((hi, lo)) < 2 * P126
    ensures var m := OrW(hi, Nonzero(lo)); m == Sticky(Wide((hi, lo)), 64) && SIGN <= 2 * m && m < SIGN
  {
    hide Pow2;
    hide High;
    hide Low;
    hide OrW;
    W64IsPow2();
    HighLowUnique(Wide((hi, lo)), 64, hi, lo);
    OrWBit(hi, Nonzero(lo));
  }

  /** After deep cancellation the exponents differed by at most one, so that the
      alignment lost no bit. */
  lemma NoLoss(p: Term, z: Term, s: nat, l: nat)
    requires p.e >= z.e && SIGN <= 2 * p.hi && z.hi < SIGN && z.lo % 2 == 0
    requires s == Word128(p) - Sticky(Word128(z), p.e - z.e)
    requires 65 < l < 128 && s < Pow2(128 - l)
    ensures s * Pow2(p.e - z.e) == Word128(p) * Pow2(p.e - z.e) - Word128(z)
  {
    hide Pow2;
    hide High;
    hide Low;
    var d, v := p.e - z.e, Word128(z);
    SmallPowers();
    Pow2Mono(128 - l, 62);
    Word128Even(z);
    if d >= 2 {
      QuarterBound(v, d);
      assert false;
    } else {
      NothingLost(Word128(p), v, d);
    }
  }

  lemma NothingLost(w: nat, v: nat, d: nat)
    requires d < 2 && v % 2 == 0 && High(v, d) <= w
    ensures Low(v, d) == 0 && (w - Sticky(v, d)) * Pow2(d) == w * Pow2(d) - v
  {
    hide Pow2;
    hide High;
    hide Low;
    if d == 0 {
      HighLowZero(v);
    } else {
      HighLowHalf(v, 1);
      HighLowZero(v / 2);
    }
    HighLow(v, d);
    assert (w - High(v, d)) * Pow2(d) == w * Pow2(d) - High(v, d) * Pow2(d);
  }

  lemma QuarterBound(v: nat, d: nat)
    requires d >= 2
    ensures Sticky(v, d) <= v / 4 + 1
  {
    hide High;
    hide Low;
    hide Pow2;
    HighLowAdd(v, 2, d - 2);
    HighLeq(High(v, 2), d - 2);
    HighQuarter(v);
  }

  lemma HighLeq(v: nat, n: nat)
    ensures High(v, n) <= v
  {
    hide High;
    hide Low;
    HighLow(v, n);
    ProductZero(High(v, n), Pow2(n));
  }

  lemma HighQuarter(v: nat)
    ensures High(v, 2) == v / 4
  {
  }

  lemma DeepCancellation(s: nat, l: nat, d: nat, j: nat, m: nat, a: nat)
    requires 65 < l < 128 && s < Pow2(128 - l)
    requires m == Sticky(s * Pow2(l - 1), 64) && a == s * Pow2(d) * Pow2(j) && a >= P126
    ensures d + j + 65 - l >= 0 && m == Sticky(a, d + j + 65 - l)
  {
    hide Pow2;
    hide Sticky;
    Pow2Add(d, j);
    MulAssoc(s, Pow2(d), Pow2(j));
    assert Pow2(126) == P126 by { SmallPowers(); W64IsPow2(); Pow2Add(62, 64); }
    if d + j + 65 - l < 0 {
      Pow2Add(128 - l, d + j);
      MulStrict(s, Pow2(128 - l), Pow2(d + j));
      Pow2Mono(128 - l + d + j, 126);
      assert false;
    }
    var t, k := d + j + 65 - l, s * Pow2(l - 65);
    Pow2Add(l - 65, 64);
    MulAssoc(s, Pow2(l - 65), Pow2(64));
    StickyScale(k, 64, 0);
    StickyZero(k);
    Pow2Add(l - 65, t);
    MulAssoc(s, Pow2(l - 65), Pow2(t));
    StickyScale(k, t, 0);
  }

  // ---- rounding and packing

  /** The bit trick of the source rounds to nearest even at position 10. */
  lemma RoundTrick(m: u64)
    requires m <= SIGN
    ensures AndW(Shr(Plus(m, Shl(1, 9)), 10), Not(Zero(XorW(AndW(m, Minus(Shl(1, 10), 1)), Shl(1, 9)))))
         == RoundShift(m, 10)
  {
    hide Pow2;
    hide AndW;
    hide XorW;
    SmallPowers();
    ShlFits(1, 9);
    ShlFits(1, 10);
    LowTen(m);
    TieTest(m % 1024);
    ClearLow((m + 512) / 1024);
    Carry10(m);
  }

  lemma LowTen(m: u64)
    ensures AndW(m, 1023) == m % 1024
  {
    hide Pow2;
    SmallPowers();
    AndMask(m, 10);
  }

  lemma TieTest(r: u64)
    ensures XorW(r, 512) == 0 <==> r == 512
  {
    XorZero(r, 512);
  }

  lemma ClearLow(v: u64)
    ensures AndW(v, Not(1)) == v - v % 2 && AndW(v, Not(0)) == v
  {
    AndClearLow(v);
  }

  lemma Carry10(m: nat)
    ensures (m + 512) / 1024 == m / 1024 + (if m % 1024 >= 512 then 1 else 0)
  {
  }

  /** The sticky shift of a single word that makes room for a subnormal result. */
  lemma Denormalize(m: u64, n: nat)
    requires n > 0
    ensures OrW(Shr(m, n), Nonzero(AndW(m, Minus(Shl(1, n), 1)))) == Sticky(m, n)
  {
    hide Pow2;
    hide High;
    hide Low;
    hide OrW;
    hide AndW;
    hide Shr;
    hide Shl;
    hide Minus;
    ShrIsHigh(m, n);
    if n < 64 {
      MaskLow(m, n);
    } else {
      assert AndW(m, Minus(Shl(1, n), 1)) == m by { ShlOut(1, n); AllOnes(m); }
      assert m < Pow2(n) by { W64IsPow2(); Pow2Mono(64, n); }
      HighLowUnique(m, n, 0, m);
    }
    OrWBit(Shr(m, n), Nonzero(AndW(m, Minus(Shl(1, n), 1))));
  }

  lemma AllOnes(m: u64)
    ensures AndW(m, Minus(0, 1)) == m
  {
    AndClearLow(m);
  }

  /** What Round packs, in arithmetic terms. */
  lemma RoundPacks(s: u64, e: int, m: u64)
    requires s < 2 && SIGN <= 2 * m && m < SIGN
    ensures var m' := if e < 0 then Sticky(m, -e) else m;
            var p := if e > 2045 then INF else (if e < 0 then 0 else e) * FRAC + RoundShift(m', 10);
            p <= INF && Round(s, e, m) == s * SIGN + p
  {
    hide Pow2;
    hide AndW;
    hide XorW;
    hide OrW;
    hide Shr;
    hide Shl;
    hide RoundShift;
    hide Sticky;
    if e < 0 {
      RoundPacksSmall(s, e, m);
    } else {
      assert Shl(s, 63) == s * SIGN by { SmallPowers(); ShlFits(s, 63); }
      assert Shl(1, 9) == 512 by { SmallPowers(); ShlFits(1, 9); }
      CarryOut(m);
      if e <= 2045 {
        RoundTrick(m);
        RoundRange(m);
        assert Shl(e, 52) == e * FRAC by { SmallPowers(); ShlFits(e, 52); }
      }
    }
  }

  lemma RoundPacksSmall(s: u64, e: int, m: u64)
    requires s < 2 && SIGN <= 2 * m && m < SIGN && e < 0
    ensures var p := RoundShift(Sticky(m, -e), 10); p <= INF && Round(s, e, m) == s * SIGN + p
  {
    hide Pow2;
    hide AndW;
    hide XorW;
    hide OrW;
    hide Shr;
    hide Shl;
    hide RoundShift;
    hide Sticky;
    assert Shl(s, 63) == s * SIGN by { SmallPowers(); ShlFits(s, 63); }
    assert Shl(1, 9) == 512 by { SmallPowers(); ShlFits(1, 9); }
    Denormalize(m, -e);
    StickyShrinks(m, -e);
    RoundTrick(Sticky(m, -e));
    RoundRange(Sticky(m, -e));
    assert Shl(0, 52) == 0 by { SmallPowers(); ShlFits(0, 52); }
  }

  lemma StickyShrinks(m: nat, n: nat)
    requires m < SIGN
    ensures Sticky(m, n) <= SIGN
  {
    StickyBounds(m, n);
  }

  lemma RoundRange(m: nat)
    requires m <= SIGN
    ensures RoundShift(m, 10) <= 2 * FRAC
    ensures 2 * m >= SIGN ==> RoundShift(m, 10) >= FRAC
    ensures RoundShift(m, 10) == 2 * FRAC <==> m + 512 >= SIGN
  {
    hide Pow2;
    SmallPowers();
  }

  lemma CarryOut(m: u64)
    requires m < SIGN
    ensures Shr(Plus(m, 512), 63) == 1 <==> m + 512 >= SIGN
  {
    TopBit(m + 512);
  }

  /** From a sticky mantissa to the correctly rounded magnitude. */
  lemma RoundCorrect(s: u64, e: int, m: u64, n: nat)
    requires s < 2 && e + 1190 >= 0 && SIGN <= 2 * m && m < SIGN
    requires m == Sticky(n * P126, e + 1190)
    ensures var b := Round(s, e, m);
            && SignBit(b) == s && !IsNaN(b)
            && forall g: pattern :: BeatsMagnitude(n, 1074, Magnitude(b), g)
  {
    hide Pow2;
    hide Round;
    hide RoundShift;
    hide Sticky;
    hide ValueAt;
    RoundPacks(s, e, m);
    MantissaRange(e, m, n);
    forall g: pattern
      ensures BeatsMagnitude(n, 1074, Magnitude(Round(s, e, m)), g)
    {
      if e > 2045 {
        OverflowNearest(n, 1074, g);
      } else {
        RoundedOnce(e, m, n);
        GridNearest(n, 1074, if e < 0 then 0 else e, g);
      }
    }
  }

  /** Rounding the sticky mantissa is rounding the exact value, once. */
  lemma RoundedOnce(e: int, m: nat, n: nat)
    requires e + 1190 >= 0 && m == Sticky(n * P126, e + 1190)
    ensures var m' := if e < 0 then Sticky(m, -e) else m;
            RoundShift(m', 10) == RoundShift(n, (if e < 0 then 0 else e) + 1074)
  {
    hide Pow2;
    hide RoundShift;
    hide Sticky;
    var a := n * P126;
    assert Pow2(126) == P126 by { SmallPowers(); W64IsPow2(); Pow2Add(62, 64); }
    if e < 0 {
      StickyCompose(a, e + 1190, -e);
      StickyRound(a, 1190, 10);
      RoundShiftScale(n, 1074, 126);
    } else {
      StickyRound(a, e + 1190, 10);
      RoundShiftScale(n, e + 1074, 126);
    }
  }

  /** The position of the mantissa's top bit bounds the exact value. */
  lemma MantissaRange(e: int, m: nat, n: nat)
    requires e + 1190 >= 0 && SIGN <= 2 * m && m < SIGN && m == Sticky(n * P126, e + 1190)
    ensures n < 2 * FRAC * Pow2((if e < 0 then 0 else e) + 1074)
    ensures e >= 0 ==> FRAC * Pow2(e + 1074) <= n
    ensures e > 2045 ==> n >= Fine(INF)
  {
    hide Pow2;
    hide Sticky;
    assert Pow2(126) == P126 by { SmallPowers(); W64IsPow2(); Pow2Add(62, 64); }
    TopBitRange(n * P126, m, e + 1190);
    if e >= 0 {
      RangeNormal(e, n);
    } else {
      RangeSmall(e, n);
    }
  }

  lemma TopBitRange(a: nat, m: nat, k: nat)
    requires SIGN <= 2 * m && m < SIGN && m == Sticky(a, k)
    ensures Pow2(62 + k) <= a < Pow2(63 + k)
  {
    hide Pow2;
    hide High;
    hide Low;
    var q := High(a, k);
    HighLow(a, k);
    assert SIGN <= 2 * q && q < SIGN;
    SmallPowers();
    Pow2Add(63, k);
    Pow2Add(62, k);
    Within(a, q, Low(a, k), Pow2(k));
  }

  lemma Within(a: nat, q: nat, r: nat, c: nat)
    requires a == q * c + r && r < c && SIGN <= 2 * q && q < SIGN
    ensures SIGN / 2 * c <= a < SIGN * c
  {
    MulMono(SIGN / 2, q, c);
    MulMono(q + 1, SIGN, c);
  }

  lemma RangeNormal(e: nat, n: nat)
    requires Pow2(e + 1252) <= n * Pow2(126) < Pow2(e + 1253)
    ensures FRAC * Pow2(e + 1074) <= n < 2 * FRAC * Pow2(e + 1074)
    ensures e > 2045 ==> n >= Fine(INF)
  {
    hide Pow2;
    SmallPowers();
    Pow2Add(e + 1126, 126);
    Pow2Add(e + 1127, 126);
    Cancel(n, Pow2(e + 1126), Pow2(e + 1127), Pow2(126));
    Pow2Add(52, e + 1074);
    Pow2Add(53, e + 1074);
    if e > 2045 {
      InfinityValue();
      Pow2Mono(52 + 2046 + 1074, e + 1126);
    }
  }

  lemma RangeSmall(e: int, n: nat)
    requires -1190 <= e < 0 && n * Pow2(126) < Pow2(e + 1253)
    ensures n < 2 * FRAC * Pow2(1074)
  {
    hide Pow2;
    SmallPowers();
    Pow2Mono(e + 1253, 53 + 1074 + 126);
    Pow2Add(53 + 1074, 126);
    Cancel(n, 0, Pow2(53 + 1074), Pow2(126));
    Pow2Add(53, 1074);
  }

  lemma Cancel(n: nat, lo: nat, hi: nat, c: nat)
    requires c > 0 && lo * c <= n * c < hi * c
    ensures lo <= n < hi
  {
    if n < lo {
      MulStrict(n, lo, c);
    }
    if hi <= n {
      MulMono(hi, n, c);
    }
  }

  lemma InfinityValue()
    ensures Fine(INF) == Pow2(52 + 2046 + 1074)
  {
    hide Pow2;
    SmallPowers();
    assert INF / FRAC == 2047 && INF % FRAC == 0;
    Pow2Add(52, 2046 + 1074);
  }

  // ---- the whole operation

  /** The comparison of exponents and words compares the exact magnitudes. */
  lemma OrderCorrect(p: Term, z: Term, np: int, nz: int)
    requires Denotes(p, np) && Denotes(z, nz)
    ensures Smaller(p, z) <==> np < nz
    ensures np == nz ==> p.e == z.e && p.hi == z.hi && p.lo == z.lo
  {
    hide Pow2;
    if p.e < z.e {
      CoarserIsLess(p, z, np, nz);
    } else if z.e < p.e {
      CoarserIsLess(z, p, nz, np);
    } else {
      SameScale(np, nz, Word128(p), Word128(z), Pow2(p.e + 1125));
    }
  }

  lemma SameScale(np: int, nz: int, wp: nat, wz: nat, c: nat)
    requires c > 0 && np * P126 == wp * c && nz * P126 == wz * c
    ensures np < nz <==> wp < wz
    ensures np == nz <==> wp == wz
  {
    CompareScaled(wp, wz, c, 0);
  }

  lemma CoarserIsLess(p: Term, z: Term, np: int, nz: int)
    requires Denotes(p, np) && Denotes(z, nz) && p.e < z.e
    ensures np < nz
  {
    hide Pow2;
    var c, d := Pow2(p.e + 1125), Pow2(z.e + 1125);
    Pow2Mono(p.e + 1125, z.e + 1125);
    MulStrict(Word128(p), 2 * P126, c);
    MulMono(P126, Word128(z), d);
    assert P126 * (2 * c) <= P126 * d by { MulMono(2 * c, d, P126); }
    assert np * P126 < nz * P126;
  }

  /** Adding two terms with one rounding. */
  lemma FusedCorrect(p: Term, z: Term, np: nat, nz: nat)
    requires Denotes(p, np) && Denotes(z, nz) && np > 0 && nz > 0
    ensures var n := Signed(p.s == 1, np) + Signed(z.s == 1, nz);
            && (n != 0 ==> NearestEven(n, 1074, Fused(p, z)))
            && (n == 0 && z.e <= 2046 ==> Fused(p, z) == p.s * SIGN)
  {
    hide Pow2;
    hide Combine;
    hide Round;
    hide Sticky;
    hide NearestEven;
    OrderCorrect(p, z, np, nz);
    var n := Signed(p.s == 1, np) + Signed(z.s == 1, nz);
    if n == 0 {
      if z.e <= 2046 {
        ExactCancellation(p, z);
      }
    } else if Smaller(p, z) {
      OrderedCorrect(z, p, nz, np);
    } else {
      OrderedCorrect(p, z, np, nz);
    }
  }

  lemma OrderedCorrect(p: Term, z: Term, np: nat, nz: nat)
    requires Denotes(p, np) && Denotes(z, nz) && p.e >= z.e && np >= nz > 0
    requires p.s != z.s ==> np > nz
    ensures var (e, m) := Combine(p, z);
            NearestEven(Signed(p.s == 1, np) + Signed(z.s == 1, nz), 1074, Round(p.s, e, m))
  {
    hide Pow2;
    hide Combine;
    hide Round;
    hide Sticky;
    hide Denotes;
    hide NearestEven;
    hide ValueAt;
    var (e, m) := Combine(p, z);
    var a := if p.s == z.s then np + nz else np - nz;
    assert p.s < 2 && z.s < 2 by { SignsOf(p, z, np, nz); }
    if p.s == z.s {
      CombineSum(p, z, np, nz);
    } else {
      CombineDifference(p, z, np, nz);
    }
    RoundCorrect(p.s, e, m, a);
    var b := Round(p.s, e, m);
    NearestFromMagnitude(a, 1074, Magnitude(b), p.s == 1);
    assert b == if p.s == 1 then SIGN + Magnitude(b) else Magnitude(b);
  }

  lemma SignsOf(p: Term, z: Term, np: int, nz: int)
    requires Denotes(p, np) && Denotes(z, nz)
    ensures p.s < 2 && z.s < 2
  {
  }

  lemma ExactCancellation(p: Term, z: Term)
    requires p.s < 2 && p.s != z.s && p.e == z.e && p.hi == z.hi && p.lo == z.lo && p.e <= 2046
    ensures Fused(p, z) == p.s * SIGN
  {
    hide Pow2;
    hide Round;
    hide Combine;
    CombineEqual(p, z);
    RoundZero(p.s, p.e - 128);
  }

  lemma CombineEqual(p: Term, z: Term)
    requires p.s != z.s && p.e == z.e && p.hi == z.hi && p.lo == z.lo
    ensures Combine(p, z) == (p.e - 128, 0)
  {
    hide Pow2;
    hide ShlWide;
    hide LzWide;
    hide OrW;
    hide Sub64;
    hide ShrWide;
    SubSelf(p.lo);
    SubSelf(p.hi);
    NothingLeft();
  }

  lemma SubSelf(x: u64)
    ensures Sub64(x, x, 0) == (0, 0)
  {
  }

  lemma NothingLeft()
    ensures LzWide(0, 0) == 128 && ShlWide(0, 0, 127) == (0, 0) && OrW(0, 0) == 0 && Minus(128, 1) == 127
  {
    hide Pow2;
    ShlWideCorrect(0, 0, 127);
    OrZero(0);
    hide ShlWide;
    assert Wide((0, 0)) == 0;
  }

  lemma RoundZero(s: u64, e: int)
    requires s < 2 && e <= 2044
    ensures Round(s, e, 0) == s * SIGN
  {
    hide Pow2;
    hide Sticky;
    hide OrW;
    hide AndW;
    hide XorW;
    hide Shr;
    hide Shl;
    hide RoundShift;
    assert Shl(s, 63) == s * SIGN by { SmallPowers(); ShlFits(s, 63); }
    assert Shl(0, 52) == 0 by { SmallPowers(); ShlFits(0, 52); }
    assert Shl(1, 9) == 512 by { SmallPowers(); ShlFits(1, 9); }
    CarryOut(0);
    if e < 0 {
      Denormalize(0, -e);
      StickyOfZero(-e);
    }
    RoundTrick(0);
    RoundOfZero();
  }

  lemma StickyOfZero(n: nat)
    ensures Sticky(0, n) == 0
  {
    HighLowUnique(0, n, 0, 0);
  }

  lemma RoundOfZero()
    ensures RoundShift(0, 10) == 0
  {
  }

  /** The exponent test of the source singles out infinities and NaNs. */
  lemma NonFiniteTest(b: u64)
    ensures AndW(b, INF) == INF <==> !Finite(b)
  {
    hide Pow2;
    hide AndW;
    ExponentMask(b);
    var p := Magnitude(b);
    DivMod(p, FRAC);
    ExponentFull(p, p / FRAC, p % FRAC);
  }

  lemma ExponentMask(b: u64)
    ensures AndW(b, INF) == Magnitude(b) / FRAC * FRAC
  {
    hide Pow2;
    SmallPowers();
    AndSplit(b, 2047, 0, 52);
    AndStep(Low(b, 52), 0);
    assert INF == 2047 * FRAC + 0;
    MagnitudeFields(b);
    AndMask(b / FRAC, 11);
  }

  lemma ExponentFull(p: nat, q: nat, r: nat)
    requires p == q * FRAC + r && r < FRAC && p < SIGN
    ensures q * FRAC == INF <==> p >= INF
  {
    assert INF == 2047 * FRAC && SIGN == 2048 * FRAC;
  }

  /** The exact sum x * y + z, in units of 2^-2148. */
  function Exact(x: u64, y: u64, z: u64): (r: int)
    requires Finite(x) && Finite(y) && Finite(z)
  {
    SignedAt(x, 0) * SignedAt(y, 0) + SignedAt(z, 1074)
  }

  /** FMA returns the exact x * y + z rounded once, with overflow to infinity and
      gradual underflow; an exact zero takes the sign of the product. */
  lemma FMACorrect(x: u64, y: u64, z: u64)
    requires FiniteNonzero(x) && FiniteNonzero(y) && FiniteNonzero(z)
    ensures FMA(x, y, z).Bits?
    ensures Exact(x, y, z) != 0 ==> NearestEven(Exact(x, y, z), 1074, FMA(x, y, z).b)
    ensures Exact(x, y, z) == 0 ==> FMA(x, y, z).b == if SignBit(x) == SignBit(y) then 0 else SIGN
  {
    hide Pow2;
    hide Product;
    hide Addend;
    hide Fused;
    hide AndW;
    hide Denotes;
    hide NearestEven;
    hide ValueAt;
    NonFiniteTest(x);
    NonFiniteTest(y);
    NonFiniteTest(z);
    ProductCorrect(x, y);
    AddendCorrect(z);
    PositiveUnits(Magnitude(x));
    PositiveUnits(Magnitude(y));
    PositiveUnits(Magnitude(z));
    var ux, uy := Units(Magnitude(x)), Units(Magnitude(y));
    assert ux > 0 && uy > 0;
    ProductZero(ux, uy);
    assert SignedAt(x, 0) * SignedAt(y, 0) == Signed(SignBit(x) != SignBit(y), ux * uy) by {
      SignRule(ux, uy, SignBit(x) == 1, SignBit(y) == 1);
    }
    FusedCorrect(Product(x, y), Addend(z), ux * uy, Fine(Magnitude(z)));
    assert Addend(z).e <= 2046 by { AddendExponent(z); }
  }

  lemma PositiveUnits(p: pattern)
    requires p > 0
    ensures Units(p) > 0 && Fine(p) > 0
  {
    hide Pow2;
    ProductZero(Significand(p), Pow2(Scale(p)));
    ProductZero(Significand(p), Pow2(Scale(p) + 1074));
  }

  lemma SignRule(a: nat, b: nat, na: bool, nb: bool)
    ensures Signed(na, a) * Signed(nb, b) == Signed(na != nb, a * b)
  {
  }

  lemma AddendExponent(z: u64)
    requires FiniteNonzero(z)
    ensures Addend(z).e <= 2046
  {
    hide Pow2;
    hide Split;
    hide Units;
    SplitCorrect(z);
  }

  // ---- the operands left to the built-in operators

  /** An exact value is its own rounding. */
  lemma ExactIsNearest(b: u64, k: nat)
    requires !IsNaN(b) && Magnitude(b) != 0
    ensures NearestEven(SignedAt(b, k), k, b)
  {
    hide ValueAt;
    ZeroValue(k);
    ValueMono(0, Magnitude(b), k);
  }

  /** The sum with a zero is the other operand; of two zeros, -0 if both are. */
  lemma SumWithZero(a: u64, z: u64)
    requires !IsNaN(a) && !IsNaN(z) && (Magnitude(a) == 0 || Magnitude(z) == 0)
    ensures Magnitude(a) != 0 ==> Sum(a, z) == Bits(a)
    ensures Magnitude(z) != 0 ==> Sum(a, z) == Bits(z)
    ensures Magnitude(a) == Magnitude(z) == 0 ==> Sum(a, z) == Bits(if SignBit(a) == SignBit(z) == 1 then SIGN else 0)
  {
    hide Pow2, ValueAt, RoundTo;
    ZeroValue(0);
    var b := if Magnitude(z) == 0 then a else z;
    if FiniteNonzero(b) {
      ValueMono(0, Magnitude(b), 0);
      RoundToExact(Units(Magnitude(b)), 0, Magnitude(b));
    }
  }

  /** The product of two numbers, rounded. */
  lemma TimesNearest(x: u64, y: u64)
    requires FiniteNonzero(x) && FiniteNonzero(y)
    ensures var n := SignedAt(x, 0) * SignedAt(y, 0);
            && n != 0 && Times(x, y).Bits? && NearestEven(n, 1074, Times(x, y).b)
            && (n < 0 <==> SignBit(x) != SignBit(y))
            && (Magnitude(Times(x, y).b) == 0 <==> 2 * Abs(n) <= Pow2(1074))
  {
    hide Pow2, ValueAt, RoundTo, NearestEven, BeatsMagnitude;
    var ux, uy := Units(Magnitude(x)), Units(Magnitude(y));
    PositiveUnits(Magnitude(x));
    PositiveUnits(Magnitude(y));
    ProductZero(ux, uy);
    SignRule(ux, uy, SignBit(x) == 1, SignBit(y) == 1);
    var p := RoundTo(ux * uy, 1074);
    forall g: pattern
      ensures BeatsMagnitude(ux * uy, 1074, p, g)
    {
      RoundToNearest(ux * uy, 1074, g);
    }
    NearestFromMagnitude(ux * uy, 1074, p, SignBit(x) != SignBit(y));
    SignParts(p, SignBit(x) != SignBit(y));
    RoundToZero(ux * uy, 1074);
  }

  /** What section 5.4.1 of IEEE 754-2008 asks of a fused multiply-add, with
      section 7.2 for NaNs and section 6.3 for the sign of an exact zero: that of
      the terms if they agree and + otherwise. */
  ghost predicate Conforms(x: u64, y: u64, z: u64, r: Outcome) {
    var s := if SignBit(x) == SignBit(y) then 0 else SIGN;
    if IsNaN(x) || IsNaN(y) || IsNaN(z) || (IsInf(x) && Magnitude(y) == 0) || (Magnitude(x) == 0 && IsInf(y)) then
      r == AnyNaN || IsNaN(r.b)
    else if IsInf(x) || IsInf(y) then
      if IsInf(z) && z != s + INF then r == AnyNaN || IsNaN(r.b) else r == Bits(s + INF)
    else
      && r.Bits?
      && if IsInf(z) then r.b == z
         else if Exact(x, y, z) != 0 then NearestEven(Exact(x, y, z), 1074, r.b)
         else r.b == if s == SignBit(z) * SIGN then s else 0
  }

  /** The exact sum is zero and the product is its negative term. */
  predicate NegativeCancellation(x: u64, y: u64, z: u64) {
    && FiniteNonzero(x) && FiniteNonzero(y) && FiniteNonzero(z)
    && SignBit(x) != SignBit(y) && Exact(x, y, z) == 0
  }

  /** The product is negative and at most half the smallest double, and z is +0. */
  predicate NegativeUnderflow(x: u64, y: u64, z: u64) {
    && FiniteNonzero(x) && FiniteNonzero(y) && z == 0
    && SignBit(x) != SignBit(y) && 2 * Abs(SignedAt(x, 0) * SignedAt(y, 0)) <= Pow2(1074)
  }

  /** Outside the finite nonzero inputs the code meets the standard but for a
      negative product that vanishes before +0 is added to it. */
  lemma FMASpecialCases(x: u64, y: u64, z: u64)
    requires !(FiniteNonzero(x) && FiniteNonzero(y) && FiniteNonzero(z))
    ensures Conforms(x, y, z, FMA(x, y, z)) <==> !NegativeUnderflow(x, y, z)
  {
    hide Pow2, AndW, Fused, Product, Addend, ValueAt, Times, Sum, Exact, NearestEven;
    NonFiniteTest(x);
    NonFiniteTest(y);
    NonFiniteTest(z);
    if !Finite(x) || !Finite(y) {
      NonFiniteFactor(x, y, z);
    } else if Magnitude(x) == 0 || Magnitude(y) == 0 {
      ZeroFactor(x, y, z);
    } else if Magnitude(z) == 0 {
      ZeroAddend(x, y, z);
    }
  }

  lemma NonFiniteFactor(x: u64, y: u64, z: u64)
    requires !Finite(x) || !Finite(y)
    ensures var p := Times(x, y); Conforms(x, y, z, if p == AnyNaN then AnyNaN else Sum(p.b, z))
  {
    hide Pow2, ValueAt, RoundTo, SignedAt, Exact, NearestEven;
    SignParts(INF, SignBit(x) != SignBit(y));
  }

  lemma ZeroFactor(x: u64, y: u64, z: u64)
    requires Finite(x) && Finite(y) && (Magnitude(x) == 0 || Magnitude(y) == 0)
    ensures Times(x, y).Bits? && Conforms(x, y, z, Sum(Times(x, y).b, z))
  {
    hide Pow2, ValueAt, RoundTo, NearestEven;
    ZeroValue(0);
    ZeroValue(1074);
    RoundToExact(0, 1074, 0);
    SignParts(0, SignBit(x) != SignBit(y));
    ZeroTimes(Units(Magnitude(x)), Units(Magnitude(y)));
    ZeroTimes(SignedAt(x, 0), SignedAt(y, 0));
    if IsNaN(z) {
      hide Times;
    } else {
      SumWithZero(Times(x, y).b, z);
      if FiniteNonzero(z) {
        hide Sum;
        ValueMono(0, Magnitude(z), 1074);
        ExactIsNearest(z, 1074);
      }
    }
  }

  lemma ZeroTimes(a: int, b: int)
    requires a == 0 || b == 0
    ensures a * b == 0
  {
  }

  lemma ZeroAddend(x: u64, y: u64, z: u64)
    requires FiniteNonzero(x) && FiniteNonzero(y) && Magnitude(z) == 0
    ensures Times(x, y).Bits?
    ensures Conforms(x, y, z, Sum(Times(x, y).b, z)) <==> !NegativeUnderflow(x, y, z)
  {
    hide Pow2, ValueAt, Times, Sum;
    TimesNearest(x, y);
    var n, p := SignedAt(x, 0) * SignedAt(y, 0), Times(x, y).b;
    ZeroValue(1074);
    assert Exact(x, y, z) == n;
    SumWithZero(p, z);
    assert SignBit(p) == 1 <==> n < 0;
    hide SignedAt;
    if Magnitude(p) == 0 && n < 0 && z == 0 {
      assert !NearestEven(n, 1074, 0);
    } else {
      assert Sum(p, z) == Bits(p);
    }
  }

  /** The code meets the standard on every input but the two families. */
  lemma FMAConforms(x: u64, y: u64, z: u64)
    ensures Conforms(x, y, z, FMA(x, y, z)) <==> !NegativeCancellation(x, y, z) && !NegativeUnderflow(x, y, z)
  {
    hide FMA, Exact, NearestEven, SignedAt, Pow2;
    if FiniteNonzero(x) && FiniteNonzero(y) && FiniteNonzero(z) {
      FMACorrect(x, y, z);
      if Exact(x, y, z) == 0 {
        OppositeTerms(x, y, z);
      }
    } else {
      FMASpecialCases(x, y, z);
    }
  }

  lemma OppositeTerms(x: u64, y: u64, z: u64)
    requires FiniteNonzero(x) && FiniteNonzero(y) && FiniteNonzero(z) && Exact(x, y, z) == 0
    ensures SignBit(z) == 1 <==> SignBit(x) == SignBit(y)
  {
    hide ValueAt;
    var ux, uy := Units(Magnitude(x)), Units(Magnitude(y));
    PositiveUnits(Magnitude(x));
    PositiveUnits(Magnitude(y));
    PositiveUnits(Magnitude(z));
    ProductZero(ux, uy);
    SignRule(ux, uy, SignBit(x) == 1, SignBit(y) == 1);
  }

  const ONE: u64 := 0x3FF0_0000_0000_0000
  const MINUS_ONE: u64 := 0xBFF0_0000_0000_0000

  /** (-1) * 1 + 1 yields -0 where the standard asks for +0. */
  lemma FMANegativeZero()
    ensures FMA(MINUS_ONE, ONE, ONE) == Bits(SIGN)
    ensures !Conforms(MINUS_ONE, ONE, ONE, Bits(SIGN)) && Conforms(MINUS_ONE, ONE, ONE, Bits(0))
  {
    hide FMA, Pow2, Exact;
    OneExact();
    FMACorrect(MINUS_ONE, ONE, ONE);
  }

  /** (-2^-1074) * 2^-1074 + 0 yields +0 where the standard asks for -0. */
  lemma FMALostSign()
    ensures FMA(SIGN + 1, 1, 0) == Bits(0)
    ensures !Conforms(SIGN + 1, 1, 0, Bits(0)) && Conforms(SIGN + 1, 1, 0, Bits(SIGN))
  {
    hide Pow2, ValueAt, Times, Sum, AndW, Fused, Product, Addend;
    SmallestSquared();
    TimesNearest(SIGN + 1, 1);
    assert Times(SIGN + 1, 1) == Bits(SIGN);
    SumWithZero(SIGN, 0);
    FMASpecialCases(SIGN + 1, 1, 0);
  }

  lemma SmallestSquared()
    ensures SignedAt(SIGN + 1, 0) * SignedAt(1, 0) == -1 && 2 <= Pow2(1074)
    ensures Exact(SIGN + 1, 1, 0) == -1
  {
    hide Pow2;
    Pow2Zero();
    Pow2Mono(0, 1074);
    assert Significand(1) == 1 && Scale(1) == 0;
    assert Units(1) == 1;
    ZeroValue(1074);
  }

  lemma OneExact()
    ensures Exact(MINUS_ONE, ONE, ONE) == 0
  {
    hide Pow2;
    assert ONE / FRAC == 1023 && ONE % FRAC == 0;
    assert Magnitude(MINUS_ONE) == ONE && SignBit(MINUS_ONE) == 1 && Magnitude(ONE) == ONE && SignBit(ONE) == 0;
    assert Units(ONE) == Pow2(1074) by { SmallPowers(); Pow2Add(52, 1022); }
    assert Fine(ONE) == Pow2(2148) by { SmallPowers(); Pow2Add(52, 1022 + 1074); }
    Pow2Add(1074, 1074);
    SignRule(Pow2(1074), Pow2(1074), true, false);
  }
}
