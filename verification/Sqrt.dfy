/** The software square root of package math: one result bit per iteration. */
module Sqrt {
  import opened Arith
  import opened Word
  import opened Double

  /** The root of v, in units of 2^-1074 when v is in units of 2^-2148, is
      strictly closer to p than to g: the middle between p and a larger double
      lies above the root, and the middle between p and a smaller one below. */
  ghost predicate Closer(v: nat, p: pattern, g: pattern) {
    var twice := Units(p) + Units(g);
    (g > p ==> 4 * v < twice * twice) && (g < p ==> 4 * v > twice * twice)
  }

  /** p is the correctly rounded root of v; no tie occurs. */
  ghost predicate ClosestRoot(v: nat, p: pattern) {
    forall g: pattern :: Closer(v, p, g)
  }

  /** sqrt(x). */
  method Sqrt(x: u64) returns (r: u64)
    ensures IsNaN(x) || Magnitude(x) == 0 || x == INF ==> r == x
    ensures !IsNaN(x) && Magnitude(x) != 0 && SignBit(x) == 1 ==> r == NAN
    ensures 0 < x < INF ==> 0 < r < INF && ClosestRoot(Fine(x), r)
  {
    hide Pow2, ClosestRoot;
    if Magnitude(x) == 0 || IsNaN(x) || x == INF {
      return x;
    }
    if SignBit(x) == 1 {
      return NAN;
    }
    r := PositiveRoot(x);
  }

  method PositiveRoot(x: u64) returns (r: u64)
    requires 0 < x < INF
    ensures 0 < r < INF && ClosestRoot(Fine(x), r)
  {
    hide Pow2;
    hide Shl;
    hide Shr;
    hide AndW;
    hide Plus;
    hide RootOf;
    hide Exact;
    hide ClosestRoot;
    hide ValueAt;
    var ix, exp := Normalize(x);
    Halved(ix, exp, Fine(x));
    if exp % 2 == 1 {
      ix := Shl(ix, 1);
    }
    exp := exp / 2;
    ix := Shl(ix, 1);
    var q, rem := RootBits(ix);
    Finished(Fine(x), ix, q, exp, rem);
    if rem != 0 {
      q := Plus(q, AndW(q, 1));
    }
    r := Plus(Shr(q, 1), Shl(exp - 1 + BIAS, 52));
  }

  lemma Halved(ix: u64, e: int, v: nat)
    requires FRAC <= ix < 2 * FRAC && -1074 <= e <= 1023 && v == ix * Pow2(e + 2096)
    ensures var ix' := Shl(if e % 2 == 1 then Shl(ix, 1) else ix, 1);
            && 2 * FRAC <= ix' < 8 * FRAC
            && v == ix' * (2 * FRAC) * Pow2(e / 2 + 1021) * Pow2(e / 2 + 1021)
  {
    hide Pow2;
    hide Shl;
    ShiftOne(ix, 0);
    ShiftOne(2 * ix, 0);
    EvenExponent(v, ix, e, if e % 2 == 1 then 4 * ix else 2 * ix, e / 2);
  }

  lemma Finished(v: nat, ix: nat, q: u64, exp: int, rem: u64)
    requires -537 <= exp <= 511
    requires v == ix * (2 * FRAC) * Pow2(exp + 1021) * Pow2(exp + 1021)
    requires RootOf(ix * (2 * FRAC), q) && 2 * FRAC <= q < 4 * FRAC
    requires rem == 0 <==> Exact(ix * (2 * FRAC), q)
    ensures exp - 1 + BIAS >= 0
    ensures var q' := if rem != 0 then Plus(q, AndW(q, 1)) else q;
            var p := Plus(Shr(q', 1), Shl(exp - 1 + BIAS, 52));
            0 < p < INF && ClosestRoot(v, p)
  {
    hide Pow2;
    hide Shl;
    hide Shr;
    hide AndW;
    hide Plus;
    hide RootOf;
    hide Exact;
    hide ClosestRoot;
    Rounded(v, ix, q, exp, rem == 0);
    OddBit(q);
    Pack(Even(q, rem == 0), exp);
  }

  lemma Pack(q: u64, exp: int)
    requires q <= 4 * FRAC && -537 <= exp <= 511
    ensures 0 <= exp - 1 + BIAS && Plus(Shr(q, 1), Shl(exp - 1 + BIAS, 52)) == (exp + 1022) * FRAC + q / 2
  {
    hide Pow2;
    SmallPowers();
    ShlFits(exp + 1022, 52);
    ShiftOne(0, q);
  }

  /** The 54-bit root q after the source's final rounding. */
  function Even(q: nat, exact: bool): (r: nat) { if exact then q else q + q % 2 }

  /** Rounding the 54-bit integer root to 53 bits gives the closest double. */
  lemma Rounded(v: nat, ix: nat, q: nat, exp: int, exact: bool)
    requires -537 <= exp <= 511
    requires v == ix * (2 * FRAC) * Pow2(exp + 1021) * Pow2(exp + 1021)
    requires RootOf(ix * (2 * FRAC), q) && 2 * FRAC <= q < 4 * FRAC
    requires exact <==> Exact(ix * (2 * FRAC), q)
    ensures var p := (exp + 1022) * FRAC + Even(q, exact) / 2;
            FRAC <= Even(q, exact) / 2 <= 2 * FRAC && 0 < p < INF && ClosestRoot(v, p)
  {
    hide Pow2;
    hide RootOf;
    hide Exact;
    hide Closer;
    hide ValueAt;
    var t, e, h := ix * (2 * FRAC), exp + 1022, Even(q, exact) / 2;
    var p := e * FRAC + h;
    if exact {
      EvenRoot(ix, q);
    }
    Brackets(t, q, exact);
    Packed(e, h, 0);
    forall g: pattern
      ensures Closer(v, p, g)
    {
      MiddleTest(v, t, h, e, g);
    }
  }

  lemma MiddleTest(v: nat, t: nat, h: nat, e: nat, g: pattern)
    requires 0 < e <= 2045 && FRAC <= h <= 2 * FRAC && e * FRAC + h <= INF
    requires v == t * Pow2(e - 1) * Pow2(e - 1)
    requires (2 * h - 1) * (2 * h - 1) < t < (2 * h + 1) * (2 * h + 1)
    requires h == FRAC ==> 2 * h * (2 * h) <= t
    ensures Closer(v, e * FRAC + h, g)
  {
    hide Pow2;
    hide ValueAt;
    var p, s := e * FRAC + h, Pow2(e - 1);
    assert Units(p) == 2 * h * s by { Packed(e, h, 0); Pow2Double(e - 1); MulDouble(h, s); }
    if g > p {
      PackedScale(e, h);
      GapAbove(p, g, e, s);
      MiddleAbove(t, h, s, Units(g));
    } else if g < p {
      GapBelow(p, g, e, h, s);
      MiddleBelow(t, h, s, Units(g));
    }
  }

  lemma MiddleAbove(t: nat, h: nat, s: nat, u: nat)
    requires s > 0 && t < (2 * h + 1) * (2 * h + 1) && u >= 2 * h * s + 2 * s
    ensures var x := 2 * h * s + u; 4 * (t * s * s) < x * x
  {
    assert 2 * (2 * h + 1) * s == 2 * h * s + (2 * h * s + 2 * s);
    BelowMiddle(t, 2 * h + 1, s, 2 * h * s + u);
  }

  lemma MiddleBelow(t: nat, h: nat, s: nat, u: nat)
    requires s > 0 && h > 0 && t > (2 * h - 1) * (2 * h - 1) && (h == FRAC ==> 2 * h * (2 * h) <= t)
    requires u + (if h == FRAC then s else 2 * s) <= 2 * h * s
    ensures var x := 2 * h * s + u; 4 * (t * s * s) > x * x
  {
    if h == FRAC {
      assert 2 * (2 * h) * s == 2 * h * s + 2 * h * s;
      AboveMiddleHalf(t, 2 * h, s, 2 * h * s + u);
    } else {
      assert 2 * (2 * h - 1) * s == 2 * h * s + (2 * h * s - 2 * s);
      AboveMiddle(t, 2 * h - 1, s, 2 * h * s + u);
    }
  }

  lemma PackedScale(e: nat, h: nat)
    requires 0 < e <= 2045 && FRAC <= h <= 2 * FRAC && e * FRAC + h <= INF
    ensures Scale(e * FRAC + h) >= e
  {
    var p := e * FRAC + h;
    if h < 2 * FRAC {
      assert p / FRAC == e + 1;
    } else {
      assert p / FRAC == e + 2;
    }
  }

  /** An exact 54-bit root is even, so that no rounding is needed. */
  lemma EvenRoot(ix: nat, q: nat)
    requires Exact(ix * (2 * FRAC), q)
    ensures q % 2 == 0
  {
    OddSquare(q);
    EvenProduct(ix * FRAC);
    assert ix * (2 * FRAC) == 2 * (ix * FRAC);
  }

  lemma EvenProduct(c: nat)
    ensures 2 * c % 2 == 0
  {
  }

  lemma OddSquare(q: nat)
    ensures q * q % 2 == q % 2
  {
    var c := q / 2;
    if q % 2 == 1 {
      assert q * q == 2 * (2 * c * c + 2 * c) + 1;
    } else {
      assert q * q == 2 * (2 * c * c);
    }
  }

  /** The rounded root is off by less than one unit of the 54-bit root, and not
      above the root when it is even already. */
  lemma Brackets(t: nat, q: nat, exact: bool)
    requires RootOf(t, q) && 2 * FRAC <= q && (exact <==> Exact(t, q)) && (exact ==> q % 2 == 0)
    ensures var h := Even(q, exact) / 2;
            && (2 * h - 1) * (2 * h - 1) < t < (2 * h + 1) * (2 * h + 1)
            && (h == FRAC ==> 2 * h * (2 * h) <= t)
  {
    StrictSquares(q + 1, q + 2);
    StrictSquares(q - 1, q);
    assert 2 * (Even(q, exact) / 2) == Even(q, exact);
  }

  lemma GapAbove(p: pattern, g: pattern, e: nat, s: nat)
    requires p < g && Scale(p) >= e && e > 0 && s == Pow2(e - 1)
    ensures Units(g) >= Units(p) + 2 * s
  {
    hide Pow2;
    hide ValueAt;
    hide Scale;
    ValueStep(p, 0);
    Pow2Mono(e, Scale(p));
    Pow2Double(e - 1);
    if p + 1 < g {
      ValueMono(p + 1, g, 0);
    }
  }

  lemma GapBelow(p: pattern, g: pattern, e: nat, h: nat, s: nat)
    requires g < p && 0 < e <= 2045 && FRAC <= h <= 2 * FRAC && p == e * FRAC + h && s == Pow2(e - 1)
    ensures Units(g) + (if h == FRAC then s else 2 * s) <= Units(p)
  {
    hide Pow2;
    hide ValueAt;
    assert Scale(p - 1) == if h == FRAC then e - 1 else e by { PrecedingScale(e, h); }
    ValueStep(p - 1, 0);
    Pow2Double(e - 1);
    if g < p - 1 {
      ValueMono(g, p - 1, 0);
    }
  }

  lemma PrecedingScale(e: nat, h: nat)
    requires 0 < e <= 2045 && FRAC <= h <= 2 * FRAC
    ensures Scale(e * FRAC + h - 1) == if h == FRAC then e - 1 else e
  {
    var p := e * FRAC + h - 1;
    if h == FRAC {
      assert p / FRAC == e;
    } else {
      assert p / FRAC == e + 1;
    }
  }

  lemma Squares(a: nat, b: nat)
    ensures a <= b ==> a * a <= b * b
  {
    if a <= b {
      MulMono(a, b, a);
      MulMono(a, b, b);
    }
  }

  lemma StrictSquares(a: nat, b: nat)
    requires a < b
    ensures a * a < b * b
  {
    MulMono(a, b, a);
    MulStrict(a, b, b);
  }

  lemma SquareOfProduct(b: nat, s: nat)
    ensures (2 * b * s) * (2 * b * s) == 4 * (b * b * s * s)
  {
  }

  lemma BelowMiddle(t: nat, b: nat, s: nat, x: nat)
    requires s > 0 && t < b * b && x >= 2 * b * s
    ensures 4 * (t * s * s) < x * x
  {
    Squares(2 * b * s, x);
    ScaleSquare(t, b * b, s);
    SquareOfProduct(b, s);
  }

  lemma AboveMiddle(t: nat, b: nat, s: nat, x: nat)
    requires s > 0 && t > b * b && x <= 2 * b * s
    ensures 4 * (t * s * s) > x * x
  {
    Squares(x, 2 * b * s);
    ScaleSquare(b * b, t, s);
    SquareOfProduct(b, s);
  }

  lemma AboveMiddleHalf(t: nat, a: nat, s: nat, x: nat)
    requires s > 0 && a > 0 && t >= a * a && x <= 2 * a * s - s
    ensures 4 * (t * s * s) > x * x
  {
    var z := 2 * a * s;
    ProductZero(2 * a, s);
    StrictSquares(x, z);
    SquareOfProduct(a, s);
    if t > a * a {
      ScaleSquare(a * a, t, s);
    }
  }

  lemma ScaleSquare(t: nat, u: nat, s: nat)
    requires s > 0 && t < u
    ensures t * s * s < u * s * s
  {
    MulStrict(t, u, s);
    MulStrict(t * s, u * s, s);
  }

  lemma OddBit(q: u64)
    requires q < W64 - 1
    ensures AndW(q, 1) == q % 2 && Plus(q, q % 2) == q + q % 2
  {
    AndStep(q, 1);
  }

  /** After making the exponent even: the exact value is ix * 2^53 times the
      square of 2^(exp + 1021). */
  lemma EvenExponent(v: nat, m: nat, e: int, ix: nat, exp: int)
    requires FRAC <= m < 2 * FRAC && -1074 <= e <= 1023 && v == m * Pow2(e + 2096)
    requires exp == e / 2 && ix == (if e % 2 == 1 then 4 * m else 2 * m)
    ensures 2 * FRAC <= ix < 8 * FRAC
    ensures v == ix * (2 * FRAC) * Pow2(exp + 1021) * Pow2(exp + 1021)
  {
    hide Pow2;
    var s := Pow2(exp + 1021);
    SmallPowers();
    Pow2Add(exp + 1021, exp + 1021);
    Pow2Add(53, 2 * exp + 2042);
    Pow2Add(2 * exp + 2095, 1);
    Pow2Add(2 * exp + 2096, 1);
    Pow2One();
    assert ix * (2 * FRAC) * s * s == ix * (2 * FRAC * (s * s));
  }

  /** Brings the top bit of a subnormal to position 52. */
  method ShiftUp(x: u64) returns (ix: u64, exp: int)
    requires 0 < x < FRAC
    ensures FRAC <= ix < 2 * FRAC && -51 <= exp <= 0
    ensures Fine(x) == ix * Pow2(exp + 1073)
  {
    hide Pow2;
    hide Shl;
    hide AndW;
    hide ValueAt;
    ix, exp := x, 0;
    ghost var n: nat := 0;
    Pow2Zero();
    while AndW(ix, Shl(1, 52)) == 0
      invariant exp == 0 - n && 0 < ix < 2 * FRAC && ix == x * Pow2(n)
      decreases 2 * FRAC - ix
    {
      TestBit52(ix);
      ShiftOne(ix, 0);
      DoubledShift(x, n);
      ix := Shl(ix, 1);
      exp := exp - 1;
      n := n + 1;
    }
    TestBit52(ix);
    SubnormalFine(x, n, ix);
    exp := exp + 1;
  }

  /** A mantissa with its top bit at position 52 and the unbiased exponent. */
  method Normalize(x: u64) returns (ix: u64, exp: int)
    requires 0 < x < INF
    ensures FRAC <= ix < 2 * FRAC && -1074 <= exp <= 1023
    ensures Fine(x) == ix * Pow2(exp + 2096)
  {
    hide Pow2;
    hide Shl;
    hide Shr;
    hide AndW;
    hide OrW;
    hide Not;
    hide ValueAt;
    ix := x;
    exp := AndW(Shr(ix, 52), MASK);
    Fields(x);
    if exp == 0 {
      ix, exp := ShiftUp(x);
    } else {
      NormalFine(x);
    }
    exp := exp - BIAS;
    Mantissa(ix);
    ix := AndW(ix, Not(Shl(MASK, 52)));
    ix := OrW(ix, Shl(1, 52));
  }

  lemma Mantissa(b: u64)
    requires b < SIGN
    ensures OrW(AndW(b, Not(Shl(MASK, 52))), Shl(1, 52)) == FRAC + b % FRAC
  {
    hide OrW, AndW, Not, Shl;
    ClearExponent(b);
    ImplicitBit(b % FRAC);
  }

  lemma DoubledShift(x: nat, n: nat)
    ensures 2 * (x * Pow2(n)) == x * Pow2(n + 1)
  {
  }

  lemma SubnormalFine(x: pattern, n: nat, ix: nat)
    requires 0 < x < FRAC && FRAC <= ix < 2 * FRAC && ix == x * Pow2(n)
    ensures n <= 52 && ix % FRAC + FRAC == ix
    ensures Fine(x) == ix * Pow2(1074 - n)
  {
    hide Pow2;
    ProductZero(Pow2(n), x);
    if n > 52 {
      SmallPowers();
      Pow2Mono(53, n);
    }
    Pow2Add(n, 1074 - n);
    MulAssoc(x, Pow2(n), Pow2(1074 - n));
  }

  ghost predicate RootOf(t: nat, q: nat) { q * q <= t < (q + 1) * (q + 1) }
  ghost predicate Exact(t: nat, q: nat) { q * q == t }

  /** q holds the root's bits down to weight 2r, and ix the remainder scaled by
      the weight r of the bit to come. */
  ghost predicate Before(t: nat, q: nat, r: nat, ix: nat) {
    ix * r == t - q * q && t < (q + 2 * r) * (q + 2 * r)
  }

  /** The bit of weight r has been decided. */
  ghost predicate After(t: nat, q: nat, r: nat, ix: nat) {
    ix * r == t - q * q && t < (q + r) * (q + r)
  }

  /** The loop: q becomes the integer square root of ix0 * 2^53. */
  method RootBits(ix0: u64) returns (q: u64, rem: u64)
    requires 2 * FRAC <= ix0 < 8 * FRAC
    ensures RootOf(ix0 * (2 * FRAC), q) && (rem == 0 <==> Exact(ix0 * (2 * FRAC), q))
    ensures 2 * FRAC <= q < 4 * FRAC
  {
    hide Pow2;
    hide RootOf;
    hide Exact;
    hide Before;
    hide After;
    hide Shl;
    hide Shr;
    hide Plus;
    hide Minus;
    ghost var target := ix0 * (2 * FRAC);
    var ix: u64, s: u64, r: u64 := ix0, 0, 2 * FRAC;
    q := 0;
    ghost var j := 53;
    SmallPowers();
    FirstBit(ix0);
    while r != 0
      invariant s == 2 * q && q + 2 * r <= 4 * FRAC
      invariant r != 0 ==> 0 <= j <= 53 && r == Pow2(j) && Before(target, q, r, ix) && ix < 4 * (q + r)
      invariant r == 0 ==> RootOf(target, q) && (ix == 0 <==> Exact(target, q))
      decreases r
    {
      Decide(target, q, r, ix);
      HalfPower(j, r);
      NoWrap(s, r, ix);
      var t := Plus(s, r);
      if t <= ix {
        s := Plus(t, r);
        ix := Minus(ix, t);
        q := Plus(q, r);
      }
      ShiftOne(ix, r);
      NextBit(target, q, r, ix);
      ix := Shl(ix, 1);
      r := Shr(r, 1);
      j := j - 1;
    }
    rem := ix;
    RootRange(q, ix0);
  }

  /** None of the loop's sums and differences wraps around. */
  lemma NoWrap(s: nat, r: nat, ix: nat)
    requires s <= 8 * FRAC && r <= 8 * FRAC && ix < W64
    ensures Plus(s, r) == s + r && Plus(s + r, r) == s + r + r && Plus(s / 2, r) == s / 2 + r
    ensures s + r <= ix ==> Minus(ix, s + r) == ix - (s + r)
  {
  }

  lemma FirstBit(ix0: nat)
    requires 2 * FRAC <= ix0 < 8 * FRAC
    ensures Before(ix0 * (2 * FRAC), 0, 2 * FRAC, ix0)
  {
  }

  lemma RootRange(q: nat, ix0: nat)
    requires 2 * FRAC <= ix0 < 8 * FRAC && RootOf(ix0 * (2 * FRAC), q)
    ensures 2 * FRAC <= q < 4 * FRAC
  {
    if q + 1 <= 2 * FRAC {
      MulMono(q + 1, 2 * FRAC, q + 1);
      MulMono(q + 1, 2 * FRAC, 2 * FRAC);
    }
    if q >= 4 * FRAC {
      MulMono(4 * FRAC, q, q);
      MulMono(4 * FRAC, q, 4 * FRAC);
    }
  }

  /** Trying the bit r: the test 2q + r <= ix is (q + r)^2 <= t. */
  lemma Decide(t: nat, q: nat, r: nat, ix: nat)
    requires r > 0 && Before(t, q, r, ix)
    ensures 2 * q + r <= ix ==> After(t, q + r, r, ix - (2 * q + r))
    ensures 2 * q + r > ix ==> After(t, q, r, ix)
  {
    assert (q + r) * (q + r) == q * q + (2 * q + r) * r;
    assert (ix - (2 * q + r)) * r == ix * r - (2 * q + r) * r;
    if 2 * q + r > ix {
      MulStrict(ix, 2 * q + r, r);
    }
  }

  lemma HalfPower(j: nat, r: nat)
    requires r == Pow2(j)
    ensures j == 0 ==> r == 1
    ensures j > 0 ==> r % 2 == 0 && r > 1 && r / 2 == Pow2(j - 1)
  {
  }

  lemma ShiftOne(ix: u64, r: u64)
    requires ix < SIGN
    ensures Shl(ix, 1) == 2 * ix && Shr(r, 1) == r / 2
  {
    Pow2One();
  }

  /** Doubling the remainder while halving the weight keeps their product; after
      the last bit the remainder is zero only for an exact root. */
  lemma NextBit(t: nat, q: nat, r: nat, ix: nat)
    requires r > 0 && (r == 1 || r % 2 == 0) && After(t, q, r, ix)
    ensures r > 1 ==> Before(t, q, r / 2, 2 * ix) && 2 * ix < 4 * (q + r / 2)
    ensures r == 1 ==> RootOf(t, q) && (2 * ix == 0 <==> Exact(t, q))
  {
    if r > 1 {
      var h := r / 2;
      SquareOfSum(q, r);
      Smaller(ix, 2 * q + r, r);
      MulDouble(ix, h);
      assert q + 2 * h == q + r;
    }
  }

  lemma SquareOfSum(q: nat, r: nat)
    ensures (q + r) * (q + r) == q * q + (2 * q + r) * r
  {
  }

  lemma Smaller(a: nat, b: nat, c: nat)
    requires a * c < b * c
    ensures a < b
  {
    if a >= b {
      MulMono(b, a, c);
    }
  }

  /** Only one double is closest to the root. */
  lemma ClosestUnique(v: nat, p: pattern, p': pattern)
    requires ClosestRoot(v, p) && ClosestRoot(v, p')
    ensures p == p'
  {
    hide ValueAt;
    assert Closer(v, p, p') && Closer(v, p', p);
  }

  /** The root of a representable exact square is the number squared. */
  lemma RootOfSquare(x: pattern, y: pattern, r: pattern)
    requires Fine(x) == Units(y) * Units(y) && ClosestRoot(Fine(x), r)
    ensures r == y
  {
    hide ValueAt;
    var a, b := Units(r), Units(y);
    assert Closer(Fine(x), r, y);
    assert (2 * b) * (2 * b) == 4 * (b * b);
    if y > r {
      ValueMono(r, y, 0);
      StrictSquares(a + b, 2 * b);
    } else if y < r {
      ValueMono(y, r, 0);
      StrictSquares(2 * b, a + b);
    }
  }
}
