/** Round and RoundToEven of package math: bit tricks against rounding to an integer. */
module Floor {
  import opened Arith
  import opened Word
  import opened Double

  const ONE: u64 := 0x3FF0_0000_0000_0000
  const HALF: int := 0x8_0000_0000_0000         // 2^51

  function Round(b: u64): (r: u64) {
    var e := AndW(Shr(b, 52), MASK);
    if e < BIAS then
      var s := AndW(b, SIGN);
      if e == BIAS - 1 then OrW(s, ONE) else s
    else if e < BIAS + 52 then
      var e' := e - BIAS;
      AndW(Plus(b, Shr(HALF, e')), Not(Shr(FRAC - 1, e')))
    else b
  }

  function RoundToEven(b: u64): (r: u64) {
    var e := AndW(Shr(b, 52), MASK);
    if e >= BIAS then
      var e' := e - BIAS;
      var odd := AndW(Shr(b, Minus(52, e')), 1);
      AndW(Plus(b, Shr(Plus(HALF - 1, odd), e')), Not(Shr(FRAC - 1, e')))
    else if e == BIAS - 1 && AndW(b, FRAC - 1) != 0 then OrW(AndW(b, SIGN), ONE)
    else AndW(b, SIGN)
  }

  /** a / 2^n rounded to the nearest integer, halves up. */
  function RoundHalfUp(a: nat, n: nat): (r: nat) {
    if 2 * Low(a, n) < Pow2(n) then High(a, n) else High(a, n) + 1
  }

  /** r has the sign of b and the magnitude n. */
  predicate IsInteger(b: u64, r: u64, n: nat) {
    Finite(r) && SignBit(r) == SignBit(b) && Units(Magnitude(r)) == n * Pow2(1074)
  }

  // ---- masks and shifts

  lemma SignMask(b: u64)
    ensures AndW(b, SIGN) == SignBit(b) * SIGN
    ensures OrW(SignBit(b) * SIGN, ONE) == SignBit(b) * SIGN + ONE
  {
    hide And, Or;
    SmallPowers();
    AndSplit(b, 1, 0, 63);
    ShrIsHigh(b, 63);
    Fields(b);
    AndZero(Low(b, 63));
    Pow2One();
    AndMask(High(b, 63), 1);
    DivModUnique(SignBit(b) * SIGN, Pow2(63), SignBit(b), 0);
    OrDisjoint(SignBit(b) * SIGN, ONE, 63);
  }

  /** Clearing the low k bits. */
  lemma ClearLow(x: u64, k: nat)
    requires k <= 64
    ensures Pow2(k) - 1 < W64 && AndW(x, Not(Pow2(k) - 1)) == High(x, k) * Pow2(k)
  {
    hide And, Pow2;
    W64IsPow2();
    Pow2Mono(k, 64);
    Pow2Add(64 - k, k);
    var d := Pow2(64 - k);
    assert Not(Pow2(k) - 1) == (d - 1) * Pow2(k) by {
      Difference(d, 1, Pow2(k));
    }
    AndSplit(x, d - 1, 0, k);
    AndMask(High(x, k), 64 - k);
    ShrIsHigh(x, k);
    SmallMod(High(x, k), d);
    AndZero(Low(x, k));
  }

  /** The constants of the sources, shifted by the exponent. */
  lemma Shifted(e: nat)
    requires e <= 51
    ensures Shr(HALF, e) == Pow2(51 - e) && Shr(HALF - 1, e) == Pow2(51 - e) - 1
    ensures Shr(FRAC - 1, e) == Pow2(52 - e) - 1
  {
    hide Pow2;
    SmallPowers();
    Pow2Add(51 - e, e);
    Pow2Add(52 - e, e);
    Pow2Add(51, 1);
    Pow2One();
    DivModUnique(HALF, Pow2(e), Pow2(51 - e), 0);
    Difference(Pow2(51 - e), 1, Pow2(e));
    DivModUnique(HALF - 1, Pow2(e), Pow2(51 - e) - 1, Pow2(e) - 1);
    Difference(Pow2(52 - e), 1, Pow2(e));
    DivModUnique(FRAC - 1, Pow2(e), Pow2(52 - e) - 1, Pow2(e) - 1);
  }

  // ---- numbers of at least 1

  /** The value of a number whose last k mantissa bits are its fraction. */
  lemma MixedUnits(p: pattern, k: nat)
    requires k <= 52 && p / FRAC == 1023 + (52 - k)
    ensures Units(p) == (FRAC + p % FRAC) * Pow2(1074 - k)
  {
    hide Pow2;
    assert Scale(p) == 1074 - k;
  }

  /** The mantissa rounded at position k is still one, or twice the least one. */
  lemma Range(mant: nat, h: nat, k: nat)
    requires FRAC <= mant < 2 * FRAC && 1 <= k <= 52 && h <= Pow2(k)
    ensures FRAC <= High(mant + h, k) * Pow2(k) <= 2 * FRAC
  {
    hide Pow2;
    SmallPowers();
    HighLow(mant + h, k);
    Pow2Add(52 - k, k);
    Pow2Add(53 - k, k);
    Above(High(mant + h, k), Pow2(52 - k), Low(mant + h, k), Pow2(k), mant + h);
    Below(High(mant + h, k), Pow2(53 - k), Low(mant + h, k), Pow2(k), mant + h);
  }

  lemma Above(m: nat, d: nat, r: nat, c: nat, a: nat)
    requires a == m * c + r && r < c && a >= d * c
    ensures m * c >= d * c
  {
    if m < d {
      MulStrict(m, d, c);
    } else {
      MulMono(d, m, c);
    }
  }

  lemma Below(m: nat, d: nat, r: nat, c: nat, a: nat)
    requires a == m * c + r && c > 0 && a < d * c + c
    ensures m * c <= d * c
  {
    if m > d {
      MulMono(d + 1, m, c);
    } else {
      MulMono(m, d, c);
    }
  }

  lemma Combined(x: nat, y: nat, c: nat)
    ensures (x + y) * c == x * c + y * c
  {
  }

  lemma HighAbove(top: nat, a: nat, k: nat)
    ensures High(top * Pow2(k) + a, k) == top + High(a, k)
  {
    hide Pow2;
    HighLow(a, k);
    Combined(top, High(a, k), Pow2(k));
    HighLowUnique(top * Pow2(k) + a, k, top + High(a, k), Low(a, k));
  }

  /** Sign and exponent are a multiple of 2^k. */
  lemma Top(s: nat, q: nat, k: nat)
    requires k <= 52
    ensures (s * Pow2(63 - k) + q * Pow2(52 - k)) * Pow2(k) == s * SIGN + q * FRAC
  {
    hide Pow2;
    SmallPowers();
    Pow2Add(63 - k, k);
    Pow2Add(52 - k, k);
    Combined(s * Pow2(63 - k), q * Pow2(52 - k), Pow2(k));
    MulAssoc(s, Pow2(63 - k), Pow2(k));
    MulAssoc(q, Pow2(52 - k), Pow2(k));
  }

  /** Adding h and clearing the fraction rounds the mantissa; a carry goes into the
      exponent. */
  lemma BumpedBits(b: u64, s: nat, q: nat, mant: nat, k: nat, h: nat)
    requires b == s * SIGN + q * FRAC + mant && s <= 1 && q <= 1100 && FRAC <= mant < 2 * FRAC
    requires 1 <= k <= 52 && h <= Pow2(k - 1)
    ensures h < W64 && Pow2(k) - 1 < W64
    ensures var c := High(mant + h, k) * Pow2(k);
            FRAC <= c <= 2 * FRAC && AndW(Plus(b, h), Not(Pow2(k) - 1)) == s * SIGN + q * FRAC + c
  {
    hide Pow2, AndW;
    SmallPowers();
    Pow2Mono(k - 1, 51);
    Pow2Mono(k - 1, k);
    Pow2Mono(k, 52);
    var m, top := High(mant + h, k), s * Pow2(63 - k) + q * Pow2(52 - k);
    Range(mant, h, k);
    Top(s, q, k);
    assert b + h == top * Pow2(k) + (mant + h);
    SmallMod(b + h, W64);
    ClearLow(b + h, k);
    HighAbove(top, mant + h, k);
    Combined(top, m, Pow2(k));
  }

  lemma Bumped(b: u64, k: nat, h: nat)
    requires Finite(b) && 1 <= k <= 52 && Magnitude(b) / FRAC == 1023 + (52 - k) && h <= Pow2(k - 1)
    ensures h < W64 && Pow2(k) - 1 < W64
    ensures IsInteger(b, AndW(Plus(b, h), Not(Pow2(k) - 1)), High(FRAC + Magnitude(b) % FRAC + h, k))
  {
    hide Pow2, ValueAt, AndW, Plus, Not;
    var s, q, mant := SignBit(b), 1022 + (52 - k), FRAC + Magnitude(b) % FRAC;
    var m := High(mant + h, k);
    assert b == s * SIGN + q * FRAC + mant;
    BumpedBits(b, s, q, mant, k, h);
    Packed(q, m * Pow2(k), 0);
    Pow2Add(k, q);
    MulAssoc(m, Pow2(k), Pow2(q));
    SignParts(q * FRAC + m * Pow2(k), s == 1);
  }

  // ---- rounding a mantissa

  lemma ScaleHalfUp(n: nat, k: nat, c: nat)
    ensures RoundHalfUp(n * Pow2(c), k + c) == RoundHalfUp(n, k)
  {
    hide Pow2;
    var q, r, d := High(n, k), Low(n, k), Pow2(c);
    HighLow(n, k);
    Pow2Add(k, c);
    MulStrict(r, Pow2(k), d);
    Combined(q * Pow2(k), r, d);
    MulAssoc(q, Pow2(k), d);
    HighLowUnique(n * d, k + c, q, r * d);
    if 2 * r < Pow2(k) {
      MulStrict(2 * r, Pow2(k), d);
    } else {
      MulMono(Pow2(k), 2 * r, d);
    }
    MulAssoc(2, r, d);
  }

  /** Adding the half and dropping the fraction. */
  lemma AddHalf(n: nat, k: nat)
    requires k >= 1
    ensures High(n + Pow2(k - 1), k) == RoundHalfUp(n, k)
  {
    hide Pow2;
    AddAndDrop(n, k, Pow2(k - 1));
  }

  /** Adding a little less than the half, unless the integer part is odd. */
  lemma AddLess(n: nat, k: nat)
    requires k >= 1
    ensures High(n + (Pow2(k - 1) - 1 + High(n, k) % 2), k) == RoundShift(n, k)
  {
    hide Pow2;
    AddAndDrop(n, k, Pow2(k - 1) - 1 + High(n, k) % 2);
  }

  lemma AddAndDrop(n: nat, k: nat, h: nat)
    requires k >= 1 && h <= Pow2(k - 1)
    ensures Pow2(k) == 2 * Pow2(k - 1)
    ensures High(n + h, k) == if Low(n, k) + h < Pow2(k) then High(n, k) else High(n, k) + 1
  {
    hide Pow2;
    HighLow(n, k);
    Pow2Double(k - 1);
    var q, r := High(n, k), Low(n, k);
    Combined(q, 1, Pow2(k));
    if r + h < Pow2(k) {
      HighLowUnique(n + h, k, q, r + h);
    } else {
      HighLowUnique(n + h, k, q + 1, r + h - Pow2(k));
    }
  }

  /** The lowest bit of the integer part. */
  lemma OddBit(b: u64, e: nat)
    requires Finite(b) && e <= 51 && Magnitude(b) / FRAC == 1023 + e
    ensures AndW(Shr(b, 52 - e), 1) == High(FRAC + Magnitude(b) % FRAC, 52 - e) % 2
  {
    hide Pow2, And, High, Shr;
    var s, k, mant := SignBit(b), 52 - e, FRAC + Magnitude(b) % FRAC;
    assert b == s * SIGN + (1022 + e) * FRAC + mant;
    HighOf(b, s, 1022 + e, mant, k);
    EvenTop(s, e);
    ShrIsHigh(b, k);
    LowBit(High(b, k));
    EvenSum(s * Pow2(11 + e) + (1022 + e) * Pow2(e), High(mant, k));
  }

  lemma EvenSum(x: nat, y: nat)
    requires x % 2 == 0
    ensures (x + y) % 2 == y % 2
  {
  }

  lemma HighOf(b: nat, s: nat, q: nat, mant: nat, k: nat)
    requires b == s * SIGN + q * FRAC + mant && k <= 52
    ensures High(b, k) == s * Pow2(63 - k) + q * Pow2(52 - k) + High(mant, k)
  {
    hide Pow2, High;
    var top := s * Pow2(63 - k) + q * Pow2(52 - k);
    Top(s, q, k);
    HighAbove(top, mant, k);
    assert b == top * Pow2(k) + mant;
  }

  lemma LowBit(x: nat)
    ensures And(x, 1) == x % 2
  {
    Pow2One();
    AndMask(x, 1);
  }

  lemma EvenTop(s: nat, e: nat)
    ensures (s * Pow2(11 + e) + (1022 + e) * Pow2(e)) % 2 == 0
  {
    hide Pow2;
    Pow2Double(10 + e);
    MulAssoc(s, 2, Pow2(10 + e));
    var x, y := s * Pow2(10 + e), 511 * Pow2(0);
    if e > 0 {
      Pow2Double(e - 1);
      MulAssoc(1022 + e, 2, Pow2(e - 1));
      y := (1022 + e) * Pow2(e - 1);
    } else {
      Pow2Zero();
    }
    assert s * Pow2(11 + e) + (1022 + e) * Pow2(e) == 2 * (x + y);
  }

  // ---- the results

  /** Below 1 only the comparison with a half matters. */
  lemma Small(p: pattern)
    requires p / FRAC < BIAS
    ensures Units(p) < Pow2(1074) && High(Units(p), 1074) == 0 && Low(Units(p), 1074) == Units(p)
    ensures 2 * Units(p) >= Pow2(1074) <==> p / FRAC == BIAS - 1
    ensures 2 * Units(p) == Pow2(1074) <==> p / FRAC == BIAS - 1 && p % FRAC == 0
  {
    hide Pow2;
    SmallPowers();
    Pow2Add(52, 1022);
    Pow2Add(52, 1021);
    Pow2Double(1021);
    Pow2Double(1073);
    MulStrict(Significand(p), 2 * FRAC, Pow2(Scale(p)));
    Pow2Mono(Scale(p), 1021);
    MulAssoc(2, FRAC, Pow2(1021));
    if p / FRAC == BIAS - 1 {
      MulMono(FRAC, Significand(p), Pow2(1021));
      if p % FRAC > 0 {
        MulStrict(FRAC, Significand(p), Pow2(1021));
      }
    } else {
      Pow2Mono(Scale(p), 1020);
      Pow2Double(1020);
      MulMono(Pow2(Scale(p)), Pow2(1020), 2 * FRAC);
    }
    HighLowUnique(Units(p), 1074, 0, Units(p));
  }

  /** From 2^52 on every number is an integer. */
  lemma Large(p: pattern)
    requires p < INF && p / FRAC >= BIAS + 52
    ensures Low(Units(p), 1074) == 0 && Units(p) == High(Units(p), 1074) * Pow2(1074)
  {
    hide Pow2;
    var k := Scale(p) - 1074;
    Pow2Add(k, 1074);
    MulAssoc(Significand(p), Pow2(k), Pow2(1074));
    assert Pow2(1074) > 0;
    HighLowUnique(Units(p), 1074, Significand(p) * Pow2(k), 0);
  }

  /** What both functions return for a number below 1. */
  lemma SmallResult(b: u64, p: pattern, n: nat)
    requires Finite(b) && ((p == 0 && n == 0) || (p == ONE && n == 1))
    ensures SignBit(b) * SIGN + p < W64 && IsInteger(b, SignBit(b) * SIGN + p, n)
  {
    hide Pow2, ValueAt;
    SignParts(p, SignBit(b) == 1);
    ZeroValue(0);
    Packed(1022, FRAC, 0);
    SmallPowers();
    Pow2Add(52, 1022);
  }

  /** Round rounds to the nearest integer, halves away from zero; infinities and NaNs
      stay. */
  lemma RoundCorrect(b: u64)
    ensures !Finite(b) ==> Round(b) == b
    ensures Finite(b) ==> IsInteger(b, Round(b), RoundHalfUp(Units(Magnitude(b)), 1074))
  {
    hide Pow2, ValueAt, AndW, OrW, Shr, Plus, Not, RoundHalfUp, High, Low;
    Fields(b);
    var p := Magnitude(b);
    if Finite(b) {
      var q := p / FRAC;
      if q < BIAS {
        Small(p);
        SignMask(b);
        SmallResult(b, 0, 0);
        SmallResult(b, ONE, 1);
        HalfUpIs(Units(p), 1074);
      } else if q < BIAS + 52 {
        RoundMixed(b);
      } else {
        Large(p);
        HalfUpIs(Units(p), 1074);
      }
    }
  }

  lemma HalfUpIs(a: nat, n: nat)
    ensures RoundHalfUp(a, n) == if 2 * Low(a, n) < Pow2(n) then High(a, n) else High(a, n) + 1
    ensures Pow2(n) > 0
  {
  }

  lemma RoundMixed(b: u64)
    requires Finite(b) && BIAS <= Magnitude(b) / FRAC < BIAS + 52
    ensures IsInteger(b, Round(b), RoundHalfUp(Units(Magnitude(b)), 1074))
  {
    hide Pow2, ValueAt, AndW, OrW, Shr, Plus, Not, RoundHalfUp, High, Low, IsInteger;
    Fields(b);
    var e := Magnitude(b) / FRAC - BIAS;
    var k, mant := 52 - e, FRAC + Magnitude(b) % FRAC;
    Shifted(e);
    Bumped(b, k, Pow2(k - 1));
    AddHalf(mant, k);
    MixedUnits(Magnitude(b), k);
    ScaleHalfUp(mant, k, 1074 - k);
  }

  /** RoundToEven rounds to the nearest integer, ties to even. */
  lemma RoundToEvenCorrect(b: u64)
    ensures !Finite(b) ==> RoundToEven(b) == b
    ensures Finite(b) ==> IsInteger(b, RoundToEven(b), RoundShift(Units(Magnitude(b)), 1074))
  {
    hide Pow2, ValueAt, AndW, OrW, Shr, Plus, Not, RoundShift, High, Low;
    Fields(b);
    var p := Magnitude(b);
    var q := p / FRAC;
    if q < BIAS {
      Small(p);
      SignMask(b);
      SmallResult(b, 0, 0);
      SmallResult(b, ONE, 1);
      RoundShiftIs(Units(p), 1074);
    } else if q < BIAS + 52 {
      EvenMixed(b);
    } else {
      EvenLarge(b, q - BIAS);
      if Finite(b) {
        Large(p);
        RoundShiftIs(Units(p), 1074);
      }
    }
  }

  lemma RoundShiftIs(a: nat, n: nat)
    ensures RoundShift(a, n) ==
            if 2 * Low(a, n) < Pow2(n) || (2 * Low(a, n) == Pow2(n) && High(a, n) % 2 == 0) then High(a, n)
            else High(a, n) + 1
    ensures Pow2(n) > 0
  {
  }

  /** What is added in the end, and what is cleared. */
  lemma EvenBits(b: u64, e: nat, odd: nat)
    requires Magnitude(b) / FRAC == BIAS + e && e <= 51 && odd < 2 && AndW(Shr(b, 52 - e), 1) == odd
    ensures Pow2(51 - e) - 1 + odd < W64 && Pow2(52 - e) - 1 < W64
    ensures RoundToEven(b) == AndW(Plus(b, Pow2(51 - e) - 1 + odd), Not(Pow2(52 - e) - 1))
  {
    hide Pow2, AndW, OrW, Shr, Plus, Not, Magnitude;
    Fields(b);
    Shifted(e);
    PlusSmall(HALF - 1, odd);
    Unwrapped(52 - e);
  }

  lemma Unwrapped(n: nat)
    requires n <= 52
    ensures Minus(52, 52 - n) == n
  {
  }

  lemma EvenMixed(b: u64)
    requires Finite(b) && BIAS <= Magnitude(b) / FRAC < BIAS + 52
    ensures IsInteger(b, RoundToEven(b), RoundShift(Units(Magnitude(b)), 1074))
  {
    hide Pow2, ValueAt, AndW, OrW, Shr, Plus, Not, RoundShift, High, Low, RoundToEven, IsInteger;
    var e := Magnitude(b) / FRAC - BIAS;
    var k, mant := 52 - e, FRAC + Magnitude(b) % FRAC;
    var odd := High(mant, k) % 2;
    OddBit(b, e);
    EvenBits(b, e, odd);
    Bumped(b, k, Pow2(k - 1) - 1 + odd);
    AddLess(mant, k);
    MixedUnits(Magnitude(b), k);
    RoundShiftScale(mant, k, 1074 - k);
  }

  lemma PlusSmall(x: nat, y: nat)
    requires x + y < W64
    ensures Plus(x, y) == x + y
  {
  }

  /** With an exponent this large nothing is added and nothing cleared. */
  lemma EvenLarge(b: u64, e: nat)
    requires Magnitude(b) / FRAC == BIAS + e && 52 <= e
    ensures RoundToEven(b) == b
  {
    hide Pow2, And, Shr, Plus, Not, High, Low;
    Fields(b);
    var odd := AndW(Shr(b, Minus(52, e)), 1);
    LowBit(Shr(b, Minus(52, e)));
    PlusSmall(HALF - 1, odd);
    SmallPowers();
    Pow2Mono(52, e);
    ShiftedOut(HALF - 1 + odd, e);
    ShiftedOut(FRAC - 1, e);
    PlusSmall(b, 0);
    AndAll(b);
  }

  lemma ShiftedOut(x: u64, e: nat)
    requires x < Pow2(e)
    ensures Shr(x, e) == 0
  {
    hide Pow2;
    SmallMod(x, Pow2(e));
  }

  lemma AndAll(b: u64)
    ensures AndW(b, Not(0)) == b
  {
    hide And;
    AndClearLow(b);
  }

  /** b lies halfway between an even integer and the one above. */
  predicate EvenTie(b: u64)
    requires Finite(b)
  {
    var a := Units(Magnitude(b));
    2 * Low(a, 1074) == Pow2(1074) && High(a, 1074) % 2 == 0
  }

  /** The two differ only on ties between an even integer and the odd one above it. */
  lemma RoundsDiffer(b: u64)
    requires Finite(b)
    ensures Round(b) == RoundToEven(b) <==> !EvenTie(b)
  {
    hide Pow2, ValueAt, Round, RoundToEven, RoundHalfUp, RoundShift, High, Low;
    RoundCorrect(b);
    RoundToEvenCorrect(b);
    var a, r, r' := Units(Magnitude(b)), Round(b), RoundToEven(b);
    HalfUpIs(a, 1074);
    RoundShiftIs(a, 1074);
    var n, n' := RoundHalfUp(a, 1074), RoundShift(a, 1074);
    if n > n' {
      MulStrict(n', n, Pow2(1074));
    } else if Magnitude(r) < Magnitude(r') {
      ValueMono(Magnitude(r), Magnitude(r'), 0);
    } else if Magnitude(r) > Magnitude(r') {
      ValueMono(Magnitude(r'), Magnitude(r), 0);
    }
  }
}
