/** Frexp, Ldexp and the floating-point remainder of package math. */
module Mod {
  import opened Arith
  import opened Word
  import opened Double

  function WithSign(b: u64, p: pattern): (r: u64) { SignBit(b) * SIGN + p }

  /** The biased exponent field. */
  function Field(b: u64): (r: u64) { AndW(Shr(b, 52), MASK) }

  function ReplaceField(b: u64, e: u64): (r: u64) {
    OrW(AndW(b, Not(Shl(MASK, 52))), Shl(e, 52))
  }

  /** A subnormal is multiplied by 2^52, which makes it normal. */
  function Normalize(x: u64): (r: (u64, int))
    requires !IsNaN(x)
  {
    if Magnitude(x) < FRAC then (WithSign(x, RoundTo(Units(Magnitude(x)) * FRAC, 0)), -52) else (x, 0)
  }

  function Frexp(f: u64): (r: (u64, int)) {
    if Magnitude(f) == 0 || !Finite(f) then (f, 0)
    else
      var (y, e) := Normalize(f);
      (ReplaceField(y, BIAS - 1), e + Field(y) - BIAS + 1)
  }

  function Ldexp(frac: u64, exp: int): (r: u64) {
    if Magnitude(frac) == 0 || !Finite(frac) then frac
    else
      var (y, e) := Normalize(frac);
      var exp := exp + e + Field(y) - BIAS;
      if exp < -1075 then WithSign(frac, 0)
      else if exp > 1023 then WithSign(frac, INF)
      else if exp < -1022 then
        var x := ReplaceField(y, exp + 53 + BIAS);
        if IsNaN(x) then x else WithSign(x, RoundTo(Units(Magnitude(x)), 53))
      else ReplaceField(y, exp + BIAS)
  }

  /** Comparison and subtraction as the built-in operators do them, on operands
      that are not NaN and, for the subtraction, not negative. */
  predicate Geq(a: u64, b: u64)
    requires !IsNaN(a) && !IsNaN(b)
  {
    SignedAt(a, 0) >= SignedAt(b, 0)
  }

  function Subtract(a: pattern, b: pattern): (r: pattern)
    requires Units(a) >= Units(b)
  {
    RoundTo(Units(a) - Units(b), 0)
  }

  // ---- taking a number apart

  /** y is normal, and |x| = m * 2^(e - 52) where m is y's significand and e what
      the sources add up as its exponent. */
  ghost predicate Parts(x: u64, y: u64, m: nat, e: int) {
    && !IsNaN(x) && FRAC <= m < 2 * FRAC && -1074 <= e <= 1023
    && SignBit(y) == SignBit(x) && 1 <= Field(y) <= 2046 && y % FRAC == m - FRAC
    && Fine(Magnitude(x)) == m * Pow2(e + 2096)
  }

  lemma NormalizeParts(x: u64)
    requires FiniteNonzero(x)
    ensures var (y, e) := Normalize(x);
            Parts(x, y, FRAC + y % FRAC, e + Field(y) - BIAS)
  {
    hide Pow2;
    hide RoundTo;
    hide ValueAt;
    hide Field;
    var p := Magnitude(x);
    var (y, e) := Normalize(x);
    if p < FRAC {
      var l := NormalizeShift(p);
      RoundToExact(Units(p) * FRAC, 0, (52 - l) * FRAC + p * Pow2(l));
      FieldOf(x, 53 - l, p * Pow2(l) - FRAC);
    } else {
      NormalFine(p);
      FieldOf(x, p / FRAC, p % FRAC);
    }
  }

  lemma FieldOf(b: u64, e: nat, f: nat)
    requires e <= 2046 && f < FRAC
    ensures var y := WithSign(b, e * FRAC + f);
            Field(y) == e && y % FRAC == f && SignBit(y) == SignBit(b) && Magnitude(y) == e * FRAC + f
  {
    hide Pow2;
    hide AndW;
    hide Shr;
    var y, p := WithSign(b, e * FRAC + f), e * FRAC + f;
    assert p < SIGN;
    DivModUnique(y, SIGN, SignBit(b), p);
    DivModUnique(p, FRAC, e, f);
    Fields(y);
    MagnitudeFields(y);
  }

  /** How far a subnormal's top bit is from position 52. */
  lemma NormalizeShift(p: pattern) returns (l: nat)
    requires 0 < p < FRAC
    ensures 1 <= l <= 52 && FRAC <= p * Pow2(l) < 2 * FRAC
    ensures ValueAt((52 - l) * FRAC + p * Pow2(l), 0) == Units(p) * FRAC
    ensures Fine(p) == p * Pow2(l) * Pow2(1074 - l)
  {
    hide Pow2;
    hide BitLen;
    l := TopShift(p);
    Packed(52 - l, p * Pow2(l), 0);
    SmallPowers();
    Pow2Add(l, 52 - l);
    Pow2Add(l, 1074 - l);
    Pow2Zero();
    MulAssoc(p, Pow2(l), Pow2(52 - l));
    MulAssoc(p, Pow2(l), Pow2(1074 - l));
  }

  lemma TopShift(p: nat) returns (l: nat)
    requires 0 < p < FRAC
    ensures 1 <= l <= 52 && FRAC <= p * Pow2(l) < 2 * FRAC
  {
    hide Pow2;
    SmallPowers();
    BitLenBounds(p, 52);
    BitLenBounds(p, 0);
    var k := BitLen(p);
    l := 53 - k;
    Pow2Add(k - 1, l);
    Pow2Add(k, l);
    MulMono(Pow2(k - 1), p, Pow2(l));
    MulStrict(p, Pow2(k), Pow2(l));
  }

  lemma ReplaceFieldParts(y: u64, e: nat)
    requires e <= 2046
    ensures ReplaceField(y, e) == WithSign(y, e * FRAC + y % FRAC)
  {
    hide AndW;
    hide OrW;
    hide Not;
    hide Shl;
    ClearExponent(y);
    SetExponent(SignBit(y), y % FRAC, e);
  }

  /** Frexp yields a fraction in [1/2, 1) of f's sign with f == frac * 2^exp; zeros,
      infinities and NaNs come back with exponent 0. */
  lemma FrexpCorrect(f: u64)
    ensures !FiniteNonzero(f) ==> Frexp(f) == (f, 0)
    ensures FiniteNonzero(f) ==>
            var (frac, exp) := Frexp(f);
            && SignBit(frac) == SignBit(f) && Field(frac) == BIAS - 1 && Finite(frac) && -1073 <= exp <= 1024
            && Fine(Magnitude(f)) == Units(Magnitude(frac)) * Pow2(exp + 1074)
  {
    hide Pow2;
    hide Field;
    hide ReplaceField;
    hide ValueAt;
    hide Normalize;
    if FiniteNonzero(f) {
      NormalizeParts(f);
      var (y, e) := Normalize(f);
      var m, exp := FRAC + y % FRAC, e + Field(y) - BIAS + 1;
      ReplaceFieldParts(y, BIAS - 1);
      FieldOf(y, BIAS - 1, y % FRAC);
      Packed(1021, m, 0);
      Pow2Add(1021, exp + 1074);
      MulAssoc(m, Pow2(1021), Pow2(exp + 1074));
    }
  }

  // ---- putting it together

  /** The exact frac * 2^exp as an integer and its unit. */
  function ScaledValue(frac: u64, exp: int): (r: nat)
    requires !IsNaN(frac)
  {
    if exp >= 0 then Units(Magnitude(frac)) * Pow2(exp) else Units(Magnitude(frac))
  }

  function ScaledUnit(exp: int): (r: nat) { if exp >= 0 then 0 else -exp }

  /** In terms of the parts: ScaledValue is m * 2^(e + 1022 + unit), written
      without a negative exponent. */
  lemma ScaledParts(f: u64, exp: int, y: u64, m: nat, e: int)
    requires Parts(f, y, m, e - exp)
    ensures e + 2096 + ScaledUnit(exp) >= 0
    ensures ScaledValue(f, exp) * Pow2(1074) == m * Pow2(e + 2096 + ScaledUnit(exp))
  {
    hide Pow2;
    hide Field;
    hide ValueAt;
    FinerValue(Magnitude(f), 0, 1074);
    if exp >= 0 {
      Pow2Add(e - exp + 2096, exp);
      MulSwap(Units(Magnitude(f)), Pow2(exp), Pow2(1074));
      MulAssoc(m, Pow2(e - exp + 2096), Pow2(exp));
    }
  }

  lemma Cancel(a: nat, b: nat, c: nat)
    requires c > 0
    ensures a * c == b * c ==> a == b
    ensures a * c < b * c ==> a < b
    ensures a * c <= b * c ==> a <= b
  {
    CompareScaled(a, b, c, 0);
  }

  /** Ldexp returns the nearest double, whatever the exponent. */
  lemma LdexpMagnitude(f: u64, exp: int, g: pattern)
    requires FiniteNonzero(f)
    ensures var r := Ldexp(f, exp);
            && !IsNaN(r) && SignBit(r) == SignBit(f)
            && BeatsMagnitude(ScaledValue(f, exp), ScaledUnit(exp), Magnitude(r), g)
  {
    hide Pow2;
    hide Field;
    hide ReplaceField;
    hide ValueAt;
    hide Normalize;
    hide BeatsMagnitude;
    hide ScaledValue;
    hide ScaledUnit;
    NormalizeParts(f);
    var (y, e0) := Normalize(f);
    var m, e, n, u := FRAC + y % FRAC, exp + e0 + Field(y) - BIAS, ScaledValue(f, exp), ScaledUnit(exp);
    ScaledParts(f, exp, y, m, e);
    if e < -1075 {
      Vanishes(n, m, e, u, g);
      SignParts(0, SignBit(f) == 1);
    } else if e > 1023 {
      Overflows(n, m, e, u, g);
      SignParts(INF, SignBit(f) == 1);
    } else if e < -1022 {
      ReplaceFieldParts(y, e + 53 + BIAS);
      FieldOf(y, e + 53 + BIAS, m - FRAC);
      var x := Magnitude(ReplaceField(y, e + 53 + BIAS));
      Underflows(n, m, e, u, x, g);
      SignParts(RoundTo(Units(x), 53), SignBit(f) == 1);
    } else {
      ReplaceFieldParts(y, e + BIAS);
      FieldOf(y, e + BIAS, m - FRAC);
      ExactResult(n, m, e, u, g);
    }
  }

  lemma Vanishes(n: nat, m: nat, e: int, u: nat, g: pattern)
    requires e < -1075 && e + 2096 + u >= 0 && m < 2 * FRAC
    requires n * Pow2(1074) == m * Pow2(e + 2096 + u)
    ensures BeatsMagnitude(n, u, 0, g)
  {
    hide Pow2;
    hide ValueAt;
    BelowHalf(m, e + 2096 + u, u);
    Cancel(2 * n, Pow2(u), Pow2(1074));
    SmallestValue(u, g);
  }

  lemma BelowHalf(m: nat, k: nat, u: nat)
    requires k <= 1020 + u && m < 2 * FRAC
    ensures 2 * (m * Pow2(k)) < Pow2(u) * Pow2(1074)
  {
    hide Pow2;
    SmallPowers();
    Pow2Mono(k, 1020 + u);
    MulStrict(m, 2 * FRAC, Pow2(k));
    MulMono(Pow2(k), Pow2(1020 + u), 2 * FRAC);
    Pow2Add(53, 1020 + u);
    Pow2Double(1073 + u);
    Pow2Add(u, 1074);
  }

  lemma SmallestValue(u: nat, g: pattern)
    ensures ValueAt(0, u) == 0 && (g > 0 ==> ValueAt(g, u) >= Pow2(u))
  {
    hide Pow2;
    hide ValueAt;
    ZeroValue(u);
    assert ValueAt(1, u) == Pow2(u) by { ValueStep(0, u); }
    if g > 1 {
      ValueMono(1, g, u);
    }
  }

  lemma Overflows(n: nat, m: nat, e: int, u: nat, g: pattern)
    requires e > 1023 && m >= FRAC
    requires n * Pow2(1074) == m * Pow2(e + 2096 + u)
    ensures BeatsMagnitude(n, u, INF, g)
  {
    hide Pow2;
    hide ValueAt;
    hide BeatsMagnitude;
    InfinityAt(u);
    Pow2Add(2046 + u, 1074);
    Pow2Mono(3120 + u, e + 2096 + u);
    MulMono(Pow2(3120 + u), Pow2(e + 2096 + u), FRAC);
    MulMono(FRAC, m, Pow2(e + 2096 + u));
    MulAssoc(FRAC, Pow2(2046 + u), Pow2(1074));
    Cancel(ValueAt(INF, u), n, Pow2(1074));
    OverflowNearest(n, u, g);
  }

  lemma ExactResult(n: nat, m: nat, e: int, u: nat, g: pattern)
    requires -1022 <= e <= 1023 && FRAC <= m < 2 * FRAC
    requires n * Pow2(1074) == m * Pow2(e + 2096 + u)
    ensures (e + 1022) * FRAC + m < INF && BeatsMagnitude(n, u, (e + 1022) * FRAC + m, g)
    ensures n == ValueAt((e + 1022) * FRAC + m, u)
  {
    hide Pow2;
    hide ValueAt;
    Packed(e + 1022, m, u);
    Pow2Add(e + 1022 + u, 1074);
    MulAssoc(m, Pow2(e + 1022 + u), Pow2(1074));
    Cancel(n, m * Pow2(e + 1022 + u), Pow2(1074));
  }

  lemma Underflows(n: nat, m: nat, e: int, u: nat, x: pattern, g: pattern)
    requires -1075 <= e < -1022 && FRAC <= m < 2 * FRAC && x == (e + 1075) * FRAC + m
    requires e + 2096 + u >= 0 && n * Pow2(1074) == m * Pow2(e + 2096 + u)
    ensures BeatsMagnitude(n, u, RoundTo(Units(x), 53), g)
  {
    hide Pow2;
    hide ValueAt;
    hide BeatsMagnitude;
    hide RoundTo;
    Packed(e + 1075, m, 0);
    Pow2Add(e + 1075, u);
    MulAssoc(m, Pow2(e + 1075), Pow2(u));
    assert Units(x) * Pow2(u) == m * Pow2(e + 1075 + u);
    Pow2Add(e + 1075 + u, 1074);
    Pow2Add(e + 2096 + u, 53);
    MulAssoc(m, Pow2(e + 1075 + u), Pow2(1074));
    MulAssoc(m, Pow2(e + 2096 + u), Pow2(53));
    MulSwap(n, Pow2(1074), Pow2(53));
    Cancel(n * Pow2(53), Units(x) * Pow2(u), Pow2(1074));
    RoundToNearest(Units(x), 53, g);
    BeatsRescale(Units(x), 53, u, RoundTo(Units(x), 53), g);
    BeatsRescale(n, u, 53, RoundTo(Units(x), 53), g);
  }

  lemma LdexpCorrect(f: u64, exp: int)
    requires FiniteNonzero(f)
    ensures NearestEven(Signed(SignBit(f) == 1, ScaledValue(f, exp)), ScaledUnit(exp), Ldexp(f, exp))
  {
    hide Ldexp;
    hide BeatsMagnitude;
    hide ValueAt;
    hide Pow2;
    var r := Ldexp(f, exp);
    LdexpMagnitude(f, exp, 0);
    forall g: pattern
      ensures BeatsMagnitude(ScaledValue(f, exp), ScaledUnit(exp), Magnitude(r), g)
    {
      LdexpMagnitude(f, exp, g);
    }
    PositiveScaled(f, exp);
    NearestFromMagnitude(ScaledValue(f, exp), ScaledUnit(exp), Magnitude(r), SignBit(f) == 1);
    assert r == if SignBit(f) == 1 then SIGN + Magnitude(r) else Magnitude(r);
  }

  lemma PositiveScaled(f: u64, exp: int)
    requires FiniteNonzero(f)
    ensures ScaledValue(f, exp) > 0
  {
    hide Pow2;
    hide ValueAt;
    ValueMono(0, Magnitude(f), 0);
    if exp >= 0 {
      ProductZero(Units(Magnitude(f)), Pow2(exp));
    }
  }

  /** Ldexp undoes Frexp, for every bit pattern. */
  lemma LdexpFrexp(f: u64)
    ensures var (frac, exp) := Frexp(f); Ldexp(frac, exp) == f
  {
    hide Pow2;
    hide ValueAt;
    hide Field;
    if FiniteNonzero(f) {
      hide Frexp;
      hide Ldexp;
      FrexpCorrect(f);
      var (frac, exp) := Frexp(f);
      FractionNonzero(frac);
      ScaledBack(f, frac, exp);
      LdexpMagnitude(frac, exp, Magnitude(f));
      SameMagnitude(ScaledUnit(exp), Magnitude(Ldexp(frac, exp)), Magnitude(f));
    }
  }

  lemma FractionNonzero(frac: u64)
    requires Finite(frac) && Field(frac) == BIAS - 1
    ensures FiniteNonzero(frac)
  {
    hide Pow2;
    hide AndW;
    hide Shr;
    Fields(frac);
  }

  lemma ScaledBack(f: u64, frac: u64, exp: int)
    requires !IsNaN(f) && !IsNaN(frac) && exp >= -1074
    requires Fine(Magnitude(f)) == Units(Magnitude(frac)) * Pow2(exp + 1074)
    ensures ScaledValue(frac, exp) == ValueAt(Magnitude(f), ScaledUnit(exp))
  {
    hide Pow2;
    hide ValueAt;
    var a, b, u := Units(Magnitude(f)), Units(Magnitude(frac)), ScaledUnit(exp);
    FinerValue(Magnitude(f), 0, 1074);
    FinerValue(Magnitude(f), 0, u);
    if exp >= 0 {
      Pow2Add(exp, 1074);
      MulAssoc(b, Pow2(exp), Pow2(1074));
      Pow2Zero();
      Cancel(b * Pow2(exp), a, Pow2(1074));
    } else {
      Pow2Add(1074 - u, u);
      MulAssoc(b, Pow2(1074 - u), Pow2(u));
      MulSwap(a, Pow2(1074), Pow2(u));
      Cancel(b, a * Pow2(u), Pow2(1074));
    }
  }

  lemma SameMagnitude(k: nat, p: pattern, p': pattern)
    requires BeatsMagnitude(ValueAt(p', k), k, p, p')
    ensures p == p'
  {
    hide ValueAt;
    if p < p' {
      ValueMono(p, p', k);
    } else if p' < p {
      ValueMono(p', p, k);
    }
  }

  // ---- the remainder loop

  /** Any multiple of a power of two with a short enough factor is a double. */
  lemma Representable(c: nat, k: nat) returns (p: pattern)
    requires c < 2 * FRAC && c * Pow2(k) < Units(INF)
    ensures Units(p) == c * Pow2(k)
    decreases k
  {
    hide Pow2;
    InfinityAt(0);
    if c >= FRAC {
      if k >= 2046 {
        Pow2Mono(2046, k);
        MulMono(Pow2(2046), Pow2(k), FRAC);
        MulMono(FRAC, c, Pow2(k));
      }
      Packed(k, c, 0);
      p := k * FRAC + c;
    } else if k == 0 {
      Packed(0, c, 0);
      p := c;
    } else {
      Pow2Double(k - 1);
      MulAssoc(c, 2, Pow2(k - 1));
      p := Representable(2 * c, k - 1);
    }
  }

  /** Multiplying y by 2^k is exact as long as it stays below 2^1024. */
  lemma LdexpExact(y: pattern, k: nat)
    requires 0 < y < INF && Units(y) * Pow2(k) < Units(INF)
    ensures Ldexp(y, k) <= INF && Units(Ldexp(y, k)) == Units(y) * Pow2(k)
  {
    hide Pow2;
    hide Ldexp;
    hide Units;
    hide ValueAt;
    hide BeatsMagnitude;
    hide ScaledValue;
    UnitsShifted(y, k);
    var p := Representable(Significand(y), Scale(y) + k);
    LdexpMagnitude(y, k, p);
    ScaledWhole(y, k);
    UnitsAtZero(p);
    SameMagnitude(0, Ldexp(y, k) % SIGN, p);
    assert SignBit(Ldexp(y, k)) == 0;
  }

  lemma ScaledWhole(y: pattern, k: nat)
    ensures Magnitude(y) == y && SignBit(y) == 0 && ScaledValue(y, k) == Units(y) * Pow2(k) && ScaledUnit(k) == 0
  {
  }

  lemma UnitsAtZero(p: pattern)
    ensures ValueAt(p, 0) == Units(p)
  {
  }

  lemma UnitsShifted(y: pattern, k: nat)
    ensures Units(y) * Pow2(k) == Significand(y) * Pow2(Scale(y) + k)
  {
    hide Pow2;
    Pow2Add(Scale(y), k);
    MulAssoc(Significand(y), Pow2(Scale(y)), Pow2(k));
  }

  /** The difference of doubles within a factor of two is a double. */
  lemma SubtractExact(r: pattern, t: pattern)
    requires t <= r < INF && Units(t) <= Units(r) < 2 * Units(t)
    ensures Units(Subtract(r, t)) == Units(r) - Units(t)
  {
    hide Pow2;
    hide RoundTo;
    assert Scale(t) <= Scale(r);
    var k := Scale(t);
    var c := Significand(r) * Pow2(Scale(r) - k) - Significand(t);
    Pow2Add(Scale(r) - k, k);
    MulAssoc(Significand(r), Pow2(Scale(r) - k), Pow2(k));
    assert Units(r) - Units(t) == c * Pow2(k) by {
      Difference(Significand(r) * Pow2(Scale(r) - k), Significand(t), Pow2(k));
    }
    NonNegative(c, Pow2(k));
    Cancel(c, Significand(t), Pow2(k));
    ValueMono(r, INF, 0);
    var p := Representable(c, k);
    RoundToExact(Units(r) - Units(t), 0, p);
  }

  lemma NonNegative(c: int, d: nat)
    requires d > 0
    ensures c < 0 ==> c * d < 0
  {
  }

  /** All fractions lie within a factor of two. */
  lemma FractionRange(frac: u64)
    requires Finite(frac) && Field(frac) == BIAS - 1 && SignBit(frac) == 0
    ensures FRAC * Pow2(1021) <= Units(frac) < 2 * FRAC * Pow2(1021)
  {
    hide Pow2;
    hide AndW;
    hide Shr;
    Fields(frac);
    MulMono(FRAC, Significand(frac), Pow2(1021));
    MulStrict(Significand(frac), 2 * FRAC, Pow2(1021));
  }

  /** Comparing the fractions finds the largest y * 2^k that is at most r. */
  lemma LargestMultiple(a: nat, b: nat, rexp: int, yexp: int, r: nat, y: nat)
    requires rexp >= -1073 && yexp >= -1073 && y > 0
    requires a < 2 * b && b < 2 * a
    requires r * Pow2(1074) == a * Pow2(rexp + 1074) && y * Pow2(1074) == b * Pow2(yexp + 1074)
    requires y <= r
    ensures var k := (if a < b then rexp - 1 else rexp) - yexp;
            k >= 0 && y * Pow2(k) <= r < 2 * (y * Pow2(k))
  {
    hide Pow2;
    var e := if a < b then rexp - 1 else rexp;
    var a' := if a < b then 2 * a else a;
    assert a' * Pow2(e + 1074) == a * Pow2(rexp + 1074) by { Pow2Double(rexp + 1073); MulDouble(a, Pow2(rexp + 1073)); }
    MulMono(y, r, Pow2(1074));
    ExponentOrder(a', b, e, yexp);
    Fits(a', b, e, yexp, r, y);
  }

  lemma ExponentOrder(a: nat, b: nat, e: int, yexp: int)
    requires e >= -1074 && yexp >= -1074 && a < 2 * b
    requires b * Pow2(yexp + 1074) <= a * Pow2(e + 1074)
    ensures e >= yexp
  {
    hide Pow2;
    if e < yexp {
      Pow2Mono(e + 1074, yexp + 1074);
      MulMono(2 * Pow2(e + 1074), Pow2(yexp + 1074), b);
      MulDouble(b, Pow2(e + 1074));
      MulStrict(a, 2 * b, Pow2(e + 1074));
    }
  }

  lemma Fits(a: nat, b: nat, e: int, yexp: int, r: nat, y: nat)
    requires e >= yexp >= -1074 && b <= a < 2 * b
    requires r * Pow2(1074) == a * Pow2(e + 1074) && y * Pow2(1074) == b * Pow2(yexp + 1074)
    ensures y * Pow2(e - yexp) <= r < 2 * (y * Pow2(e - yexp))
  {
    hide Pow2;
    var k := e - yexp;
    var unit := Pow2(e + 1074);
    Pow2Add(yexp + 1074, k);
    ScaledBy(b, Pow2(yexp + 1074), Pow2(k), unit, y, Pow2(1074));
    Between(a, b, unit);
    Sandwich(y * Pow2(k), r, Pow2(1074), b * unit, a * unit);
  }

  lemma ScaledBy(b: nat, s: nat, k: nat, sk: nat, y: nat, z: nat)
    requires y * z == b * s && sk == s * k
    ensures (y * k) * z == b * sk
  {
    calc {
      (y * k) * z;
      (y * z) * k;
      (b * s) * k;
      b * (s * k);
    }
  }

  lemma Between(a: nat, b: nat, unit: nat)
    requires b <= a < 2 * b && 0 < unit
    ensures b * unit <= a * unit < 2 * (b * unit)
  {
    MulMono(b, a, unit);
    MulStrict(a, 2 * b, unit);
  }

  lemma Sandwich(p: nat, r: nat, z: nat, low: nat, high: nat)
    requires 0 < z && p * z == low && r * z == high && low <= high < 2 * low
    ensures p <= r < 2 * p
  {
    assert (2 * p) * z == 2 * low;
    if r < p {
      MulStrict(r, p, z);
    }
    if r >= 2 * p {
      MulMono(2 * p, r, z);
    }
  }

  function Exponent(r: u64, y: u64): (v: int)
    requires !IsNaN(Frexp(r).0) && !IsNaN(Frexp(y).0)
  {
    (if !Geq(Frexp(r).0, Frexp(y).0) then Frexp(r).1 - 1 else Frexp(r).1) - Frexp(y).1
  }

  lemma PickedPower(r: pattern, y: pattern)
    requires 0 < y <= r < INF
    ensures !IsNaN(Frexp(r).0) && !IsNaN(Frexp(y).0) && Units(y) > 0
    ensures var k := Exponent(r, y);
            k >= 0 && Units(y) * Pow2(k) <= Units(r) < 2 * (Units(y) * Pow2(k))
  {
    hide Pow2;
    hide ValueAt;
    hide Frexp;
    hide Field;
    FrexpCorrect(r);
    FrexpCorrect(y);
    var (rfr, rexp) := Frexp(r);
    var (yfr, yexp) := Frexp(y);
    FractionRange(rfr);
    FractionRange(yfr);
    FinerValue(r, 0, 1074);
    FinerValue(y, 0, 1074);
    ValueMono(0, y, 0);
    ZeroValue(0);
    if y < r {
      ValueMono(y, r, 0);
    }
    LargestMultiple(Units(rfr), Units(yfr), rexp, yexp, Units(r), Units(y));
  }

  /** One iteration: the power of two is the largest that fits, and neither the
      scaling nor the subtraction rounds. */
  lemma Iteration(r: pattern, y: pattern)
    requires 0 < y <= r < INF
    ensures !IsNaN(Frexp(r).0) && !IsNaN(Frexp(y).0)
    ensures var k := Exponent(r, y);
            && k >= 0
            && var t := Ldexp(y, k);
            && t <= r && Units(t) == Units(y) * Pow2(k) && Units(t) <= Units(r) < 2 * Units(t)
            && Units(Subtract(r, t)) == Units(r) - Units(t)
  {
    hide Pow2;
    hide ValueAt;
    hide Frexp;
    hide Ldexp;
    hide Subtract;
    PickedPower(r, y);
    var k := Exponent(r, y);
    ValueMono(r, INF, 0);
    LdexpExact(y, k);
    var t := Ldexp(y, k);
    if r < t {
      ValueMono(r, t, 0);
    }
    SubtractExact(r, t);
  }

  /** r has x's sign and is exactly |x| mod |y|. */
  ghost predicate IsRemainder(x: u64, y: u64, r: u64)
    requires Finite(x) && FiniteNonzero(y)
  {
    && Finite(r) && SignBit(r) == SignBit(x)
    && var u := Units(Magnitude(y)); u > 0 && Units(Magnitude(r)) == Units(Magnitude(x)) % u
  }

  /** The invariant: subtracting multiples of y leaves the remainder alone. */
  ghost predicate SameRemainder(a: pattern, b: pattern, y: pattern) {
    y > 0 ==> Units(y) > 0 && Units(a) % Units(y) == Units(b) % Units(y)
  }

  lemma RemainderStep(a: nat, m: nat, y: nat, t: nat)
    requires y > 0 && t == y * m && t <= a
    ensures (a - t) % y == a % y
    ensures m > 0 ==> t > 0
  {
    DivMod(a, y);
    var q, r := a / y, a % y;
    Difference(q, m, y);
    DivModUnique(a - t, y, q - m, r);
    ProductZero(y, if m > 0 then m else 1);
    ProductZero(m, y);
  }

  /** The remainder of x / y by repeated subtraction of y times a power of two. */
  method Mod(x: u64, y0: u64) returns (r: u64)
    ensures Magnitude(y0) == 0 || IsInf(x) || IsNaN(x) || IsNaN(y0) ==> r == NAN
    ensures Finite(x) && IsInf(y0) ==> r == x
    ensures Finite(x) && FiniteNonzero(y0) ==> IsRemainder(x, y0, r)
  {
    hide Pow2;
    hide ValueAt;
    hide Frexp;
    hide Ldexp;
    hide Subtract;
    hide SameRemainder;
    hide Units;
    if Magnitude(y0) == 0 || IsInf(x) || IsNaN(x) || IsNaN(y0) {
      return NAN;
    }
    var y: u64 := Magnitude(y0);
    var (yfr, yexp) := Frexp(y);
    var negative := SignedAt(x, 0) < 0;
    r := if negative then Magnitude(x) else x;
    Start(x, y);
    while Geq(r, y)
      invariant Finite(r) && SignBit(r) == (if x == SIGN then 1 else 0) && (x == SIGN ==> r == x)
      invariant SameRemainder(Magnitude(r), Magnitude(x), y)
      invariant IsInf(y) ==> Magnitude(r) == Magnitude(x)
      decreases Magnitude(r)
    {
      OrderOfValues(r, y);
      KeepsRemainder(r, x % SIGN, y);
      var (rfr, rexp) := Frexp(r);
      if !Geq(rfr, yfr) {
        rexp := rexp - 1;
      }
      var t := Ldexp(y, rexp - yexp);
      r := Subtract(r, t);
    }
    OrderOfValues(r, y);
    Finished(Magnitude(r), Magnitude(x), y);
    if negative {
      r := SIGN + Magnitude(r);
    }
  }

  lemma Start(x: u64, y: pattern)
    requires Finite(x)
    ensures SameRemainder(Magnitude(x), Magnitude(x), y)
    ensures SignedAt(x, 0) < 0 <==> SignBit(x) == 1 && x != SIGN
  {
    hide ValueAt;
    ZeroValue(0);
    if y > 0 {
      ValueMono(0, y, 0);
    }
    if Magnitude(x) > 0 {
      ValueMono(0, Magnitude(x), 0);
    }
  }

  lemma OrderOfValues(r: u64, y: pattern)
    requires Finite(r) && y > 0
    ensures Geq(r, y) <==> SignBit(r) == 0 && y <= r
    ensures SignBit(r) == 1 ==> Magnitude(r) >= 0
  {
    hide ValueAt;
    ZeroValue(0);
    ValueMono(0, y, 0);
    if Magnitude(r) < y {
      ValueMono(Magnitude(r), y, 0);
    } else if y < Magnitude(r) {
      ValueMono(y, Magnitude(r), 0);
    }
  }

  lemma KeepsRemainder(r: pattern, x: pattern, y: pattern)
    requires 0 < y <= r < INF && SameRemainder(r, x, y)
    ensures !IsNaN(Frexp(r).0) && !IsNaN(Frexp(y).0)
    ensures var t := Ldexp(y, Exponent(r, y));
            && t <= r && Units(t) <= Units(r) && Subtract(r, t) < r && SameRemainder(Subtract(r, t), x, y)
  {
    hide Pow2;
    hide ValueAt;
    hide Frexp;
    hide Ldexp;
    hide Subtract;
    Iteration(r, y);
    var t := Ldexp(y, Exponent(r, y));
    var d := Subtract(r, t);
    ZeroValue(0);
    ValueMono(0, y, 0);
    RemainderStep(Units(r), Pow2(Exponent(r, y)), Units(y), Units(t));
    if r < d {
      ValueMono(r, d, 0);
    }
  }

  lemma Finished(r: pattern, x: pattern, y: pattern)
    requires 0 < y && r < y && SameRemainder(r, x, y)
    ensures Units(y) > 0 && Units(r) == Units(x) % Units(y)
  {
    hide ValueAt;
    ValueMono(r, y, 0);
    SmallMod(Units(r), Units(y));
  }
}
