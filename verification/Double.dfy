/** IEEE 754 binary64 values as bit patterns, exact values as integers, and
    what it means to be the correctly rounded result (IEEE 754-2008, section
    4.3.1, roundTiesToEven). */
module Double {
  import opened Arith
  import opened Word

  const FRAC: int := 0x10_0000_0000_0000        // 2^52
  const SIGN: int := 0x8000_0000_0000_0000      // 2^63
  const INF: int := 0x7FF0_0000_0000_0000       // uvinf
  const NAN: u64 := 0x7FF8_0000_0000_0001       // uvnan
  const MASK: int := 0x7FF
  const BIAS: int := 1023

  /** A bit pattern without its sign; INF and everything below it. */
  type pattern = p: int | 0 <= p <= INF

  function SignBit(b: u64): (r: bit) { b / SIGN }
  function Magnitude(b: u64): (r: nat) { b % SIGN }
  predicate IsNaN(b: u64) { Magnitude(b) > INF }
  predicate IsInf(b: u64) { Magnitude(b) == INF }
  predicate Finite(b: u64) { Magnitude(b) < INF }
  predicate FiniteNonzero(b: u64) { Finite(b) && Magnitude(b) != 0 }

  /** A finite pattern p denotes Significand(p) * 2^(Scale(p) - 1074).  Read the
      same way, INF denotes 2^1024, the value at which overflow begins. */
  function Significand(p: pattern): (r: nat) {
    if p < FRAC then p else FRAC + p % FRAC
  }

  function Scale(p: pattern): (r: nat) {
    if p < FRAC then 0 else p / FRAC - 1
  }

  /** The exact value in units of 2^-(1074 + k). */
  function ValueAt(p: pattern, k: nat): (r: nat) {
    Significand(p) * Pow2(Scale(p) + k)
  }

  /** In units of 2^-1074, the smallest positive double. */
  function Units(p: pattern): (r: nat) {
    ValueAt(p, 0)
  }

  /** In units of 2^-2148, fine enough for any product. */
  function Fine(p: pattern): (r: nat) {
    ValueAt(p, 1074)
  }

  function Signed(neg: bool, a: nat): (r: int) { if neg then 0 - a else a }

  function SignedAt(b: u64, k: nat): (r: int)
    requires !IsNaN(b)
  {
    Signed(SignBit(b) == 1, ValueAt(Magnitude(b), k))
  }

  /** b is at least as close to the exact value n, in units of 2^-(1074 + k), as
      g; when they tie, b is the even one. */
  ghost predicate Beats(n: int, k: nat, b: u64, g: u64)
    requires !IsNaN(b) && !IsNaN(g)
  {
    var d, d' := Abs(n - SignedAt(b, k)), Abs(n - SignedAt(g, k));
    d < d' || (d == d' && (SignedAt(g, k) == SignedAt(b, k) || b % 2 == 0))
  }

  /** b is the exact value n, in units of 2^-(1074 + k), rounded once, to nearest
      with ties to even.  Since the infinities stand for +-2^1024, an exact value
      at or beyond the middle of the largest finite double and 2^1024 rounds to
      infinity. */
  ghost predicate NearestEven(n: int, k: nat, b: u64) {
    && !IsNaN(b)
    && (SignBit(b) == 1 <==> n < 0)
    && forall g: u64 | !IsNaN(g) :: Beats(n, k, b, g)
  }

  // ---- rounding at a bit position

  /** a / 2^n rounded to the nearest integer, ties to even. */
  function RoundShift(a: nat, n: nat): (r: nat) {
    var q, r := High(a, n), Low(a, n);
    if 2 * r < Pow2(n) || (2 * r == Pow2(n) && q % 2 == 0) then q else q + 1
  }

  lemma RoundShiftNearest(a: nat, n: nat, j: nat)
    ensures var m := RoundShift(a, n);
            var x, y := Abs(a - m * Pow2(n)), Abs(a - j * Pow2(n));
            x < y || (x == y && (j == m || m % 2 == 0))
  {
    hide High;
    hide Low;
    hide Pow2;
    var q, d := High(a, n), Pow2(n);
    HighLow(a, n);
    Multiples(q, j, d);
    Multiples(q, q + 1, d);
  }

  /** Where the multiple j * d lies relative to q * d. */
  lemma Multiples(q: nat, j: nat, d: nat)
    ensures j < q ==> j * d <= q * d - d
    ensures j == q + 1 ==> j * d == q * d + d
    ensures j > q + 1 ==> j * d >= q * d + 2 * d
  {
    if j < q {
      MulMono(j + 1, q, d);
    } else if j > q + 1 {
      MulMono(q + 2, j, d);
    }
  }

  lemma RoundShiftScale(n: nat, k: nat, c: nat)
    ensures RoundShift(n * Pow2(c), k + c) == RoundShift(n, k)
  {
    hide High;
    hide Low;
    hide Pow2;
    HighLow(n, k);
    Pow2Add(k, c);
    var q, r, d := High(n, k), Low(n, k), Pow2(c);
    Rescale(q, Pow2(k), r, d);
    CompareScaled(2 * r, Pow2(k), d, 0);
    CompareScaled(r, Pow2(k), d, 0);
    HighLowUnique(n * d, k + c, q, r * d);
    assert 2 * (r * d) == 2 * r * d;
  }

  // ---- sticky shifts

  /** a shifted right by n, with the lowest bit of the result set when any bit
      was lost. */
  function Sticky(a: nat, n: nat): (r: nat) {
    var q := High(a, n);
    if Low(a, n) != 0 && q % 2 == 0 then q + 1 else q
  }

  /** What one sticky shift keeps of the quotient and remainder of the next. */
  lemma StickyParts(a: nat, j: nat, k: nat)
    requires k > 0
    ensures var q, s := High(a, j), Sticky(a, j);
            && q <= s <= q + 1 && (if Low(a, j) == 0 then s == q else s % 2 == 1)
            && High(s, k) == High(a, j + k)
            && Low(a, j + k) == Low(q, k) * Pow2(j) + Low(a, j)
            && Low(s, k) == Low(q, k) + (s - q)
            && Low(s, k) % 2 == s % 2
  {
    hide High;
    hide Low;
    var q, s := High(a, j), Sticky(a, j);
    HighLowAdd(a, j, k);
    HighLowHalf(q, k);
    HighLowHalf(s, k);
  }

  lemma ProductZero(x: nat, y: nat)
    requires y > 0
    ensures x * y == 0 <==> x == 0
    ensures x * y >= x
  {
    MulMono(1, y, x);
  }

  lemma StickyZero(a: nat)
    ensures Sticky(a, 0) == a
  {
    HighLowZero(a);
  }

  lemma StickyCompose(a: nat, j: nat, k: nat)
    ensures Sticky(Sticky(a, j), k) == Sticky(a, j + k)
  {
    hide High;
    hide Low;
    if k == 0 {
      HighLowZero(Sticky(a, j));
    } else {
      StickyParts(a, j, k);
      ProductZero(Low(High(a, j), k), Pow2(j));
    }
  }

  /** A sticky shift that leaves at least two bits below the cut does not change
      the rounding. */
  lemma StickyRound(a: nat, j: nat, k: nat)
    requires k >= 2
    ensures RoundShift(Sticky(a, j), k) == RoundShift(a, j + k)
  {
    hide High;
    hide Low;
    hide Sticky;
    var half := Pow2(k - 1);
    StickyParts(a, j, k);
    HighLow(a, j);
    CompareScaled(Low(High(a, j), k), half, Pow2(j), Low(a, j));
    assert Pow2(k) == 2 * half && half % 2 == 0;
    assert Pow2(j + k) == 2 * (half * Pow2(j)) by { Pow2Add(k - 1, j); }
  }

  /** u * c + v against h * c. */
  lemma CompareScaled(u: nat, h: nat, c: nat, v: nat)
    requires v < c
    ensures u < h ==> u * c + v < h * c
    ensures u == h ==> (u * c + v == h * c <==> v == 0) && u * c + v >= h * c
    ensures u > h ==> u * c + v > h * c
  {
    if u < h {
      assert (u + 1) * c == u * c + c;
      MulMono(u + 1, h, c);
    } else if u > h {
      MulStrict(h, u, c);
    }
  }

  /** An even number can be added after the shift instead of before it. */
  lemma StickyAdd(w: nat, v: nat, d: nat)
    requires w % 2 == 0
    ensures w + Sticky(v, d) == Sticky(w * Pow2(d) + v, d)
  {
    hide High;
    hide Low;
    hide Pow2;
    var q, c := High(v, d), Pow2(d);
    HighLow(v, d);
    assert (w + q) * c == w * c + q * c;
    HighLowUnique(w * c + v, d, w + q, Low(v, d));
  }

  lemma StickySub(w: nat, v: nat, d: nat)
    requires w % 2 == 0 && v <= w * Pow2(d)
    ensures w - Sticky(v, d) == Sticky(w * Pow2(d) - v, d)
  {
    hide High;
    hide Low;
    hide Pow2;
    var q, r, c := High(v, d), Low(v, d), Pow2(d);
    HighLow(v, d);
    Borrow(w, q, r, c);
    BorrowSticky(w, w * c - v, q, r, d);
  }

  lemma BorrowSticky(w: nat, a: nat, q: nat, r: nat, d: nat)
    requires w % 2 == 0 && r < Pow2(d)
    requires if r == 0 then q <= w && a == (w - q) * Pow2(d) else q < w && a == (w - q - 1) * Pow2(d) + (Pow2(d) - r)
    ensures Sticky(a, d) == w - if r != 0 && q % 2 == 0 then q + 1 else q
  {
    hide High;
    hide Low;
    hide Pow2;
    if r == 0 {
      HighLowUnique(a, d, w - q, 0);
    } else {
      HighLowUnique(a, d, w - q - 1, Pow2(d) - r);
    }
  }

  lemma Borrow(w: nat, q: nat, r: nat, c: nat)
    requires q * c + r <= w * c && r < c
    ensures q <= w && (r > 0 ==> q < w)
    ensures w * c - (q * c + r) == (w - q) * c - r
    ensures r > 0 ==> w * c - (q * c + r) == (w - q - 1) * c + (c - r)
  {
    if q > w {
      MulMono(w + 1, q, c);
    }
    assert (w - q) * c == w * c - q * c;
    assert (w - q - 1) * c == (w - q) * c - c;
  }

  lemma StickyScale(b: nat, j: nat, n: nat)
    ensures Sticky(b * Pow2(j), n + j) == Sticky(b, n)
  {
    hide High;
    hide Low;
    hide Pow2;
    var c := Pow2(j);
    HighLow(b, n);
    Pow2Add(n, j);
    var q, r := High(b, n), Low(b, n);
    assert b * c == q * Pow2(n + j) + r * c by { Rescale(q, Pow2(n), r, c); }
    MulStrict(r, Pow2(n), c);
    HighLowUnique(b * c, n + j, q, r * c);
    ProductZero(r, c);
  }

  lemma Rescale(q: nat, d: nat, r: nat, c: nat)
    ensures (q * d + r) * c == q * (d * c) + r * c
  {
  }

  lemma StickyBounds(v: nat, n: nat)
    ensures Sticky(v, n) <= v + 1
    ensures v > 0 ==> Sticky(v, n) > 0
    ensures v < Pow2(n) ==> Sticky(v, n) <= 1
  {
    hide High;
    hide Low;
    hide Pow2;
    HighLow(v, n);
    ProductZero(High(v, n), Pow2(n));
    if v < Pow2(n) {
      HighLowUnique(v, n, 0, v);
    }
  }

  // ---- the order of the bit patterns

  /** The next pattern is one unit in the last place away. */
  lemma ValueStep(p: pattern, k: nat)
    requires p < INF
    ensures ValueAt(p + 1, k) == ValueAt(p, k) + Pow2(Scale(p) + k)
  {
    hide Pow2;
    if p + 1 < FRAC {
    } else if p < FRAC {
    } else if p % FRAC + 1 < FRAC {
      assert (p + 1) / FRAC == p / FRAC && (p + 1) % FRAC == p % FRAC + 1;
    } else {
      assert (p + 1) / FRAC == p / FRAC + 1 && (p + 1) % FRAC == 0;
      Pow2Double(Scale(p) + k);
    }
  }

  /** The patterns are ordered as their values are. */
  lemma {:induction false} ValueMono(p: pattern, p': pattern, k: nat)
    requires p < p'
    ensures ValueAt(p, k) < ValueAt(p', k)
    decreases p'
  {
    hide ValueAt;
    ValueStep(p' - 1, k);
    if p < p' - 1 {
      ValueMono(p, p' - 1, k);
    }
  }

  /** Adding a significand to an exponent field: a carry out of the significand
      lands in the exponent. */
  lemma Packed(q: nat, m: nat, k: nat)
    requires q <= 2045 && m <= 2 * FRAC && (q == 0 || m >= FRAC)
    ensures q * FRAC + m <= INF
    ensures ValueAt(q * FRAC + m, k) == m * Pow2(q + k)
    ensures (q * FRAC + m) % 2 == m % 2
  {
    hide Pow2;
    var p := q * FRAC + m;
    PackedParity(q, m);
    if m < FRAC {
      assert p == m;
    } else if m < 2 * FRAC {
      DivModUnique(p, FRAC, q + 1, m - FRAC);
    } else {
      DivModUnique(p, FRAC, q + 2, 0);
      Pow2Double(q + k);
      assert m * Pow2(q + k) == FRAC * Pow2(q + 1 + k);
    }
  }

  lemma PackedParity(q: nat, m: nat)
    ensures (q * FRAC + m) % 2 == m % 2
  {
    DivModUnique(q * FRAC + m, 2, q * (FRAC / 2) + m / 2, m % 2);
  }

  /** The rounding comparison on magnitudes. */
  ghost predicate BeatsMagnitude(n: nat, k: nat, p: pattern, g: pattern) {
    var d, d' := Abs(n - ValueAt(p, k)), Abs(n - ValueAt(g, k));
    d < d' || (d == d' && (ValueAt(g, k) == ValueAt(p, k) || p % 2 == 0))
  }

  /** Rounding at the bit position given by the exponent beats every double,
      also those with finer or coarser spacing. */
  lemma GridNearest(n: nat, k: nat, q: nat, g: pattern)
    requires q <= 2045
    requires q == 0 || FRAC * Pow2(q + k) <= n
    requires n < 2 * FRAC * Pow2(q + k)
    ensures var m := RoundShift(n, q + k);
            q * FRAC + m <= INF && BeatsMagnitude(n, k, q * FRAC + m, g)
  {
    hide Pow2;
    hide RoundShift;
    hide ValueAt;
    var m := RoundShift(n, q + k);
    RoundShiftRange(n, q, q + k);
    Packed(q, m, k);
    if Scale(g) >= q {
      var j := Significand(g) * Pow2(Scale(g) - q);
      assert ValueAt(g, k) == j * Pow2(q + k) by { SplitScale(g, k, q); }
      RoundShiftNearest(n, q + k, j);
    } else {
      assert ValueAt(g, k) < FRAC * Pow2(q + k) by { BelowGrid(g, k, q); }
      RoundShiftNearest(n, q + k, FRAC);
    }
  }

  lemma RoundShiftRange(n: nat, q: nat, k: nat)
    requires q == 0 || FRAC * Pow2(k) <= n
    requires n < 2 * FRAC * Pow2(k)
    ensures var m := RoundShift(n, k); m <= 2 * FRAC && (q == 0 || m >= FRAC)
  {
    hide High;
    hide Low;
    hide Pow2;
    HighLow(n, k);
    var h := High(n, k);
    if h >= 2 * FRAC {
      MulMono(2 * FRAC, h, Pow2(k));
    }
    if q > 0 && h + 1 <= FRAC {
      MulMono(h + 1, FRAC, Pow2(k));
    }
  }

  lemma SplitScale(g: pattern, k: nat, q: nat)
    requires Scale(g) >= q
    ensures ValueAt(g, k) == Significand(g) * Pow2(Scale(g) - q) * Pow2(q + k)
  {
    hide Pow2;
    Pow2Add(Scale(g) - q, q + k);
    MulAssoc(Significand(g), Pow2(Scale(g) - q), Pow2(q + k));
  }

  lemma BelowGrid(g: pattern, k: nat, q: nat)
    requires Scale(g) < q
    ensures ValueAt(g, k) < FRAC * Pow2(q + k)
  {
    var t := Scale(g) + k;
    hide Pow2;
    assert 2 * Pow2(t) <= Pow2(q + k) by { Pow2Mono(t, q + k); }
    assert Significand(g) < 2 * FRAC;
    assert ValueAt(g, k) < 2 * FRAC * Pow2(t) by { MulStrict(Significand(g), 2 * FRAC, Pow2(t)); }
  }

  /** At 2^1024 and beyond, infinity is nearest. */
  lemma OverflowNearest(n: nat, k: nat, g: pattern)
    requires n >= ValueAt(INF, k)
    ensures BeatsMagnitude(n, k, INF, g)
  {
    hide ValueAt;
    if g < INF {
      ValueMono(g, INF, k);
    }
  }

  lemma SignParts(p: pattern, neg: bool)
    ensures var b := if neg then SIGN + p else p;
            && b < W64 && !IsNaN(b) && Magnitude(b) == p && (SignBit(b) == 1 <==> neg)
            && b % 2 == p % 2
  {
  }

  /** A magnitude nearest among magnitudes, with the right sign, is nearest among
      all doubles. */
  lemma NearestFromMagnitude(a: nat, k: nat, p: pattern, neg: bool)
    requires a > 0
    requires forall g: pattern :: BeatsMagnitude(a, k, p, g)
    ensures NearestEven(Signed(neg, a), k, if neg then SIGN + p else p)
  {
    hide ValueAt;
    var b := if neg then SIGN + p else p;
    var n := Signed(neg, a);
    SignParts(p, neg);
    assert ValueAt(0, k) == 0 by { ZeroValue(k); }
    forall g: u64 | !IsNaN(g)
      ensures Beats(n, k, b, g)
    {
      assert BeatsMagnitude(a, k, p, Magnitude(g));
      assert BeatsMagnitude(a, k, p, 0);
    }
  }

  lemma ZeroValue(k: nat)
    ensures ValueAt(0, k) == 0
  {
  }

  /** Only one double is the correctly rounded result. */
  lemma NearestUnique(n: int, k: nat, b: u64, b': u64)
    requires NearestEven(n, k, b) && NearestEven(n, k, b')
    ensures b == b'
  {
    hide ValueAt;
    var p, p' := Magnitude(b), Magnitude(b');
    if p < p' {
      NearestOrdered(n, k, b, b');
    } else if p' < p {
      NearestOrdered(n, k, b', b);
    }
  }

  lemma NearestOrdered(n: int, k: nat, b: u64, b': u64)
    requires NearestEven(n, k, b) && NearestEven(n, k, b')
    ensures Magnitude(b) >= Magnitude(b')
  {
    hide ValueAt;
    if Magnitude(b) < Magnitude(b') {
      var p, p' := Magnitude(b), Magnitude(b');
      assert Beats(n, k, b, b') && Beats(n, k, b', b);
      ValueMono(p, p', k);
      assert b % 2 == 0 && b' % 2 == 0;
      var g := b + 1;
      assert Magnitude(g) == p + 1 && SignBit(g) == SignBit(b) && p + 1 < p';
      assert Beats(n, k, b, g);
      ValueMono(p, p + 1, k);
      ValueMono(p + 1, p', k);
    }
  }

  /** The result is infinite exactly from the middle of the largest finite double
      and 2^1024 on. */
  lemma InfiniteIff(n: int, k: nat, b: u64)
    requires NearestEven(n, k, b)
    ensures Magnitude(b) == INF <==> 2 * Abs(n) >= ValueAt(INF - 1, k) + ValueAt(INF, k)
  {
    hide ValueAt;
    var inf := if n < 0 then SIGN + INF else INF;
    SignParts(INF, n < 0);
    SignParts(INF - 1, n < 0);
    ValueMono(INF - 1, INF, k);
    assert Beats(n, k, b, inf) && Beats(n, k, b, inf - 1);
    if Magnitude(b) < INF - 1 {
      ValueMono(Magnitude(b), INF - 1, k);
    }
  }

  // ---- bit fields

  lemma SmallPowers()
    ensures Pow2(9) == 512 && Pow2(10) == 1024 && Pow2(11) == 2048
    ensures Pow2(52) == FRAC && Pow2(53) == 2 * FRAC && Pow2(62) == 1024 * FRAC && Pow2(63) == SIGN
  {
    hide Pow2;
    assert Pow2(10) == 1024 by { Pow2Ten(); }
    Pow2Ten();
    Squared(10, 1024);
    Squared(20, 0x10_0000);
    Pow2Add(40, 12);
    Pow2Add(52, 1);
    Pow2Add(52, 10);
    Pow2Add(52, 11);
    Pow2Add(10, 2);
    Pow2One();
  }

  lemma Pow2One()
    ensures Pow2(1) == 2 && Pow2(2) == 4
  {
  }

  lemma Pow2Ten()
    ensures Pow2(9) == 512 && Pow2(10) == 1024 && Pow2(11) == 2048
  {
  }

  lemma MagnitudeFields(b: u64)
    ensures Magnitude(b) / FRAC == b / FRAC % 2048
    ensures Magnitude(b) % FRAC == b % FRAC
  {
    DivDiv(b, FRAC, 2048);
    DivModUnique(b % SIGN, FRAC, b / FRAC % 2048, b % FRAC);
  }

  /** What the masks and shifts of the sources select. */
  lemma Fields(b: u64)
    ensures Shr(b, 63) == SignBit(b)
    ensures AndW(Shr(b, 52), MASK) == Magnitude(b) / FRAC
    ensures AndW(b, FRAC - 1) == Magnitude(b) % FRAC
    ensures Magnitude(b) >= FRAC ==> OrW(Magnitude(b) % FRAC, Shl(1, 52)) == FRAC + Magnitude(b) % FRAC
  {
    hide Pow2;
    hide OrW;
    SmallPowers();
    MagnitudeFields(b);
    AndMask(b / FRAC, 11);
    AndMask(b, 52);
    ImplicitBit(Magnitude(b) % FRAC);
  }

  lemma ImplicitBit(f: nat)
    requires f < FRAC
    ensures OrW(f, Shl(1, 52)) == FRAC + f
  {
    hide Pow2;
    SmallPowers();
    ShlFits(1, 52);
    assert FRAC % FRAC == 0;
    OrDisjoint(FRAC, f, 52);
    OrCommutes(f, FRAC);
  }

  /** The test for a normalized mantissa. */
  lemma TestBit52(x: u64)
    requires x < 2 * FRAC
    ensures AndW(x, Shl(1, 52)) == 0 <==> x < FRAC
  {
    hide Pow2;
    hide And;
    SmallPowers();
    ShlFits(1, 52);
    AndSplit(x, 1, 0, 52);
    HighLow(x, 52);
    AndZero(Low(x, 52));
    AndStep(x / FRAC, 1);
    AndZero(0);
  }

  /** Clearing the exponent field keeps the sign and the fraction. */
  lemma ClearExponent(x: u64)
    ensures AndW(x, Not(Shl(MASK, 52))) == SignBit(x) * SIGN + x % FRAC
  {
    hide Pow2;
    hide And;
    SmallPowers();
    ShlFits(MASK, 52);
    AndSplit(x, 2048, FRAC - 1, 52);
    AndMask(x % FRAC, 52);
    AndSplit(x / FRAC, 1, 0, 11);
    AndZero(Low(x / FRAC, 11));
    assert x / FRAC / 2048 == SignBit(x) by { DivDiv(x, FRAC, 2048); }
    AndStep(SignBit(x), 1);
    AndZero(0);
  }

  /** Setting an exponent field that is clear. */
  lemma SetExponent(s: bit, f: nat, e: nat)
    requires f < FRAC && e < 2048
    ensures Shl(e, 52) == e * FRAC && OrW(s * SIGN + f, Shl(e, 52)) == s * SIGN + e * FRAC + f
  {
    hide Pow2;
    hide Or;
    SmallPowers();
    ShlFits(e, 52);
    OrSplit(s * 2048, e, f, 0, 52);
    OrSplit(s, 0, 0, e, 11);
    OrZero(s);
    OrZero(e);
    OrZero(f);
    assert s * SIGN + f == s * 2048 * FRAC + f;
  }

  // ---- rounding as the built-in operators do it

  /** The double nearest to the exact value n, in units of 2^-(1074 + k). */
  function RoundTo(n: nat, k: nat): (r: pattern) {
    var l := BitLen(n);
    var q := if l > 53 + k then l - 53 - k else 0;
    if q > 2045 then INF
    else
      RoundToGrid(n, k);
      GridNearest(n, k, q, 0);
      q * FRAC + RoundShift(n, q + k)
  }

  lemma RoundToGrid(n: nat, k: nat)
    ensures var l := BitLen(n);
            var q := if l > 53 + k then l - 53 - k else 0;
            && n < 2 * FRAC * Pow2(q + k)
            && (q > 0 ==> FRAC * Pow2(q + k) <= n)
  {
    hide Pow2;
    var l := BitLen(n);
    var q := if l > 53 + k then l - 53 - k else 0;
    BitLenBounds(n, 53 + k);
    SmallPowers();
    Pow2Add(53, q + k);
    Pow2Add(52, q + k);
    if q > 0 {
      assert 53 + (q + k) == l;
    }
  }

  /** RoundTo is rounding to nearest, ties to even. */
  lemma RoundToNearest(n: nat, k: nat, g: pattern)
    ensures BeatsMagnitude(n, k, RoundTo(n, k), g)
  {
    hide Pow2;
    hide RoundShift;
    hide ValueAt;
    RoundToGrid(n, k);
    var l := BitLen(n);
    var q := if l > 53 + k then l - 53 - k else 0;
    if q > 2045 {
      assert n >= ValueAt(INF, k) by {
        InfinityAt(k);
        Pow2Mono(2046 + k, q + k);
        MulMono(Pow2(2046 + k), Pow2(q + k), FRAC);
      }
      OverflowNearest(n, k, g);
    } else {
      GridNearest(n, k, q, g);
    }
  }

  lemma InfinityAt(k: nat)
    ensures ValueAt(INF, k) == FRAC * Pow2(2046 + k)
  {
    hide Pow2;
    assert INF / FRAC == 2047 && INF % FRAC == 0;
  }

  /** A representable value is not changed by rounding. */
  lemma RoundToExact(n: nat, k: nat, p: pattern)
    requires ValueAt(p, k) == n
    ensures RoundTo(n, k) == p
  {
    hide ValueAt;
    hide RoundTo;
    RoundToNearest(n, k, p);
    var r := RoundTo(n, k);
    if r < p {
      ValueMono(r, p, k);
    } else if p < r {
      ValueMono(p, r, k);
    }
  }

  /** Up to half the smallest double everything rounds to zero. */
  lemma RoundToZero(n: nat, k: nat)
    ensures RoundTo(n, k) == 0 <==> 2 * n <= Pow2(k)
  {
    hide Pow2, ValueAt, RoundTo;
    var r := RoundTo(n, k);
    ZeroValue(k);
    ValueStep(0, k);
    if r == 0 {
      RoundToNearest(n, k, 1);
    } else {
      RoundToNearest(n, k, 0);
      if r > 1 {
        ValueMono(1, r, k);
      }
    }
  }

  /** Stating the exact value in finer units changes no comparison. */
  lemma BeatsRescale(n: nat, k: nat, c: nat, p: pattern, g: pattern)
    ensures BeatsMagnitude(n * Pow2(c), k + c, p, g) <==> BeatsMagnitude(n, k, p, g)
  {
    hide Pow2;
    hide ValueAt;
    var x, a, b := Pow2(c), ValueAt(p, k), ValueAt(g, k);
    assert ValueAt(p, k + c) == a * x by { FinerValue(p, k, c); }
    assert ValueAt(g, k + c) == b * x by { FinerValue(g, k, c); }
    DistanceScale(n, a, x);
    DistanceScale(n, b, x);
    CompareScaled(Abs(n - a), Abs(n - b), x, 0);
    CompareScaled(a, b, x, 0);
  }

  lemma DistanceScale(n: nat, a: nat, x: nat)
    ensures Abs(n * x - a * x) == Abs(n - a) * x
  {
    assert n * x - a * x == (n - a) * x;
    if n < a {
      assert (a - n) * x == a * x - n * x;
    }
  }

  lemma FinerValue(p: pattern, k: nat, c: nat)
    ensures ValueAt(p, k + c) == ValueAt(p, k) * Pow2(c)
  {
    hide Pow2;
    Pow2Add(Scale(p) + k, c);
    MulAssoc(Significand(p), Pow2(Scale(p) + k), Pow2(c));
  }

  lemma NormalFine(p: pattern)
    requires FRAC <= p < INF
    ensures 1 <= p / FRAC <= 2046
    ensures Fine(p) == (FRAC + p % FRAC) * Pow2(p / FRAC - 1 + 1074)
  {
    hide Pow2;
  }
}
