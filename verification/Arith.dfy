/** Powers of two and the few facts about multiplication and division that the
    other modules use by name, so that no proof there leaves nonlinear
    arithmetic to the solver. */
module Arith {

  function Pow2(e: nat): (r: nat)
    ensures r > 0
  {
    if e == 0 then 1 else 2 * Pow2(e - 1)
  }

  function Abs(x: int): (r: nat)
    ensures r == x || r == -x
  {
    if x < 0 then -x else x
  }

  function Mul(a: nat, b: nat): (r: nat) { a * b }

  lemma {:induction false} Pow2Add(a: nat, b: nat)
    ensures Pow2(a + b) == Pow2(a) * Pow2(b)
  {
    if a == 0 {
    } else {
      Pow2Add(a - 1, b);
      assert Pow2(a + b) == 2 * Pow2(a - 1 + b);
    }
  }

  lemma {:induction false} Pow2Mono(a: nat, b: nat)
    requires a <= b
    ensures Pow2(a) <= Pow2(b)
    ensures a < b ==> 2 * Pow2(a) <= Pow2(b)
    decreases b
  {
    if a < b {
      Pow2Mono(a, b - 1);
    }
  }

  lemma Pow2Double(n: nat)
    ensures Pow2(n + 1) == 2 * Pow2(n)
  {
  }

  lemma Pow2Zero()
    ensures Pow2(0) == 1
  {
  }

  lemma MulMono(a: nat, b: nat, c: nat)
    requires a <= b
    ensures a * c <= b * c && c * a <= c * b
  {
  }

  lemma MulStrict(a: nat, b: nat, c: nat)
    requires a < b && c > 0
    ensures a * c < b * c && (a + 1) * c <= b * c
  {
    MulMono(a + 1, b, c);
  }

  lemma MulAssoc(a: nat, b: nat, c: nat)
    ensures a * (b * c) == a * b * c
  {
  }

  lemma MulSwap(a: nat, b: nat, c: nat)
    ensures a * b * c == a * c * b
  {
  }

  lemma MulDouble(a: nat, c: nat)
    ensures 2 * a * c == a * (2 * c)
  {
  }

  lemma Difference(a: nat, b: nat, c: nat)
    ensures (a - b) * c == a * c - b * c
  {
  }

  lemma NoGap(d: int, k: int, r: int, r': int)
    requires k * d == r' - r && 0 <= r < d && 0 <= r' < d
    ensures k == 0
  {
    if k > 0 {
      assert k * d >= d by { MulMono(1, k, d); }
    } else if k < 0 {
      assert (-k) * d >= d by { MulMono(1, -k, d); }
    }
  }

  /** Quotient and remainder are unique. */
  lemma DivModUnique(a: int, d: int, q: int, r: int)
    requires d > 0 && a == q * d + r && 0 <= r < d
    ensures a / d == q && a % d == r
  {
    var q', r' := a / d, a % d;
    assert a == q' * d + r';
    assert (q - q') * d == q * d - q' * d;
    NoGap(d, q - q', r, r');
  }

  lemma DivMod(a: int, d: int)
    requires d > 0
    ensures a == (a / d) * d + a % d && 0 <= a % d < d
  {
  }

  /** Dividing in two steps. */
  lemma DivDiv(a: nat, b: nat, c: nat)
    requires b > 0 && c > 0
    ensures b * c > 0
    ensures a / (b * c) == a / b / c
    ensures a % (b * c) == (a / b % c) * b + a % b
  {
    var q, r := a / b, a % b;
    var q', r' := q / c, q % c;
    DivMod(a, b);
    DivMod(q, c);
    assert a == q' * (b * c) + (r' * b + r) by {
      assert a == (q' * c + r') * b + r;
    }
    assert r' * b <= (c - 1) * b by { MulMono(r', c - 1, b); }
    assert b * c > 0;
    DivModUnique(a, b * c, q', r' * b + r);
  }

  lemma Div2Pow(a: nat, k: nat)
    ensures a / Pow2(k + 1) == a / 2 / Pow2(k) == a / Pow2(k) / 2
    ensures a % Pow2(k + 1) == 2 * (a / 2 % Pow2(k)) + a % 2
    ensures a % Pow2(k + 1) == (a / Pow2(k) % 2) * Pow2(k) + a % Pow2(k)
  {
    DivDiv(a, 2, Pow2(k));
    DivDiv(a, Pow2(k), 2);
  }

  // ---- the bits of a number above and below position n

  function High(a: nat, n: nat): (r: nat) {
    DivNonNegative(a, Pow2(n));
    a / Pow2(n)
  }

  function Low(a: nat, n: nat): (r: nat) {
    a % Pow2(n)
  }

  lemma DivNonNegative(a: nat, d: nat)
    requires d > 0
    ensures a / d >= 0
  {
  }

  lemma HighLow(a: nat, n: nat)
    ensures a == High(a, n) * Pow2(n) + Low(a, n) && Low(a, n) < Pow2(n)
  {
  }

  lemma HighLowUnique(a: nat, n: nat, q: nat, r: nat)
    requires a == q * Pow2(n) + r && r < Pow2(n)
    ensures High(a, n) == q && Low(a, n) == r
  {
    DivModUnique(a, Pow2(n), q, r);
  }

  lemma HighLowZero(a: nat)
    ensures High(a, 0) == a && Low(a, 0) == 0
  {
  }

  lemma HighLowAdd(a: nat, j: nat, k: nat)
    ensures High(a, j + k) == High(High(a, j), k)
    ensures Low(a, j + k) == Low(High(a, j), k) * Pow2(j) + Low(a, j)
  {
    Pow2Add(j, k);
    DivDiv(a, Pow2(j), Pow2(k));
  }

  /** Below position n > 0 the parity is the number's own, and above it only
      a / 2 matters. */
  lemma HighLowHalf(a: nat, n: nat)
    requires n > 0
    ensures High(a, n) == High(a / 2, n - 1)
    ensures Low(a, n) == 2 * Low(a / 2, n - 1) + a % 2
    ensures Pow2(n) == 2 * Pow2(n - 1)
  {
    Div2Pow(a, n - 1);
  }
}
