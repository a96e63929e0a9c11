/** The unsigned 64-bit arithmetic of Go and package math/bits, on integers. */
module Word {
  import opened Arith

  const W64: int := 0x1_0000_0000_0000_0000
  type u64 = x: int | 0 <= x < W64
  type bit = x: int | 0 <= x < 2

  lemma W64IsPow2()
    ensures W64 == Pow2(64)
  {
    hide Pow2;
    Pow2Eight();
    Squared(8, 0x100);
    Squared(16, 0x1_0000);
    Squared(32, 0x1_0000_0000);
  }

  lemma Pow2Eight()
    ensures Pow2(8) == 0x100
  {
  }

  lemma Squared(n: nat, v: nat)
    requires Pow2(n) == v
    ensures Pow2(n + n) == v * v
  {
    Pow2Add(n, n);
  }

  /** Go's x << n and x >> n: a count of 64 or more leaves zero. */
  function Shl(x: u64, n: nat): (r: u64) {
    (x * Pow2(n)) % W64
  }

  function Shr(x: u64, n: nat): (r: u64) {
    DivLeq(x, Pow2(n));
    x / Pow2(n)
  }

  lemma DivLeq(x: nat, d: nat)
    requires d > 0
    ensures 0 <= x / d <= x
  {
    DivMod(x, d);
    if x / d > x {
      MulMono(x + 1, x / d, d);
      MulMono(1, d, x + 1);
    }
  }

  /** Wrap-around addition and subtraction, as on Go's uint64. */
  function Plus(a: int, b: int): (r: u64) {
    (a + b) % W64
  }

  function Minus(a: int, b: int): (r: u64) {
    (a - b) % W64
  }

  function Or(x: nat, y: nat): (r: nat) {
    if x == 0 && y == 0 then 0
    else 2 * Or(x / 2, y / 2) + (if x % 2 == 1 || y % 2 == 1 then 1 else 0)
  }

  function And(x: nat, y: nat): (r: nat) {
    if x == 0 || y == 0 then 0
    else 2 * And(x / 2, y / 2) + (if x % 2 == 1 && y % 2 == 1 then 1 else 0)
  }

  function Xor(x: nat, y: nat): (r: nat) {
    if x == 0 && y == 0 then 0
    else 2 * Xor(x / 2, y / 2) + (if x % 2 != y % 2 then 1 else 0)
  }

  function Not(x: u64): (r: u64) {
    W64 - 1 - x
  }

  /** The position just above the highest one bit. */
  function BitLen(x: nat): (r: nat) {
    if x == 0 then 0 else 1 + BitLen(x / 2)
  }

  lemma {:induction false} BitLenBounds(x: nat, k: nat)
    ensures x > 0 ==> BitLen(x) > 0 && Pow2(BitLen(x) - 1) <= x < Pow2(BitLen(x))
    ensures x < Pow2(k) <==> BitLen(x) <= k
    decreases x
  {
    if x > 0 {
      BitLenBounds(x / 2, if k > 0 then k - 1 else 0);
    }
  }

  function LeadingZeros64(x: u64): (n: nat)
    ensures n <= 64
  {
    W64IsPow2();
    BitLenBounds(x, 64);
    64 - BitLen(x)
  }

  lemma ProductFits(x: u64, y: u64)
    ensures 0 <= x * y < W64 * W64
    ensures 0 <= x * y / W64 < W64
  {
    MulMono(x, W64 - 1, y);
    MulMono(y, W64 - 1, W64 - 1);
    var p := x * y;
    assert p < W64 * W64;
  }

  function Mul64(x: u64, y: u64): (r: (u64, u64))
    ensures r.0 * W64 + r.1 == x * y
  {
    ProductFits(x, y);
    (x * y / W64, x * y % W64)
  }

  function Add64(x: u64, y: u64, carry: bit): (r: (u64, bit))
    ensures r.0 + r.1 * W64 == x + y + carry
  {
    var s := x + y + carry;
    if s < W64 then (s, 0) else (s - W64, 1)
  }

  function Sub64(x: u64, y: u64, borrow: bit): (r: (u64, bit))
    ensures r.0 - r.1 * W64 == x - y - borrow
  {
    var d := x - y - borrow;
    if d >= 0 then (d, 0) else (d + W64, 1)
  }

  lemma {:induction false} OrZero(x: nat)
    ensures Or(x, 0) == x && Or(0, x) == x
  {
    if x > 0 {
      OrZero(x / 2);
    }
  }

  /** Or of words that share no bit position is their sum. */
  lemma {:induction false} OrDisjoint(x: nat, y: nat, k: nat)
    requires x % Pow2(k) == 0 && y < Pow2(k)
    ensures Or(x, y) == x + y
    decreases k
  {
    if k == 0 {
      OrZero(x);
    } else if x == 0 && y == 0 {
    } else {
      Div2Pow(x, k - 1);
      OrDisjoint(x / 2, y / 2, k - 1);
    }
  }

  lemma {:induction false} OrCommutes(x: nat, y: nat)
    ensures Or(x, y) == Or(y, x)
  {
    if x > 0 || y > 0 {
      OrCommutes(x / 2, y / 2);
    }
  }

  lemma {:induction false} OrSelf(x: nat)
    ensures Or(x, x) == x
  {
    if x > 0 {
      OrSelf(x / 2);
    }
  }

  lemma {:induction false} OrNonzero(x: nat, y: nat)
    ensures Or(x, y) == 0 <==> x == 0 && y == 0
  {
    if x > 0 || y > 0 {
      OrNonzero(x / 2, y / 2);
    }
  }

  /** Or with a single low bit only makes the word odd. */
  lemma OrBit(x: nat, b: bit)
    ensures Or(x, b) == if b == 1 && x % 2 == 0 then x + 1 else x
  {
    OrZero(x / 2);
    OrZero(x);
  }

  lemma {:induction false} OrLess(x: nat, y: nat, k: nat)
    requires x < Pow2(k) && y < Pow2(k)
    ensures Or(x, y) < Pow2(k)
    decreases k
  {
    if x == 0 && y == 0 {
    } else {
      OrLess(x / 2, y / 2, k - 1);
    }
  }

  /** The bitwise or of two words is a word. */
  function OrW(x: u64, y: u64): (r: u64) {
    W64IsPow2();
    OrLess(x, y, 64);
    Or(x, y)
  }

  /** And with k ones is the remainder modulo 2^k. */
  lemma {:induction false} AndMask(x: nat, k: nat)
    ensures And(x, Pow2(k) - 1) == x % Pow2(k)
    decreases k
  {
    if k == 0 {
    } else {
      Div2Pow(x, k - 1);
      AndMask(x / 2, k - 1);
      assert (Pow2(k) - 1) / 2 == Pow2(k - 1) - 1;
    }
  }

  lemma SmallMod(x: nat, d: nat)
    requires x < d
    ensures x % d == x && x / d == 0
  {
  }

  /** And with all ones but the lowest clears the lowest bit. */
  lemma AndClearLow(x: u64)
    ensures And(x, W64 - 2) == x - x % 2
    ensures And(x, W64 - 1) == x
  {
    var p := 0x8000_0000_0000_0000;
    assert Pow2(64) == 2 * Pow2(63) == W64 by { W64IsPow2(); }
    assert And(x / 2, p - 1) == x / 2 by { AndMask(x / 2, 63); SmallMod(x / 2, p); }
    assert And(x, W64 - 1) == x by { AndMask(x, 64); SmallMod(x, W64); }
  }

  lemma {:induction false} AndLeq(x: nat, y: nat)
    ensures And(x, y) <= x
  {
    if x == 0 || y == 0 {
    } else {
      AndLeq(x / 2, y / 2);
    }
  }

  function AndW(x: u64, y: u64): (r: u64) {
    AndLeq(x, y);
    And(x, y)
  }

  lemma {:induction false} XorLess(x: nat, y: nat, k: nat)
    requires x < Pow2(k) && y < Pow2(k)
    ensures Xor(x, y) < Pow2(k)
    decreases k
  {
    if x == 0 && y == 0 {
    } else {
      XorLess(x / 2, y / 2, k - 1);
    }
  }

  function XorW(x: u64, y: u64): (r: u64) {
    W64IsPow2();
    XorLess(x, y, 64);
    Xor(x, y)
  }

  lemma {:induction false} XorZero(x: nat, y: nat)
    ensures Xor(x, y) == 0 <==> x == y
  {
    if x == 0 && y == 0 {
    } else {
      XorZero(x / 2, y / 2);
    }
  }

  /** Bits above and below a position can be and-ed separately. */
  lemma {:induction false} AndSplit(x: nat, h: nat, l: nat, k: nat)
    requires l < Pow2(k)
    ensures And(x, h * Pow2(k) + l) == And(High(x, k), h) * Pow2(k) + And(Low(x, k), l)
    decreases k
  {
    hide High;
    hide Low;
    hide And;
    hide Pow2;
    if k == 0 {
      HighLowZero(x);
      AndStep(0, 0);
      Pow2Zero();
    } else {
      HighLowHalf(x, k);
      AndSplit(x / 2, h, l / 2, k - 1);
      var c, y := Pow2(k - 1), h * Pow2(k) + l;
      Doubled(h, c, Pow2(k));
      Doubled(And(High(x, k), h), c, Pow2(k));
      HalfOf(h * c, l, y);
      HalfOf(Low(x / 2, k - 1), x % 2, Low(x, k));
      AndStep(x, y);
      AndStep(Low(x, k), l);
    }
  }

  lemma HalfOf(a: nat, l: nat, y: nat)
    requires y == 2 * a + l
    ensures y / 2 == a + l / 2 && y % 2 == l % 2
  {
  }

  /** Likewise for or. */
  lemma {:induction false} OrSplit(h: nat, h': nat, l: nat, l': nat, k: nat)
    requires l < Pow2(k) && l' < Pow2(k)
    ensures Or(h * Pow2(k) + l, h' * Pow2(k) + l') == Or(h, h') * Pow2(k) + Or(l, l')
    decreases k
  {
    hide Or;
    hide Pow2;
    Pow2Zero();
    if k == 0 {
      OrZero(0);
    } else {
      var c := Pow2(k - 1);
      assert Pow2(k) == 2 * c by { Pow2Double(k - 1); }
      OrSplit(h, h', l / 2, l' / 2, k - 1);
      Doubled(h, c, Pow2(k));
      Doubled(h', c, Pow2(k));
      Doubled(Or(h, h'), c, Pow2(k));
      OrStep(2 * (h * c) + l, 2 * (h' * c) + l');
      OrStep(l, l');
    }
  }

  lemma OrStep(x: nat, y: nat)
    ensures Or(x, y) == 2 * Or(x / 2, y / 2) + (if x % 2 == 1 || y % 2 == 1 then 1 else 0)
  {
  }

  lemma Doubled(a: nat, c: nat, d: nat)
    requires d == 2 * c
    ensures a * d == 2 * (a * c)
  {
  }

  lemma AndZero(x: nat)
    ensures And(x, 0) == 0 && And(0, x) == 0
  {
  }

  lemma AndStep(x: nat, y: nat)
    ensures And(x, y) == 2 * And(x / 2, y / 2) + (if x % 2 == 1 && y % 2 == 1 then 1 else 0)
  {
  }

  // ---- shifts as bit positions

  lemma ShrIsHigh(x: u64, n: nat)
    ensures Shr(x, n) == High(x, n)
    ensures n >= 64 ==> Shr(x, n) == 0
    ensures n <= 64 ==> Shr(x, n) < Pow2(64 - n)
  {
    W64IsPow2();
    if n >= 64 {
      Pow2Mono(64, n);
      SmallMod(x, Pow2(n));
    } else {
      HighBelow(x, n, 64 - n);
    }
  }

  lemma HighBelow(x: nat, n: nat, k: nat)
    requires x < Pow2(n + k)
    ensures High(x, n) < Pow2(k)
  {
    hide High;
    hide Low;
    Pow2Add(k, n);
    HighLow(x, n);
    if High(x, n) >= Pow2(k) {
      MulMono(Pow2(k), High(x, n), Pow2(n));
    }
  }

  /** A left shift drops the top n bits. */
  lemma ShlIsLow(x: u64, n: nat)
    requires n <= 64
    ensures x * Pow2(n) == High(x, 64 - n) * W64 + Shl(x, n)
    ensures Shl(x, n) == Low(x, 64 - n) * Pow2(n)
    ensures Shl(x, n) % Pow2(n) == 0
  {
    hide Pow2;
    hide High;
    hide Low;
    var h, l := High(x, 64 - n), Low(x, 64 - n);
    HighLow(x, 64 - n);
    assert Pow2(64 - n) * Pow2(n) == W64 by { Pow2Add(64 - n, n); W64IsPow2(); }
    ShlParts(h, l, Pow2(64 - n), Pow2(n), W64);
    Wraps(x * Pow2(n), h, l * Pow2(n));
    DivModUnique(l * Pow2(n), Pow2(n), l, 0);
  }

  lemma Wraps(a: nat, h: nat, l: nat)
    requires a == h * W64 + l && l < W64
    ensures a % W64 == l
  {
    DivModUnique(a, W64, h, l);
  }

  lemma ShlParts(h: nat, l: nat, c: nat, d: nat, w: nat)
    requires c * d == w && l < c && d > 0
    ensures (h * c + l) * d == h * w + l * d
    ensures l * d < w
  {
    MulStrict(l, c, d);
    MulAssoc(h, c, d);
  }

  lemma ShlOut(x: u64, n: nat)
    requires n >= 64
    ensures Shl(x, n) == 0
  {
    W64IsPow2();
    Pow2Add(n - 64, 64);
    MulAssoc(x, Pow2(n - 64), W64);
    DivModUnique(x * Pow2(n), W64, x * Pow2(n - 64), 0);
  }

  lemma ShlFits(x: u64, n: nat)
    requires x * Pow2(n) < W64
    ensures Shl(x, n) == x * Pow2(n)
  {
  }
}
