/** Escaping and unescaping of HTML text: the unescaper rewrites its buffer in place
    and undoes the escaper. */
module Html {
  import opened Common
  import opened IO
  import opened Utf8

  const AMP: byte := 38
  const HASH: byte := 35
  const SEMI: byte := 59
  const LONGEST_WITHOUT_SEMICOLON: nat := 6

  /** The named references: a name to one or to two runes, 0 for none. */
  datatype Table = Table(entity: seq<byte> -> rune, entity2: seq<byte> -> (rune, rune))

  /** No reference is shorter than what it stands for; the three names that escaping
      uses mean what they should. */
  ghost predicate WellFormed(t: Table) {
    && (forall name: seq<byte> :: t.entity(name) != 0 ==> |EncodeRune(t.entity(name))| <= |name| + 1)
    && (forall name: seq<byte> :: t.entity2(name).0 != 0 ==>
          |EncodeRune(t.entity2(name).0)| + |EncodeRune(t.entity2(name).1)| <= |name| + 1)
    && t.entity([97, 109, 112, 59]) == 38
    && t.entity([108, 116, 59]) == 60
    && t.entity([103, 116, 59]) == 62
  }

  // What unescaping means

  function Wrap32(x: int): (r: int) {
    var y := x % 0x1_0000_0000;
    if y < 0x8000_0000 then y else y - 0x1_0000_0000
  }

  predicate Decimal(c: byte) { 48 <= c <= 57 }
  predicate Alphanumeric(c: byte) { 97 <= c <= 122 || 65 <= c <= 90 || Decimal(c) }

  /** The value of a digit, or -1. */
  function DigitValue(c: byte, hex: bool): (r: int) {
    if Decimal(c) then c - 48
    else if hex && 97 <= c <= 102 then c - 97 + 10
    else if hex && 65 <= c <= 70 then c - 65 + 10
    else -1
  }

  /** The number read from position i on, as an int32, and the position after it and
      its semicolon, if any. */
  function Number(s: seq<byte>, i: nat, hex: bool, x: int): (r: (int, nat))
    requires i <= |s|
    ensures i <= r.1 <= |s|
    decreases |s| - i
  {
    if i == |s| then (x, i)
    else if DigitValue(s[i], hex) >= 0 then
      Number(s, i + 1, hex, Wrap32((if hex then 16 else 10) * x + DigitValue(s[i], hex)))
    else if s[i] == SEMI then (x, i + 1)
    else (x, i)
  }

  /** The position after a name and its semicolon, if any. */
  function NameEnd(s: seq<byte>, i: nat): (e: nat)
    requires i <= |s|
    ensures i <= e <= |s|
    decreases |s| - i
  {
    if i == |s| then i
    else if Alphanumeric(s[i]) then NameEnd(s, i + 1)
    else if s[i] == SEMI then i + 1
    else i
  }

  const REPLACEMENT: seq<rune> :=
    [0x20AC, 0x81, 0x201A, 0x192, 0x201E, 0x2026, 0x2020, 0x2021,
     0x2C6, 0x2030, 0x160, 0x2039, 0x152, 0x8D, 0x17D, 0x8F,
     0x90, 0x2018, 0x2019, 0x201C, 0x201D, 0x2022, 0x2013, 0x2014,
     0x2DC, 0x2122, 0x161, 0x203A, 0x153, 0x9D, 0x17E, 0x178]

  /** Old Windows-1252 numbers and invalid ones are replaced. */
  function Repair(x: int): (r: rune) {
    if 0x80 <= x <= 0x9F then REPLACEMENT[x - 0x80]
    else if x == 0 || Surrogate(x) || x > MAX_RUNE then RUNE_ERROR
    else x
  }

  /** The longest prefix of name of 2 to j bytes that is a reference, or 0. */
  function LongestPrefix(t: Table, name: seq<byte>, j: int): (r: nat)
    requires j < |name|
    ensures r != 0 ==> 1 < r <= j && t.entity(name[..r]) != 0
    ensures forall k :: 1 < k <= j && r < k ==> t.entity(name[..k]) == 0
  {
    if j <= 1 then 0 else if t.entity(name[..j]) != 0 then j else LongestPrefix(t, name, j - 1)
  }

  /** A reference without a semicolon is shorter than the name it is found in. */
  function MaxPrefix(name: seq<byte>): (r: int) {
    if |name| - 1 > LONGEST_WITHOUT_SEMICOLON then LONGEST_WITHOUT_SEMICOLON else |name| - 1
  }

  /** What a reference at the front of s stands for, and its length. */
  function Entity(t: Table, s: seq<byte>): (r: (seq<byte>, nat))
    requires s != [] && s[0] == AMP
    ensures 0 < r.1 <= |s|
  {
    if |s| <= 1 then (s[..1], 1)
    else if s[1] == HASH then
      if |s| <= 3 then (s[..1], 1)
      else
        var hex := s[2] == 120 || s[2] == 88;
        var (x, i) := Number(s, if hex then 3 else 2, hex, 0);
        if i <= 3 then (s[..1], 1) else (EncodeRune(Repair(x)), i)
    else
      var i := NameEnd(s, 1);
      var name := s[1..i];
      if name == [] then (s[..i], i)
      else if t.entity(name) != 0 then (EncodeRune(t.entity(name)), i)
      else if t.entity2(name).0 != 0 then (EncodeRune(t.entity2(name).0) + EncodeRune(t.entity2(name).1), i)
      else
        var j := LongestPrefix(t, name, MaxPrefix(name));
        if j != 0 then (EncodeRune(t.entity(name[..j])), j + 1) else (s[..i], i)
  }

  function Unescape(t: Table, s: seq<byte>): (r: seq<byte>) {
    if s == [] then []
    else if s[0] != AMP then [s[0]] + Unescape(t, s[1..])
    else Entity(t, s).0 + Unescape(t, s[Entity(t, s).1..])
  }

  /** A reference never grows: this is why the text can be rewritten in place. */
  lemma EntityShrinks(t: Table, s: seq<byte>)
    requires WellFormed(t) && s != [] && s[0] == AMP
    ensures |Entity(t, s).0| <= Entity(t, s).1
  {
    hide EncodeRune, Repair;
  }

  // The escaper and the round trip

  function EscapeByte(c: byte): (r: seq<byte>) {
    if c == 38 then [38, 97, 109, 112, 59]
    else if c == 39 then [38, 35, 51, 57, 59]
    else if c == 60 then [38, 108, 116, 59]
    else if c == 62 then [38, 103, 116, 59]
    else if c == 34 then [38, 35, 51, 52, 59]
    else [c]
  }

  function EscapeString(s: seq<byte>): (r: seq<byte>) {
    if s == [] then [] else EscapeByte(s[0]) + EscapeString(s[1..])
  }

  lemma NamedEscape(t: Table, name: seq<byte>, more: seq<byte>)
    requires |name| >= 1 && name[|name| - 1] == SEMI && name[0] != HASH && t.entity(name) != 0
    requires forall i :: 0 <= i < |name| - 1 ==> Alphanumeric(name[i])
    ensures Entity(t, [AMP] + name + more) == (EncodeRune(t.entity(name)), |name| + 1)
  {
    EntityNamed(t, name, more);
  }

  /** The text of a name: letters and digits, and a semicolon or something else after it. */
  predicate NameOk(name: seq<byte>, more: seq<byte>) {
    && name != []
    && (forall i :: 0 <= i < |name| - 1 ==> Alphanumeric(name[i]))
    && (name[|name| - 1] == SEMI || (Alphanumeric(name[|name| - 1])
                                     && (more == [] || !(Alphanumeric(more[0]) || more[0] == SEMI))))
  }

  lemma {:induction false} NameEndIs(s: seq<byte>, i: nat, e: nat)
    requires i < e <= |s| && forall j :: i <= j < e - 1 ==> Alphanumeric(s[j])
    requires s[e - 1] == SEMI || (Alphanumeric(s[e - 1]) && (e == |s| || !(Alphanumeric(s[e]) || s[e] == SEMI)))
    ensures NameEnd(s, i) == e
    decreases e - i
  {
    if i < e - 1 {
      NameEndIs(s, i + 1, e);
    }
  }

  /** The first k bytes of name are the longest reference without a semicolon in it. */
  predicate Longest(t: Table, name: seq<byte>, k: nat) {
    && 1 < k < |name| && k <= LONGEST_WITHOUT_SEMICOLON && t.entity(name[..k]) != 0
    && forall j :: k < j < |name| && j <= LONGEST_WITHOUT_SEMICOLON ==> t.entity(name[..j]) == 0
  }

  lemma EntityNamed(t: Table, name: seq<byte>, more: seq<byte>)
    requires NameOk(name, more)
    ensures var e, one, two := Entity(t, [AMP] + name + more), t.entity(name), t.entity2(name);
      && (one != 0 ==> e == (EncodeRune(one), |name| + 1))
      && (one == 0 && two.0 != 0 ==> e == (EncodeRune(two.0) + EncodeRune(two.1), |name| + 1))
      && (one == 0 && two.0 == 0 ==>
            && (forall k: nat :: Longest(t, name, k) ==> e == (EncodeRune(t.entity(name[..k])), k + 1))
            && ((forall k: nat :: !Longest(t, name, k)) ==> e == ([AMP] + name, |name| + 1)))
  {
    hide EncodeRune;
    var s := [AMP] + name + more;
    assert s[1] == name[0] && s[0] == AMP;
    assert forall i :: 1 <= i < |name| + 1 ==> s[i] == name[i - 1];
    assert more != [] ==> s[|name| + 1] == more[0];
    NameEndIs(s, 1, |name| + 1);
    assert s[1..|name| + 1] == name && s[..|name| + 1] == [AMP] + name;
    var j := LongestPrefix(t, name, MaxPrefix(name));
    if j != 0 {
      assert Longest(t, name, j);
    }
  }

  /** What a named reference is read as: what the whole name stands for, or else its longest
      prefix that needs no semicolon, or else itself. */
  lemma NamedReference(t: Table, name: seq<byte>, more: seq<byte>)
    requires NameOk(name, more)
    ensures var r, one, two := Unescape(t, [AMP] + name + more), t.entity(name), t.entity2(name);
      && (one != 0 ==> r == EncodeRune(one) + Unescape(t, more))
      && (one == 0 && two.0 != 0 ==> r == EncodeRune(two.0) + EncodeRune(two.1) + Unescape(t, more))
      && (one == 0 && two.0 == 0 ==>
            && (forall k: nat :: Longest(t, name, k) ==>
                                   r == EncodeRune(t.entity(name[..k])) + Unescape(t, name[k..] + more))
            && ((forall k: nat :: !Longest(t, name, k)) ==> r == [AMP] + name + Unescape(t, more)))
  {
    hide EncodeRune, Entity, NameOk;
    var s := [AMP] + name + more;
    EntityNamed(t, name, more);
    assert s[|name| + 1..] == more;
    forall k: nat | Longest(t, name, k)
      ensures s[k + 1..] == name[k..] + more
    {
    }
  }

  /** An ampersand that begins no reference stays. */
  lemma LoneAmpersand(t: Table, more: seq<byte>)
    requires more == [] || !(Alphanumeric(more[0]) || more[0] == SEMI || more[0] == HASH)
    ensures Unescape(t, [AMP] + more) == [AMP] + Unescape(t, more)
  {
    DropHead([AMP], more);
    assert ([AMP] + more)[..1] == [AMP];
  }

  lemma NumericEscape(t: Table, d: byte, e: byte, more: seq<byte>)
    requires Decimal(d) && Decimal(e) && 32 <= (d - 48) * 10 + (e - 48) < 0x80
    ensures Entity(t, [AMP, HASH, d, e, SEMI] + more) == ([(d - 48) * 10 + (e - 48)], 5)
  {
    var s := [AMP, HASH, d, e, SEMI] + more;
    assert Number(s, 4, false, (d - 48) * 10 + (e - 48)) == ((d - 48) * 10 + (e - 48), 5);
    assert Number(s, 3, false, d - 48) == Number(s, 4, false, (d - 48) * 10 + (e - 48));
  }

  lemma EscapedByte(t: Table, c: byte, more: seq<byte>)
    requires WellFormed(t)
    ensures Unescape(t, EscapeByte(c) + more) == [c] + Unescape(t, more)
  {
    hide Entity;
    var s := EscapeByte(c) + more;
    assert s[|EscapeByte(c)|..] == more;
    if c == 38 {
      NamedEscape(t, [97, 109, 112, 59], more);
      assert s == [AMP] + [97, 109, 112, 59] + more;
    } else if c == 60 {
      NamedEscape(t, [108, 116, 59], more);
      assert s == [AMP] + [108, 116, 59] + more;
    } else if c == 62 {
      NamedEscape(t, [103, 116, 59], more);
      assert s == [AMP] + [103, 116, 59] + more;
    } else if c == 39 {
      NumericEscape(t, 51, 57, more);
    } else if c == 34 {
      NumericEscape(t, 51, 52, more);
    }
  }

  /** Unescaping undoes escaping. */
  lemma {:induction false} RoundTrip(t: Table, s: seq<byte>)
    requires WellFormed(t)
    ensures Unescape(t, EscapeString(s)) == s
  {
    if s != [] {
      EscapedByte(t, s[0], EscapeString(s[1..]));
      RoundTrip(t, s[1..]);
    }
  }

  /** Escaped text holds none of the characters it replaces, but for the ampersand that
      begins a reference. */
  lemma {:induction false} EscapedIsClean(s: seq<byte>)
    ensures forall c: byte :: c in EscapeString(s) ==> c !in {34, 39, 60, 62}
  {
    if s != [] {
      EscapedIsClean(s[1..]);
      ByteIsClean(s[0]);
      hide EscapeByte;
      assert EscapeString(s) == EscapeByte(s[0]) + EscapeString(s[1..]);
    }
  }

  lemma ByteIsClean(b: byte)
    ensures forall c: byte :: c in EscapeByte(b) ==> c !in {34, 39, 60, 62}
  {
  }

  /** Only text that needs it is changed. */
  lemma {:induction false} EscapeNothing(s: seq<byte>)
    ensures EscapeString(s) == s <==> forall c: byte :: c in s ==> c !in {34, 38, 39, 60, 62}
    ensures |EscapeString(s)| >= |s|
  {
    if s != [] {
      hide EscapeByte;
      EscapeNothing(s[1..]);
      EscapeLength(s[0]);
      if s[0] in {34, 38, 39, 60, 62} {
        assert |EscapeString(s)| > |s| && s[0] in s;
      } else {
        assert s == [s[0]] + s[1..] && EscapeString(s) == [s[0]] + EscapeString(s[1..]);
        assert EscapeString(s)[1..] == EscapeString(s[1..]);
        assert forall c: byte :: c in s <==> c == s[0] || c in s[1..];
      }
    }
  }

  lemma EscapeLength(c: byte)
    ensures if c in {34, 38, 39, 60, 62} then |EscapeByte(c)| > 1 else EscapeByte(c) == [c]
  {
  }

  // Numeric references

  lemma DigitIsAt(c: byte, hex: bool, v: nat)
    ensures DigitValue(c, hex) == v <==>
            From(c, '0', 10, v) || (hex && (From(c, 'a', 6, v - 10) || From(c, 'A', 6, v - 10)))
  {
  }

  lemma AlphanumericIs(c: byte)
    ensures Alphanumeric(c) <==> exists k :: From(c, '0', 10, k) || From(c, 'a', 26, k) || From(c, 'A', 26, k)
  {
    assert 97 <= c <= 122 ==> From(c, 'a', 26, c - 97);
    assert 65 <= c <= 90 ==> From(c, 'A', 26, c - 65);
    assert 48 <= c <= 57 ==> From(c, '0', 10, c - 48);
  }

  function Base(hex: bool): (r: int) { if hex then 16 else 10 }

  predicate AllDigits(ds: seq<byte>, hex: bool) { forall i :: 0 <= i < |ds| ==> DigitValue(ds[i], hex) >= 0 }

  /** The number that the digits write. */
  function ValueOf(ds: seq<byte>, hex: bool): (r: int)
    ensures AllDigits(ds, hex) ==> r >= 0
  {
    if ds == [] then 0 else Base(hex) * ValueOf(ds[..|ds| - 1], hex) + DigitValue(ds[|ds| - 1], hex)
  }

  /** Going on from x with the digits ds. */
  function More(x: int, ds: seq<byte>, hex: bool): (r: int)
    decreases |ds|
  {
    if ds == [] then x else More(Base(hex) * x + DigitValue(ds[0], hex), ds[1..], hex)
  }

  lemma {:induction false} MoreSnoc(x: int, ds: seq<byte>, d: byte, hex: bool)
    ensures More(x, ds + [d], hex) == Base(hex) * More(x, ds, hex) + DigitValue(d, hex)
    decreases |ds|
  {
    if ds == [] {
      assert (ds + [d])[1..] == [];
    } else {
      MoreSnoc(Base(hex) * x + DigitValue(ds[0], hex), ds[1..], d, hex);
      assert (ds + [d])[1..] == ds[1..] + [d];
    }
  }

  lemma {:induction false} MoreIsValue(ds: seq<byte>, hex: bool)
    ensures More(0, ds, hex) == ValueOf(ds, hex)
  {
    if ds != [] {
      var n := |ds| - 1;
      MoreIsValue(ds[..n], hex);
      MoreSnoc(0, ds[..n], ds[n], hex);
      assert ds[..n] + [ds[n]] == ds;
    }
  }

  lemma WrapStep(x: int, b: int, d: int)
    ensures Wrap32(b * Wrap32(x) + d) == Wrap32(b * x + d)
  {
    var m := 0x1_0000_0000;
    var q := (x - Wrap32(x)) / m;
    assert x == Wrap32(x) + q * m;
    assert b * x + d == b * Wrap32(x) + d + b * q * m by {
      assert b * (q * m) == b * q * m;
    }
    SameWrap(b * Wrap32(x) + d, b * q);
  }

  lemma SameWrap(x: int, k: int)
    ensures Wrap32(x + k * 0x1_0000_0000) == Wrap32(x)
  {
  }

  /** The digits are read to their end, and a semicolon with them; their value as an int32. */
  lemma {:induction false} NumberReads(s: seq<byte>, i: nat, ds: seq<byte>, hex: bool, x: int, semi: bool)
    requires i + |ds| <= |s| && s[i..i + |ds|] == ds && AllDigits(ds, hex)
    requires var e := i + |ds|; if semi then e < |s| && s[e] == SEMI
                                else e == |s| || (DigitValue(s[e], hex) < 0 && s[e] != SEMI)
    ensures Number(s, i, hex, Wrap32(x)) == (Wrap32(More(x, ds, hex)), i + |ds| + if semi then 1 else 0)
    decreases |ds|
  {
    hide Wrap32;
    if ds != [] {
      assert s[i] == s[i..i + |ds|][0];
      assert s[i + 1..i + |ds|] == ds[1..];
      WrapStep(x, Base(hex), DigitValue(ds[0], hex));
      NumberReads(s, i + 1, ds[1..], hex, Base(hex) * x + DigitValue(ds[0], hex), semi);
    }
  }

  /** &#, x or X for hexadecimal digits, the digits, and a semicolon or none. */
  function Reference(ds: seq<byte>, hex: bool, x: byte, semi: bool): (r: seq<byte>) {
    [AMP, HASH] + (if hex then [x] else []) + ds + (if semi then [SEMI] else [])
  }

  /** The number is taken modulo 2^32. It stands for the rune it then is, or for U+FFFD if
      it is 0, a surrogate or beyond Unicode; from 0x80 to 0x9F for the Windows-1252
      character. */
  function Stands(n: nat): (r: rune)
    ensures ValidRune(r) && r != 0
  {
    var m := n % 0x1_0000_0000;
    if 0x80 <= m <= 0x9F then REPLACEMENT[m - 0x80]
    else if m != 0 && ValidRune(m) then m
    else RUNE_ERROR
  }

  lemma RepairIs(n: nat)
    ensures EncodeRune(Repair(Wrap32(n))) == EncodeRune(Stands(n))
  {
    hide EncodeRune, REPLACEMENT;
    if n % 0x1_0000_0000 > 0x7FFF_FFFF {
      NoRune(Repair(Wrap32(n)));
    }
  }

  lemma NoRune(r: rune)
    requires !ValidRune(r)
    ensures EncodeRune(r) == EncodeRune(RUNE_ERROR)
  {
  }

  /** Up to the largest int32 all is as it should be; beyond it a number outside Unicode
      may be taken for any rune. */
  lemma WhenReplaced(n: nat)
    ensures n <= 0x7FFF_FFFF && (n == 0 || !ValidRune(n)) ==> Stands(n) == RUNE_ERROR
    ensures 0 < n && ValidRune(n) && !(0x80 <= n <= 0x9F) ==> Stands(n) == n
    ensures n > MAX_RUNE ==> (Stands(n) == RUNE_ERROR <==>
                              var m := n % 0x1_0000_0000; m == 0 || !ValidRune(m) || m == RUNE_ERROR)
  {
    hide REPLACEMENT;
    var m := n % 0x1_0000_0000;
    if 0x80 <= m <= 0x9F {
      Replacements(m - 0x80);
    }
  }

  lemma Replacements(i: nat)
    requires i < 32
    ensures 0x80 < REPLACEMENT[i] < 0x3000
  {
  }

  /** What a numeric reference is read as, whatever number it writes: the rune it stands
      for if its text has more than three bytes, and otherwise just the ampersand. */
  lemma NumericReference(t: Table, ds: seq<byte>, hex: bool, x: byte, semi: bool, more: seq<byte>)
    requires AllDigits(ds, hex)
    requires hex ==> x == 120 || x == 88
    requires !semi && more != [] ==> DigitValue(more[0], hex) < 0 && more[0] != SEMI
    requires !hex && ds == [] ==> more == [] || (more[0] != 120 && more[0] != 88)
    ensures var r := Reference(ds, hex, x, semi);
      if |r| > 3 then Unescape(t, r + more) == EncodeRune(Stands(ValueOf(ds, hex))) + Unescape(t, more)
      else Unescape(t, r + more) == [AMP] + Unescape(t, (r + more)[1..])
  {
    hide EncodeRune, Stands, Entity, ValueOf, DigitValue;
    var r := Reference(ds, hex, x, semi);
    var s := r + more;
    EntityNumeric(t, ds, hex, x, semi, more);
    DropHead(r, more);
    assert s[..1] == [AMP];
  }

  lemma EntityNumeric(t: Table, ds: seq<byte>, hex: bool, x: byte, semi: bool, more: seq<byte>)
    requires AllDigits(ds, hex)
    requires hex ==> x == 120 || x == 88
    requires !semi && more != [] ==> DigitValue(more[0], hex) < 0 && more[0] != SEMI
    requires !hex && ds == [] ==> more == [] || (more[0] != 120 && more[0] != 88)
    ensures var r := Reference(ds, hex, x, semi);
      var s := r + more;
      && s[0] == AMP
      && Entity(t, s) == if |r| > 3 then (EncodeRune(Stands(ValueOf(ds, hex))), |r|) else (s[..1], 1)
  {
    hide EncodeRune, Repair, Stands, Number, ValueOf, More, Wrap32;
    var r := Reference(ds, hex, x, semi);
    var s, i := r + more, if hex then 3 else 2;
    assert s[0] == AMP && s[1] == HASH;
    ReferenceParts(ds, hex, x, semi, more);
    MoreIsValue(ds, hex);
    if |s| > 3 {
      NumberReads(s, i, ds, hex, 0, semi);
      RepairIs(ValueOf(ds, hex));
      WrapZero();
    }
  }

  lemma WrapZero()
    ensures Wrap32(0) == 0
  {
  }

  lemma ReferenceParts(ds: seq<byte>, hex: bool, x: byte, semi: bool, more: seq<byte>)
    ensures var r, i := Reference(ds, hex, x, semi), if hex then 3 else 2;
      var s, e := r + more, i + |ds|;
      && |r| == e + (if semi then 1 else 0) && s[i..e] == ds && (hex ==> s[2] == x)
      && (semi ==> e < |s| && s[e] == SEMI) && (!semi ==> e == |s| - |more| && (more != [] ==> s[e] == more[0]))
      && (!hex && ds != [] ==> s[2] == ds[0]) && (!hex && ds == [] && semi ==> s[2] == SEMI)
      && (!hex && ds == [] && !semi && more != [] ==> s[2] == more[0])
  {
  }

  /** The digits of a number, letters in lower case. */
  function Digits(n: nat, hex: bool): (r: seq<byte>) {
    (if n < Base(hex) then [] else Digits(n / Base(hex), hex)) + [Digit(n % Base(hex))]
  }

  function Digit(d: int): (r: byte)
    requires 0 <= d < 16
  {
    if d < 10 then 48 + d else 87 + d
  }

  lemma {:induction false} DigitsRound(n: nat, hex: bool)
    ensures var ds := Digits(n, hex); AllDigits(ds, hex) && ValueOf(ds, hex) == n && ds != []
  {
    hide ValueOf, AllDigits, DigitValue, Digit;
    var b := Base(hex);
    Divided(n, b);
    DigitIs(n % b, hex);
    if n >= b {
      DigitsRound(n / b, hex);
      OneMore(Digits(n / b, hex), Digit(n % b), hex);
    } else {
      NoDigits(hex);
      OneMore([], Digit(n % b), hex);
    }
  }

  lemma NoDigits(hex: bool)
    ensures AllDigits([], hex) && ValueOf([], hex) == 0
  {
  }

  lemma DigitIs(d: int, hex: bool)
    requires 0 <= d < Base(hex)
    ensures DigitValue(Digit(d), hex) == d
  {
  }

  lemma OneMore(ds: seq<byte>, d: byte, hex: bool)
    requires AllDigits(ds, hex) && DigitValue(d, hex) >= 0
    ensures AllDigits(ds + [d], hex) && ValueOf(ds + [d], hex) == Base(hex) * ValueOf(ds, hex) + DigitValue(d, hex)
  {
    hide DigitValue;
    assert (ds + [d])[..|ds|] == ds;
  }

  lemma Divided(n: nat, b: nat)
    requires b > 0
    ensures n == b * (n / b) + n % b && (n < b ==> n / b == 0)
  {
  }

  /** A rune written as a number, in decimal or hexadecimal, is read as that rune. */
  lemma RuneReference(t: Table, r: rune, hex: bool, more: seq<byte>)
    requires r != 0 && ValidRune(r) && !(0x80 <= r <= 0x9F)
    ensures Unescape(t, Reference(Digits(r, hex), hex, 120, true) + more) == EncodeRune(r) + Unescape(t, more)
  {
    hide Digits, EncodeRune, Stands, Unescape;
    DigitsRound(r, hex);
    NumericReference(t, Digits(r, hex), hex, 120, true, more);
    WhenReplaced(r);
  }

  // Unescaping in place

  /** The digits of a numeric reference. */
  method ReadNumber(b: array<byte>, src: nat, from: nat, hex: bool) returns (x: int, i: nat)
    requires src + from <= b.Length
    ensures (x, i) == Number(b[src..], from, hex, 0)
  {
    ghost var s := b[src..];
    x, i := 0, from;
    while i < b.Length - src
      invariant from <= i <= |s| && Number(s, i, hex, x) == Number(s, from, hex, 0)
    {
      var c := b[src + i];
      assert c == s[i];
      i := i + 1;
      if DigitValue(c, hex) >= 0 {
        x := Wrap32((if hex then 16 else 10) * x + DigitValue(c, hex));
        continue;
      }
      if c != SEMI {
        i := i - 1;
      }
      return;
    }
  }

  method ReadName(b: array<byte>, src: nat) returns (i: nat)
    requires src + 1 <= b.Length
    ensures i == NameEnd(b[src..], 1)
  {
    ghost var s := b[src..];
    i := 1;
    while i < b.Length - src
      invariant 1 <= i <= |s| && NameEnd(s, i) == NameEnd(s, 1)
    {
      var c := b[src + i];
      assert c == s[i];
      i := i + 1;
      if Alphanumeric(c) {
        continue;
      }
      if c != SEMI {
        i := i - 1;
      }
      return;
    }
  }

  method FindPrefix(t: Table, name: seq<byte>) returns (r: nat)
    requires name != []
    ensures r == LongestPrefix(t, name, MaxPrefix(name))
  {
    var maxLen := |name| - 1;
    if maxLen > LONGEST_WITHOUT_SEMICOLON {
      maxLen := LONGEST_WITHOUT_SEMICOLON;
    }
    var j := maxLen;
    while j > 1
      invariant 0 <= j <= maxLen && LongestPrefix(t, name, j) == LongestPrefix(t, name, maxLen)
    {
      if t.entity(name[..j]) != 0 {
        return j;
      }
      j := j - 1;
    }
    return 0;
  }

  method ReadNumeric(t: Table, b: array<byte>, src: nat) returns (out: seq<byte>, n: nat)
    requires src + 1 < b.Length && b[src] == AMP && b[src + 1] == HASH
    ensures (out, n) == Entity(t, b[src..])
  {
    hide EncodeRune, Number, Repair;
    ghost var s := b[src..];
    out, n := b[src..src + 1], 1;
    assert out == s[..1];
    if b.Length - src <= 3 {
      return;
    }
    var hex := b[src + 2] == 120 || b[src + 2] == 88;
    var x, i := ReadNumber(b, src, if hex then 3 else 2, hex);
    if i > 3 {
      out, n := EncodeRune(Repair(x)), i;
    }
  }

  method ReadNamed(t: Table, b: array<byte>, src: nat) returns (out: seq<byte>, n: nat)
    requires src + 1 < b.Length && b[src] == AMP && b[src + 1] != HASH
    ensures (out, n) == Entity(t, b[src..])
  {
    hide EncodeRune, NameEnd, LongestPrefix;
    var s := b[src..];
    n := ReadName(b, src);
    var name := s[1..n];
    out := s[..n];
    if name == [] {
    } else if t.entity(name) != 0 {
      out := EncodeRune(t.entity(name));
    } else if t.entity2(name).0 != 0 {
      out := EncodeRune(t.entity2(name).0) + EncodeRune(t.entity2(name).1);
    } else {
      var j := FindPrefix(t, name);
      if j != 0 {
        out, n := EncodeRune(t.entity(name[..j])), j + 1;
      }
    }
  }

  /** What the reference at src stands for goes to dst; what follows is not touched. */
  method UnescapeEntity(t: Table, b: array<byte>, dst: nat, src: nat) returns (dst1: nat, src1: nat)
    requires WellFormed(t) && dst <= src < b.Length && b[src] == AMP
    modifies b
    ensures dst1 == dst + |Entity(t, old(b[src..])).0| && src1 == src + Entity(t, old(b[src..])).1
    ensures dst1 <= src1 <= b.Length
    ensures b[0..dst1] == old(b[0..dst]) + Entity(t, old(b[src..])).0
    ensures b[src1..] == old(b[src1..])
  {
    hide WellFormed;
    EntityShrinks(t, b[src..]);
    var out, n := b[src..src + 1], 1;
    if b.Length - src > 1 {
      hide Entity;
      if b[src + 1] == HASH {
        out, n := ReadNumeric(t, b, src);
      } else {
        out, n := ReadNamed(t, b, src);
      }
    } else {
      assert out == b[src..][..1];
    }
    dst1, src1 := Put(b, dst, src, out, n);
  }

  /** Writes p at dst and takes n bytes at src for done. */
  method Put(b: array<byte>, dst: nat, src: nat, p: seq<byte>, n: nat) returns (dst1: nat, src1: nat)
    requires dst <= src && src + n <= b.Length && |p| <= n
    modifies b
    ensures dst1 == dst + |p| && src1 == src + n
    ensures b[0..dst1] == old(b[0..dst]) + p && b[src1..] == old(b[src1..])
  {
    Copy(b, dst, p, 0);
    dst1, src1 := dst + |p|, src + n;
    DropMore(b[..], old(b[..]), dst1, src1);
  }

  lemma DropMore(a: seq<byte>, b: seq<byte>, i: nat, j: nat)
    requires i <= j <= |a| == |b| && a[i..] == b[i..]
    ensures a[j..] == b[j..]
  {
    SliceOfSlice(a, i, j - i, |a| - i);
    SliceOfSlice(b, i, j - i, |b| - i);
  }

  method IndexAmp(s: seq<byte>) returns (i: int)
    ensures -1 <= i < |s|
    ensures i >= 0 ==> s[i] == AMP && AMP !in s[..i]
    ensures i < 0 ==> AMP !in s
  {
    for k := 0 to |s|
      invariant AMP !in s[..k]
    {
      if s[k] == AMP {
        return k;
      }
    }
    assert s[..|s|] == s;
    return -1;
  }

  lemma {:induction false} UnescapePlain(t: Table, s: seq<byte>, i: nat)
    requires i <= |s| && AMP !in s[..i]
    ensures Unescape(t, s) == s[..i] + Unescape(t, s[i..])
  {
    if i > 0 {
      assert s[..i][0] == s[0] && s[1..][..i - 1] == s[..i][1..];
      UnescapePlain(t, s[1..], i - 1);
      assert s[1..][i - 1..] == s[i..];
      assert s[..i] == [s[0]] + s[1..][..i - 1];
    } else {
      assert s[0..] == s;
    }
  }

  /** Copies up to the next reference and rewrites that. */
  method UnescapeNext(t: Table, s: seq<byte>, b: array<byte>, dst: nat, src: nat) returns (dst1: nat, src1: nat)
    requires WellFormed(t) && dst <= src < |s| == b.Length && b[src..] == s[src..]
    modifies b
    ensures dst1 <= src1 <= |s| && src < src1 && b[src1..] == s[src1..]
    ensures b[0..dst1] + Unescape(t, s[src1..]) == old(b[0..dst]) + Unescape(t, s[src..])
  {
    hide WellFormed, Entity, Unescape;
    ghost var before, left := b[0..dst], s[src..];
    var i := 0;
    if s[src] != AMP {
      i := IndexAmp(s[src..]);
    }
    if i < 0 {
      Plain(t, left);
      Done(t);
      dst1, src1 := Put(b, dst, src, s[src..], |s| - src);
      assert s[src1..] == [];
      return;
    }
    UnescapePlain(t, left, i);
    SliceOfSlice(s, src, i, |left|);
    dst1, src1 := dst, src;
    if i > 0 {
      dst1, src1 := Put(b, dst, src, s[src..src + i], i);
      DropMore(old(b[..]), s, src, src1);
    }
    assert b[0..dst1] == before + left[..i] && b[src1..] == s[src1..];
    UnescapeFirst(t, s[src1..]);
    AppendThree(before, left[..i], Unescape(t, s[src1..]));
    dst1, src1 := UnescapeReference(t, s, b, dst1, src1);
  }

  method UnescapeReference(t: Table, s: seq<byte>, b: array<byte>, dst: nat, src: nat) returns (dst1: nat, src1: nat)
    requires WellFormed(t) && dst <= src < |s| == b.Length && b[src..] == s[src..] && s[src] == AMP
    modifies b
    ensures dst1 <= src1 <= |s| && src < src1 && b[src1..] == s[src1..]
    ensures b[0..dst1] + Unescape(t, s[src1..]) == old(b[0..dst]) + Unescape(t, s[src..])
  {
    hide WellFormed, Entity, Unescape;
    ghost var left := s[src..];
    assert b[src] == b[src..][0];
    UnescapeFirst(t, left);
    dst1, src1 := UnescapeEntity(t, b, dst, src);
    SliceOfSlice(s, src, src1 - src, |left|);
    DropMore(old(b[..]), s, src, src1);
    AppendThree(old(b[0..dst]), Entity(t, left).0, Unescape(t, s[src1..]));
  }

  /** Rewrites the text in one buffer, from the first reference on. */
  method UnescapeString(t: Table, s: seq<byte>) returns (r: seq<byte>)
    requires WellFormed(t)
    ensures r == Unescape(t, s) && |r| <= |s|
  {
    hide WellFormed, Entity, Unescape;
    var i := IndexAmp(s);
    if i < 0 {
      Plain(t, s);
      return s;
    }
    var b := new byte[|s|];
    Copy(b, 0, s, 0);
    UnescapePlain(t, s, i);
    assert b[0..i] == s[..i] && b[i..] == s[i..];
    var dst, src := UnescapeReference(t, s, b, i, i);
    while |s| - src > 0
      invariant 0 <= dst <= src <= |s| && b[src..] == s[src..]
      invariant Unescape(t, s) == b[0..dst] + Unescape(t, s[src..])
    {
      dst, src := UnescapeNext(t, s, b, dst, src);
    }
    Done(t);
    assert s[src..] == [];
    return b[0..dst];
  }

  lemma Plain(t: Table, s: seq<byte>)
    requires AMP !in s
    ensures Unescape(t, s) == s
  {
    assert s[..|s|] == s && s[|s|..] == [];
    UnescapePlain(t, s, |s|);
  }

  lemma Done(t: Table)
    ensures Unescape(t, []) == []
  {
  }

  lemma UnescapeFirst(t: Table, s: seq<byte>)
    requires s != [] && s[0] == AMP
    ensures Unescape(t, s) == Entity(t, s).0 + Unescape(t, s[Entity(t, s).1..])
  {
  }
}
