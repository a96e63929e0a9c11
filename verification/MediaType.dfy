/** Media types with parameters: a printer with three ways of writing a value, and a
    parser that reads back what it writes. */
module MediaType {
  import opened Common
  import opened SortedKeys
  import opened TextLines
  import opened Utf8

  type Value = seq<byte>

  const SEMI: byte := 59
  const EQUALS: byte := 61
  const STAR: byte := 42
  const QUOTE: byte := 34
  const BACKSLASH: byte := 92
  const PERCENT: byte := 37
  const TICK: byte := 39
  const SLASH: byte := 47
  const SPACE: byte := 32

  // Characters

  /** One of ()<>@,;:\"/[]?= */
  predicate TSpecial(c: byte) {
    c in {40, 41, 60, 62, 64, 44, 59, 58, 92, 34, 47, 91, 93, 63, 61}
  }

  predicate TokenChar(c: byte) { 0x20 < c < 0x7F && !TSpecial(c) }

  predicate AllToken(s: seq<byte>) { forall i :: 0 <= i < |s| ==> TokenChar(s[i]) }

  predicate IsToken(s: seq<byte>) { s != [] && AllToken(s) }

  predicate Blank(c: byte) { 9 <= c <= 13 || c == 32 }

  function Lower(c: byte): (r: byte) { if 65 <= c <= 90 then c + 32 else c }

  function ToLower(s: seq<byte>): (r: seq<byte>)
    ensures |r| == |s| && forall i :: 0 <= i < |s| ==> r[i] == Lower(s[i])
  {
    seq(|s|, i requires 0 <= i < |s| => Lower(s[i]))
  }

  function TrimLeft(s: seq<byte>): (r: seq<byte>)
    ensures |r| <= |s| && (r != [] ==> !Blank(r[0]))
  {
    if s == [] || !Blank(s[0]) then s else TrimLeft(s[1..])
  }

  function TrimRight(s: seq<byte>): (r: seq<byte>)
    ensures |r| <= |s|
  {
    if s == [] || !Blank(s[|s| - 1]) then s else TrimRight(s[..|s| - 1])
  }

  function TrimSpace(s: seq<byte>): (r: seq<byte>) { TrimRight(TrimLeft(s)) }

  // Printing

  /** Some byte is neither printable ASCII nor a tab. */
  predicate NeedsEncoding(s: seq<byte>) {
    HasOdd(s)
  }

  predicate Odd(c: int) { (c < 32 || c > 126) && c != 9 }

  predicate HasOdd(s: seq<int>) { exists i :: 0 <= i < |s| && Odd(s[i]) }

  lemma HasOddFirst(c: int, s: seq<int>)
    ensures HasOdd([c] + s) <==> Odd(c) || HasOdd(s)
  {
    if HasOdd(s) {
      var i :| 0 <= i < |s| && Odd(s[i]);
      assert ([c] + s)[i + 1] == s[i];
    }
    if Odd(c) {
      assert ([c] + s)[0] == c;
    }
    if HasOdd([c] + s) && !Odd(c) {
      var i :| 0 <= i < |s| + 1 && Odd(([c] + s)[i]);
      assert s[i - 1] == ([c] + s)[i];
    }
  }

  /** The source looks at the runes of s rather than its bytes; that is the same. */
  lemma {:induction false} NeedsEncodingByRunes(s: seq<byte>)
    ensures NeedsEncoding(s) <==> HasOdd(DecodeAll(s))
  {
    if s != [] {
      hide DecodeRune, HasOdd;
      var (r, n) := DecodeRune(s);
      FirstRune(s);
      NeedsEncodingByRunes(s[n..]);
      HasOddFirst(r, DecodeAll(s[n..]));
      HasOddFirst(s[0], s[1..]);
      assert s == [s[0]] + s[1..];
    } else {
      assert !HasOdd(s);
    }
  }

  lemma FirstRune(s: seq<byte>)
    requires s != []
    ensures if s[0] < 0x80 then DecodeRune(s) == (s[0], 1) else DecodeRune(s).0 >= 0x80
  {
    hide Join;
    if DecodeRune(s).1 > 1 {
      EncodeDecode(s);
    }
  }

  /** A byte that a percent-encoded value holds as it is. */
  predicate AttributeChar(c: byte) { TokenChar(c) && c != STAR && c != TICK && c != PERCENT }

  function HexDigit(n: int): (r: byte)
    requires 0 <= n < 16
  {
    if n < 10 then 48 + n else 55 + n
  }

  function PercentByte(c: byte): (r: seq<byte>) {
    if AttributeChar(c) then [c] else [PERCENT, HexDigit(c / 16), HexDigit(c % 16)]
  }

  function Percent(s: Value): (r: seq<byte>) {
    if s == [] then [] else PercentByte(s[0]) + Percent(s[1..])
  }

  function QuoteByte(c: byte): (r: seq<byte>) {
    if c == QUOTE || c == BACKSLASH then [BACKSLASH, c] else [c]
  }

  function Quoted(s: Value): (r: seq<byte>) {
    if s == [] then [] else QuoteByte(s[0]) + Quoted(s[1..])
  }

  /** utf-8'' */
  const PREFIX: seq<byte> := [117, 116, 102, 45, 56, TICK, TICK]

  /** The text of a value: percent-encoded, a token, or a quoted string. */
  function Body(v: Value): (r: seq<byte>) {
    if NeedsEncoding(v) then PREFIX + Percent(v)
    else if IsToken(v) then v
    else [QUOTE] + Quoted(v) + [QUOTE]
  }

  function FormatValue(v: Value): (r: seq<byte>) {
    (if NeedsEncoding(v) then [STAR] else []) + [EQUALS] + Body(v)
  }

  function FormatParam(a: Key, v: Value): (r: seq<byte>) {
    [SEMI, SPACE] + ToLower(a) + FormatValue(v)
  }

  function FormatParams(attrs: seq<Key>, param: map<Key, Value>): (r: seq<byte>)
    requires forall i :: 0 <= i < |attrs| ==> attrs[i] in param
  {
    if attrs == [] then [] else FormatParam(attrs[0], param[attrs[0]]) + FormatParams(attrs[1..], param)
  }

  /** A token, or two with a slash between them. */
  predicate TypeOk(t: seq<byte>) {
    var slash := IndexByte(t, SLASH);
    if slash < 0 then IsToken(t) else IsToken(t[..slash]) && IsToken(t[slash + 1..])
  }

  // Parsing

  function TokenEnd(s: seq<byte>): (n: nat)
    ensures n <= |s| && AllToken(s[..n]) && (n < |s| ==> !TokenChar(s[n]))
  {
    if s == [] || !TokenChar(s[0]) then 0
    else
      assert s[..1 + TokenEnd(s[1..])] == [s[0]] + s[1..][..TokenEnd(s[1..])];
      1 + TokenEnd(s[1..])
  }

  function ConsumeToken(v: seq<byte>): (r: (seq<byte>, seq<byte>))
    ensures r.0 + r.1 == v
  {
    (v[..TokenEnd(v)], v[TokenEnd(v)..])
  }

  function Prepend(c: byte, r: Option<(Value, seq<byte>)>): (v: Option<(Value, seq<byte>)>) {
    match r
    case None => None
    case Some(x) => Some(([c] + x.0, x.1))
  }

  /** The value up to the closing quote, and what follows the quote. A backslash
      escapes a special character only. */
  function Unquote(s: seq<byte>): (r: Option<(Value, seq<byte>)>)
    ensures r.Some? ==> |r.value.1| < |s|
  {
    if s == [] then None
    else if s[0] == QUOTE then Some(([], s[1..]))
    else if s[0] == BACKSLASH && |s| > 1 && TSpecial(s[1]) then Prepend(s[1], Unquote(s[2..]))
    else if s[0] == CR || s[0] == NL then None
    else Prepend(s[0], Unquote(s[1..]))
  }

  function ConsumeValue(v: seq<byte>): (r: (Value, seq<byte>))
    ensures |r.1| <= |v|
  {
    if v == [] then ([], [])
    else if v[0] != QUOTE then ConsumeToken(v)
    else
      match Unquote(v[1..])
      case Some(x) => x
      case None => ([], v)
  }

  /** The name, the value and the rest; on failure an empty name and all of v. */
  function ConsumeMediaParam(v: seq<byte>): (r: (Key, Value, seq<byte>))
    ensures r.0 != [] ==> |r.2| < |v|
    ensures r.0 == [] ==> r.2 == v
  {
    var r0 := TrimLeft(v);
    if r0 == [] || r0[0] != SEMI then ([], [], v)
    else
      var (p, r1) := ConsumeToken(TrimLeft(r0[1..]));
      var param := ToLower(p);
      if param == [] then ([], [], v)
      else
        var r2 := TrimLeft(r1);
        if r2 == [] || r2[0] != EQUALS then ([], [], v)
        else
          var r3 := TrimLeft(r2[1..]);
          var (value, rest) := ConsumeValue(r3);
          if value == [] && rest == r3 then ([], [], v) else (param, value, rest)
  }

  predicate IsHex(c: byte) { 48 <= c <= 57 || 97 <= c <= 102 || 65 <= c <= 70 }

  function Unhex(c: byte): (n: int)
    ensures 0 <= n < 16
  {
    if 48 <= c <= 57 then c - 48
    else if 97 <= c <= 102 then c - 97 + 10
    else if 65 <= c <= 70 then c - 65 + 10
    else 0
  }

  function PercentHexUnescape(s: seq<byte>): (r: Option<Value>)
    ensures r.Some? ==> |r.value| <= |s|
  {
    if s == [] then Some([])
    else if s[0] != PERCENT then
      match PercentHexUnescape(s[1..])
      case Some(r) => Some([s[0]] + r)
      case None => None
    else if |s| < 3 || !IsHex(s[1]) || !IsHex(s[2]) then None
    else
      match PercentHexUnescape(s[3..])
      case Some(r) => Some([Unhex(s[1]) * 16 + Unhex(s[2])] + r)
      case None => None
  }

  const UTF8: seq<byte> := [117, 116, 102, 45, 56]
  const US_ASCII: seq<byte> := [117, 115, 45, 97, 115, 99, 105, 105]

  /** charset'language'percent-encoded */
  function Decode2231Enc(v: seq<byte>): (r: Option<Value>) {
    var i := IndexByte(v, TICK);
    if i < 0 then None
    else
      var j := IndexByte(v[i + 1..], TICK);
      if j < 0 then None
      else
        var charset := ToLower(v[..i]);
        if charset != US_ASCII && charset != UTF8 then None else PercentHexUnescape(v[i + 1..][j + 1..])
  }

  predicate DispositionOk(s: seq<byte>) {
    var (typ, rest) := ConsumeToken(s);
    typ != []
    && (rest == [] || (rest[0] == SLASH && ConsumeToken(rest[1..]).0 != [] && ConsumeToken(rest[1..]).1 == []))
  }

  /** The parameters read so far, and by base name those with a star in their name. */
  datatype Pieces = Pieces(params: map<Key, Value>, starred: map<Key, map<Key, Value>>)

  datatype Step = Ended(p: Pieces) | Trailing(p: Pieces) | BadParam | Duplicate

  function Put(p: Pieces, key: Key, value: Value): (r: Pieces) {
    var star := IndexByte(key, STAR);
    if star < 0 then p.(params := p.params[key := value])
    else
      var base := key[..star];
      var m := if base in p.starred then p.starred[base] else map[];
      p.(starred := p.starred[base := m[key := value]])
  }

  predicate Has(p: Pieces, key: Key) {
    var star := IndexByte(key, STAR);
    if star < 0 then key in p.params else key[..star] in p.starred && key in p.starred[key[..star]]
  }

  function ParseParams(v: seq<byte>, p: Pieces): (r: Step)
    decreases |v|
  {
    var u := TrimLeft(v);
    if u == [] then Ended(p)
    else
      var (key, value, rest) := ConsumeMediaParam(u);
      if key == [] then (if TrimSpace(rest) == [SEMI] then Trailing(p) else BadParam)
      else if Has(p, key) then Duplicate
      else ParseParams(rest, Put(p, key, value))
  }

  // Putting starred parameters together

  function Decimal(n: nat): (r: seq<byte>) {
    if n < 10 then [48 + n] else Decimal(n / 10) + [48 + n % 10]
  }

  function Part(key: Key, n: nat): (r: Key) { key + [STAR] + Decimal(n) }

  function DecimalValue(s: seq<byte>): (r: int) {
    if s == [] then 0 else DecimalValue(s[..|s| - 1]) * 10 + s[|s| - 1] as int - 48
  }

  lemma {:induction false} DecimalIsValue(n: nat)
    ensures DecimalValue(Decimal(n)) == n && STAR !in Decimal(n) && Decimal(n) != []
  {
    if n >= 10 {
      DecimalIsValue(n / 10);
      assert Decimal(n)[..|Decimal(n)| - 1] == Decimal(n / 10);
    } else {
      assert Decimal(n)[..0] == [];
    }
  }

  lemma PartsDiffer(key: Key, m: nat, n: nat)
    requires m != n
    ensures Part(key, m) != Part(key, n) && Part(key, m) + [STAR] != Part(key, n) + [STAR]
  {
    DecimalIsValue(m);
    DecimalIsValue(n);
    assert Part(key, m)[|key| + 1..] == Decimal(m) && Part(key, n)[|key| + 1..] == Decimal(n);
    assert (Part(key, m) + [STAR])[..|Part(key, m)|] == Part(key, m);
    assert (Part(key, n) + [STAR])[..|Part(key, n)|] == Part(key, n);
  }

  lemma PartNotStarred(key: Key, m: nat, n: nat)
    ensures Part(key, m) != Part(key, n) + [STAR]
  {
    DecimalIsValue(m);
    var d, coded := Decimal(m), Part(key, n) + [STAR];
    assert Part(key, m)[|Part(key, m)| - 1] == d[|d| - 1] && d[|d| - 1] in d;
    assert coded[|coded| - 1] == STAR;
  }

  /** The names that the first n parts can have. */
  ghost function Names(key: Key, n: nat): (r: set<Key>) {
    (set m: nat | m < n :: Part(key, m)) + (set m: nat | m < n :: Part(key, m) + [STAR])
  }

  /** Part n of a value, as it is or percent-encoded. */
  function PartValue(key: Key, pieces: map<Key, Value>, n: nat): (r: Option<Value>) {
    var plain, coded := Part(key, n), Part(key, n) + [STAR];
    if plain in pieces then Some(pieces[plain])
    else if coded !in pieces then None
    else
      var v := if n == 0 then Decode2231Enc(pieces[coded]) else PercentHexUnescape(pieces[coded]);
      Some(if v.Some? then v.value else [])
  }

  lemma NamesGrow(key: Key, pieces: map<Key, Value>, n: nat)
    requires PartValue(key, pieces, n).Some?
    ensures pieces.Keys - Names(key, n + 1) < pieces.Keys - Names(key, n)
  {
    var name := if Part(key, n) in pieces then Part(key, n) else Part(key, n) + [STAR];
    assert name in Names(key, n + 1);
    forall m: nat | m < n
      ensures Part(key, m) != name && Part(key, m) + [STAR] != name
    {
      PartsDiffer(key, m, n);
      PartNotStarred(key, m, n);
      PartNotStarred(key, n, m);
    }
    assert name !in Names(key, n);
    assert Names(key, n) <= Names(key, n + 1);
  }

  /** The parts from n on, joined, until one is missing. */
  function Collect(key: Key, pieces: map<Key, Value>, n: nat): (r: Value)
    decreases pieces.Keys - Names(key, n)
  {
    match PartValue(key, pieces, n)
    case None => []
    case Some(v) =>
      NamesGrow(key, pieces, n);
      v + Collect(key, pieces, n + 1)
  }

  function Joined(key: Key, pieces: map<Key, Value>): (r: Option<Value>) {
    if key + [STAR] in pieces then Decode2231Enc(pieces[key + [STAR]])
    else if PartValue(key, pieces, 0).Some? then Some(Collect(key, pieces, 0))
    else None
  }

  function Stitch(p: Pieces): (r: map<Key, Value>) {
    map k: Key | k in p.params.Keys + p.starred.Keys
                 && (k in p.params || Joined(k, p.starred[k]).Some?) ::
      if k in p.starred && Joined(k, p.starred[k]).Some? then Joined(k, p.starred[k]).value else p.params[k]
  }

  datatype Result = Parsed(mediatype: seq<byte>, params: map<Key, Value>)
                  | InvalidParameter(mediatype: seq<byte>) | InvalidType | DuplicateParameter

  /** The type ends at the first semicolon. */
  function TypeEnd(v: seq<byte>): (n: nat)
    ensures n <= |v|
  {
    var i := IndexByte(v, SEMI);
    if i < 0 then |v| else i
  }

  function TypeOf(v: seq<byte>): (r: seq<byte>) {
    TrimSpace(ToLower(v[..TypeEnd(v)]))
  }

  /** A trailing semicolon ends the parsing before anything is put together. */
  function Parse(v: seq<byte>): (r: Result) {
    var mediatype := TypeOf(v);
    if !DispositionOk(mediatype) then InvalidType
    else
      match ParseParams(v[TypeEnd(v)..], Pieces(map[], map[]))
      case Ended(p) => Parsed(mediatype, Stitch(p))
      case Trailing(p) => Parsed(mediatype, p.params)
      case BadParam => InvalidParameter(mediatype)
      case Duplicate => DuplicateParameter
  }

  // The round trip, value by value

  lemma {:induction false} TokenStops(tok: seq<byte>, rest: seq<byte>)
    requires AllToken(tok) && (rest == [] || !TokenChar(rest[0]))
    ensures ConsumeToken(tok + rest) == (tok, rest)
  {
    if tok == [] {
      assert tok + rest == rest && rest[..0] == [] && rest[0..] == rest;
    } else {
      TokenStops(tok[1..], rest);
      assert (tok + rest)[1..] == tok[1..] + rest;
      assert TokenEnd(tok[1..] + rest) == |tok| - 1;
      DropHead(tok, rest);
    }
  }

  predicate Quotable(v: Value) { forall i :: 0 <= i < |v| ==> v[i] != CR && v[i] != NL }

  lemma {:induction false} UnquoteQuoted(v: Value, rest: seq<byte>)
    requires Quotable(v)
    ensures Unquote(Quoted(v) + [QUOTE] + rest) == Some((v, rest))
  {
    hide Unquote, QuoteByte;
    if v == [] {
      assert Quoted(v) + [QUOTE] + rest == [QUOTE] + rest;
      UnquoteEnd(rest);
    } else {
      var more := Quoted(v[1..]) + [QUOTE] + rest;
      UnquoteQuoted(v[1..], rest);
      UnquoteByte(v[0], more);
      assert Quoted(v) + [QUOTE] + rest == QuoteByte(v[0]) + more;
      assert [v[0]] + v[1..] == v;
    }
  }

  lemma UnquoteEnd(rest: seq<byte>)
    ensures Unquote([QUOTE] + rest) == Some(([], rest))
  {
    DropHead([QUOTE], rest);
  }

  lemma UnquoteByte(c: byte, more: seq<byte>)
    requires c != CR && c != NL
    ensures Unquote(QuoteByte(c) + more) == Prepend(c, Unquote(more))
  {
    var s := QuoteByte(c) + more;
    if c == QUOTE || c == BACKSLASH {
      assert s[2..] == more;
    } else {
      assert s[1..] == more;
    }
  }

  lemma HexRound(n: int)
    requires 0 <= n < 16
    ensures IsHex(HexDigit(n)) && Unhex(HexDigit(n)) == n && AttributeChar(HexDigit(n))
  {
  }

  lemma PercentByteRound(c: byte, more: seq<byte>)
    ensures PercentHexUnescape(PercentByte(c) + more) ==
            match PercentHexUnescape(more) { case Some(r) => Some([c] + r) case None => None }
    ensures AllToken(PercentByte(c))
  {
    var s := PercentByte(c) + more;
    if AttributeChar(c) {
      assert s[1..] == more;
    } else {
      HexRound(c / 16);
      HexRound(c % 16);
      assert s[3..] == more && c / 16 * 16 + c % 16 == c;
    }
  }

  lemma {:induction false} PercentRound(v: Value)
    ensures PercentHexUnescape(Percent(v)) == Some(v) && AllToken(Percent(v))
  {
    if v != [] {
      PercentRound(v[1..]);
      PercentByteRound(v[0], Percent(v[1..]));
      assert [v[0]] + v[1..] == v;
    }
  }

  lemma TwoTicks(p: seq<byte>)
    ensures var s := PREFIX + p;
      IndexByte(s, TICK) == 5 && s[..5] == UTF8 && s[6..] == [TICK] + p
  {
    var s := PREFIX + p;
    assert s[..5] == UTF8 && TICK !in UTF8;
    IndexUnique(s, TICK, 5);
  }

  lemma LowerPrefix()
    ensures ToLower(UTF8) == UTF8 && IsToken(PREFIX)
  {
  }

  lemma EncodedRound(v: Value)
    ensures Decode2231Enc(PREFIX + Percent(v)) == Some(v) && IsToken(PREFIX + Percent(v))
  {
    hide Percent, PercentHexUnescape, ToLower;
    var p := Percent(v);
    PercentRound(v);
    TwoTicks(p);
    LowerPrefix();
    assert ([TICK] + p)[1..] == p;
  }

  // The round trip, parameter by parameter

  /** A lower-case token without a star. */
  predicate GoodKey(a: Key) { IsToken(a) && ToLower(a) == a && STAR !in a }

  /** The name, the value and the text of the value that are written for a and v. */
  function Named(a: Key, v: Value): (r: Key) { if NeedsEncoding(v) then a + [STAR] else a }

  function Written(v: Value): (r: Value) { if NeedsEncoding(v) then PREFIX + Percent(v) else v }

  predicate EndOrSemi(rest: seq<byte>) { rest == [] || rest[0] == SEMI }

  lemma BodyRound(v: Value, rest: seq<byte>)
    requires EndOrSemi(rest)
    ensures ConsumeValue(Body(v) + rest) == (Written(v), rest) && Body(v) != [] && !Blank(Body(v)[0])
  {
    hide ConsumeValue, ConsumeToken, Percent, Quoted, NeedsEncoding;
    if NeedsEncoding(v) {
      EncodedRound(v);
      TokenBody(PREFIX + Percent(v), rest);
    } else if IsToken(v) {
      TokenBody(v, rest);
    } else {
      NoLineEnds(v);
      QuotedBody(v, rest);
    }
  }

  lemma TokenBody(tok: seq<byte>, rest: seq<byte>)
    requires IsToken(tok) && EndOrSemi(rest)
    ensures ConsumeValue(tok + rest) == (tok, rest) && !Blank(tok[0])
  {
    hide ConsumeToken;
    TokenStops(tok, rest);
    assert (tok + rest)[0] == tok[0];
  }

  lemma NoLineEnds(v: Value)
    requires !NeedsEncoding(v)
    ensures Quotable(v)
  {
  }

  lemma QuotedBody(v: Value, rest: seq<byte>)
    requires Quotable(v)
    ensures ConsumeValue([QUOTE] + Quoted(v) + [QUOTE] + rest) == (v, rest)
  {
    hide Unquote, Quoted;
    UnquoteQuoted(v, rest);
    assert ([QUOTE] + Quoted(v) + [QUOTE] + rest)[1..] == Quoted(v) + [QUOTE] + rest;
  }

  lemma NamedParam(name: Key, body: seq<byte>, rest: seq<byte>, value: Value)
    requires IsToken(name) && body != [] && !Blank(body[0]) && ConsumeValue(body + rest) == (value, rest)
    ensures ConsumeMediaParam([SEMI, SPACE] + (name + ([EQUALS] + (body + rest)))) == (ToLower(name), value, rest)
  {
    hide ConsumeValue, ConsumeToken, ToLower;
    var r3 := body + rest;
    var r1 := [EQUALS] + r3;
    var r0 := name + r1;
    var v := [SEMI, SPACE] + r0;
    assert v[1..] == [SPACE] + r0 && v[1..][1..] == r0;
    assert TrimLeft(v) == v && TrimLeft(v[1..]) == r0;
    TokenStops(name, r1);
    assert r1[1..] == r3 && TrimLeft(r1) == r1 && TrimLeft(r3) == r3;
  }

  lemma ParamRound(a: Key, v: Value, rest: seq<byte>)
    requires GoodKey(a) && EndOrSemi(rest)
    ensures ConsumeMediaParam(FormatParam(a, v) + rest) == (Named(a, v), Written(v), rest)
    ensures TrimLeft(FormatParam(a, v) + rest) == FormatParam(a, v) + rest
  {
    hide ConsumeMediaParam, Body;
    BodyRound(v, rest);
    BodyText(a, v, rest);
    NamedIsToken(a, v);
    NamedParam(Named(a, v), Body(v), rest, Written(v));
  }

  lemma NamedIsToken(a: Key, v: Value)
    requires GoodKey(a)
    ensures IsToken(Named(a, v)) && ToLower(Named(a, v)) == Named(a, v)
  {
  }

  lemma Regroup(p: seq<byte>, a: seq<byte>, star: seq<byte>, e: seq<byte>, b: seq<byte>, r: seq<byte>)
    ensures p + a + (star + e + b) + r == p + ((a + star) + (e + (b + r)))
  {
  }

  lemma BodyText(a: Key, v: Value, rest: seq<byte>)
    requires GoodKey(a)
    ensures FormatParam(a, v) + rest == [SEMI, SPACE] + (Named(a, v) + ([EQUALS] + (Body(v) + rest)))
  {
    hide Body, NeedsEncoding;
    var star := if NeedsEncoding(v) then [STAR] else [];
    assert a + star == Named(a, v);
    Regroup([SEMI, SPACE], a, star, [EQUALS], Body(v), rest);
  }

  // All the parameters

  /** What the parser collects from the parameters attrs. */
  function Filled(attrs: seq<Key>, param: map<Key, Value>, p: Pieces): (r: Pieces)
    requires forall i :: 0 <= i < |attrs| ==> attrs[i] in param
  {
    if attrs == [] then p
    else Filled(attrs[1..], param, Put(p, Named(attrs[0], param[attrs[0]]), Written(param[attrs[0]])))
  }

  predicate New(p: Pieces, a: Key) { a !in p.params && a !in p.starred }

  predicate Distinct(attrs: seq<Key>) { forall i, j :: 0 <= i < j < |attrs| ==> attrs[i] != attrs[j] }

  lemma PutNamed(p: Pieces, a: Key, v: Value)
    requires GoodKey(a) && New(p, a)
    ensures !Has(p, Named(a, v))
    ensures Put(p, Named(a, v), Written(v)) ==
            if NeedsEncoding(v) then p.(starred := p.starred[a := map[a + [STAR] := Written(v)]])
            else p.(params := p.params[a := v])
  {
    hide Percent;
    if NeedsEncoding(v) {
      var k := a + [STAR];
      assert k[..|a|] == a;
      IndexUnique(k, STAR, |a|);
    }
  }

  lemma FormatStarts(attrs: seq<Key>, param: map<Key, Value>)
    requires forall i :: 0 <= i < |attrs| ==> attrs[i] in param
    ensures EndOrSemi(FormatParams(attrs, param))
  {
    hide FormatValue, ToLower;
  }

  lemma SemiEnds(p: Pieces)
    ensures ParseParams([SEMI], p) == Trailing(p)
  {
    assert TrimSpace([SEMI]) == [SEMI];
  }

  lemma NothingEnds(p: Pieces)
    ensures ParseParams([], p) == Ended(p)
  {
  }

  /** The parameters are read one by one, whatever follows them. */
  lemma {:induction false} ListRound(attrs: seq<Key>, param: map<Key, Value>, p: Pieces, tail: seq<byte>)
    requires forall i :: 0 <= i < |attrs| ==> attrs[i] in param && GoodKey(attrs[i]) && New(p, attrs[i])
    requires Distinct(attrs) && EndOrSemi(tail)
    ensures ParseParams(FormatParams(attrs, param) + tail, p) == ParseParams(tail, Filled(attrs, param, p))
    decreases |attrs|
  {
    hide FormatParam, ConsumeMediaParam, Put, Has, GoodKey, Named, Written;
    if attrs == [] {
      assert FormatParams(attrs, param) + tail == tail;
    } else {
      var a, v := attrs[0], param[attrs[0]];
      var rest := FormatParams(attrs[1..], param) + tail;
      FormatStarts(attrs[1..], param);
      ParamRound(a, v, rest);
      PutNamed(p, a, v);
      NamedNonempty(a, v);
      ListRound(attrs[1..], param, Put(p, Named(a, v), Written(v)), tail);
      AppendThree(FormatParam(a, v), FormatParams(attrs[1..], param), tail);
    }
  }

  lemma NamedNonempty(a: Key, v: Value)
    requires GoodKey(a)
    ensures Named(a, v) != [] && FormatParam(a, v) != []
  {
  }

  /** Each parameter is found where its value says, and nothing else is. */
  lemma {:induction false} FilledIs(attrs: seq<Key>, param: map<Key, Value>, p: Pieces, k: Key)
    requires forall i :: 0 <= i < |attrs| ==> attrs[i] in param && GoodKey(attrs[i]) && New(p, attrs[i])
    requires Distinct(attrs)
    ensures var f := Filled(attrs, param, p);
      if k !in attrs then
        && (k in f.params <==> k in p.params) && (k in p.params ==> f.params[k] == p.params[k])
        && (k in f.starred <==> k in p.starred) && (k in p.starred ==> f.starred[k] == p.starred[k])
      else if NeedsEncoding(param[k]) then
        k !in f.params && k in f.starred && f.starred[k] == map[k + [STAR] := Written(param[k])]
      else k in f.params && k !in f.starred && f.params[k] == param[k]
    decreases |attrs|
  {
    hide Put, Has, GoodKey, Named, Written, NeedsEncoding;
    if attrs != [] {
      var a, v := attrs[0], param[attrs[0]];
      PutNamed(p, a, v);
      FilledIs(attrs[1..], param, Put(p, Named(a, v), Written(v)), k);
    }
  }

  lemma StitchRound(attrs: seq<Key>, param: map<Key, Value>)
    requires forall k: Key :: k in attrs <==> k in param
    requires forall i :: 0 <= i < |attrs| ==> GoodKey(attrs[i])
    requires Distinct(attrs)
    ensures Stitch(Filled(attrs, param, Pieces(map[], map[]))) == param
  {
    hide Filled, Put, GoodKey, NeedsEncoding, Decode2231Enc, Percent;
    var p := Filled(attrs, param, Pieces(map[], map[]));
    forall k: Key
      ensures k in Stitch(p) <==> k in param
      ensures k in param ==> Stitch(p)[k] == param[k]
    {
      FilledIs(attrs, param, Pieces(map[], map[]), k);
      if k in param {
        EncodedRound(param[k]);
      }
    }
  }

  // The type

  lemma LowerToken(s: seq<byte>)
    requires IsToken(s)
    ensures IsToken(ToLower(s)) && ToLower(ToLower(s)) == ToLower(s)
  {
  }

  lemma LowerBoth(x: seq<byte>, y: seq<byte>)
    ensures ToLower(x + ([SLASH] + y)) == ToLower(x) + ([SLASH] + ToLower(y))
  {
  }

  lemma NoTrim(s: seq<byte>)
    requires s != [] && !Blank(s[0]) && !Blank(s[|s| - 1])
    ensures TrimSpace(s) == s
  {
  }

  lemma TokenAlone(s: seq<byte>)
    requires IsToken(s)
    ensures ConsumeToken(s) == (s, [])
  {
    TokenStops(s, []);
    assert s + [] == s;
  }

  lemma TypeRound(t: seq<byte>)
    requires TypeOk(t)
    ensures var m := ToLower(t); DispositionOk(m) && ToLower(m) == m && TrimSpace(m) == m && SEMI !in m
  {
    hide ConsumeToken, TrimSpace, ToLower, IsToken, DispositionOk;
    var slash := IndexByte(t, SLASH);
    if slash < 0 {
      PlainType(t);
    } else {
      assert t == t[..slash] + ([SLASH] + t[slash + 1..]);
      TwoPartType(t[..slash], t[slash + 1..]);
    }
  }

  lemma PlainType(t: seq<byte>)
    requires IsToken(t)
    ensures var m := ToLower(t); DispositionOk(m) && ToLower(m) == m && TrimSpace(m) == m && SEMI !in m
  {
    hide ConsumeToken, TrimSpace;
    LowerToken(t);
    TokenAlone(ToLower(t));
    NoTrim(ToLower(t));
  }

  lemma TwoPartType(x: seq<byte>, y: seq<byte>)
    requires IsToken(x) && IsToken(y)
    ensures var m := ToLower(x + ([SLASH] + y)); DispositionOk(m) && ToLower(m) == m && TrimSpace(m) == m && SEMI !in m
  {
    hide ConsumeToken, TrimSpace, ToLower;
    var x', y' := ToLower(x), ToLower(y);
    LowerToken(x);
    LowerToken(y);
    var m := x' + ([SLASH] + y');
    LowerBoth(x, y);
    LowerBoth(x', y');
    TokenStops(x', [SLASH] + y');
    assert ([SLASH] + y')[1..] == y';
    TokenAlone(y');
    NoTrim(m);
  }

  /** FormatMediaType of a type and parameters it accepts. */
  function Format(t: seq<byte>, attrs: seq<Key>, param: map<Key, Value>): (r: seq<byte>)
    requires forall i :: 0 <= i < |attrs| ==> attrs[i] in param
  {
    ToLower(t) + FormatParams(attrs, param)
  }

  /** Parsing what was printed gives the type, in lower case, and the parameters back,
      whatever bytes their values hold. */
  lemma RoundTrip(t: seq<byte>, attrs: seq<Key>, param: map<Key, Value>)
    requires TypeOk(t)
    requires (forall k: Key :: k in attrs <==> k in param) && Distinct(attrs)
    requires forall i :: 0 <= i < |attrs| ==> GoodKey(attrs[i])
    ensures Parse(Format(t, attrs, param)) == Parsed(ToLower(t), param)
  {
    hide GoodKey, Stitch, Filled, ParseParams, FormatParams, ToLower, TypeOk, DispositionOk, TrimSpace;
    var m, rest := ToLower(t), FormatParams(attrs, param);
    TypeRound(t);
    FormatStarts(attrs, param);
    SplitAt(m, rest);
    assert rest + [] == rest;
    ListRound(attrs, param, Pieces(map[], map[]), []);
    NothingEnds(Filled(attrs, param, Pieces(map[], map[])));
    StitchRound(attrs, param);
  }

  /** A trailing semicolon, which the parser means to ignore, costs every parameter
      that was percent-encoded: the rest comes back if and only if there is none. */
  lemma TrailingSemicolon(t: seq<byte>, attrs: seq<Key>, param: map<Key, Value>)
    requires TypeOk(t)
    requires (forall k: Key :: k in attrs <==> k in param) && Distinct(attrs)
    requires forall i :: 0 <= i < |attrs| ==> GoodKey(attrs[i])
    ensures Parse(Format(t, attrs, param) + [SEMI]) ==
            Parsed(ToLower(t), map k: Key | k in param && !NeedsEncoding(param[k]) :: param[k])
    ensures Parse(Format(t, attrs, param) + [SEMI]) == Parse(Format(t, attrs, param)) <==>
            forall k: Key :: k in param ==> !NeedsEncoding(param[k])
  {
    hide GoodKey, Stitch, Filled, ParseParams, FormatParams, ToLower, TypeOk, DispositionOk, TrimSpace, NeedsEncoding;
    var m, rest := ToLower(t), FormatParams(attrs, param) + [SEMI];
    TypeRound(t);
    FormatStarts(attrs, param);
    SplitAt(m, rest);
    AppendThree(m, FormatParams(attrs, param), [SEMI]);
    ListRound(attrs, param, Pieces(map[], map[]), [SEMI]);
    SemiEnds(Filled(attrs, param, Pieces(map[], map[])));
    PlainOnes(attrs, param);
    RoundTrip(t, attrs, param);
    if k :| k in param && NeedsEncoding(param[k]) {
      assert k !in Parse(Format(t, attrs, param) + [SEMI]).params;
    } else {
      assert (map k: Key | k in param && !NeedsEncoding(param[k]) :: param[k]) == param;
    }
  }

  // A semicolon after any text

  lemma {:induction false} TrimMore(x: seq<byte>)
    ensures TrimLeft(x + [SEMI]) == TrimLeft(x) + [SEMI]
  {
    if x == [] {
      assert x + [SEMI] == [SEMI];
    } else if Blank(x[0]) {
      TrimMore(x[1..]);
      assert (x + [SEMI])[1..] == x[1..] + [SEMI];
    }
  }

  lemma {:induction false} UnquoteMore(s: seq<byte>, more: seq<byte>)
    requires Unquote(s).Some?
    ensures Unquote(s + more) == Some((Unquote(s).value.0, Unquote(s).value.1 + more))
  {
    if s[0] == QUOTE {
      assert (s + more)[1..] == s[1..] + more;
    } else if s[0] == BACKSLASH && |s| > 1 && TSpecial(s[1]) {
      UnquoteMore(s[2..], more);
      assert (s + more)[2..] == s[2..] + more;
    } else {
      UnquoteMore(s[1..], more);
      assert (s + more)[1..] == s[1..] + more;
      if s[0] == BACKSLASH {
        assert |s| > 1;
      }
    }
  }

  lemma TokenMore(v: seq<byte>)
    ensures ConsumeToken(v + [SEMI]) == (ConsumeToken(v).0, ConsumeToken(v).1 + [SEMI])
  {
    var (tok, rest) := ConsumeToken(v);
    TokenStops(tok, rest + [SEMI]);
    AppendThree(tok, rest, [SEMI]);
  }

  lemma ValueMore(v: seq<byte>)
    requires v != [] && ConsumeValue(v) != ([], v)
    ensures ConsumeValue(v + [SEMI]) == (ConsumeValue(v).0, ConsumeValue(v).1 + [SEMI])
  {
    hide ConsumeToken, Unquote;
    if v[0] == QUOTE {
      UnquoteMore(v[1..], [SEMI]);
      assert (v + [SEMI])[1..] == v[1..] + [SEMI];
    } else {
      TokenMore(v);
    }
  }

  lemma AfterFirst(v: seq<byte>)
    requires v != []
    ensures TrimLeft((v + [SEMI])[1..]) == TrimLeft(v[1..]) + [SEMI] && (v + [SEMI])[0] == v[0]
  {
    TrimMore(v[1..]);
    assert (v + [SEMI])[1..] == v[1..] + [SEMI];
  }

  lemma ParamMore(v: seq<byte>)
    requires ConsumeMediaParam(v).0 != []
    ensures var (key, value, rest) := ConsumeMediaParam(v);
      ConsumeMediaParam(v + [SEMI]) == (key, value, rest + [SEMI])
  {
    hide TrimLeft, ConsumeToken, ConsumeValue, ToLower;
    TrimMore(v);
    var r0 := TrimLeft(v);
    AfterFirst(r0);
    TokenMore(TrimLeft(r0[1..]));
    var r1 := ConsumeToken(TrimLeft(r0[1..])).1;
    TrimMore(r1);
    var r2 := TrimLeft(r1);
    AfterFirst(r2);
    var r3 := TrimLeft(r2[1..]);
    NoValue();
    ValueMore(r3);
    SameTail(ConsumeValue(r3).1, r3);
  }

  lemma NoValue()
    ensures ConsumeValue([]) == ([], [])
  {
  }

  lemma SameTail(a: seq<byte>, b: seq<byte>)
    ensures a + [SEMI] == b + [SEMI] <==> a == b
  {
    if a + [SEMI] == b + [SEMI] {
      assert a == (a + [SEMI])[..|a|] && b == (b + [SEMI])[..|b|];
    }
  }

  lemma {:induction false} ListMore(u: seq<byte>, p: Pieces)
    requires ParseParams(u, p).Ended?
    ensures ParseParams(u + [SEMI], p) == Trailing(ParseParams(u, p).p)
    decreases |u|
  {
    hide TrimLeft, ConsumeMediaParam, Put, Has;
    var v := TrimLeft(u);
    TrimMore(u);
    SemiEnds(p);
    if v == [] {
      assert v + [SEMI] == [SEMI];
      TrimSemi();
    } else {
      var (key, value, rest) := ConsumeMediaParam(v);
      ParamMore(v);
      ListMore(rest, Put(p, key, value));
    }
  }

  lemma TrimSemi()
    ensures TrimLeft([SEMI]) == [SEMI]
  {
  }

  /** A semicolon after any text whose parameters are read to the end makes the parser
      return the plain parameters only: whatever would have been put together, encoded
      or in parts, is gone. */
  lemma SemicolonAfter(v: seq<byte>)
    requires DispositionOk(TypeOf(v)) && ParseParams(v[TypeEnd(v)..], Pieces(map[], map[])).Ended?
    ensures var p := ParseParams(v[TypeEnd(v)..], Pieces(map[], map[])).p;
      && Parse(v) == Parsed(TypeOf(v), Stitch(p))
      && Parse(v + [SEMI]) == Parsed(TypeOf(v), p.params)
      && (Parse(v + [SEMI]) == Parse(v) <==> Stitch(p) == p.params)
  {
    hide DispositionOk, TypeOf, TypeEnd, ParseParams, Stitch;
    FirstSemi(v);
    ListMore(v[TypeEnd(v)..], Pieces(map[], map[]));
  }

  lemma FirstSemi(v: seq<byte>)
    ensures TypeEnd(v + [SEMI]) == TypeEnd(v) && TypeOf(v + [SEMI]) == TypeOf(v)
    ensures (v + [SEMI])[TypeEnd(v)..] == v[TypeEnd(v)..] + [SEMI]
  {
    hide IndexByte, TrimSpace, ToLower;
    var n := TypeEnd(v);
    TakeOfAppend(v, [SEMI], 0, n);
    DropOfAppend(v, [SEMI], n);
    assert v[..|v|] == v;
    IndexUnique(v + [SEMI], SEMI, n);
  }

  lemma PlainOnes(attrs: seq<Key>, param: map<Key, Value>)
    requires (forall k: Key :: k in attrs <==> k in param) && Distinct(attrs)
    requires forall i :: 0 <= i < |attrs| ==> GoodKey(attrs[i])
    ensures Filled(attrs, param, Pieces(map[], map[])).params ==
            map k: Key | k in param && !NeedsEncoding(param[k]) :: param[k]
  {
    hide Filled, GoodKey, NeedsEncoding;
    var p := Filled(attrs, param, Pieces(map[], map[]));
    forall k: Key
      ensures k in p.params <==> k in param && !NeedsEncoding(param[k])
      ensures k in p.params ==> p.params[k] == param[k]
    {
      FilledIs(attrs, param, Pieces(map[], map[]), k);
    }
  }

  lemma SplitAt(m: seq<byte>, rest: seq<byte>)
    requires SEMI !in m && EndOrSemi(rest)
    ensures TypeEnd(m + rest) == |m| && (m + rest)[..|m|] == m && (m + rest)[|m|..] == rest
  {
    DropHead(m, rest);
    if rest == [] {
      assert m + rest == m;
    } else {
      IndexUnique(m + rest, SEMI, |m|);
    }
  }

  // The loops of the printer

  lemma {:induction false} PercentSnoc(s: Value, c: byte)
    ensures Percent(s + [c]) == Percent(s) + PercentByte(c)
  {
    hide PercentByte;
    if s == [] {
      assert s + [c] == [c] && [c][1..] == [] && PercentByte(c) + [] == [] + PercentByte(c);
    } else {
      PercentSnoc(s[1..], c);
      assert (s + [c])[1..] == s[1..] + [c];
      AppendThree(PercentByte(s[0]), Percent(s[1..]), PercentByte(c));
    }
  }

  lemma {:induction false} QuotedSnoc(s: Value, c: byte)
    ensures Quoted(s + [c]) == Quoted(s) + QuoteByte(c)
  {
    hide QuoteByte;
    if s == [] {
      assert s + [c] == [c] && [c][1..] == [] && QuoteByte(c) + [] == [] + QuoteByte(c);
    } else {
      QuotedSnoc(s[1..], c);
      assert (s + [c])[1..] == s[1..] + [c];
      AppendThree(QuoteByte(s[0]), Quoted(s[1..]), QuoteByte(c));
    }
  }

  lemma TakeOneMore(s: Value, i: nat, offset: nat)
    requires offset <= i < |s|
    ensures s[..i + 1] == s[..i] + [s[i]] && s[offset..i + 1] == s[offset..i] + [s[i]]
  {
  }

  /** Runs of plain bytes are written in one piece. */
  method WritePercent(value: Value) returns (out: seq<byte>)
    ensures out == Percent(value)
  {
    hide Percent, HexDigit;
    out := [];
    var offset := 0;
    EmptyTexts();
    for index := 0 to |value|
      invariant 0 <= offset <= index && out + value[offset..index] == Percent(value[..index])
    {
      var ch := value[index];
      TakeOneMore(value, index, offset);
      PercentSnoc(value[..index], ch);
      if !AttributeChar(ch) {
        out := out + value[offset..index] + [PERCENT, HexDigit(ch / 16), HexDigit(ch % 16)];
        offset := index + 1;
        assert value[offset..index + 1] == [];
      } else {
        AppendThree(out, value[offset..index], [ch]);
      }
    }
    assert value[..|value|] == value;
    out := out + value[offset..];
  }

  lemma EmptyTexts()
    ensures Percent([]) == [] && Quoted([]) == []
  {
  }

  method WriteQuoted(value: Value) returns (out: seq<byte>)
    ensures out == Quoted(value)
  {
    hide Quoted;
    out := [];
    var offset := 0;
    EmptyTexts();
    for index := 0 to |value|
      invariant 0 <= offset <= index && out + value[offset..index] == Quoted(value[..index])
    {
      var character := value[index];
      TakeOneMore(value, index, offset);
      QuotedSnoc(value[..index], character);
      AppendThree(out, value[offset..index], [character]);
      if character == QUOTE || character == BACKSLASH {
        out := out + value[offset..index] + [BACKSLASH];
        offset := index;
        assert out + value[offset..index + 1] == Quoted(value[..index]) + [BACKSLASH, character];
      }
    }
    assert value[..|value|] == value;
    out := out + value[offset..];
  }

  /** The keys are collected in any order and sorted. */
  method SortKeys(keys: set<Key>) returns (attrs: seq<Key>)
    ensures attrs == InOrder(keys)
  {
    hide Sorted, Insert, InOrder;
    attrs := [];
    NoKeys();
    var left := keys;
    while left != {}
      invariant Sorted(attrs) && left <= keys && (forall k: Key :: k in attrs <==> k in keys - left)
      decreases left
    {
      var k :| k in left;
      InsertSorted(attrs, k);
      attrs := Insert(attrs, k);
      left := left - {k};
    }
    SortedUnique(attrs, InOrder(keys));
  }

  lemma NoKeys()
    ensures Sorted([])
  {
  }

  lemma SortedDistinct(attrs: seq<Key>)
    requires Sorted(attrs)
    ensures Distinct(attrs)
  {
    forall i, j | 0 <= i < j < |attrs|
      ensures attrs[i] != attrs[j]
    {
      LessTotal(attrs[i], attrs[j]);
    }
  }

  /** The law that formatting is for, with the keys in order. */
  lemma RoundTripInOrder(t: seq<byte>, param: map<Key, Value>)
    requires TypeOk(t) && forall k: Key :: k in param ==> GoodKey(k)
    ensures Parse(Format(t, InOrder(param.Keys), param)) == Parsed(ToLower(t), param)
    ensures forall k: Key :: k in param ==> IsToken(k)
  {
    hide Parse, Sorted, InOrder, Distinct;
    SortedDistinct(InOrder(param.Keys));
    RoundTrip(t, InOrder(param.Keys), param);
  }

  /** The type in lower case, if it is one. */
  method FormatType(t: seq<byte>) returns (out: Option<seq<byte>>)
    ensures out == if TypeOk(t) then Some(ToLower(t)) else None
  {
    hide IsToken, ToLower;
    var slash := IndexByte(t, SLASH);
    if slash < 0 {
      return if IsToken(t) then Some(ToLower(t)) else None;
    }
    var major, sub := t[..slash], t[slash + 1..];
    if !IsToken(major) || !IsToken(sub) {
      return None;
    }
    LowerParts(t, slash);
    return Some(ToLower(major) + [SLASH] + ToLower(sub));
  }

  /** The whole text with the parameters in order, or nothing if the type or a name is
      not a token. Parsing gives type and parameters back. */
  method FormatMediaType(t: seq<byte>, param: map<Key, Value>) returns (out: seq<byte>)
    ensures out == if TypeOk(t) && (forall k: Key :: k in param ==> IsToken(k))
                   then Format(t, InOrder(param.Keys), param) else []
    ensures TypeOk(t) && (forall k: Key :: k in param ==> GoodKey(k)) ==> Parse(out) == Parsed(ToLower(t), param)
  {
    hide IsToken, ToLower, TypeOk, Parse, InOrder, GoodKey, FormatParam;
    if TypeOk(t) && forall k: Key :: k in param ==> GoodKey(k) {
      RoundTripInOrder(t, param);
    }
    var typ := FormatType(t);
    if typ == None {
      return [];
    }
    var attrs := SortKeys(param.Keys);
    var text := FormatAll(attrs, param);
    TokensInOrder(attrs, param);
    return if text == None then [] else typ.value + text.value;
  }

  lemma TokensInOrder(attrs: seq<Key>, param: map<Key, Value>)
    requires attrs == InOrder(param.Keys)
    ensures (forall i :: 0 <= i < |attrs| ==> IsToken(attrs[i])) <==> (forall k: Key :: k in param ==> IsToken(k))
  {
    hide IsToken, InOrder;
    assert forall i :: 0 <= i < |attrs| ==> attrs[i] in attrs;
  }

  /** All the parameters, if their names are tokens. */
  method FormatAll(attrs: seq<Key>, param: map<Key, Value>) returns (out: Option<seq<byte>>)
    requires forall i :: 0 <= i < |attrs| ==> attrs[i] in param
    ensures out == if forall i :: 0 <= i < |attrs| ==> IsToken(attrs[i]) then Some(FormatParams(attrs, param)) else None
  {
    hide IsToken, FormatParam;
    var text: seq<byte> := [];
    assert attrs[0..] == attrs;
    for i := 0 to |attrs|
      invariant forall j :: 0 <= j < i ==> IsToken(attrs[j])
      invariant FormatParams(attrs, param) == text + FormatParams(attrs[i..], param)
    {
      var attribute := attrs[i];
      if !IsToken(attribute) {
        return None;
      }
      var piece := WriteParam(attribute, param[attribute]);
      AppendThree(text, piece, FormatParams(attrs[i + 1..], param));
      assert attrs[i..][1..] == attrs[i + 1..];
      text := text + piece;
    }
    assert attrs[|attrs|..] == [] && text + [] == text;
    return Some(text);
  }

  lemma LowerParts(t: seq<byte>, slash: nat)
    requires slash < |t| && t[slash] == SLASH
    ensures ToLower(t) == ToLower(t[..slash]) + [SLASH] + ToLower(t[slash + 1..])
  {
  }

  method WriteParam(attribute: Key, value: Value) returns (out: seq<byte>)
    ensures out == FormatParam(attribute, value)
  {
    hide IsToken, ToLower, NeedsEncoding, Percent, Quoted;
    var needEnc := NeedsEncoding(value);
    var body := value;
    if needEnc {
      var coded := WritePercent(value);
      body := PREFIX + coded;
    } else if !IsToken(value) {
      var quoted := WriteQuoted(value);
      body := [QUOTE] + quoted + [QUOTE];
    }
    out := [SEMI, SPACE] + ToLower(attribute) + ((if needEnc then [STAR] else []) + [EQUALS] + body);
  }

  // The loops of the parser

  predicate WellEscaped(s: seq<byte>) {
    s == [] || if s[0] != PERCENT then WellEscaped(s[1..])
               else |s| >= 3 && IsHex(s[1]) && IsHex(s[2]) && WellEscaped(s[3..])
  }

  function Percents(s: seq<byte>): (n: nat)
    requires WellEscaped(s)
    ensures 2 * n <= |s|
  {
    if s == [] then 0 else if s[0] != PERCENT then Percents(s[1..]) else 1 + Percents(s[3..])
  }

  lemma {:induction false} EscapesAre(s: seq<byte>)
    ensures PercentHexUnescape(s).Some? <==> WellEscaped(s)
    ensures WellEscaped(s) ==> |PercentHexUnescape(s).value| == |s| - 2 * Percents(s)
    ensures WellEscaped(s) && Percents(s) == 0 ==> PercentHexUnescape(s) == Some(s)
  {
    if s != [] {
      if s[0] != PERCENT {
        EscapesAre(s[1..]);
        assert [s[0]] + s[1..] == s;
      } else if |s| >= 3 {
        EscapesAre(s[3..]);
      }
    }
  }

  /** The first loop counts the escapes and checks them. */
  method CountPercents(s: seq<byte>) returns (percents: int)
    ensures if WellEscaped(s) then percents == Percents(s) else percents == -1
  {
    percents := 0;
    var i := 0;
    while i < |s|
      invariant 0 <= i <= |s| && 0 <= percents && (WellEscaped(s) <==> WellEscaped(s[i..]))
      invariant WellEscaped(s) ==> percents + Percents(s[i..]) == Percents(s)
    {
      if s[i] != PERCENT {
        SliceOfSlice(s, i, 1, 1);
        i := i + 1;
        continue;
      }
      percents := percents + 1;
      if i + 2 >= |s| || !IsHex(s[i + 1]) || !IsHex(s[i + 2]) {
        return -1;
      }
      SliceOfSlice(s, i, 3, 3);
      i := i + 3;
    }
    assert s[|s|..] == [];
  }

  /** The second loop fills an array of just the right length. */
  method Unescape(s: seq<byte>) returns (r: Option<Value>)
    ensures r == PercentHexUnescape(s)
  {
    hide PercentHexUnescape, Percents, WellEscaped;
    EscapesAre(s);
    var percents := CountPercents(s);
    if percents < 0 {
      return None;
    }
    if percents == 0 {
      return Some(s);
    }
    var t := new byte[|s| - 2 * percents];
    var j, i := 0, 0;
    ghost var all := PercentHexUnescape(s).value;
    assert s[0..] == s && t[0..0] + all == all;
    while i < |s|
      invariant 0 <= i <= |s| && 0 <= j <= t.Length
      invariant PercentHexUnescape(s[i..]).Some? && t[0..j] + PercentHexUnescape(s[i..]).value == all
    {
      ghost var had, left := t[0..j], s[i..];
      UnescapeOne(left);
      var n, c := 1, s[i];
      if s[i] == PERCENT {
        n, c := 3, Unhex(s[i + 1]) * 16 + Unhex(s[i + 2]);
      }
      SliceOfSlice(s, i, n, |s| - i);
      AppendThree(had, [c], PercentHexUnescape(s[i + n..]).value);
      assert |had + [c]| <= |all|;
      t[j] := c;
      assert t[0..j + 1] == had + [c];
      j := j + 1;
      i := i + n;
    }
    assert s[|s|..] == [];
    NothingEscaped();
    assert t[..] == t[0..j] == t[0..j] + [];
    return Some(t[..]);
  }

  lemma NothingEscaped()
    ensures PercentHexUnescape([]) == Some([])
  {
  }

  lemma UnescapeOne(s: seq<byte>)
    requires s != [] && PercentHexUnescape(s).Some?
    ensures if s[0] != PERCENT then
              && PercentHexUnescape(s[1..]).Some?
              && PercentHexUnescape(s).value == [s[0]] + PercentHexUnescape(s[1..]).value
            else
              && |s| >= 3 && PercentHexUnescape(s[3..]).Some?
              && PercentHexUnescape(s).value == [Unhex(s[1]) * 16 + Unhex(s[2])] + PercentHexUnescape(s[3..]).value
  {
  }

  function After(b: Value, r: Option<(Value, seq<byte>)>): (v: Option<(Value, seq<byte>)>) {
    match r
    case None => None
    case Some(x) => Some((b + x.0, x.1))
  }

  /** A token or a quoted string. */
  method ReadValue(v: seq<byte>) returns (value: Value, rest: seq<byte>)
    ensures (value, rest) == ConsumeValue(v)
  {
    hide Unquote, ConsumeToken;
    if v == [] {
      return [], [];
    }
    if v[0] != QUOTE {
      var r := ConsumeToken(v);
      return r.0, r.1;
    }
    var buffer: Value := [];
    var i := 1;
    AfterNothing(Unquote(v[1..]));
    while i < |v|
      invariant 1 <= i <= |v| && Unquote(v[1..]) == After(buffer, Unquote(v[i..]))
    {
      var r := v[i];
      UnquoteStep(v[i..], buffer);
      SliceOfSlice(v, i, 1, |v| - i);
      if r == QUOTE {
        return buffer, v[i + 1..];
      }
      if r == BACKSLASH && i + 1 < |v| && TSpecial(v[i + 1]) {
        SliceOfSlice(v, i, 2, |v| - i);
        buffer := buffer + [v[i + 1]];
        i := i + 2;
        continue;
      }
      if r == CR || r == NL {
        return [], v;
      }
      buffer := buffer + [r];
      i := i + 1;
    }
    assert v[|v|..] == [];
    NoQuote();
    return [], v;
  }

  lemma NoQuote()
    ensures Unquote([]) == None
  {
  }

  lemma AfterNothing(r: Option<(Value, seq<byte>)>)
    ensures After([], r) == r
  {
    if r.Some? {
      assert [] + r.value.0 == r.value.0;
    }
  }

  lemma AfterPrepend(b: Value, c: byte, r: Option<(Value, seq<byte>)>)
    ensures After(b, Prepend(c, r)) == After(b + [c], r)
  {
    if r.Some? {
      AppendThree(b, [c], r.value.0);
    }
  }

  lemma UnquoteStep(s: seq<byte>, b: Value)
    requires s != []
    ensures After(b, Unquote(s)) ==
            if s[0] == QUOTE then Some((b, s[1..]))
            else if s[0] == BACKSLASH && |s| > 1 && TSpecial(s[1]) then After(b + [s[1]], Unquote(s[2..]))
            else if s[0] == CR || s[0] == NL then None
            else After(b + [s[0]], Unquote(s[1..]))
  {
    assert b + [] == b;
    AfterPrepend(b, s[0], Unquote(s[1..]));
    if |s| > 1 {
      AfterPrepend(b, s[1], Unquote(s[2..]));
    }
  }

  /** Joins the parts of a value. */
  method JoinParts(key: Key, pieces: map<Key, Value>) returns (r: Option<Value>)
    requires key + [STAR] !in pieces
    ensures r == Joined(key, pieces)
  {
    hide Collect, Decimal;
    var buf: Value := [];
    var valid, n := false, 0;
    while true
      invariant n >= 0 && (valid <==> n > 0) && (valid ==> PartValue(key, pieces, 0).Some?)
      invariant buf + Collect(key, pieces, n) == Collect(key, pieces, 0)
      decreases pieces.Keys - Names(key, n)
    {
      CollectStep(key, pieces, n);
      var v := PartValue(key, pieces, n);
      if v == None {
        assert buf + [] == buf;
        break;
      }
      NamesGrow(key, pieces, n);
      AppendThree(buf, v.value, Collect(key, pieces, n + 1));
      valid := true;
      buf := buf + v.value;
      n := n + 1;
    }
    return if valid then Some(buf) else None;
  }

  lemma CollectStep(key: Key, pieces: map<Key, Value>, n: nat)
    ensures Collect(key, pieces, n) ==
            match PartValue(key, pieces, n) { case None => [] case Some(v) => v + Collect(key, pieces, n + 1) }
  {
  }

  /** Puts the starred parameters together, in any order. */
  method StitchAll(p: Pieces) returns (params: map<Key, Value>)
    ensures params == Stitch(p)
  {
    hide Joined;
    params := p.params;
    var left := p.starred.Keys;
    while left != {}
      invariant left <= p.starred.Keys
      invariant forall k: Key :: k in params <==>
                  k in p.params || (k in p.starred && k !in left && Joined(k, p.starred[k]).Some?)
      invariant forall k: Key :: k in params ==>
                  params[k] == (if k in p.starred && k !in left && Joined(k, p.starred[k]).Some?
                                then Joined(k, p.starred[k]).value else p.params[k])
      decreases left
    {
      var key :| key in left;
      var r := JoinOne(key, p.starred[key]);
      if r.Some? {
        params := params[key := r.value];
      }
      left := left - {key};
    }
  }

  method JoinOne(key: Key, pieces: map<Key, Value>) returns (r: Option<Value>)
    ensures r == Joined(key, pieces)
  {
    hide Decode2231Enc;
    if key + [STAR] in pieces {
      return Decode2231Enc(pieces[key + [STAR]]);
    }
    r := JoinParts(key, pieces);
  }

  method ParseMediaType(v: seq<byte>) returns (r: Result)
    ensures r == Parse(v)
  {
    hide ConsumeMediaParam, Put, Has, Stitch, DispositionOk, TrimSpace, ToLower;
    var i := IndexByte(v, SEMI);
    if i < 0 {
      i := |v|;
    }
    var mediatype := TrimSpace(ToLower(v[..i]));
    if !DispositionOk(mediatype) {
      return InvalidType;
    }
    var p := Pieces(map[], map[]);
    var u := v[i..];
    while |u| > 0
      invariant ParseParams(v[i..], Pieces(map[], map[])) == ParseParams(u, p)
      decreases |u|
    {
      u := TrimLeft(u);
      if |u| == 0 {
        break;
      }
      var (key, value, rest) := ConsumeMediaParam(u);
      if key == [] {
        if TrimSpace(rest) == [SEMI] {
          return Parsed(mediatype, p.params);
        }
        return InvalidParameter(mediatype);
      }
      if Has(p, key) {
        return DuplicateParameter;
      }
      p := Put(p, key, value);
      u := rest;
    }
    var params := StitchAll(p);
    return Parsed(mediatype, params);
  }
}
