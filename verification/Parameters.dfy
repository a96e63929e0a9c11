/** The parameters of a media type as they may stand in a header: with white space and
    letter case at will, each value a token or a quoted string. */
module Parameters {
  import opened Common
  import opened SortedKeys
  import opened TextLines
  import opened MediaType

  // Quoted strings

  /** A byte of a quoted string, as it is or after a backslash. */
  datatype Unit = Bare(c: byte) | Escaped(c: byte) {
    function Spelled(): (r: seq<byte>) { if Escaped? then [BACKSLASH, c] else [c] }
  }

  function Spelling(us: seq<Unit>): (r: seq<byte>) {
    if us == [] then [] else us[0].Spelled() + Spelling(us[1..])
  }

  function Said(us: seq<Unit>): (r: Value) { if us == [] then [] else [us[0].c] + Said(us[1..]) }

  /** Only a special character can be escaped. A backslash that is not before one stands
      for itself. */
  predicate UnitOk(u: Unit, next: seq<byte>) {
    match u
    case Escaped(c) => TSpecial(c)
    case Bare(c) => c != QUOTE && c != CR && c != NL && (c == BACKSLASH && next != [] ==> !TSpecial(next[0]))
  }

  predicate UnitsOk(us: seq<Unit>, end: seq<byte>) {
    us == [] || (UnitOk(us[0], Spelling(us[1..]) + end) && UnitsOk(us[1..], end))
  }

  lemma UnitReads(u: Unit, next: seq<byte>)
    requires UnitOk(u, next)
    ensures Unquote(u.Spelled() + next) == Prepend(u.c, Unquote(next))
  {
    DropHead(u.Spelled(), next);
  }

  /** A quoted string says what its bytes say, up to the first quote that is not escaped. */
  lemma {:induction false} UnitsRead(us: seq<Unit>, end: seq<byte>)
    requires UnitsOk(us, end)
    requires end == [] || end[0] in {QUOTE, CR, NL}
    ensures Unquote(Spelling(us) + end) ==
            if end != [] && end[0] == QUOTE then Some((Said(us), end[1..])) else None
  {
    hide Unquote, UnitOk;
    if us == [] {
      assert [] + end == end;
      EndReads(end);
    } else {
      UnitsRead(us[1..], end);
      UnitReads(us[0], Spelling(us[1..]) + end);
      assert us[0].Spelled() + Spelling(us[1..]) + end == us[0].Spelled() + (Spelling(us[1..]) + end);
    }
  }

  lemma EndReads(end: seq<byte>)
    requires end == [] || end[0] in {QUOTE, CR, NL}
    ensures Unquote(end) == if end != [] && end[0] == QUOTE then Some(([], end[1..])) else None
  {
  }

  /** What follows the closing quote does not matter. */
  lemma {:induction false} UnitsClosed(us: seq<Unit>, rest: seq<byte>)
    requires UnitsOk(us, [QUOTE])
    ensures UnitsOk(us, [QUOTE] + rest)
  {
    if us != [] {
      UnitsClosed(us[1..], rest);
      assert Spelling(us[1..]) + ([QUOTE] + rest) == Spelling(us[1..]) + [QUOTE] + rest;
    }
  }

  /** Every text is such bytes up to a quote, a line break or its end. */
  lemma {:induction false} Units(s: seq<byte>) returns (us: seq<Unit>, end: seq<byte>)
    ensures UnitsOk(us, end) && s == Spelling(us) + end && (end == [] || end[0] in {QUOTE, CR, NL})
    decreases |s|
  {
    if s == [] || s[0] in {QUOTE, CR, NL} {
      us, end := [], s;
      assert s == [] + s;
    } else {
      var u := if s[0] == BACKSLASH && |s| > 1 && TSpecial(s[1]) then Escaped(s[1]) else Bare(s[0]);
      var next := s[|u.Spelled()|..];
      assert s == u.Spelled() + next;
      us, end := Units(next);
      assert ([u] + us)[1..] == us;
      assert u.Spelled() + Spelling(us) + end == u.Spelled() + next;
      us := [u] + us;
    }
  }

  /** No quote closes the string before a line break or the end. */
  ghost predicate Unclosed(s: seq<byte>) {
    exists us, end :: UnitsOk(us, end) && s == Spelling(us) + end && (end == [] || end[0] in {CR, NL})
  }

  lemma UnclosedIs(s: seq<byte>)
    ensures Unclosed(s) <==> Unquote(s) == None
  {
    hide UnitsOk, Unquote, Spelling;
    if us, end :| UnitsOk(us, end) && s == Spelling(us) + end && (end == [] || end[0] in {CR, NL}) {
      UnitsRead(us, end);
    }
    var us, end := Units(s);
    UnitsRead(us, end);
  }

  // Parameters

  /** A parameter as it stands in a header: its name, in any case, and its value as a token
      or, byte by byte, as a quoted string, with white space wherever it may be. */
  datatype Entry = Entry(before: seq<byte>, after: seq<byte>, name: seq<byte>, left: seq<byte>, right: seq<byte>,
                         value: Value, quoted: Option<seq<Unit>>)

  predicate Blanks(s: seq<byte>) { forall i :: 0 <= i < |s| ==> Blank(s[i]) }

  predicate EntryOk(e: Entry) {
    && Blanks(e.before) && Blanks(e.after) && Blanks(e.left) && Blanks(e.right)
    && IsToken(e.name)
    && match e.quoted
       case None => IsToken(e.value)
       case Some(us) => UnitsOk(us, [QUOTE]) && Said(us) == e.value
  }

  function EntryBody(e: Entry): (r: seq<byte>) {
    match e.quoted
    case None => e.value
    case Some(us) => [QUOTE] + (Spelling(us) + [QUOTE])
  }

  /** The text from the name on, with what follows it. */
  function NameText(e: Entry, rest: seq<byte>): (r: seq<byte>) {
    e.name + (e.left + ([EQUALS] + (e.right + (EntryBody(e) + rest))))
  }

  function EntriesText(es: seq<Entry>, tail: seq<byte>): (r: seq<byte>) {
    if es == [] then tail
    else es[0].before + ([SEMI] + (es[0].after + NameText(es[0], EntriesText(es[1..], tail))))
  }

  // Reading the parameters

  lemma {:induction false} TrimBlanks(a: seq<byte>, s: seq<byte>)
    requires Blanks(a) && (s == [] || !Blank(s[0]))
    ensures TrimLeft(a + s) == s
  {
    if a == [] {
      assert a + s == s;
    } else {
      assert (a + s)[1..] == a[1..] + s;
      TrimBlanks(a[1..], s);
    }
  }

  /** What can follow a parameter. */
  predicate Stops(s: seq<byte>) { s == [] || !TokenChar(s[0]) }

  lemma BodyReads(e: Entry, rest: seq<byte>)
    requires EntryOk(e) && Stops(rest)
    ensures ConsumeValue(EntryBody(e) + rest) == (e.value, rest)
    ensures EntryBody(e) != [] && !Blank(EntryBody(e)[0])
  {
    hide ConsumeToken, Unquote, Spelling, UnitsOk, Said;
    match e.quoted
    case None =>
      TokenStops(e.value, rest);
      assert (e.value + rest)[0] == e.value[0];
    case Some(us) =>
      UnitsClosed(us, rest);
      UnitsRead(us, [QUOTE] + rest);
      var s := EntryBody(e) + rest;
      assert s[0] == QUOTE && s[1..] == Spelling(us) + ([QUOTE] + rest) && ([QUOTE] + rest)[1..] == rest;
  }

  lemma EntryReads(e: Entry, rest: seq<byte>)
    requires EntryOk(e) && Stops(rest)
    ensures ConsumeMediaParam([SEMI] + (e.after + NameText(e, rest))) == (ToLower(e.name), e.value, rest)
  {
    hide ConsumeValue, ConsumeToken, ToLower, EntryBody, TrimLeft;
    var r3 := EntryBody(e) + rest;
    var r1 := e.left + ([EQUALS] + (e.right + r3));
    BodyReads(e, rest);
    TrimBlanks([], [SEMI] + (e.after + (e.name + r1)));
    TrimBlanks(e.after, e.name + r1);
    TokenStops(e.name, r1);
    TrimBlanks(e.left, [EQUALS] + (e.right + r3));
    TrimBlanks(e.right, r3);
    DropHead([SEMI], e.after + (e.name + r1));
    DropHead([EQUALS], e.right + r3);
    assert [] + ([SEMI] + (e.after + (e.name + r1))) == [SEMI] + (e.after + (e.name + r1));
  }

  /** What the parser collects, up to the first name that comes twice. */
  function PutAll(es: seq<Entry>, p: Pieces): (r: Step)
    decreases |es|
  {
    if es == [] then Ended(p)
    else if Has(p, ToLower(es[0].name)) then Duplicate
    else PutAll(es[1..], Put(p, ToLower(es[0].name), es[0].value))
  }

  predicate EntriesOk(es: seq<Entry>) { forall i :: 0 <= i < |es| ==> EntryOk(es[i]) }

  lemma TextStops(es: seq<Entry>, tail: seq<byte>)
    requires EntriesOk(es) && Stops(tail)
    ensures Stops(EntriesText(es, tail))
  {
    hide NameText;
  }

  /** The parser reads exactly the names, in lower case, and the values, and goes on with
      what follows. */
  lemma {:induction false} EntriesRead(es: seq<Entry>, tail: seq<byte>, p: Pieces)
    requires EntriesOk(es) && Stops(tail)
    ensures ParseParams(EntriesText(es, tail), p) ==
            if PutAll(es, p).Ended? then ParseParams(tail, PutAll(es, p).p) else Duplicate
    decreases |es|
  {
    hide NameText, ConsumeMediaParam, Put, Has, TrimLeft, EntryOk, ToLower;
    if es == [] {
    } else {
      var e, rest := es[0], EntriesText(es[1..], tail);
      var u := [SEMI] + (e.after + NameText(e, rest));
      TextStops(es[1..], tail);
      assert EntryOk(e) && EntryOk(es[0]);
      EntryReads(e, rest);
      EntryBlank(e);
      TrimBlanks(e.before, u);
      TrimBlanks([], u);
      assert [] + u == u;
      if !Has(p, ToLower(e.name)) {
        EntriesRead(es[1..], tail, Put(p, ToLower(e.name), e.value));
      }
    }
  }

  lemma EntryBlank(e: Entry)
    requires EntryOk(e)
    ensures Blanks(e.before) && ToLower(e.name) != []
  {
  }

  // Names that come twice

  lemma HasAfter(p: Pieces, k: Key, v: Value, k': Key)
    ensures Has(Put(p, k, v), k') <==> Has(p, k') || k' == k
  {
    hide IndexByte;
    if k[..0] == k'[..0] && IndexByte(k, STAR) >= 0 && k == k' {
      assert Has(Put(p, k, v), k);
    }
  }

  lemma {:induction false} PutsDuplicate(es: seq<Entry>, p: Pieces)
    ensures PutAll(es, p).Ended? || PutAll(es, p) == Duplicate
    ensures PutAll(es, p) == Duplicate <==>
              (exists i :: 0 <= i < |es| && Has(p, ToLower(es[i].name)))
              || (exists i, j :: 0 <= i < j < |es| && ToLower(es[i].name) == ToLower(es[j].name))
    decreases |es|
  {
    hide Has, Put, ToLower;
    if es != [] && !Has(p, ToLower(es[0].name)) {
      var k, v, rest := ToLower(es[0].name), es[0].value, es[1..];
      PutsDuplicate(rest, Put(p, k, v));
      forall i | 0 <= i < |rest|
        ensures Has(Put(p, k, v), ToLower(rest[i].name)) <==>
                Has(p, ToLower(rest[i].name)) || ToLower(rest[i].name) == k
      {
        HasAfter(p, k, v, ToLower(rest[i].name));
      }
      if i :| 0 <= i < |es| && Has(p, ToLower(es[i].name)) {
        assert rest[i - 1] == es[i];
      }
      if i, j :| 0 <= i < j < |es| && ToLower(es[i].name) == ToLower(es[j].name) {
        assert rest[j - 1] == es[j];
        if i > 0 {
          assert rest[i - 1] == es[i];
        }
      }
    }
  }

  // The type

  lemma {:induction false} TrimRightBlanks(s: seq<byte>, b: seq<byte>)
    requires Blanks(b) && s != [] && !Blank(s[|s| - 1])
    ensures TrimRight(s + b) == s
    decreases |b|
  {
    if b == [] {
      assert s + b == s;
    } else {
      assert (s + b)[..|s + b| - 1] == s + b[..|b| - 1];
      TrimRightBlanks(s, b[..|b| - 1]);
    }
  }

  lemma LowerThree(a: seq<byte>, t: seq<byte>, b: seq<byte>)
    requires Blanks(a) && Blanks(b)
    ensures ToLower(a + (t + b)) == a + (ToLower(t) + b)
  {
  }

  lemma TypeEnds(t: seq<byte>)
    requires TypeOk(t)
    ensures t != [] && !Blank(t[0]) && !Blank(t[|t| - 1]) && SEMI !in t
  {
    var slash := IndexByte(t, SLASH);
    if slash >= 0 {
      assert t[..slash][0] == t[0] && t[slash + 1..][|t| - slash - 2] == t[|t| - 1];
      assert t == t[..slash] + [SLASH] + t[slash + 1..];
    }
  }

  lemma LowerEnds(t: seq<byte>)
    requires t != [] && !Blank(t[0]) && !Blank(t[|t| - 1]) && SEMI !in t
    ensures var m := ToLower(t); !Blank(m[0]) && !Blank(m[|m| - 1]) && SEMI !in m
  {
  }

  /** The type is read in lower case and without the white space around it. */
  lemma TypeReads(a: seq<byte>, t: seq<byte>, b: seq<byte>, rest: seq<byte>)
    requires TypeOk(t) && Blanks(a) && Blanks(b) && (rest == [] || rest[0] == SEMI)
    ensures var v := a + (t + b) + rest;
      TypeEnd(v) == |a + (t + b)| && v[TypeEnd(v)..] == rest && TypeOf(v) == ToLower(t) && DispositionOk(ToLower(t))
  {
    hide ToLower, TypeOk, DispositionOk, TrimRight;
    TypeEnds(t);
    TypeRound(t);
    NoSemi(a, t, b);
    SplitAt(a + (t + b), rest);
    LowerThree(a, t, b);
    LowerEnds(t);
    var m := ToLower(t);
    assert (m + b)[0] == m[0];
    TrimBlanks(a, m + b);
    TrimRightBlanks(m, b);
  }

  lemma NoSemi(a: seq<byte>, t: seq<byte>, b: seq<byte>)
    requires Blanks(a) && Blanks(b) && SEMI !in t
    ensures SEMI !in a + (t + b)
  {
  }

  lemma WholeToken(s: seq<byte>)
    ensures ConsumeToken(s).1 == [] <==> AllToken(s)
    ensures ConsumeToken(s).1 == [] ==> ConsumeToken(s).0 == s
  {
    if AllToken(s) {
      TokenStops(s, []);
      assert s + [] == s;
    }
  }

  /** A token that ends at a slash ends at the first one. */
  lemma EndsAtSlash(s: seq<byte>)
    ensures var n, slash := TokenEnd(s), IndexByte(s, SLASH);
      slash >= 0 ==> n <= slash && (n == slash <==> AllToken(s[..slash])) && (n < slash ==> s[n] != SLASH)
  {
    hide TokenEnd;
    var n, slash := TokenEnd(s), IndexByte(s, SLASH);
    if slash >= 0 {
      forall i | 0 <= i < n
        ensures TokenChar(s[i])
      {
        assert s[..n][i] == s[i];
      }
      if n < slash {
        assert s[..slash][n] == s[n];
      }
    }
  }

  /** The check of the type accepts exactly a token or two with a slash between them. */
  lemma TypeChecked(s: seq<byte>)
    ensures DispositionOk(s) <==> TypeOk(s)
  {
    hide IndexByte, TokenEnd;
    var n, slash := TokenEnd(s), IndexByte(s, SLASH);
    WholeToken(s);
    if slash < 0 {
      if n < |s| {
        assert s[n] in s;
      }
    } else {
      EndsAtSlash(s);
      assert s[slash] == SLASH;
      if n == slash {
        assert s[n..][1..] == s[slash + 1..];
        WholeToken(s[slash + 1..]);
      }
    }
  }

  // Whole headers

  /** A header is read as its type and its parameters, whatever the layout. It is refused
      as a duplicate if and only if two names differ at most in their case. */
  lemma HeaderReads(a: seq<byte>, t: seq<byte>, b: seq<byte>, es: seq<Entry>, tail: seq<byte>)
    requires TypeOk(t) && Blanks(a) && Blanks(b) && EntriesOk(es) && Blanks(tail)
    requires if es == [] then tail == [] else es[0].before == []
    ensures var v, s := a + (t + b) + EntriesText(es, tail), PutAll(es, Pieces(map[], map[]));
      && (s == Duplicate <==> exists i, j :: 0 <= i < j < |es| && ToLower(es[i].name) == ToLower(es[j].name))
      && Parse(v) == if s.Ended? then Parsed(ToLower(t), Stitch(s.p)) else DuplicateParameter
  {
    hide ParseParams, PutAll, TypeOk, DispositionOk, TypeOf, TypeEnd, ToLower, Stitch, NameText, EntryOk;
    var rest, none := EntriesText(es, tail), Pieces(map[], map[]);
    if es != [] {
      assert [] + ([SEMI] + (es[0].after + NameText(es[0], EntriesText(es[1..], tail)))) == rest;
    }
    TypeReads(a, t, b, rest);
    BlanksStop(tail);
    EntriesRead(es, tail, none);
    PutsDuplicate(es, none);
    NothingHas(es);
    if PutAll(es, none).Ended? {
      BlanksEnd(tail, PutAll(es, none).p);
    }
  }

  lemma BlanksStop(tail: seq<byte>)
    requires Blanks(tail)
    ensures Stops(tail)
  {
  }

  lemma BlanksEnd(tail: seq<byte>, p: Pieces)
    requires Blanks(tail)
    ensures ParseParams(tail, p) == Ended(p)
  {
    TrimBlanks(tail, []);
    assert tail + [] == tail;
  }

  lemma NothingHas(es: seq<Entry>)
    ensures forall i :: 0 <= i < |es| ==> !Has(Pieces(map[], map[]), ToLower(es[i].name))
  {
  }

  /** Anything else for a type is refused. */
  lemma BadType(v: seq<byte>)
    ensures Parse(v) == InvalidType <==> !TypeOk(TypeOf(v))
  {
    hide DispositionOk, TypeOf, TypeOk, ParseParams, Stitch;
    TypeChecked(TypeOf(v));
  }

  // Parameters that are none

  /** Something that does not begin with a semicolon. */
  lemma NotSemi(a: seq<byte>, x: seq<byte>, p: Pieces)
    requires Blanks(a) && x != [] && !Blank(x[0]) && x[0] != SEMI
    ensures ParseParams(a + x, p) == BadParam
  {
    hide TrimLeft, TrimRight;
    TrimBlanks(a, x);
    TrimBlanks([], x);
    assert [] + x == x;
    TrimKeeps(x);
  }

  lemma TrimKeeps(x: seq<byte>)
    requires x != [] && !Blank(x[0])
    ensures TrimSpace(x) != [] && TrimSpace(x)[0] == x[0]
    ensures |x| > 1 && (exists i :: 0 < i < |x| && !Blank(x[i])) ==> |TrimSpace(x)| > 1
  {
    TrimBlanks([], x);
    assert [] + x == x;
    RightKeeps(x);
  }

  lemma {:induction false} RightKeeps(x: seq<byte>)
    requires x != [] && !Blank(x[0])
    ensures TrimRight(x) != [] && TrimRight(x)[0] == x[0]
    ensures (exists i :: 0 < i < |x| && !Blank(x[i])) ==> |TrimRight(x)| > 1
  {
    var n := |x| - 1;
    if Blank(x[n]) {
      RightKeeps(x[..n]);
      if i :| 0 < i < |x| && !Blank(x[i]) {
        assert x[..n][i] == x[i];
      }
    }
  }

  /** No value begins here. */
  ghost predicate NoValue(w: seq<byte>) {
    w == [] || (!Blank(w[0]) && if w[0] == QUOTE then Unclosed(w[1..]) else !TokenChar(w[0]))
  }

  /** A semicolon with no name after it, but something else. */
  lemma NoName(a: seq<byte>, b: seq<byte>, y: seq<byte>, p: Pieces)
    requires Blanks(a) && Blanks(b) && y != [] && !Blank(y[0]) && !TokenChar(y[0])
    ensures ParseParams(a + ([SEMI] + (b + y)), p) == BadParam
  {
    hide TrimLeft, TrimRight, TokenEnd;
    var x := [SEMI] + (b + y);
    TrimBlanks(a, x);
    TrimBlanks([], x);
    TrimBlanks(b, y);
    DropHead([SEMI], b + y);
    assert [] + x == x && x[1 + |b|] == y[0];
    TrimKeeps(x);
    TokenStops([], y);
    assert [] + y == y;
  }

  /** A name without an equals sign. */
  lemma NoEquals(a: seq<byte>, b: seq<byte>, name: seq<byte>, c: seq<byte>, z: seq<byte>, p: Pieces)
    requires Blanks(a) && Blanks(b) && Blanks(c) && IsToken(name)
    requires z == [] || (!Blank(z[0]) && z[0] != EQUALS && (c == [] ==> !TokenChar(z[0])))
    ensures ParseParams(a + ([SEMI] + (b + (name + (c + z)))), p) == BadParam
  {
    hide TrimLeft, TrimRight, TokenEnd, ToLower;
    var x := [SEMI] + (b + (name + (c + z)));
    TrimBlanks(a, x);
    TrimBlanks([], x);
    TrimBlanks(b, name + (c + z));
    TrimBlanks(c, z);
    DropHead([SEMI], b + (name + (c + z)));
    assert [] + x == x && x[1 + |b|] == name[0];
    TrimKeeps(x);
    TokenStops(name, c + z);
  }

  /** An equals sign without a value. */
  lemma ValueMissing(a: seq<byte>, b: seq<byte>, name: seq<byte>, c: seq<byte>, d: seq<byte>, w: seq<byte>, p: Pieces)
    requires Blanks(a) && Blanks(b) && Blanks(c) && Blanks(d) && IsToken(name) && NoValue(w)
    ensures ParseParams(a + ([SEMI] + (b + (name + (c + ([EQUALS] + (d + w)))))), p) == BadParam
  {
    hide TrimLeft, TrimRight, TokenEnd, ToLower, Unquote, Unclosed;
    var z := [EQUALS] + (d + w);
    var x := [SEMI] + (b + (name + (c + z)));
    TrimBlanks(a, x);
    TrimBlanks([], x);
    TrimBlanks(b, name + (c + z));
    TrimBlanks(c, z);
    TrimBlanks(d, w);
    DropHead([SEMI], b + (name + (c + z)));
    DropHead([EQUALS], d + w);
    assert [] + x == x && x[1 + |b|] == name[0];
    TrimKeeps(x);
    TokenStops(name, c + z);
    if w != [] {
      if w[0] == QUOTE {
        UnclosedIs(w[1..]);
      } else {
        TokenStops([], w);
        assert [] + w == w;
      }
    }
  }

  /** After any parameters with different names such a text makes the parser give the type
      and an error. */
  lemma HeaderRefused(a: seq<byte>, t: seq<byte>, b: seq<byte>, es: seq<Entry>, tail: seq<byte>)
    requires TypeOk(t) && Blanks(a) && Blanks(b) && EntriesOk(es) && Stops(tail)
    requires if es == [] then tail != [] && tail[0] == SEMI else es[0].before == []
    requires forall i, j :: 0 <= i < j < |es| ==> ToLower(es[i].name) != ToLower(es[j].name)
    requires forall p :: ParseParams(tail, p) == BadParam
    ensures Parse(a + (t + b) + EntriesText(es, tail)) == InvalidParameter(ToLower(t))
  {
    hide ParseParams, PutAll, TypeOk, DispositionOk, TypeOf, TypeEnd, ToLower, Stitch, NameText, EntryOk;
    var rest, none := EntriesText(es, tail), Pieces(map[], map[]);
    if es != [] {
      assert [] + ([SEMI] + (es[0].after + NameText(es[0], EntriesText(es[1..], tail)))) == rest;
    }
    TypeReads(a, t, b, rest);
    EntriesRead(es, tail, none);
    PutsDuplicate(es, none);
    NothingHas(es);
  }
}
