/** Headers in which encoded-words stand among other text: what decoding makes of the
    words and of the gaps between them. */
module Headers {
  import opened Common
  import opened TextLines
  import opened Utf8
  import opened EncodedWord

  /** A word, in either encoding and with a letter of either case, and the text before it. */
  datatype Item = Item(gap: seq<byte>, charset: seq<byte>, letter: byte, content: seq<byte>)

  predicate Plain(s: seq<byte>) { IndexPair(s, EQ, QM) < 0 }

  predicate ItemOk(w: Item) { Plain(w.gap) && QM !in w.charset && w.letter in {66, 98, 81, 113} }

  function Content(w: Item): (r: seq<byte>) {
    Text(if w.letter == 66 || w.letter == 98 then B else Q, w.content)
  }

  function ItemHead(w: Item): (r: seq<byte>) { w.gap + ([EQ, QM] + (w.charset + [QM, w.letter, QM])) }

  /** The words with their gaps, and the text after the last one. */
  function HeaderText(items: seq<Item>, last: seq<byte>): (r: seq<byte>) {
    if items == [] then last
    else ItemHead(items[0]) + (Content(items[0]) + (CLOSE + HeaderText(items[1..], last)))
  }

  /** Nothing but spaces, tabs, carriage returns and newlines. */
  predicate White(s: seq<byte>) { forall c :: c in s ==> c == 32 || c == 9 || c == 13 || c == 10 }

  /** Each word stands for its content in UTF-8. A gap is kept as a whole, unless it is
      white and lies between two words. */
  function Spelled(items: seq<Item>, last: seq<byte>, between: bool): (r: Option<seq<byte>>)
    decreases |items|
  {
    if items == [] then Some(last)
    else
      var w := items[0];
      match Convert(w.charset, w.content)
      case None => None
      case Some(c) =>
        Append((if between && White(w.gap) then [] else w.gap) + c, Spelled(items[1..], last, true))
  }

  lemma ContentRound(w: Item)
    requires w.letter in {66, 98, 81, 113}
    ensures Decode(w.letter, Content(w)) == Some(w.content) && QM !in Content(w)
  {
    hide Text, Base64Decode, QDecode;
    TextRound(if w.letter == 66 || w.letter == 98 then B else Q, w.content);
  }

  lemma WhiteIs(s: seq<byte>)
    ensures NonWhite(s) <==> !White(s)
  {
    if !White(s) {
      var c :| c in s && c != 32 && c != 9 && c != 13 && c != 10;
      var i :| 0 <= i < |s| && s[i] == c;
      assert s[i] !in {32, 9, 10, 13};
    }
    if NonWhite(s) {
      var i :| 0 <= i < |s| && s[i] !in {32, 9, 10, 13};
      assert s[i] in s;
    }
  }

  lemma HeaderItem(w: Item, rest: seq<byte>, between: bool)
    requires ItemOk(w)
    ensures Header(ItemHead(w) + (Content(w) + (CLOSE + rest)), between) ==
            match Convert(w.charset, w.content)
            case None => None
            case Some(c) => Append((if between && White(w.gap) then [] else w.gap) + c, Header(rest, true))
  {
    hide Find, Decode, Convert, Content, NonWhite, White, IndexPair;
    var t := Content(w);
    ContentRound(w);
    NoPair(t, QM, EQ);
    FindParts(w.gap, w.charset, w.letter, t, rest);
    WhiteIs(w.gap);
    GapFirst(w, t + (CLOSE + rest));
    match Convert(w.charset, w.content)
    case None =>
    case Some(c) => assert [] + c == c;
  }

  lemma GapFirst(w: Item, more: seq<byte>)
    ensures var h := ItemHead(w) + more; |w.gap| <= |h| && h[..|w.gap|] == w.gap
  {
    assert ItemHead(w)[..|w.gap|] == w.gap;
  }

  lemma {:induction false} GapsRead(items: seq<Item>, last: seq<byte>, between: bool)
    requires (forall w :: w in items ==> ItemOk(w)) && Plain(last)
    ensures Header(HeaderText(items, last), between) == Spelled(items, last, between)
    decreases |items|
  {
    hide Header, ItemOk, Content, ItemHead, Convert, White, Plain;
    if items == [] {
      LastStays(last, between);
    } else {
      HeaderItem(items[0], HeaderText(items[1..], last), between);
      GapsRead(items[1..], last, true);
    }
  }

  lemma LastStays(last: seq<byte>, between: bool)
    requires Plain(last)
    ensures Header(last, between) == Some(last)
  {
    hide Decode, Convert;
  }

  /** Decoding a header of any words and gaps: the gaps before the first word and after
      the last are kept, and one between two words is kept whole or, if it is white,
      dropped. It fails if and only if a word is in an unknown character set. */
  lemma GapsRound(items: seq<Item>, last: seq<byte>)
    requires (forall w :: w in items ==> ItemOk(w)) && Plain(last)
    ensures DecodeHeader(HeaderText(items, last)) == Spelled(items, last, false)
    ensures DecodeHeader(HeaderText(items, last)) == None <==> exists w :: w in items && !Known(w.charset)
  {
    hide Header, HeaderText, Spelled, Known;
    FailsFor(items, last, false);
    GapsRead(items, last, false);
    HeaderStarts(HeaderText(items, last));
  }

  /** The text up to the first word is written before the rest is looked at. */
  lemma HeaderStarts(h: seq<byte>)
    ensures DecodeHeader(h) == Header(h, false)
  {
    hide Header, IndexPair, Find;
    var i := IndexPair(h, EQ, QM);
    if i < 0 {
      NothingFound(h);
      HeaderIs(h);
    } else {
      FindLater(h, i);
      if Find(h) == Nothing {
        HeaderIs(h);
        HeaderIs(h[i..]);
        assert h[..i] + h[i..] == h;
      } else {
        StartsAt(h, Find(h));
      }
    }
  }

  lemma StartsAt(h: seq<byte>, f: Found)
    requires f == Find(h) && f.At? && Find(h[f.start..]) == At(0, f.charset, f.encoding, f.text, f.end - f.start)
    ensures Append(h[..f.start], Header(h[f.start..], false)) == Header(h, false)
  {
    hide Header, Find, Append;
    var i, h' := f.start, h[f.start..];
    HeaderIs(h);
    HeaderIs(h');
    Rejoin(h, i, f.end);
    match Decode(f.encoding, f.text)
    case None => AppendTwice(h[..i], h'[..2], Header(h[i + 2..], false));
    case Some(content) =>
      match Convert(f.charset, content)
      case None => assert Append(h[..i], None) == None by { AppendNone(h[..i]); }
      case Some(c) =>
        assert h'[..0] + c == c;
        AppendTwice(h[..i], c, Header(h[f.end..], true));
  }

  lemma AppendNone(a: seq<byte>)
    ensures Append(a, None) == None
  {
  }

  lemma Rejoin(h: seq<byte>, i: nat, end: nat)
    requires i + 2 <= end <= |h|
    ensures h[i..][2..] == h[i + 2..] && h[i..][end - i..] == h[end..] && h[..i] + h[i..][..2] == h[..i + 2]
  {
  }

  lemma HeaderIs(h: seq<byte>)
    ensures var f := Find(h);
      Header(h, false) ==
      if f == Nothing then Some(h)
      else
        match Decode(f.encoding, f.text)
        case None => Append(h[..f.start + 2], Header(h[f.start + 2..], false))
        case Some(content) =>
          match Convert(f.charset, content)
          case None => None
          case Some(c) => Append(h[..f.start] + c, Header(h[f.end..], true))
  {
    hide Decode, Convert, Find;
    var f := Find(h);
    if f.At? && f.start == 0 && Decode(f.encoding, f.text).Some? {
      var c := Convert(f.charset, Decode(f.encoding, f.text).value);
      assert c.Some? ==> h[..0] + c.value == c.value;
    }
  }

  lemma NothingFound(h: seq<byte>)
    requires IndexPair(h, EQ, QM) < 0
    ensures Find(h) == Nothing
  {
  }

  lemma {:induction false} FailsFor(items: seq<Item>, last: seq<byte>, between: bool)
    ensures Spelled(items, last, between) == None <==> exists w :: w in items && !Known(w.charset)
    decreases |items|
  {
    hide White, Known;
    if items != [] {
      var w := items[0];
      FailsFor(items[1..], last, true);
      KnownConverts(w.charset, w.content);
      assert forall x :: x in items <==> x == w || x in items[1..];
    }
  }

  lemma KnownConverts(charset: seq<byte>, content: seq<byte>)
    ensures Convert(charset, content) == None <==> !Known(charset)
  {
  }

  // Any header

  /** What may be a word: two characters that open it, and after them a character set, a
      letter and a text. gap is what stands before it. */
  datatype Opening = Opening(gap: seq<byte>, charset: seq<byte>, letter: byte, text: seq<byte>)

  predicate Shaped(o: Opening) { Plain(o.gap) && QM !in o.charset && IndexPair(o.text, QM, EQ) < 0 }

  predicate Decodes(o: Opening) { Decode(o.letter, o.text).Some? }

  function Inside(o: Opening): (r: seq<byte>) { o.charset + ([QM, o.letter, QM] + (o.text + CLOSE)) }

  /** What does not decode is text like any other: what is inside it may open the next
      word. */
  function OpeningsText(os: seq<Opening>, last: seq<byte>): (r: seq<byte>) {
    if os == [] then last
    else
      var more := OpeningsText(os[1..], last);
      os[0].gap + ([EQ, QM] + if Decodes(os[0]) then Inside(os[0]) + more else more)
  }

  ghost predicate OpeningsOk(os: seq<Opening>, last: seq<byte>) {
    if os == [] then Unshaped(last)
    else
      && Shaped(os[0]) && (Decodes(os[0]) || Inside(os[0]) <= OpeningsText(os[1..], last))
      && OpeningsOk(os[1..], last)
  }

  /** No word begins where the first could, if any could. */
  ghost predicate Unshaped(last: seq<byte>) {
    forall o, more | Shaped(o) :: last != o.gap + ([EQ, QM] + (Inside(o) + more))
  }

  /** Words that decode stand for their content in UTF-8, and all other text for itself,
      but for white gaps between two words that decode. */
  function SpelledOut(os: seq<Opening>, last: seq<byte>, between: bool): (r: Option<seq<byte>>)
    decreases |os|
  {
    if os == [] then Some(last)
    else
      var o := os[0];
      match Decode(o.letter, o.text)
      case None => Append(o.gap + [EQ, QM], SpelledOut(os[1..], last, false))
      case Some(content) =>
        match Convert(o.charset, content)
        case None => None
        case Some(c) =>
          Append((if between && White(o.gap) then [] else o.gap) + c, SpelledOut(os[1..], last, true))
  }

  lemma ShapeFound(o: Opening, more: seq<byte>)
    requires Shaped(o)
    ensures var h := o.gap + ([EQ, QM] + (Inside(o) + more));
      && Find(h) == At(|o.gap|, o.charset, o.letter, o.text, |o.gap| + 2 + |Inside(o)|)
      && Find(h).end <= |h| && h[Find(h).end..] == more
      && h[..|o.gap|] == o.gap && h[..|o.gap| + 2] == o.gap + [EQ, QM] && h[|o.gap| + 2..] == Inside(o) + more
  {
    hide Find, IndexPair;
    FindParts(o.gap, o.charset, o.letter, o.text, more);
    ShapeIs(o, more);
  }

  lemma ShapeIs(o: Opening, more: seq<byte>)
    ensures var h := o.gap + ([EQ, QM] + (Inside(o) + more));
      && h == o.gap + ([EQ, QM] + (o.charset + [QM, o.letter, QM])) + (o.text + (CLOSE + more))
      && h[..|o.gap|] == o.gap && h[..|o.gap| + 2] == o.gap + [EQ, QM] && h[|o.gap| + 2..] == Inside(o) + more
  {
    var t := o.text + (CLOSE + more);
    assert Inside(o) + more == o.charset + ([QM, o.letter, QM] + t);
    assert [EQ, QM] + (o.charset + ([QM, o.letter, QM] + t)) == [EQ, QM] + (o.charset + [QM, o.letter, QM]) + t;
  }

  lemma {:induction false} PairBefore(s: seq<byte>, a: byte, b: byte)
    ensures var i := IndexPair(s, a, b); i >= 0 ==> s[i] == a && s[i + 1] == b && IndexPair(s[..i], a, b) < 0
  {
    if IndexPair(s, a, b) > 0 {
      var i := IndexPair(s, a, b);
      PairBefore(s[1..], a, b);
      assert s[..i][1..] == s[1..][..i - 1];
      assert i >= 2 ==> s[..i][1] == s[1];
    }
  }

  lemma FoundShape(h: seq<byte>) returns (o: Opening, more: seq<byte>)
    requires Find(h).At?
    ensures Shaped(o) && h == o.gap + ([EQ, QM] + (Inside(o) + more))
  {
    hide IndexPair, IndexByte;
    var f := Find(h);
    var start := IndexPair(h, EQ, QM);
    var cur := start + 2 + IndexByte(h[start + 2..], QM) + 1;
    var end := cur + 2 + IndexPair(h[cur + 2..], QM, EQ);
    PairBefore(h, EQ, QM);
    PairBefore(h[cur + 2..], QM, EQ);
    o, more := Opening(h[..start], h[start + 2..cur - 1], h[cur], h[cur + 2..end]), h[end + 2..];
    assert h[start + 2..][..cur - 3 - start] == o.charset;
    assert h[cur + 2..][..end - cur - 2] == o.text;
    assert h[end] == QM && h[end + 1] == EQ && h[cur - 1] == QM && h[cur + 1] == QM;
    Pieces(h, start, cur, end);
  }

  lemma Pieces(h: seq<byte>, start: nat, cur: nat, end: nat)
    requires start + 3 <= cur && cur + 2 <= end && end + 2 <= |h|
    ensures var o := Opening(h[..start], h[start + 2..cur - 1], h[cur], h[cur + 2..end]);
      h[start] == EQ && h[start + 1] == QM && h[cur - 1] == QM && h[cur + 1] == QM && h[end] == QM && h[end + 1] == EQ
      ==> h == o.gap + ([EQ, QM] + (Inside(o) + h[end + 2..]))
  {
  }

  lemma UnshapedIs(h: seq<byte>)
    ensures Unshaped(h) <==> Find(h) == Nothing
  {
    hide Find, Shaped, Inside;
    forall o, more | Shaped(o) && h == o.gap + ([EQ, QM] + (Inside(o) + more))
      ensures Find(h) != Nothing
    {
      ShapeFound(o, more);
    }
    if Find(h).At? {
      var o, more := FoundShape(h);
    }
  }

  lemma {:induction false} HeaderSpelled(os: seq<Opening>, last: seq<byte>, between: bool)
    requires OpeningsOk(os, last)
    ensures Header(OpeningsText(os, last), between) == SpelledOut(os, last, between)
    decreases |os|
  {
    hide Find, Shaped, Inside, Unshaped, Decode, Convert, NonWhite, White;
    if os == [] {
      UnshapedIs(last);
    } else {
      var o, rest := os[0], OpeningsText(os[1..], last);
      HeaderSpelled(os[1..], last, Decodes(o));
      WhiteIs(o.gap);
      if Decodes(o) {
        ShapeFound(o, rest);
        var c := Convert(o.charset, Decode(o.letter, o.text).value);
        assert c.Some? ==> [] + c.value == c.value;
      } else {
        assert Inside(o) + rest[|Inside(o)|..] == rest;
        ShapeFound(o, rest[|Inside(o)|..]);
      }
    }
  }

  /** Every header is made up of such openings, and decoded as they say. */
  lemma AnyHeader(h: seq<byte>) returns (os: seq<Opening>, last: seq<byte>)
    ensures OpeningsOk(os, last) && h == OpeningsText(os, last)
    ensures DecodeHeader(h) == SpelledOut(os, last, false)
  {
    hide Header, OpeningsOk, OpeningsText, SpelledOut;
    os, last := Openings(h);
    HeaderStarts(h);
    HeaderSpelled(os, last, false);
  }

  lemma {:induction false} Openings(h: seq<byte>) returns (os: seq<Opening>, last: seq<byte>)
    ensures OpeningsOk(os, last) && h == OpeningsText(os, last)
    decreases |h|
  {
    hide Find, Shaped, Inside, Unshaped, Decode;
    os, last := [], h;
    UnshapedIs(h);
    if Find(h).At? {
      var o, more := FoundShape(h);
      if !Decodes(o) {
        more := Inside(o) + more;
      }
      os, last := Openings(more);
      assert ([o] + os)[1..] == os;
      os := [o] + os;
    }
  }

  // The character sets

  /** Conversion from ISO 8859-1 keeps every character: the runes are the bytes. */
  lemma {:induction false} Latin1Runes(s: seq<byte>)
    ensures DecodeAll(FromLatin1(s)) == s
  {
    if s != [] {
      hide EncodeRune, DecodeRune;
      Latin1Runes(s[1..]);
      RunePrefix(s[0], FromLatin1(s[1..]));
      assert [s[0] as rune] + DecodeAll(FromLatin1(s[1..])) == s;
    }
  }

  lemma RunePrefix(r: rune, more: seq<byte>)
    requires 0 <= r < 0x800 || r == RUNE_ERROR
    ensures DecodeAll(EncodeRune(r) + more) == [r] + DecodeAll(more)
  {
    hide DecodeRune;
    DecodeEncode(r, more);
    DropHead(EncodeRune(r), more);
  }

  /** Conversion from US-ASCII keeps ASCII and marks every other byte as an error. */
  lemma {:induction false} AsciiRunes(s: seq<byte>)
    ensures |DecodeAll(FromAscii(s))| == |s|
    ensures forall i :: 0 <= i < |s| ==> DecodeAll(FromAscii(s))[i] == if s[i] < 0x80 then s[i] else RUNE_ERROR
  {
    if s != [] {
      hide DecodeRune;
      AsciiRunes(s[1..]);
      RunePrefix(if s[0] < 0x80 then s[0] else RUNE_ERROR, FromAscii(s[1..]));
    }
  }
}
