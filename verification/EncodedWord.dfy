/** Encoded-words in message headers: an encoder that folds long text without breaking
    a character, and the decoder that puts it together again. */
module EncodedWord {
  import opened Common
  import opened TextLines
  import opened Utf8
  import M = MediaType

  const EQ: byte := 61          // =
  const QM: byte := 63          // ?
  const SP: byte := 32
  const UNDERSCORE: byte := 95

  datatype Encoding = B | Q

  const MAX_WORD: nat := 75
  const MAX_CONTENT: nat := 63        // MAX_WORD without =?UTF-8?q? and ?=
  const MAX_BASE64: nat := 45         // bytes whose base64 text fits MAX_CONTENT

  // Q encoding

  function QByte(c: byte): (r: seq<byte>) {
    if c == SP then [UNDERSCORE]
    else if 33 <= c <= 126 && c != EQ && c != QM && c != UNDERSCORE then [c]
    else [EQ, M.HexDigit(c / 16), M.HexDigit(c % 16)]
  }

  function QText(s: seq<byte>): (r: seq<byte>) {
    if s == [] then [] else QByte(s[0]) + QText(s[1..])
  }

  function QDecode(s: seq<byte>): (r: Option<seq<byte>>)
    ensures r.Some? ==> |r.value| <= |s|
  {
    if s == [] then Some([])
    else if s[0] == UNDERSCORE then Cons(SP, QDecode(s[1..]))
    else if s[0] == EQ then
      if |s| < 3 || !M.IsHex(s[1]) || !M.IsHex(s[2]) then None
      else Cons(M.Unhex(s[1]) * 16 + M.Unhex(s[2]), QDecode(s[3..]))
    else if 32 <= s[0] <= 126 || s[0] == 10 || s[0] == 13 || s[0] == 9 then Cons(s[0], QDecode(s[1..]))
    else None
  }

  function Cons(c: byte, r: Option<seq<byte>>): (v: Option<seq<byte>>) {
    match r
    case None => None
    case Some(t) => Some([c] + t)
  }

  // Base64, the standard encoding

  function Base64Char(n: int): (r: byte)
    requires 0 <= n < 64
  {
    if n < 26 then 65 + n else if n < 52 then 71 + n else if n < 62 then n - 4 else if n == 62 then 43 else 47
  }

  /** The value of a digit, or -1. */
  function Base64Value(c: byte): (n: int)
    ensures -1 <= n < 64
  {
    if 65 <= c <= 90 then c - 65
    else if 97 <= c <= 122 then c - 71
    else if 48 <= c <= 57 then c + 4
    else if c == 43 then 62
    else if c == 47 then 63
    else -1
  }

  function Base64Encode(s: seq<byte>): (r: seq<byte>) {
    if s == [] then []
    else if |s| == 1 then [Base64Char(s[0] / 4), Base64Char(s[0] % 4 * 16), EQ, EQ]
    else if |s| == 2 then
      [Base64Char(s[0] / 4), Base64Char(s[0] % 4 * 16 + s[1] / 16), Base64Char(s[1] % 16 * 4), EQ]
    else Quad(s[0], s[1], s[2]) + Base64Encode(s[3..])
  }

  function Quad(x: byte, y: byte, z: byte): (q: seq<byte>)
    ensures |q| == 4
  {
    [Base64Char(x / 4), Base64Char(x % 4 * 16 + y / 16), Base64Char(y % 16 * 4 + z / 64), Base64Char(z % 64)]
  }

  function Base64Decode(t: seq<byte>): (r: Option<seq<byte>>) {
    if t == [] then Some([])
    else if |t| < 4 then None
    else
      var a, b, c, d := Base64Value(t[0]), Base64Value(t[1]), Base64Value(t[2]), Base64Value(t[3]);
      if a < 0 || b < 0 then None
      else if t[2] == EQ && t[3] == EQ && |t| == 4 then Some([a * 4 + b / 16])
      else if c < 0 then None
      else if t[3] == EQ && |t| == 4 then Some([a * 4 + b / 16, b % 16 * 16 + c / 4])
      else if d < 0 then None
      else
        match Base64Decode(t[4..])
        case None => None
        case Some(r) => Some([a * 4 + b / 16, b % 16 * 16 + c / 4, c % 4 * 64 + d] + r)
  }

  lemma Base64CharValue(n: int)
    requires 0 <= n < 64
    ensures Base64Value(Base64Char(n)) == n && Base64Char(n) != EQ && Base64Char(n) != QM
  {
  }

  lemma Three(x: int, y: int, z: int)
    requires 0 <= x < 256 && 0 <= y < 256 && 0 <= z < 256
    ensures var a, b, c, d := x / 4, x % 4 * 16 + y / 16, y % 16 * 4 + z / 64, z % 64;
      && 0 <= a < 64 && 0 <= b < 64 && 0 <= c < 64 && 0 <= d < 64
      && a * 4 + b / 16 == x && b % 16 * 16 + c / 4 == y && c % 4 * 64 + d == z
  {
    var b, c := x % 4 * 16 + y / 16, y % 16 * 4 + z / 64;
    assert b / 16 == x % 4 && b % 16 == y / 16;
    assert c / 4 == y % 16 && c % 4 == z / 64;
  }

  lemma QuadRound(x: byte, y: byte, z: byte, more: seq<byte>)
    ensures Base64Decode(Quad(x, y, z) + more) ==
            match Base64Decode(more) { case None => None case Some(r) => Some([x, y, z] + r) }
    ensures QM !in Quad(x, y, z)
  {
    hide Base64Char, Base64Value;
    Three(x, y, z);
    Base64CharValue(x / 4);
    Base64CharValue(x % 4 * 16 + y / 16);
    Base64CharValue(y % 16 * 4 + z / 64);
    Base64CharValue(z % 64);
    assert (Quad(x, y, z) + more)[4..] == more;
  }

  /** One or two bytes at the end are padded. */
  lemma PaddedRound(s: seq<byte>)
    requires 0 < |s| < 3
    ensures Base64Decode(Base64Encode(s)) == Some(s) && QM !in Base64Encode(s) && |Base64Encode(s)| == 4
  {
    hide Base64Char, Base64Value;
    var y := if |s| > 1 then s[1] else 0;
    Three(s[0], y, 0);
    Base64CharValue(s[0] / 4);
    Base64CharValue(s[0] % 4 * 16 + y / 16);
    Base64CharValue(y % 16 * 4);
    PadValue();
    assert s == if |s| == 1 then [s[0]] else [s[0], s[1]];
  }

  lemma PadValue()
    ensures Base64Value(EQ) == -1
  {
  }

  lemma {:induction false} Base64Round(s: seq<byte>)
    ensures Base64Decode(Base64Encode(s)) == Some(s) && QM !in Base64Encode(s)
    ensures |Base64Encode(s)| == (|s| + 2) / 3 * 4
    decreases |s|
  {
    hide Base64Decode, Quad;
    if |s| > 2 {
      Base64Round(s[3..]);
      QuadRound(s[0], s[1], s[2], Base64Encode(s[3..]));
      assert [s[0], s[1], s[2]] + s[3..] == s;
      assert (|s| + 2) / 3 == (|s| - 3 + 2) / 3 + 1;
    } else if s != [] {
      PaddedRound(s);
    } else {
      NothingCoded();
    }
  }

  lemma NothingCoded()
    ensures Base64Decode([]) == Some([])
  {
  }

  lemma QByteRound(c: byte, more: seq<byte>)
    ensures QDecode(QByte(c) + more) == Cons(c, QDecode(more)) && QM !in QByte(c)
  {
    var s := QByte(c) + more;
    if |QByte(c)| == 1 {
      assert s[1..] == more;
    } else {
      M.HexRound(c / 16);
      M.HexRound(c % 16);
      assert s[3..] == more && c / 16 * 16 + c % 16 == c;
    }
  }

  lemma {:induction false} QRound(s: seq<byte>)
    ensures QDecode(QText(s)) == Some(s) && QM !in QText(s)
  {
    if s != [] {
      QRound(s[1..]);
      QByteRound(s[0], QText(s[1..]));
      assert [s[0]] + s[1..] == s;
    }
  }

  function Text(e: Encoding, s: seq<byte>): (r: seq<byte>) {
    match e
    case B => Base64Encode(s)
    case Q => QText(s)
  }

  function Decode(encoding: byte, text: seq<byte>): (r: Option<seq<byte>>) {
    if encoding == 66 || encoding == 98 then Base64Decode(text)
    else if encoding == 81 || encoding == 113 then QDecode(text)
    else None
  }

  function Letter(e: Encoding): (r: byte) {
    match e
    case B => 98
    case Q => 113
  }

  lemma TextRound(e: Encoding, s: seq<byte>)
    ensures Decode(Letter(e), Text(e, s)) == Some(s) && QM !in Text(e, s)
  {
    match e
    case B => Base64Round(s);
    case Q => QRound(s);
  }

  // Words

  function Open(e: Encoding, charset: seq<byte>): (r: seq<byte>) { [EQ, QM] + charset + [QM, Letter(e), QM] }

  const CLOSE: seq<byte> := [QM, EQ]

  function Word(e: Encoding, charset: seq<byte>, s: seq<byte>): (r: seq<byte>) {
    Open(e, charset) + Text(e, s) + CLOSE
  }

  /** The words of the chunks, each with a space after it. */
  function Words(e: Encoding, charset: seq<byte>, chunks: seq<seq<byte>>): (r: seq<byte>) {
    if chunks == [] then [] else Word(e, charset, chunks[0]) + ([SP] + Words(e, charset, chunks[1..]))
  }

  /** The words of the chunks with spaces between them. */
  function Line(e: Encoding, charset: seq<byte>, chunks: seq<seq<byte>>): (r: seq<byte>)
    requires chunks != []
  {
    if |chunks| == 1 then Word(e, charset, chunks[0])
    else Word(e, charset, chunks[0]) + ([SP] + Line(e, charset, chunks[1..]))
  }

  function Concat(chunks: seq<seq<byte>>): (r: seq<byte>) {
    if chunks == [] then [] else chunks[0] + Concat(chunks[1..])
  }

  // Decoding a header

  /** The first place of a followed by b, or -1. */
  function IndexPair(s: seq<byte>, a: byte, b: byte): (i: int)
    ensures -1 <= i && (i >= 0 ==> i + 2 <= |s|)
  {
    if |s| < 2 then -1
    else if s[0] == a && s[1] == b then 0
    else if IndexPair(s[1..], a, b) < 0 then -1
    else 1 + IndexPair(s[1..], a, b)
  }

  lemma {:induction false} PairAfter(s: seq<byte>, a: byte, b: byte, t: seq<byte>)
    requires a != b && IndexPair(s, a, b) < 0 && t != [] && t[0] == a && |t| > 1 && t[1] == b
    ensures IndexPair(s + t, a, b) == |s|
  {
    if s == [] {
      assert s + t == t;
    } else {
      assert (s + t)[1..] == s[1..] + t;
      PairAfter(s[1..], a, b, t);
    }
  }

  lemma {:induction false} NoPair(s: seq<byte>, a: byte, b: byte)
    requires a !in s
    ensures IndexPair(s, a, b) < 0
  {
    if s != [] {
      assert s[0] in s;
      NoPair(s[1..], a, b);
    }
  }

  predicate NonWhite(s: seq<byte>) { exists i :: 0 <= i < |s| && s[i] !in {32, 9, 10, 13} }

  const LATIN1: seq<byte> := [105, 115, 111, 45, 56, 56, 53, 57, 45, 49]

  predicate IsUtf8(charset: seq<byte>) { M.ToLower(charset) == M.UTF8 }

  function FromLatin1(s: seq<byte>): (r: seq<byte>) {
    if s == [] then [] else EncodeRune(s[0]) + FromLatin1(s[1..])
  }

  function FromAscii(s: seq<byte>): (r: seq<byte>) {
    if s == [] then [] else (if s[0] >= 0x80 then EncodeRune(RUNE_ERROR) else [s[0]]) + FromAscii(s[1..])
  }

  /** The bytes in UTF-8; there is no reader for other character sets. */
  function Convert(charset: seq<byte>, content: seq<byte>): (r: Option<seq<byte>>) {
    if IsUtf8(charset) then Some(content)
    else if M.ToLower(charset) == LATIN1 then Some(FromLatin1(content))
    else if M.ToLower(charset) == M.US_ASCII then Some(FromAscii(content))
    else None
  }

  function Append(a: seq<byte>, r: Option<seq<byte>>): (v: Option<seq<byte>>) {
    match r
    case None => None
    case Some(t) => Some(a + t)
  }

  /** The parts of the first thing in h that looks like an encoded-word: its place, its
      character set, its encoding, its text and its end. */
  datatype Found = Nothing | At(start: nat, charset: seq<byte>, encoding: byte, text: seq<byte>, end: nat)

  function Find(h: seq<byte>): (f: Found)
    ensures f.At? ==> f.start + 2 <= f.end <= |h|
  {
    var start := IndexPair(h, EQ, QM);
    if start < 0 then Nothing
    else
      var i := IndexByte(h[start + 2..], QM);
      if i < 0 then Nothing else FindText(h, start, start + 2 + i + 1)
  }

  /** The character set ends before cur. */
  function FindText(h: seq<byte>, start: nat, cur: nat): (f: Found)
    requires start + 3 <= cur <= |h|
    ensures f.At? ==> f.start + 2 <= f.end <= |h|
  {
    if |h| < cur + 4 || h[cur + 1] != QM then Nothing
    else
      var j := IndexPair(h[cur + 2..], QM, EQ);
      if j < 0 then Nothing
      else At(start, h[start + 2..cur - 1], h[cur], h[cur + 2..cur + 2 + j], cur + 2 + j + 2)
  }

  /** White space between two encoded-words disappears; text that does not decode stays. */
  function Header(h: seq<byte>, between: bool): (r: Option<seq<byte>>)
    decreases |h|
  {
    var f := Find(h);
    if f == Nothing then Some(h)
    else
      match Decode(f.encoding, f.text)
      case None => Append(h[..f.start + 2], Header(h[f.start + 2..], false))
      case Some(content) =>
        match Convert(f.charset, content)
        case None => None
        case Some(c) =>
          Append(if f.start > 0 && (!between || NonWhite(h[..f.start])) then h[..f.start] + c else c,
                 Header(h[f.end..], true))
  }

  function DecodeHeader(h: seq<byte>): (r: Option<seq<byte>>) {
    var i := IndexPair(h, EQ, QM);
    if i < 0 then Some(h) else Append(h[..i], Header(h[i..], false))
  }

  lemma DropBoth(a: seq<byte>, b: seq<byte>, c: seq<byte>)
    ensures (a + (b + c))[|a| + |b|..] == c && (a + (b + c))[|a|..|a| + |b|] == b
  {
  }

  /** The text is found after a head that ends with the encoding and a question mark. */
  lemma FindTextParts(head: seq<byte>, text: seq<byte>, rest: seq<byte>, start: nat)
    requires IndexPair(text, QM, EQ) < 0 && |head| >= start + 5 && head[|head| - 1] == QM
    ensures var h, cur := head + (text + (CLOSE + rest)), |head| - 2;
      FindText(h, start, cur) == At(start, head[start + 2..cur - 1], head[cur], text, |head| + |text| + 2)
      && h[|head| + |text| + 2..] == rest && |head| + |text| + 2 <= |h|
  {
    hide IndexPair;
    var tail := CLOSE + rest;
    var h, cur := head + (text + tail), |head| - 2;
    PairAfter(text, QM, EQ, tail);
    DropHead(head, text + tail);
    DropBoth(head, text, tail);
    TakeOfAppend(head, text + tail, start + 2, cur - 1);
    SliceOfSlice(h, |head| + |text|, 2, |tail|);
    assert tail[2..] == rest && tail[0] == QM && tail[1] == EQ;
  }

  /** The parts of a word are found where they were put. */
  lemma FindParts(before: seq<byte>, charset: seq<byte>, x: byte, text: seq<byte>, rest: seq<byte>)
    requires QM !in charset && IndexPair(text, QM, EQ) < 0 && IndexPair(before, EQ, QM) < 0
    ensures var head := before + ([EQ, QM] + (charset + [QM, x, QM]));
      var h, end := head + (text + (CLOSE + rest)), |head| + |text| + 2;
      Find(h) == At(|before|, charset, x, text, end) && end <= |h| && h[end..] == rest
  {
    hide IndexPair, IndexByte, FindText;
    var head := before + ([EQ, QM] + (charset + [QM, x, QM]));
    var more := text + (CLOSE + rest);
    var h := head + more;
    HeadParts(before, charset, x, more);
    FindTextParts(head, text, rest, |before|);
  }

  lemma HeadParts(before: seq<byte>, charset: seq<byte>, x: byte, more: seq<byte>)
    requires QM !in charset && IndexPair(before, EQ, QM) < 0
    ensures var head, start := before + ([EQ, QM] + (charset + [QM, x, QM])), |before|;
      && IndexPair(head + more, EQ, QM) == start
      && IndexByte((head + more)[start + 2..], QM) == |charset|
      && |head| == start + 2 + |charset| + 3
      && head[start + 2..|head| - 3] == charset && head[|head| - 2] == x && head[|head| - 1] == QM
  {
    hide IndexPair, IndexByte;
    HeadSearch(before, charset, [QM, x, QM], more);
    HeadSlices(before, charset, [QM, x, QM]);
  }

  lemma HeadSearch(before: seq<byte>, charset: seq<byte>, word: seq<byte>, more: seq<byte>)
    requires QM !in charset && IndexPair(before, EQ, QM) < 0 && |word| == 3 && word[0] == QM
    ensures var h := before + ([EQ, QM] + (charset + word)) + more;
      IndexPair(h, EQ, QM) == |before| && IndexByte(h[|before| + 2..], QM) == |charset|
  {
    hide IndexPair, IndexByte;
    var t := charset + (word + more);
    Nested(before, [EQ, QM], charset, word, more);
    PairAfter(before, EQ, QM, [EQ, QM] + t);
    DropBoth(before, [EQ, QM], t);
    DropHead(charset, word + more);
    IndexUnique(t, QM, |charset|);
  }

  lemma Nested(a: seq<byte>, b: seq<byte>, c: seq<byte>, d: seq<byte>, e: seq<byte>)
    ensures a + (b + (c + d)) + e == a + (b + (c + (d + e)))
  {
  }

  lemma HeadSlices(before: seq<byte>, charset: seq<byte>, word: seq<byte>)
    requires |word| == 3
    ensures var head, k := before + ([EQ, QM] + (charset + word)), |before| + 2;
      |head| == k + |charset| + 3 && head[k..k + |charset|] == charset
      && head[|head| - 2] == word[1] && head[|head| - 1] == word[2]
  {
    ThreeParts(before, [EQ, QM], charset, word);
    LastThree(before + ([EQ, QM] + (charset + word)), |before| + 2 + |charset|, word);
  }

  lemma ThreeParts(a: seq<byte>, b: seq<byte>, c: seq<byte>, d: seq<byte>)
    ensures var h, k := a + (b + (c + d)), |a| + |b|;
      |h| == k + |c| + |d| && h[k..k + |c|] == c && h[k + |c|..] == d
  {
    var h, k := a + (b + (c + d)), |a| + |b|;
    assert forall i :: 0 <= i < |c| ==> h[k + i] == c[i];
    assert forall i :: 0 <= i < |d| ==> h[k + |c| + i] == d[i];
  }

  lemma LastThree(head: seq<byte>, k: nat, word: seq<byte>)
    requires |head| == k + |word| && |word| == 3 && head[k..] == word
    ensures head[k + 1] == word[1] && head[k + 2] == word[2]
  {
    assert head[k..][1] == head[k + 1] && head[k..][2] == head[k + 2];
  }

  // The round trip

  lemma WordText(e: Encoding, charset: seq<byte>, s: seq<byte>, before: seq<byte>, rest: seq<byte>)
    ensures before + (Word(e, charset, s) + rest) ==
            before + ([EQ, QM] + (charset + [QM, Letter(e), QM])) + (Text(e, s) + (CLOSE + rest))
    ensures |Word(e, charset, s)| == |charset| + |Text(e, s)| + 7
  {
    hide Text;
  }

  lemma HeaderWord(e: Encoding, charset: seq<byte>, s: seq<byte>, between: bool, before: seq<byte>, rest: seq<byte>)
    requires QM !in charset && (before == [] || (before == [SP] && between))
    ensures Header(before + (Word(e, charset, s) + rest), between) ==
            match Convert(charset, s) { case None => None case Some(c) => Append(c, Header(rest, true)) }
  {
    hide Find, Text, Word, Decode, Convert, Open;
    TextRound(e, s);
    WordText(e, charset, s, before, rest);
    NoPair(Text(e, s), QM, EQ);
    FindParts(before, charset, Letter(e), Text(e, s), rest);
    var h := before + (Word(e, charset, s) + rest);
    TakeOfAppend(before, Word(e, charset, s) + rest, 0, |before|);
    assert before[..|before|] == before;
    assert !NonWhite(before);
  }

  lemma {:induction false} LineRound(e: Encoding, charset: seq<byte>, chunks: seq<seq<byte>>,
                                     between: bool, before: seq<byte>)
    requires chunks != [] && QM !in charset && IsUtf8(charset)
    requires before == [] || (before == [SP] && between)
    ensures Header(before + Line(e, charset, chunks), between) == Some(Concat(chunks))
    decreases |chunks|
  {
    hide Word, IsUtf8, Header;
    var w := Word(e, charset, chunks[0]);
    if |chunks| == 1 {
      HeaderWord(e, charset, chunks[0], between, before, []);
      assert w + [] == w && chunks[0] + [] == chunks[0];
      HeaderEnd();
      assert Concat(chunks) == chunks[0] + Concat([]);
    } else {
      var rest := [SP] + Line(e, charset, chunks[1..]);
      HeaderWord(e, charset, chunks[0], between, before, rest);
      LineRound(e, charset, chunks[1..], true, [SP]);
    }
  }

  lemma HeaderEnd()
    ensures Header([], true) == Some([])
  {
    hide Decode, Convert;
  }

  lemma LineStarts(e: Encoding, charset: seq<byte>, chunks: seq<seq<byte>>)
    requires chunks != []
    ensures IndexPair(Line(e, charset, chunks), EQ, QM) == 0
  {
    hide Text;
    var h := Line(e, charset, chunks);
    assert h[0] == EQ && h[1] == QM;
  }

  /** Decoding the words of any division into chunks puts the text together again. */
  lemma RoundTrip(e: Encoding, charset: seq<byte>, chunks: seq<seq<byte>>)
    requires chunks != [] && QM !in charset && IsUtf8(charset)
    ensures DecodeHeader(Line(e, charset, chunks)) == Some(Concat(chunks))
  {
    hide Header, Line, IsUtf8, Concat;
    var h := Line(e, charset, chunks);
    LineStarts(e, charset, chunks);
    LineRound(e, charset, chunks, false, []);
    assert [] + h == h && h[0..] == h && [] + Concat(chunks) == Concat(chunks);
  }

  /** A word in another character set is decoded and converted. */
  lemma WordRound(e: Encoding, charset: seq<byte>, s: seq<byte>)
    requires QM !in charset
    ensures DecodeHeader(Word(e, charset, s)) == Convert(charset, s)
  {
    hide Header, Word, Convert;
    var h := Word(e, charset, s);
    LineStarts(e, charset, [s]);
    HeaderWord(e, charset, s, false, [], []);
    HeaderEnd();
    assert [] + (h + []) == h && h[0..] == h;
    match Convert(charset, s)
    case None =>
    case Some(c) => assert [] + (c + []) == c;
  }

  // Which headers decode, and which texts stay as they are

  predicate Known(charset: seq<byte>) {
    IsUtf8(charset) || M.ToLower(charset) == LATIN1 || M.ToLower(charset) == M.US_ASCII
  }

  predicate AllKnown(charsets: seq<seq<byte>>) { forall c :: c in charsets ==> Known(c) }

  /** The character sets of the words that the scan of h meets and that decode. */
  function Met(h: seq<byte>): (charsets: seq<seq<byte>>)
    decreases |h|
  {
    var f := Find(h);
    if f == Nothing then []
    else if Decode(f.encoding, f.text) == None then Met(h[f.start + 2..])
    else [f.charset] + Met(h[f.end..])
  }

  lemma {:induction false} HeaderFails(h: seq<byte>, between: bool)
    ensures Header(h, between) == None <==> !AllKnown(Met(h))
    decreases |h|
  {
    hide Find, Decode, NonWhite, IsUtf8;
    var f := Find(h);
    if f == Nothing {
      assert Met(h) == [];
    } else if Decode(f.encoding, f.text) == None {
      HeaderFails(h[f.start + 2..], false);
    } else {
      HeaderFails(h[f.end..], true);
      assert f.charset in Met(h);
      assert forall c :: c in Met(h) <==> c == f.charset || c in Met(h[f.end..]);
    }
  }

  function Shift(f: Found, i: nat): (r: Found) {
    match f
    case Nothing => Nothing
    case At(start, c, x, t, end) => At(start + i, c, x, t, end + i)
  }

  /** What comes before the first word does not matter. */
  lemma FindLater(h: seq<byte>, i: nat)
    requires IndexPair(h, EQ, QM) == i
    ensures i + 2 <= |h| && Find(h) == Shift(Find(h[i..]), i)
    ensures Find(h).At? ==> Find(h).start == i
  {
    hide IndexPair, IndexByte, FindText;
    PairStart(h, i);
    SliceOfSlice(h, i, 2, |h| - i);
    var k := IndexByte(h[i + 2..], QM);
    if k >= 0 {
      FindTextLater(h, i, i + 2 + k + 1);
    }
  }

  lemma {:induction false} PairStart(h: seq<byte>, i: nat)
    requires IndexPair(h, EQ, QM) == i
    ensures i + 2 <= |h| && IndexPair(h[i..], EQ, QM) == 0
  {
    if i > 0 {
      PairStart(h[1..], i - 1);
      assert h[1..][i - 1..] == h[i..];
    } else {
      assert h[0..] == h;
    }
  }

  lemma FindTextLater(h: seq<byte>, i: nat, cur: nat)
    requires i + 3 <= cur <= |h|
    ensures FindText(h, i, cur) == Shift(FindText(h[i..], 0, cur - i), i)
    ensures FindText(h, i, cur).At? ==> FindText(h, i, cur).start == i
  {
    hide IndexPair;
    if |h| >= cur + 4 {
      SliceOfSlice(h, i, cur - i + 2, |h| - i);
      SliceOfSlice(h, i, 2, cur - i - 1);
      var j := IndexPair(h[cur + 2..], QM, EQ);
      if j >= 0 {
        SliceOfSlice(h, i, cur - i + 2, cur - i + 2 + j);
      }
    }
  }

  lemma MetLater(h: seq<byte>, i: nat)
    requires IndexPair(h, EQ, QM) == i
    ensures i <= |h| && Met(h) == Met(h[i..])
  {
    hide Find, Decode, IndexPair, Met;
    FindLater(h, i);
    MetStep(h);
    MetStep(h[i..]);
    var f := Find(h);
    if f.At? {
      if Decode(f.encoding, f.text) == None {
        SliceOfSlice(h, i, 2, |h| - i);
      } else {
        SliceOfSlice(h, i, f.end - i, |h| - i);
      }
    }
  }

  lemma MetStep(h: seq<byte>)
    ensures var f := Find(h);
      Met(h) ==
      if f == Nothing then []
      else if Decode(f.encoding, f.text) == None then Met(h[f.start + 2..])
      else [f.charset] + Met(h[f.end..])
  {
  }

  /** Decoding fails exactly if a word that decodes is in a character set other than the
      three that are known. */
  lemma DecodingFails(h: seq<byte>)
    ensures DecodeHeader(h) == None <==> !AllKnown(Met(h))
  {
    hide Header, Met, Find, AllKnown;
    var i := IndexPair(h, EQ, QM);
    if i < 0 {
      NothingMet(h);
    } else {
      MetLater(h, i);
      HeaderFails(h[i..], false);
    }
  }

  lemma NothingMet(h: seq<byte>)
    requires IndexPair(h, EQ, QM) < 0
    ensures Met(h) == [] && AllKnown(Met(h))
  {
  }

  predicate Ascii(s: seq<byte>) { forall i :: 0 <= i < |s| ==> s[i] < 0x80 }

  lemma AsciiParts(a: seq<byte>, b: seq<byte>)
    requires Ascii(a + b)
    ensures Ascii(a) && Ascii(b)
  {
    assert forall i :: 0 <= i < |a| ==> a[i] == (a + b)[i];
    assert forall i :: 0 <= i < |b| ==> b[i] == (a + b)[|a| + i];
  }

  lemma {:induction false} Base64Shrinks(t: seq<byte>)
    ensures Base64Decode(t).Some? ==> |Base64Decode(t).value| <= |t|
    decreases |t|
  {
    if |t| >= 4 {
      Base64Shrinks(t[4..]);
    }
  }

  /** Converting to ASCII text keeps the length. */
  lemma {:induction false} ConvertedLength(s: seq<byte>)
    ensures Ascii(FromLatin1(s)) ==> |FromLatin1(s)| == |s|
    ensures Ascii(FromAscii(s)) ==> |FromAscii(s)| == |s|
  {
    if s != [] {
      ConvertedLength(s[1..]);
      if Ascii(FromLatin1(s)) {
        AsciiParts(EncodeRune(s[0]), FromLatin1(s[1..]));
        assert EncodeRune(s[0])[0] < 0x80;
      }
      ErrorNotAscii();
      if Ascii(FromAscii(s)) {
        AsciiParts(if s[0] >= 0x80 then EncodeRune(RUNE_ERROR) else [s[0]], FromAscii(s[1..]));
      }
    }
  }

  lemma ErrorNotAscii()
    ensures !Ascii(EncodeRune(RUNE_ERROR))
  {
    assert EncodeRune(RUNE_ERROR)[0] == 0xEF;
  }

  lemma WordShrinks(f: Found, c: seq<byte>)
    requires f.At? && Decode(f.encoding, f.text).Some?
    requires Convert(f.charset, Decode(f.encoding, f.text).value) == Some(c) && Ascii(c)
    ensures |c| <= |f.text|
  {
    hide FromLatin1, FromAscii, QDecode, Base64Decode, IsUtf8;
    Base64Shrinks(f.text);
    ConvertedLength(Decode(f.encoding, f.text).value);
  }

  lemma FoundLength(h: seq<byte>)
    ensures Find(h).At? ==> Find(h).start + |Find(h).text| < Find(h).end
  {
  }

  /** If the result is ASCII it is shorter than the header, unless nothing was decoded;
      then it is the header. */
  lemma {:induction false} HeaderShrinks(h: seq<byte>, between: bool)
    ensures Met(h) == [] ==> Header(h, between) == Some(h)
    ensures Header(h, between).Some? && Ascii(Header(h, between).value) && Met(h) != [] ==>
              |Header(h, between).value| < |h|
    decreases |h|
  {
    hide Find, Decode, NonWhite, Convert, Ascii;
    var f := Find(h);
    FoundLength(h);
    if f.At? && Decode(f.encoding, f.text) == None {
      HeaderShrinks(h[f.start + 2..], false);
      assert h[..f.start + 2] + h[f.start + 2..] == h;
      if Header(h, between).Some? && Ascii(Header(h, between).value) {
        AsciiParts(h[..f.start + 2], Header(h[f.start + 2..], false).value);
      }
    } else if f.At? && Header(h, between).Some? && Ascii(Header(h, between).value) {
      HeaderShrinks(h[f.end..], true);
      var c := Convert(f.charset, Decode(f.encoding, f.text).value).value;
      var head := if f.start > 0 && (!between || NonWhite(h[..f.start])) then h[..f.start] + c else c;
      AsciiParts(head, Header(h[f.end..], true).value);
      assert Ascii(c) by {
        if f.start > 0 && (!between || NonWhite(h[..f.start])) {
          AsciiParts(h[..f.start], c);
        }
      }
      WordShrinks(f, c);
    }
  }

  /** Text that needs no encoding comes back from decoding if and only if nothing in it
      decodes as a word. */
  lemma PlainRound(s: seq<byte>)
    requires !M.NeedsEncoding(s)
    ensures DecodeHeader(s) == Some(s) <==> Met(s) == []
  {
    hide Header, Met, Find;
    var i := IndexPair(s, EQ, QM);
    if i < 0 {
      NothingMet(s);
    } else {
      MetLater(s, i);
      HeaderShrinks(s[i..], false);
      assert s[..i] + s[i..] == s;
      PlainIsAscii(s);
      if DecodeHeader(s) == Some(s) {
        AsciiParts(s[..i], s[i..]);
        DropHead(s[..i], Header(s[i..], false).value);
        DropHead(s[..i], s[i..]);
      }
    }
  }

  /** Such a text: a word that stands for a single letter. */
  lemma PlainWord()
    ensures var h := Word(Q, M.UTF8, [97]); !M.NeedsEncoding(h) && DecodeHeader(h) == Some([97])
  {
    hide DecodeHeader, Word, M.NeedsEncoding, M.ToLower;
    LowerUtf8();
    WordRound(Q, M.UTF8, [97]);
    PlainWordText();
  }

  lemma LowerUtf8()
    ensures M.ToLower(M.UTF8) == M.UTF8
  {
  }

  lemma PlainWordText()
    ensures !M.NeedsEncoding(Word(Q, M.UTF8, [97]))
  {
    hide QText;
    OneText(97);
    assert [97][0] == 97;
    var h := [EQ, QM, 117, 116, 102, 45, 56, QM, 113, QM, 97, QM, EQ];
    assert Word(Q, M.UTF8, [97]) == h;
    assert forall k :: 0 <= k < |h| ==> !M.Odd(h[k]);
  }

  lemma PlainIsAscii(s: seq<byte>)
    requires !M.NeedsEncoding(s)
    ensures Ascii(s)
  {
    forall k | 0 <= k < |s|
      ensures s[k] < 0x80
    {
      assert !M.Odd(s[k]);
    }
  }

  // Folding

  /** k is the end of a rune of s. */
  predicate Boundary(s: seq<byte>, k: nat)
    decreases |s|
  {
    k == 0 || (s != [] && DecodeRune(s).1 <= k && Boundary(s[DecodeRune(s).1..], k - DecodeRune(s).1))
  }

  lemma FirstOfPrefix(s: seq<byte>, k: nat)
    requires 0 < k <= |s| && DecodeRune(s).1 <= k
    ensures DecodeRune(s[..k]) == DecodeRune(s)
  {
    assert s[..k] + s[k..] == s;
    if FullRune(s[..k]) {
      DecodePrefix(s[..k], s[k..]);
    } else {
      DecodeShort(s[..k]);
      ShortFails(s, k);
    }
  }

  lemma ShortFails(s: seq<byte>, k: nat)
    requires 0 < k <= |s| && DecodeRune(s).1 <= k && !FullRune(s[..k])
    ensures DecodeRune(s) == (RUNE_ERROR, 1)
  {
    hide Join;
    assert s[..k][0] == s[0];
  }

  /** Cutting between runes does not change the runes. */
  lemma {:induction false} CutAtBoundary(s: seq<byte>, k: nat)
    requires k <= |s| && Boundary(s, k)
    ensures DecodeAll(s) == DecodeAll(s[..k]) + DecodeAll(s[k..])
    decreases |s|
  {
    hide DecodeRune, DecodeAll;
    if k == 0 {
      NoRunes();
      assert s[..0] == [] && s[0..] == s && [] + DecodeAll(s) == DecodeAll(s);
    } else {
      var n := DecodeRune(s).1;
      FirstOfPrefix(s, k);
      CutAtBoundary(s[n..], k - n);
      CutSlices(s, n, k);
      DecodeFirst(s);
      DecodeFirst(s[..k]);
      Runes3([DecodeRune(s).0], DecodeAll(s[..k][n..]), DecodeAll(s[k..]));
    }
  }

  lemma NoRunes()
    ensures DecodeAll([]) == []
  {
  }

  lemma DecodeFirst(s: seq<byte>)
    requires s != []
    ensures DecodeAll(s) == [DecodeRune(s).0] + DecodeAll(s[DecodeRune(s).1..])
  {
    hide DecodeRune;
  }

  lemma Runes3(a: seq<rune>, b: seq<rune>, c: seq<rune>)
    ensures a + (b + c) == a + b + c
  {
  }

  lemma CutSlices(s: seq<byte>, n: nat, k: nat)
    requires n <= k <= |s|
    ensures s[n..][..k - n] == s[..k][n..] && s[n..][k - n..] == s[k..]
  {
  }

  lemma {:induction false} NextBoundary(s: seq<byte>, k: nat)
    requires k < |s| && Boundary(s, k)
    ensures k + DecodeRune(s[k..]).1 <= |s| && Boundary(s, k + DecodeRune(s[k..]).1)
    decreases |s|
  {
    hide DecodeRune;
    var n := DecodeRune(s).1;
    if k == 0 {
      assert s[0..] == s;
      assert Boundary(s[n..], 0);
    } else {
      NextBoundary(s[n..], k - n);
      CutSlices(s, n, k);
    }
  }

  function RunesOf(chunks: seq<seq<byte>>): (r: seq<rune>) {
    if chunks == [] then [] else DecodeAll(chunks[0]) + RunesOf(chunks[1..])
  }

  /** The chunks make up s, and none of its runes is divided between two of them. */
  predicate Divides(chunks: seq<seq<byte>>, s: seq<byte>) {
    Concat(chunks) == s && RunesOf(chunks) == DecodeAll(s)
  }

  /** The chunks make up the first i bytes of s. */
  predicate DividesUpTo(chunks: seq<seq<byte>>, s: seq<byte>, i: nat) {
    i <= |s| && Concat(chunks) == s[..i] && RunesOf(chunks) + DecodeAll(s[i..]) == DecodeAll(s)
  }

  lemma {:induction false} Snoc(chunks: seq<seq<byte>>, c: seq<byte>)
    ensures Concat(chunks + [c]) == Concat(chunks) + c && RunesOf(chunks + [c]) == RunesOf(chunks) + DecodeAll(c)
    decreases |chunks|
  {
    hide DecodeAll;
    if chunks == [] {
      assert [] + [c] == [c] && [c][1..] == [] && c + [] == c && [] + c == c;
      assert DecodeAll(c) + [] == DecodeAll(c) && [] + DecodeAll(c) == DecodeAll(c);
    } else {
      Snoc(chunks[1..], c);
      assert (chunks + [c])[1..] == chunks[1..] + [c];
      AppendThree(chunks[0], Concat(chunks[1..]), c);
      Runes3(DecodeAll(chunks[0]), RunesOf(chunks[1..]), DecodeAll(c));
    }
  }

  lemma {:induction false} SnocWords(e: Encoding, charset: seq<byte>, chunks: seq<seq<byte>>, c: seq<byte>)
    ensures Words(e, charset, chunks + [c]) == Words(e, charset, chunks) + (Word(e, charset, c) + [SP])
    ensures Line(e, charset, chunks + [c]) == Words(e, charset, chunks) + Word(e, charset, c)
    decreases |chunks|
  {
    hide Word;
    var w := Word(e, charset, c);
    if chunks == [] {
      assert [] + [c] == [c] && [c][1..] == [] && [SP] + [] == [SP] && [] + w == w && [] + (w + [SP]) == w + [SP];
    } else {
      var v, ws := Word(e, charset, chunks[0]), Words(e, charset, chunks[1..]);
      SnocWords(e, charset, chunks[1..], c);
      assert (chunks + [c])[1..] == chunks[1..] + [c];
      assert v + ([SP] + (ws + (w + [SP]))) == v + ([SP] + ws) + (w + [SP]);
      assert v + ([SP] + (ws + w)) == v + ([SP] + ws) + w;
    }
  }

  /** One more chunk, up to a boundary of the rest. */
  lemma OneMore(chunks: seq<seq<byte>>, s: seq<byte>, i: nat, j: nat)
    requires DividesUpTo(chunks, s, i) && i <= j <= |s| && Boundary(s[i..], j - i)
    ensures DividesUpTo(chunks + [s[i..j]], s, j)
  {
    hide DecodeAll, Boundary, Concat, RunesOf;
    Snoc(chunks, s[i..j]);
    CutAtBoundary(s[i..], j - i);
    SliceOfSlice(s, i, 0, j - i);
    SliceOfSlice(s, i, j - i, |s| - i);
    assert s[..i] + s[i..j] == s[..j];
  }

  // The encoder

  /** Every word fits in MAX_WORD characters. */
  predicate Short(e: Encoding, chunks: seq<seq<byte>>) {
    forall i :: 0 <= i < |chunks| ==> |Text(e, chunks[i])| <= MAX_CONTENT
  }

  /** Section 2 of RFC 2047 allows 75 characters. */
  lemma ShortWords(e: Encoding, charset: seq<byte>, chunks: seq<seq<byte>>, i: nat)
    requires IsUtf8(charset) && Short(e, chunks) && i < |chunks|
    ensures |Word(e, charset, chunks[i])| <= MAX_WORD
  {
    hide Text;
    assert |charset| == |M.ToLower(charset)| == 5;
  }

  /** The first rune of s, as bytes. */
  function FirstOf(s: seq<byte>): (r: seq<byte>) { s[..DecodeRune(s).1] }

  /** No word with text a has room for the first rune of b. */
  predicate Tight(e: Encoding, a: seq<byte>, b: seq<byte>) {
    b != [] && |Text(e, a + FirstOf(b))| > MAX_CONTENT
  }

  /** No word is begun before the one before it is full. */
  predicate Full(e: Encoding, chunks: seq<seq<byte>>) {
    forall i :: 0 < i < |chunks| ==> Tight(e, chunks[i - 1], chunks[i])
  }

  /** The last of the chunks is full. */
  predicate LastFull(e: Encoding, chunks: seq<seq<byte>>, rest: seq<byte>) {
    chunks != [] ==> Tight(e, chunks[|chunks| - 1], rest)
  }

  /** It stays so when the rest is cut after a rune or more. */
  lemma FullStays(e: Encoding, chunks: seq<seq<byte>>, s: seq<byte>, j: nat, i: nat)
    requires Full(e, chunks) && j <= i <= |s| && Boundary(s[j..], i - j)
    requires LastFull(e, chunks, s[j..]) && (chunks != [] ==> j < i)
    ensures Full(e, chunks + [s[j..i]])
  {
    hide Text, DecodeRune;
    if chunks != [] {
      FirstOfPrefix(s[j..], i - j);
      SliceOfSlice(s, j, 0, i - j);
      SliceOfSlice(s[j..], 0, 0, DecodeRune(s[j..]).1);
      assert FirstOf(s[j..i]) == FirstOf(s[j..]);
    }
  }

  /** The next word is begun when the rune at i does not fit. */
  lemma NoRoom(e: Encoding, chunks: seq<seq<byte>>, s: seq<byte>, j: nat, i: nat)
    requires j <= i < |s|
    requires e == Q ==> |QText(s[j..i])| + |QText(FirstOf(s[i..]))| > MAX_CONTENT
    requires e == B ==> i - j + DecodeRune(s[i..]).1 > MAX_BASE64
    ensures LastFull(e, chunks + [s[j..i]], s[i..])
  {
    hide DecodeRune, QText, Base64Encode;
    QTextAppend(s[j..i], FirstOf(s[i..]));
    Base64Round(s[j..i] + FirstOf(s[i..]));
  }

  lemma NoneFull(e: Encoding, s: seq<byte>)
    ensures Full(e, []) && LastFull(e, [], s) && Full(e, [s])
  {
  }

  lemma {:induction false} QTextAppend(a: seq<byte>, b: seq<byte>)
    ensures QText(a + b) == QText(a) + QText(b)
  {
    hide QByte;
    if a == [] {
      assert a + b == b;
    } else {
      QTextAppend(a[1..], b);
      assert (a + b)[1..] == a[1..] + b;
      AppendThree(QByte(a[0]), QText(a[1..]), QText(b));
    }
  }

  predicate AsItIs(b: byte) { 32 <= b <= 126 && b != EQ && b != QM && b != UNDERSCORE }

  lemma RuneText(s: seq<byte>)
    requires s != []
    ensures var n := DecodeRune(s).1;
      if AsItIs(s[0]) then n == 1 && |QText(s[..n])| == 1 else |QText(s[..n])| == 3 * n
    ensures DecodeRune(s).1 <= 4
  {
    var n := DecodeRune(s).1;
    if n == 1 {
      assert s[..1] == [s[0]];
      assert QText([s[0]]) == QByte(s[0]) + QText([]);
    } else {
      assert forall i :: 0 <= i < n ==> s[i] >= 0x80;
      HighText(s[..n]);
    }
  }

  lemma {:induction false} HighText(s: seq<byte>)
    requires forall i :: 0 <= i < |s| ==> s[i] >= 0x80
    ensures |QText(s)| == 3 * |s|
  {
    if s != [] {
      HighText(s[1..]);
    }
  }

  method WriteQString(s: seq<byte>) returns (out: seq<byte>)
    ensures out == QText(s)
  {
    hide QText, QByte;
    out := [];
    NoText();
    for i := 0 to |s|
      invariant out == QText(s[..i])
    {
      assert s[..i + 1] == s[..i] + [s[i]];
      QTextAppend(s[..i], [s[i]]);
      OneText(s[i]);
      if s[i] == SP {
        out := out + [UNDERSCORE];
      } else if 33 <= s[i] <= 126 && s[i] != EQ && s[i] != QM && s[i] != UNDERSCORE {
        out := out + [s[i]];
      } else {
        out := out + [EQ, M.HexDigit(s[i] / 16), M.HexDigit(s[i] % 16)];
      }
    }
    assert s[..|s|] == s;
  }

  lemma NoText()
    ensures QText([]) == []
  {
  }

  lemma OneText(c: byte)
    ensures QText([c]) == QByte(c)
    ensures QByte(c) == if c == SP then [UNDERSCORE]
                        else if 33 <= c <= 126 && c != EQ && c != QM && c != UNDERSCORE then [c]
                        else [EQ, M.HexDigit(c / 16), M.HexDigit(c % 16)]
  {
    assert [c][1..] == [] && QByte(c) + [] == QByte(c);
  }

  /** What has been written: whole words, and one still open. */
  ghost predicate Written(e: Encoding, charset: seq<byte>, buf: seq<byte>, chunks: seq<seq<byte>>, text: seq<byte>) {
    buf == Words(e, charset, chunks) + (Open(e, charset) + text)
  }

  lemma WordDone(e: Encoding, charset: seq<byte>, buf: seq<byte>, chunks: seq<seq<byte>>, c: seq<byte>)
    requires Written(e, charset, buf, chunks, Text(e, c))
    ensures buf + CLOSE == Line(e, charset, chunks + [c])
    ensures Written(e, charset, buf + CLOSE + [SP] + Open(e, charset), chunks + [c], [])
  {
    hide Open, Text, Line, Words;
    SnocWords(e, charset, chunks, c);
    var ws := Words(e, charset, chunks);
    assert ws + (Open(e, charset) + Text(e, c)) + CLOSE == ws + (Open(e, charset) + Text(e, c) + CLOSE);
    assert ws + (Word(e, charset, c) + [SP]) == ws + Word(e, charset, c) + [SP];
    assert Open(e, charset) + [] == Open(e, charset);
  }

  lemma MoreText(e: Encoding, charset: seq<byte>, buf: seq<byte>, chunks: seq<seq<byte>>,
                 text: seq<byte>, more: seq<byte>)
    requires Written(e, charset, buf, chunks, text)
    ensures Written(e, charset, buf + more, chunks, text + more)
  {
    hide Open, Words;
  }

  /** The text of an encoded-word in Q encoding, with a new word begun whenever the
      next rune does not fit. The last word is still open. */
  method QEncode(charset: seq<byte>, s: seq<byte>) returns (buf: seq<byte>, ghost chunks: seq<seq<byte>>)
    requires IsUtf8(charset)
    ensures chunks != [] && buf + CLOSE == Line(Q, charset, chunks)
    ensures Divides(chunks, s) && Short(Q, chunks) && Full(Q, chunks)
  {
    hide QText, Open, Words, Line, DecodeAll, Boundary, Concat, RunesOf, DecodeRune, Full, LastFull;
    buf := Open(Q, charset);
    var currentLen, i := 0, 0;
    ghost var done: seq<seq<byte>>, j := [], 0;
    Begin(Q, charset, s);
    NoneFull(Q, s);
    while i < |s|
      invariant 0 <= j <= i <= |s| && DividesUpTo(done, s, j) && Boundary(s[j..], i - j) && Short(Q, done)
      invariant Written(Q, charset, buf, done, QText(s[j..i])) && currentLen == |QText(s[j..i])| <= MAX_CONTENT
      invariant Full(Q, done) && LastFull(Q, done, s[j..]) && (done != [] ==> j < i)
    {
      RuneText(s[i..]);
      var runeLen, encLen := 1, 1;
      if !AsItIs(s[i]) {
        runeLen := DecodeRune(s[i..]).1;
        encLen := 3 * runeLen;
      }
      if currentLen + encLen > MAX_CONTENT {
        WordDone(Q, charset, buf, done, s[j..i]);
        OneMore(done, s, j, i);
        FullStays(Q, done, s, j, i);
        NoRoom(Q, done, s, j, i);
        buf := buf + CLOSE + [SP] + Open(Q, charset);
        currentLen := 0;
        done := done + [s[j..i]];
        j := i;
        Fresh(s, i);
      }
      var text := WriteQString(s[i..i + runeLen]);
      SliceOfSlice(s, i, 0, runeLen);
      RuneAdded(s, j, i, runeLen);
      MoreText(Q, charset, buf, done, QText(s[j..i]), text);
      buf := buf + text;
      currentLen := currentLen + encLen;
      i := i + runeLen;
    }
    WordDone(Q, charset, buf, done, s[j..i]);
    OneMore(done, s, j, i);
    FullStays(Q, done, s, j, i);
    chunks := done + [s[j..i]];
    AllDivided(chunks, s);
  }

  lemma Begin(e: Encoding, charset: seq<byte>, s: seq<byte>)
    ensures DividesUpTo([], s, 0) && Boundary(s[0..], 0) && s[0..0] == []
    ensures Written(e, charset, Open(e, charset), [], []) && QText([]) == []
  {
    hide Open;
    assert s[0..] == s && s[..0] == [] && [] + DecodeAll(s) == DecodeAll(s);
    assert [] + (Open(e, charset) + []) == Open(e, charset);
  }

  lemma Fresh(s: seq<byte>, i: nat)
    requires i <= |s|
    ensures Boundary(s[i..], 0) && s[i..i] == [] && QText(s[i..i]) == []
  {
  }

  lemma RuneAdded(s: seq<byte>, j: nat, i: nat, n: nat)
    requires j <= i < |s| && Boundary(s[j..], i - j) && n == DecodeRune(s[i..]).1
    ensures i + n <= |s| && Boundary(s[j..], i + n - j)
    ensures QText(s[j..i + n]) == QText(s[j..i]) + QText(s[i..i + n])
  {
    hide QText, Boundary, DecodeRune;
    SliceOfSlice(s, j, i - j, |s| - j);
    NextBoundary(s[j..], i - j);
    QTextAppend(s[j..i], s[i..i + n]);
    assert s[j..i] + s[i..i + n] == s[j..i + n];
  }

  lemma AllDivided(chunks: seq<seq<byte>>, s: seq<byte>)
    requires DividesUpTo(chunks, s, |s|)
    ensures Divides(chunks, s)
  {
    hide DecodeAll;
    NoRunes();
    assert s[..|s|] == s && s[|s|..] == [];
    assert RunesOf(chunks) + [] == RunesOf(chunks);
  }

  function EncodedLen(n: nat): (r: nat) { (n + 2) / 3 * 4 }

  lemma ShortBase64(s: seq<byte>)
    requires |s| <= MAX_BASE64 || EncodedLen(|s|) <= MAX_CONTENT
    ensures |Text(B, s)| <= MAX_CONTENT
  {
    Base64Round(s);
  }

  /** The same in Base64, where a word takes up to MAX_BASE64 bytes. */
  method BEncode(charset: seq<byte>, s: seq<byte>) returns (buf: seq<byte>, ghost chunks: seq<seq<byte>>)
    requires IsUtf8(charset)
    ensures chunks != [] && buf + CLOSE == Line(B, charset, chunks)
    ensures Divides(chunks, s) && Short(B, chunks) && Full(B, chunks)
  {
    hide Base64Encode, Open, Line, Boundary, DecodeRune, Divides, DividesUpTo, Written, Short, QText, Full, LastFull;
    buf := Open(B, charset);
    var currentLen, last, i := 0, 0, 0;
    ghost var done: seq<seq<byte>> := [];
    Begin(B, charset, s);
    NoneFull(B, s);
    if EncodedLen(|s|) <= MAX_CONTENT {
      OneWord(charset, s);
      return Open(B, charset) + Base64Encode(s), [s];
    }
    NoneYet(B);
    while i < |s|
      invariant 0 <= last <= i <= |s| && DividesUpTo(done, s, last) && Boundary(s[last..], i - last)
      invariant Short(B, done) && Written(B, charset, buf, done, []) && currentLen == i - last <= MAX_BASE64
      invariant Full(B, done) && LastFull(B, done, s[last..]) && (done != [] ==> last < i)
    {
      RuneText(s[i..]);
      var runeLen := DecodeRune(s[i..]).1;
      if currentLen + runeLen <= MAX_BASE64 {
        currentLen := currentLen + runeLen;
      } else {
        BaseWord(charset, buf, done, s[last..i]);
        OneMore(done, s, last, i);
        FullStays(B, done, s, last, i);
        NoRoom(B, done, s, last, i);
        buf := buf + Base64Encode(s[last..i]) + CLOSE + [SP] + Open(B, charset);
        done := done + [s[last..i]];
        last := i;
        currentLen := runeLen;
        Fresh(s, i);
      }
      RuneAdded(s, last, i, runeLen);
      i := i + runeLen;
    }
    assert s[last..] == s[last..i];
    BaseWord(charset, buf, done, s[last..i]);
    OneMore(done, s, last, i);
    FullStays(B, done, s, last, i);
    buf := buf + Base64Encode(s[last..]);
    chunks := done + [s[last..i]];
    AllDivided(chunks, s);
  }

  lemma BaseWord(charset: seq<byte>, buf: seq<byte>, done: seq<seq<byte>>, c: seq<byte>)
    requires Written(B, charset, buf, done, []) && |c| <= MAX_BASE64 && Short(B, done)
    ensures buf + Base64Encode(c) + CLOSE == Line(B, charset, done + [c])
    ensures Written(B, charset, buf + Base64Encode(c) + CLOSE + [SP] + Open(B, charset), done + [c], [])
    ensures Short(B, done + [c])
  {
    hide Base64Encode, Open, Words, Line;
    ShortBase64(c);
    MoreText(B, charset, buf, done, [], Base64Encode(c));
    assert [] + Base64Encode(c) == Base64Encode(c);
    WordDone(B, charset, buf + Base64Encode(c), done, c);
  }

  lemma NoneYet(e: Encoding)
    ensures Short(e, [])
  {
  }

  lemma OneWord(charset: seq<byte>, s: seq<byte>)
    requires EncodedLen(|s|) <= MAX_CONTENT
    ensures Open(B, charset) + Base64Encode(s) + CLOSE == Line(B, charset, [s])
    ensures Divides([s], s) && Short(B, [s])
  {
    hide Base64Encode, Divides;
    ShortBase64(s);
    OnlyOne(s);
  }

  lemma OnlyOne(s: seq<byte>)
    ensures Divides([s], s)
  {
    hide DecodeAll;
    assert [s][1..] == [] && s + [] == s && DecodeAll(s) + [] == DecodeAll(s);
    assert Concat([]) == [] && RunesOf([]) == [];
    assert Concat([s]) == s && RunesOf([s]) == DecodeAll(s);
  }

  /** Encodes what needs it. Decoding gives the text back: converted, if the character
      set is not UTF-8, when the text is never divided. Text that needs no encoding comes
      back unless it holds something that decodes. */
  method Encode(e: Encoding, charset: seq<byte>, s: seq<byte>) returns (out: seq<byte>, ghost chunks: seq<seq<byte>>)
    ensures chunks != [] && (!IsUtf8(charset) ==> chunks == [s])
    ensures !M.NeedsEncoding(s) ==> out == s && (DecodeHeader(out) == Some(s) <==> Met(s) == [])
    ensures M.NeedsEncoding(s) && QM !in charset ==> DecodeHeader(out) == Convert(charset, s)
    ensures M.NeedsEncoding(s) ==> out == Line(e, charset, chunks)
    ensures M.NeedsEncoding(s) && IsUtf8(charset) ==> Divides(chunks, s) && Short(e, chunks) && Full(e, chunks)
  {
    hide QText, Base64Encode, DecodeHeader, Met, Divides, Short, Full, M.NeedsEncoding;
    chunks := [s];
    if !M.NeedsEncoding(s) {
      PlainRound(s);
      return s, chunks;
    }
    var buf;
    if !IsUtf8(charset) {
      if QM !in charset {
        WordRound(e, charset, s);
      }
      if e == B {
        return Open(e, charset) + Base64Encode(s) + CLOSE, chunks;
      }
      var text := WriteQString(s);
      return Open(e, charset) + text + CLOSE, chunks;
    }
    if e == B {
      buf, chunks := BEncode(charset, s);
    } else {
      buf, chunks := QEncode(charset, s);
    }
    out := buf + CLOSE;
    assert QM !in charset by { Utf8Name(charset); }
    RoundTrip(e, charset, chunks);
    Whole(chunks, s);
  }

  lemma Utf8Name(charset: seq<byte>)
    requires IsUtf8(charset)
    ensures QM !in charset
  {
    forall i | 0 <= i < |charset|
      ensures charset[i] != QM
    {
      assert M.ToLower(charset)[i] == M.Lower(charset[i]);
    }
  }

  lemma Whole(chunks: seq<seq<byte>>, s: seq<byte>)
    requires Divides(chunks, s)
    ensures Concat(chunks) == s
  {
  }

  // The loops of the decoder

  /** Fills an array at most as long as the text. */
  method QDecodeLoop(s: seq<byte>) returns (r: Option<seq<byte>>)
    ensures r == QDecode(s)
  {
    hide QDecode;
    var dec := new byte[|s|];
    var n, i := 0, 0;
    assert s[0..] == s;
    NothingDecoded();
    AppendNothing(QDecode(s));
    while i < |s|
      invariant 0 <= n <= i <= |s| && QDecode(s) == Append(dec[0..n], QDecode(s[i..]))
    {
      var c, had := s[i], dec[0..n];
      QDecodeStep(s[i..], had);
      SliceOfSlice(s, i, 1, |s| - i);
      var step := 1;
      if c == UNDERSCORE {
        dec[n] := SP;
      } else if c == EQ {
        if i + 2 >= |s| || !M.IsHex(s[i + 1]) || !M.IsHex(s[i + 2]) {
          return None;
        }
        SliceOfSlice(s, i, 3, |s| - i);
        dec[n] := M.Unhex(s[i + 1]) * 16 + M.Unhex(s[i + 2]);
        step := 3;
      } else if 32 <= c <= 126 || c == 10 || c == 13 || c == 9 {
        dec[n] := c;
      } else {
        return None;
      }
      assert dec[0..n + 1] == had + [dec[n]];
      n := n + 1;
      i := i + step;
    }
    assert s[|s|..] == [] && dec[0..n] + [] == dec[0..n];
    return Some(dec[0..n]);
  }

  lemma NothingDecoded()
    ensures QDecode([]) == Some([])
  {
  }

  lemma AppendNothing(r: Option<seq<byte>>)
    ensures Append([], r) == r
  {
    if r.Some? {
      assert [] + r.value == r.value;
    }
  }

  lemma AppendCons(a: seq<byte>, c: byte, r: Option<seq<byte>>)
    ensures Append(a, Cons(c, r)) == Append(a + [c], r)
  {
    if r.Some? {
      AppendThree(a, [c], r.value);
    }
  }

  lemma QDecodeStep(s: seq<byte>, had: seq<byte>)
    requires s != []
    ensures Append(had, QDecode(s)) ==
            if s[0] == UNDERSCORE then Append(had + [SP], QDecode(s[1..]))
            else if s[0] == EQ then
              if |s| < 3 || !M.IsHex(s[1]) || !M.IsHex(s[2]) then None
              else Append(had + [M.Unhex(s[1]) * 16 + M.Unhex(s[2])], QDecode(s[3..]))
            else if 32 <= s[0] <= 126 || s[0] == 10 || s[0] == 13 || s[0] == 9 then
              Append(had + [s[0]], QDecode(s[1..]))
            else None
  {
    AppendCons(had, SP, QDecode(s[1..]));
    AppendCons(had, s[0], QDecode(s[1..]));
    if |s| >= 3 && M.IsHex(s[1]) && M.IsHex(s[2]) {
      AppendCons(had, M.Unhex(s[1]) * 16 + M.Unhex(s[2]), QDecode(s[3..]));
    }
  }

  lemma AppendTwice(a: seq<byte>, b: seq<byte>, r: Option<seq<byte>>)
    ensures Append(a, Append(b, r)) == Append(a + b, r)
  {
    if r.Some? {
      AppendThree(a, b, r.value);
    }
  }

  method DecodeHeaderLoop(h: seq<byte>) returns (r: Option<seq<byte>>)
    ensures r == DecodeHeader(h)
  {
    hide Find, IndexPair, Decode, Convert, NonWhite;
    var i := IndexPair(h, EQ, QM);
    if i < 0 {
      return Some(h);
    }
    var buf, header, betweenWords := h[..i], h[i..], false;
    while true
      invariant DecodeHeader(h) == Append(buf, Header(header, betweenWords))
      decreases |header|
    {
      var f := Find(header);
      HeaderStep(header, betweenWords, buf);
      if f == Nothing {
        break;
      }
      var content := Decode(f.encoding, f.text);
      if content == None {
        betweenWords := false;
        buf := buf + header[..f.start + 2];
        header := header[f.start + 2..];
        continue;
      }
      if f.start > 0 && (!betweenWords || NonWhite(header[..f.start])) {
        buf := buf + header[..f.start];
      }
      var c := Convert(f.charset, content.value);
      if c == None {
        return None;
      }
      buf := buf + c.value;
      header := header[f.end..];
      betweenWords := true;
    }
    return Some(buf + header);
  }

  lemma HeaderStep(h: seq<byte>, between: bool, buf: seq<byte>)
    ensures var f := Find(h);
      Append(buf, Header(h, between)) ==
      if f == Nothing then Some(buf + h)
      else if Decode(f.encoding, f.text) == None then Append(buf + h[..f.start + 2], Header(h[f.start + 2..], false))
      else
        var c := Convert(f.charset, Decode(f.encoding, f.text).value);
        if c == None then None
        else Append((if f.start > 0 && (!between || NonWhite(h[..f.start])) then buf + h[..f.start] else buf) + c.value,
                    Header(h[f.end..], true))
  {
    hide Find, Decode, Convert, NonWhite;
    var f := Find(h);
    if f.At? {
      AppendTwice(buf, h[..f.start + 2], Header(h[f.start + 2..], false));
      if Decode(f.encoding, f.text).Some? {
        var c := Convert(f.charset, Decode(f.encoding, f.text).value);
        if c.Some? {
          AppendTwice(buf, c.value, Header(h[f.end..], true));
          AppendTwice(buf, h[..f.start] + c.value, Header(h[f.end..], true));
          AppendThree(buf, h[..f.start], c.value);
        }
      }
    }
  }
}
