/** Which texts the decoders of encoded-words and of media types accept, byte by byte, and
    what the printer of media types leaves as it is. */
module WordText {
  import opened Common
  import opened EncodedWord
  import opened SortedKeys
  import M = MediaType

  /** What a token is made of (RFC 2045, section 5.1): letters, digits and these. */
  const MARKS := "!#$%&'*+-.^_`{|}~"

  lemma TokenAlphabet(c: byte)
    ensures M.TokenChar(c) <==>
            || c as char in MARKS
            || (exists k :: From(c, 'A', 26, k) || From(c, 'a', 26, k) || From(c, '0', 10, k))
  {
    assert 65 <= c <= 90 ==> From(c, 'A', 26, c - 65);
    assert 97 <= c <= 122 ==> From(c, 'a', 26, c - 97);
    assert 48 <= c <= 57 ==> From(c, '0', 10, c - 48);
  }

  /** Letters go to lower case, and nothing else changes. */
  lemma LowerCase(c: byte)
    ensures forall k :: From(c, 'A', 26, k) ==> From(M.Lower(c), 'a', 26, k)
    ensures (forall k :: !From(c, 'A', 26, k)) ==> M.Lower(c) == c
  {
    assert 65 <= c <= 90 ==> From(c, 'A', 26, c - 65);
  }

  /** Only text with something other than printable ASCII and tabs needs encoding. */
  lemma NeedsEncodingIs(s: seq<byte>)
    ensures M.NeedsEncoding(s) <==> exists c :: c in s && c as char != '\t' && forall k :: !From(c, ' ', 95, k)
  {
    forall c: byte
      ensures M.Odd(c) <==> c as char != '\t' && forall k :: !From(c, ' ', 95, k)
    {
      assert 32 <= c <= 126 ==> From(c, ' ', 95, c - 32);
    }
    if M.NeedsEncoding(s) {
      var i :| 0 <= i < |s| && M.Odd(s[i]);
      assert s[i] in s;
    }
  }

  /** White space in ASCII: space, tab, newline, vertical tab, form feed, carriage return. */
  lemma BlankAscii(c: byte)
    ensures M.Blank(c) <==> c as char in " \t\n\U{b}\U{c}\r"
  {
  }

  /** The hexadecimal digits, in either case, and nothing else. */
  lemma HexDigits(c: byte)
    ensures forall k :: From(c, '0', 10, k) ==> M.IsHex(c) && M.Unhex(c) == k
    ensures forall k :: From(c, 'a', 6, k) || From(c, 'A', 6, k) ==> M.IsHex(c) && M.Unhex(c) == 10 + k
    ensures M.IsHex(c) ==> exists k :: From(c, '0', 10, k) || From(c, 'a', 6, k) || From(c, 'A', 6, k)
  {
    assert 48 <= c <= 57 ==> From(c, '0', 10, c - 48);
    assert 97 <= c <= 102 ==> From(c, 'a', 6, c - 97);
    assert 65 <= c <= 70 ==> From(c, 'A', 6, c - 65);
  }

  /** The base64 alphabet (RFC 4648, section 4), and nothing else. */
  lemma Base64Alphabet(c: byte)
    ensures forall k :: From(c, 'A', 26, k) ==> Base64Value(c) == k
    ensures forall k :: From(c, 'a', 26, k) ==> Base64Value(c) == 26 + k
    ensures forall k :: From(c, '0', 10, k) ==> Base64Value(c) == 52 + k
    ensures c == '+' as int ==> Base64Value(c) == 62
    ensures c == '/' as int ==> Base64Value(c) == 63
    ensures Base64Value(c) >= 0 ==>
              c == '+' as int || c == '/' as int
              || exists k :: From(c, 'A', 26, k) || From(c, 'a', 26, k) || From(c, '0', 10, k)
  {
    assert 65 <= c <= 90 ==> From(c, 'A', 26, c - 65);
    assert 97 <= c <= 122 ==> From(c, 'a', 26, c - 97);
    assert 48 <= c <= 57 ==> From(c, '0', 10, c - 48);
  }

  /** A byte that Q text may hold: printable, or one of tab, newline and carriage return. */
  predicate QByteOk(c: byte) { 32 <= c <= 126 || c == 9 || c == 10 || c == 13 }

  /** Byte i of s is in order. */
  predicate QOkAt(s: seq<byte>, i: nat)
    requires i < |s|
  {
    QByteOk(s[i]) && (s[i] == EQ ==> i + 2 < |s| && M.IsHex(s[i + 1]) && M.IsHex(s[i + 2]))
  }

  /** Every equals sign has two hexadecimal digits after it. */
  predicate QOk(s: seq<byte>) { forall i :: 0 <= i < |s| ==> QOkAt(s, i) }

  /** Q text is decoded exactly if it is in order throughout. */
  lemma {:induction false} QAccepts(s: seq<byte>)
    ensures QDecode(s).Some? <==> QOk(s)
    decreases |s|
  {
    if s == [] {
    } else if s[0] != EQ {
      QTail(s, 1);
      QAccepts(s[1..]);
      assert QOk(s) <==> QOkAt(s, 0) && QOk(s[1..]);
    } else if |s| >= 3 && M.IsHex(s[1]) && M.IsHex(s[2]) {
      HexPlain(s[1]);
      HexPlain(s[2]);
      QTail(s, 3);
      QAccepts(s[3..]);
      assert QOkAt(s, 0) && QOkAt(s, 1) && QOkAt(s, 2);
    } else {
      assert !QOkAt(s, 0);
    }
  }

  lemma HexPlain(c: byte)
    requires M.IsHex(c)
    ensures QByteOk(c) && c != EQ && c != M.PERCENT
  {
  }

  /** Once the first k bytes are in order the rest decides. */
  lemma QTail(s: seq<byte>, k: nat)
    requires k <= |s|
    ensures QOk(s) <==> (forall i :: 0 <= i < k ==> QOkAt(s, i)) && QOk(s[k..])
  {
    var t := s[k..];
    hide QByteOk, M.IsHex;
    forall i | 0 <= i < |t|
      ensures QOkAt(t, i) <==> QOkAt(s, k + i)
    {
      assert t[i] == s[k + i];
      if i + 2 < |t| {
        assert t[i + 1] == s[k + i + 1] && t[i + 2] == s[k + i + 2];
      }
    }
    hide QOkAt;
    assert forall i :: k <= i < |s| ==> QOkAt(s, i) == QOkAt(t, i - k);
  }

  /** Text without escapes and underscores stands for itself. */
  lemma {:induction false} QPlain(s: seq<byte>)
    requires forall i :: 0 <= i < |s| ==> QByteOk(s[i]) && s[i] != EQ && s[i] != UNDERSCORE
    ensures QDecode(s) == Some(s)
  {
    if s != [] {
      QPlain(s[1..]);
      assert [s[0]] + s[1..] == s;
    }
  }

  /** An underscore is a space, and two digits after an equals sign are a byte. */
  lemma QEscapes(more: seq<byte>, c: byte, d: byte)
    requires M.IsHex(c) && M.IsHex(d)
    ensures QDecode([UNDERSCORE] + more) == Cons(SP, QDecode(more))
    ensures QDecode([EQ, c, d] + more) == Cons(16 * M.Unhex(c) + M.Unhex(d), QDecode(more))
  {
    DropHead([UNDERSCORE], more);
    DropHead([EQ, c, d], more);
    assert ([EQ, c, d] + more)[1] == c && ([EQ, c, d] + more)[2] == d;
  }

  /** A percent sign at place i of s has two hexadecimal digits after it. */
  predicate PercentAt(s: seq<byte>, i: nat)
    requires i < |s|
  {
    s[i] == M.PERCENT ==> i + 2 < |s| && M.IsHex(s[i + 1]) && M.IsHex(s[i + 2])
  }

  /** Percent-encoded text is decoded exactly if every percent sign has two digits. */
  lemma {:induction false} PercentAccepts(s: seq<byte>)
    ensures M.PercentHexUnescape(s).Some? <==> forall i :: 0 <= i < |s| ==> PercentAt(s, i)
    decreases |s|
  {
    if s == [] {
    } else {
      var k := if s[0] != M.PERCENT then 1 else 3;
      if k == 1 || PercentAt(s, 0) {
        PercentAccepts(s[k..]);
        PercentTail(s, k);
        if k == 3 {
          HexPlain(s[1]);
          HexPlain(s[2]);
        }
      }
    }
  }

  lemma PercentTail(s: seq<byte>, k: nat)
    requires k <= |s|
    ensures (forall i :: 0 <= i < |s| - k ==> PercentAt(s[k..], i)) <==> forall i :: k <= i < |s| ==> PercentAt(s, i)
  {
    hide M.IsHex;
    forall i | k <= i < |s|
      ensures PercentAt(s, i) <==> PercentAt(s[k..], i - k)
    {
      assert forall j :: k <= j < |s| ==> s[k..][j - k] == s[j];
    }
    assert forall i :: 0 <= i < |s| - k ==> (PercentAt(s[k..], i) <==> PercentAt(s, i + k));
  }

  /** The two digits are a byte, and all else stands for itself. */
  lemma PercentEscapes(more: seq<byte>, b: byte, c: byte, d: byte)
    requires M.IsHex(c) && M.IsHex(d) && b != M.PERCENT
    ensures M.PercentHexUnescape([M.PERCENT, c, d] + more) ==
            Cons(16 * M.Unhex(c) + M.Unhex(d), M.PercentHexUnescape(more))
    ensures M.PercentHexUnescape([b] + more) == Cons(b, M.PercentHexUnescape(more))
  {
    DropHead([b], more);
    DropHead([M.PERCENT, c, d], more);
    assert ([M.PERCENT, c, d] + more)[1] == c && ([M.PERCENT, c, d] + more)[2] == d;
  }

  /** Whole groups of four characters of the alphabet, of which the last may end in one or
      two equals signs. */
  predicate Base64Ok(t: seq<byte>) {
    && |t| % 4 == 0
    && (forall i :: 0 <= i < |t| - 2 ==> Base64Value(t[i]) >= 0)
    && (t != [] ==>
          var a, b := t[|t| - 2], t[|t| - 1];
          (Base64Value(a) >= 0 && Base64Value(b) >= 0) || (Base64Value(a) >= 0 && b == EQ) || (a == EQ && b == EQ))
  }

  /** Base64 text is decoded exactly if its groups are in order. */
  lemma {:induction false} Base64Accepts(t: seq<byte>)
    ensures Base64Decode(t).Some? <==> Base64Ok(t)
    decreases |t|
  {
    PadValue();
    hide Base64Value;
    if |t| > 4 {
      var u := t[4..];
      Base64Accepts(u);
      assert forall i :: 0 <= i < |u| ==> u[i] == t[i + 4];
      if Base64Ok(t) {
        assert Base64Value(t[2]) >= 0 && Base64Value(t[3]) >= 0 by { assert |t| >= 8; }
      }
    } else if |t| == 4 {
      assert t[4..] == [];
    }
  }

  /** No other letter names an encoding. */
  lemma OtherLetters(x: byte, text: seq<byte>)
    requires x as char !in "BbQq"
    ensures Decode(x, text) == None
  {
  }

  // The printer

  /** An upper-case digit. */
  lemma UpperHex(d: nat)
    requires d < 16
    ensures M.HexDigit(d) == "0123456789ABCDEF"[d] as int
  {
  }

  /** The attribute characters (RFC 2231, section 7): those of a token but * ' and %. */
  lemma AttributeAlphabet(c: byte)
    ensures M.AttributeChar(c) <==> M.TokenChar(c) && c as char !in "*'%"
  {
  }

  /** Quoting changes only what has a quote or a backslash, and each of them by one byte. */
  lemma {:induction false} QuotedLength(v: seq<byte>)
    ensures |M.Quoted(v)| == |v| + Special(v)
    ensures Special(v) == 0 <==> M.QUOTE !in v && M.BACKSLASH !in v
  {
    if v != [] {
      QuotedLength(v[1..]);
      assert forall c: byte :: c in v <==> c == v[0] || c in v[1..];
    }
  }

  /** The number of quotes and backslashes. */
  function Special(v: seq<byte>): (n: nat) {
    if v == [] then 0 else (if v[0] == M.QUOTE || v[0] == M.BACKSLASH then 1 else 0) + Special(v[1..])
  }

  /** Percent-encoding changes only what is not an attribute character, and each of these
      by two bytes. */
  lemma {:induction false} PercentLength(v: seq<byte>)
    ensures |M.Percent(v)| == |v| + 2 * Others(v)
  {
    if v != [] {
      PercentLength(v[1..]);
    }
  }

  function Others(v: seq<byte>): (n: nat) {
    if v == [] then 0 else (if M.AttributeChar(v[0]) then 0 else 1) + Others(v[1..])
  }

  /** A value is quoted only where it must be: the text has a quote if and only if some
      value is neither a token nor to be encoded. */
  lemma {:induction false} QuotesWhere(attrs: seq<Key>, param: map<Key, M.Value>)
    requires forall k :: k in attrs ==> k in param && M.IsToken(k)
    ensures M.QUOTE in M.FormatParams(attrs, param) <==>
            exists k :: k in attrs && !M.IsToken(param[k]) && !M.NeedsEncoding(param[k])
    decreases |attrs|
  {
    hide M.IsToken, M.NeedsEncoding, M.FormatParam;
    if attrs != [] {
      var k := attrs[0];
      QuotesWhere(attrs[1..], param);
      ParamQuotes(k, param[k]);
      assert forall j :: j in attrs <==> j == k || j in attrs[1..];
    }
  }

  lemma ParamQuotes(k: Key, v: M.Value)
    requires M.IsToken(k)
    ensures M.QUOTE in M.FormatParam(k, v) <==> !M.IsToken(v) && !M.NeedsEncoding(v)
  {
    hide M.Percent, M.Quoted, M.NeedsEncoding;
    M.PercentRound(v);
    NoQuote(M.Percent(v));
    LowerNoQuote(k);
    if M.IsToken(v) {
      NoQuote(v);
    }
  }

  lemma NoQuote(s: seq<byte>)
    requires M.AllToken(s)
    ensures M.QUOTE !in s
  {
  }

  lemma LowerNoQuote(s: seq<byte>)
    requires M.IsToken(s)
    ensures M.QUOTE !in M.ToLower(s)
  {
  }
}
