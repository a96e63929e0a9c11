/** Bytes as lines of text. */
module TextLines {
  import opened Common

  const CR: byte := 13
  const NL: byte := 10

  function IndexByte(s: seq<byte>, c: byte): (i: int)
    ensures -1 <= i < |s|
    ensures i >= 0 ==> s[i] == c && c !in s[..i]
    ensures i < 0 ==> c !in s
  {
    if s == [] then -1
    else if s[0] == c then 0
    else
      var i := IndexByte(s[1..], c);
      assert i >= 0 ==> s[..i + 1] == [s[0]] + s[1..][..i];
      if i < 0 then -1 else i + 1
  }

  lemma {:induction false} IndexUnique(s: seq<byte>, c: byte, i: nat)
    requires i < |s| && s[i] == c && c !in s[..i]
    ensures IndexByte(s, c) == i
  {
    if i > 0 {
      assert s[0] == s[..i][0];
      assert s[..i] == [s[0]] + s[1..][..i - 1];
      IndexUnique(s[1..], c, i - 1);
    }
  }

  lemma {:induction false} IndexPrefix(s: seq<byte>, c: byte, n: nat)
    requires n <= |s|
    ensures IndexByte(s[..n], c) == if 0 <= IndexByte(s, c) < n then IndexByte(s, c) else -1
  {
    if n > 0 && s[0] != c {
      assert s[..n][1..] == s[1..][..n - 1];
      IndexPrefix(s[1..], c, n - 1);
    }
  }

  function DropCR(data: seq<byte>): (r: seq<byte>) {
    if data != [] && data[|data| - 1] == CR then data[..|data| - 1] else data
  }

  /** The lines of the input: each newline ends one, and so does the end of the input
      if anything follows the last newline. */
  function Lines(input: seq<byte>): (r: seq<seq<byte>>) {
    var i := IndexByte(input, NL);
    if i >= 0 then [DropCR(input[..i])] + Lines(input[i + 1..])
    else if input != [] then [DropCR(input)]
    else []
  }

  /** A line as it stands in a text: what it says, and how it ends. */
  datatype Row = Row(text: seq<byte>, crlf: bool) {
    function Ended(): (r: seq<byte>) { text + if crlf then [CR] else [] }

    function Printed(): (r: seq<byte>) { Ended() + [NL] }

    predicate Plain() { NL !in text && (crlf || DropCR(text) == text) }

    lemma Shown()
      requires Plain()
      ensures NL !in Ended() && DropCR(Ended()) == text
    {
      assert crlf ==> Ended()[..|text|] == text;
    }
  }

  function Print(ls: seq<Row>): (r: seq<byte>) {
    if ls == [] then [] else ls[0].Printed() + Print(ls[1..])
  }

  function TextsOf(ls: seq<Row>): (r: seq<seq<byte>>) {
    if ls == [] then [] else [ls[0].text] + TextsOf(ls[1..])
  }

  lemma LastLine(tail: seq<byte>)
    requires NL !in tail
    ensures Lines(tail) == if tail == [] then [] else [DropCR(tail)]
  {
  }

  lemma FirstLine(line: seq<byte>, rest: seq<byte>)
    requires NL !in line
    ensures Lines(line + [NL] + rest) == [DropCR(line)] + Lines(rest)
  {
    var input := line + [NL] + rest;
    assert input[..|line|] == line && input[|line| + 1..] == rest;
    IndexUnique(input, NL, |line|);
  }

  /** The lines of a printed text are those that were printed, however each of them ends,
      and one more if something follows the last newline. */
  lemma {:induction false} PrintedLines(ls: seq<Row>, tail: seq<byte>)
    requires (forall l :: l in ls ==> l.Plain()) && NL !in tail
    ensures Lines(Print(ls) + tail) == TextsOf(ls) + if tail == [] then [] else [DropCR(tail)]
  {
    hide Lines, DropCR;
    if ls == [] {
      assert [] + tail == tail;
      LastLine(tail);
    } else {
      var l, rest := ls[0], Print(ls[1..]) + tail;
      PrintedLines(ls[1..], tail);
      assert l in ls;
      l.Shown();
      FirstLine(l.Ended(), rest);
      assert Print(ls) == l.Printed() + Print(ls[1..]);
      assert l.Printed() + Print(ls[1..]) + tail == l.Printed() + rest;
      assert TextsOf(ls) == [l.text] + TextsOf(ls[1..]);
    }
  }

  lemma IndexOfSuffix(s: seq<byte>, c: byte, n: nat)
    requires n <= |s| && c !in s[..n]
    ensures IndexByte(s, c) == if IndexByte(s[n..], c) < 0 then -1 else n + IndexByte(s[n..], c)
  {
    if n > 0 {
      assert s[0] == s[..n][0] && s[1..][..n - 1] == s[..n][1..] && s[1..][n - 1..] == s[n..];
      IndexOfSuffix(s[1..], c, n - 1);
    } else {
      assert s[0..] == s;
    }
  }
}
