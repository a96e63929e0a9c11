/** Parameters in parts (RFC 2231, section 3): a printer for values that are divided into
    numbered parts, and the law that the parser of media types puts them together. */
module Continuations {
  import opened Common
  import opened SortedKeys
  import opened TextLines
  import opened MediaType
  import opened Parameters

  /** A part is written as it is or percent-encoded, or has a text that cannot be
      decoded. */
  datatype Piece = AsIs(v: Value) | Coded(v: Value) | Broken(text: Value)

  /** What stands in a header under one name: numbered parts, and the value as a whole in
      its extended form. */
  datatype Slot = Whole | Num(n: nat)

  /** The character set and the language before the first encoded byte. */
  datatype Head = Head(charset: seq<byte>, language: seq<byte>)

  predicate HeadOk(h: Head) {
    ToLower(h.charset) in {UTF8, US_ASCII} && AllToken(h.language) && TICK !in h.language
  }

  function HeadText(h: Head): (r: seq<byte>) { h.charset + ([TICK] + (h.language + [TICK])) }

  /** Slot s can hold p: what is written as it is has to fit a quoted string, and the
      whole value is encoded. */
  predicate PartOk(s: Slot, p: Piece) {
    match p
    case AsIs(v) => Quotable(v) && s.Num?
    case Coded(_) => true
    case Broken(text) => Quotable(text) && (if Heads(s) then Decode2231Enc(text) else PercentHexUnescape(text)) == None
  }

  /** Only the whole and the first part carry the character set. */
  predicate Heads(s: Slot) { s == Whole || s == Num(0) }

  // Printing

  function SlotName(name: Key, s: Slot, p: Piece): (r: Key) {
    match s
    case Whole => name + [STAR]
    case Num(n) => Part(name, n) + if p.AsIs? then [] else [STAR]
  }

  /** The value written. */
  function SlotValue(s: Slot, p: Piece, h: Head): (r: Value) {
    match p
    case AsIs(v) => v
    case Coded(v) => (if Heads(s) then HeadText(h) else []) + Percent(v)
    case Broken(text) => text
  }

  // What the parts mean

  /** What cannot be decoded counts as nothing. */
  function Says(p: Piece): (r: Value) { if p.Broken? then [] else p.v }

  /** Numbered parts count from n up to the first that is missing. */
  function Joint(parts: map<Slot, Piece>, n: nat): (r: Value)
    decreases parts.Keys - Below(n)
  {
    if Num(n) in parts then
      assert Num(n) in Below(n + 1) && Num(n) !in Below(n) && Below(n) <= Below(n + 1);
      Says(parts[Num(n)]) + Joint(parts, n + 1)
    else []
  }

  ghost function Below(n: nat): (r: set<Slot>) { set m: nat | m < n :: Num(m) }

  /** The whole value if it is there and can be decoded; if it is not there, the parts
      from number 0 on, if there is one. */
  function Meaning(parts: map<Slot, Piece>): (r: Option<Value>) {
    if Whole in parts then (if parts[Whole].Broken? then None else Some(parts[Whole].v))
    else if Num(0) in parts then Some(Joint(parts, 0))
    else None
  }

  // One part

  lemma CharsetToken(charset: seq<byte>)
    requires ToLower(charset) in {UTF8, US_ASCII}
    ensures IsToken(charset) && TICK !in charset
  {
    forall i | 0 <= i < |charset|
      ensures TokenChar(charset[i]) && charset[i] != TICK
    {
      assert Lower(charset[i]) == ToLower(charset)[i];
    }
  }

  lemma HeadRound(h: Head, v: Value)
    requires HeadOk(h)
    ensures Decode2231Enc(HeadText(h) + Percent(v)) == Some(v) && IsToken(HeadText(h) + Percent(v))
  {
    hide Percent, PercentHexUnescape, ToLower, IsToken;
    CharsetToken(h.charset);
    PercentRound(v);
    var after := h.language + ([TICK] + Percent(v));
    var s := h.charset + ([TICK] + after);
    assert HeadText(h) + Percent(v) == s;
    FirstTick(h.charset, after);
    FirstTick(h.language, Percent(v));
    AllTokens(h.charset, h.language, Percent(v));
  }

  /** Where the text up to the tick ends. */
  lemma FirstTick(a: seq<byte>, b: seq<byte>)
    requires TICK !in a
    ensures var s := a + ([TICK] + b); IndexByte(s, TICK) == |a| && s[..|a|] == a && s[|a| + 1..] == b
  {
    var s := a + ([TICK] + b);
    assert s[..|a|] == a && s[|a|] == TICK;
    IndexUnique(s, TICK, |a|);
  }

  /** The extended form is decoded if its character set is known and its text is
      percent-encoded. */
  lemma ExtendedReads(charset: seq<byte>, language: seq<byte>, text: seq<byte>)
    requires TICK !in charset && TICK !in language
    ensures Decode2231Enc(charset + ([TICK] + (language + ([TICK] + text)))) ==
            if ToLower(charset) in {UTF8, US_ASCII} then PercentHexUnescape(text) else None
  {
    hide PercentHexUnescape, ToLower;
    FirstTick(charset, language + ([TICK] + text));
    FirstTick(language, text);
  }

  /** Nothing else is. */
  lemma ExtendedForm(v: seq<byte>) returns (charset: seq<byte>, language: seq<byte>, text: seq<byte>)
    requires Decode2231Enc(v).Some?
    ensures TICK !in charset && TICK !in language && v == charset + ([TICK] + (language + ([TICK] + text)))
  {
    hide PercentHexUnescape, ToLower, IndexByte;
    var i := IndexByte(v, TICK);
    var w := v[i + 1..];
    var j := IndexByte(w, TICK);
    charset, language, text := v[..i], w[..j], w[j + 1..];
    CutAt(v, i);
    CutAt(w, j);
  }

  lemma CutAt(s: seq<byte>, i: nat)
    requires i < |s|
    ensures s == s[..i] + ([s[i]] + s[i + 1..])
  {
  }

  lemma AllTokens(a: seq<byte>, b: seq<byte>, c: seq<byte>)
    requires IsToken(a) && AllToken(b) && AllToken(c)
    ensures IsToken(a + ([TICK] + (b + ([TICK] + c))))
  {
  }

  lemma CodedIsToken(s: Slot, v: Value, h: Head)
    requires HeadOk(h)
    ensures AllToken(SlotValue(s, Coded(v), h))
  {
    hide Percent, HeadOk, HeadText;
    HeadRound(h, v);
    PercentRound(v);
    assert [] + Percent(v) == Percent(v);
  }

  lemma {:induction false} DecimalToken(n: nat)
    ensures IsToken(Decimal(n)) && ToLower(Decimal(n)) == Decimal(n)
  {
    if n >= 10 {
      DecimalToken(n / 10);
    }
  }

  // All parts

  /** The names of two slots differ. */
  lemma NamesDiffer(name: Key, s: Slot, p: Piece, s': Slot, p': Piece)
    requires s != s'
    ensures SlotName(name, s, p) != SlotName(name, s', p')
  {
    hide Decimal;
    if s.Num? && s'.Num? {
      hide Part;
      PartsDiffer(name, s.n, s'.n);
      PartNotStarred(name, s.n, s'.n);
      PartNotStarred(name, s'.n, s.n);
      assert Part(name, s.n) + [] == Part(name, s.n) && Part(name, s'.n) + [] == Part(name, s'.n);
    } else if s.Num? {
      WholeDiffers(name, s.n);
    } else {
      WholeDiffers(name, s'.n);
    }
  }

  lemma WholeDiffers(name: Key, n: nat)
    ensures |Part(name, n)| > |name + [STAR]|
  {
    DecimalIsValue(n);
  }

  lemma StarAt(name: Key, s: Slot, p: Piece)
    requires GoodKey(name)
    ensures var k := SlotName(name, s, p); IndexByte(k, STAR) == |name| && k[..|name|] == name
  {
    hide Decimal;
    var k := SlotName(name, s, p);
    assert k[..|name|] == name && k[|name|] == STAR;
    IndexUnique(k, STAR, |name|);
  }

  /** m holds the parts read so far and nothing else. */
  ghost predicate Holds(m: map<Key, Value>, name: Key, parts: map<Slot, Piece>, read: set<Slot>, h: Head)
    requires read <= parts.Keys
  {
    && (forall s :: s in read ==>
          SlotName(name, s, parts[s]) in m && m[SlotName(name, s, parts[s])] == SlotValue(s, parts[s], h))
    && (forall k :: k in m ==> exists s :: s in read && k == SlotName(name, s, parts[s]))
  }

  function Read(p: Pieces, name: Key): (m: map<Key, Value>) { if name in p.starred then p.starred[name] else map[] }

  lemma HoldsMore(m: map<Key, Value>, name: Key, parts: map<Slot, Piece>, read: set<Slot>, h: Head, s: Slot)
    requires read <= parts.Keys && s in parts && s !in read && Holds(m, name, parts, read, h)
    ensures SlotName(name, s, parts[s]) !in m
    ensures Holds(m[SlotName(name, s, parts[s]) := SlotValue(s, parts[s], h)], name, parts, read + {s}, h)
  {
    hide SlotName, SlotValue;
    forall s' | s' in read
      ensures SlotName(name, s', parts[s']) != SlotName(name, s, parts[s])
    {
      NamesDiffer(name, s', parts[s'], s, parts[s]);
    }
    var m' := m[SlotName(name, s, parts[s]) := SlotValue(s, parts[s], h)];
    forall k | k in m'
      ensures exists s' :: s' in read + {s} && k == SlotName(name, s', parts[s'])
    {
      if k in m {
        var s' :| s' in read && k == SlotName(name, s', parts[s']);
        assert s' in read + {s};
      } else {
        assert s in read + {s};
      }
    }
  }

  /** Entry e is an ordinary parameter, or the part for slot s. */
  predicate Fits(e: Entry, s: Option<Slot>, name: Key, parts: map<Slot, Piece>, h: Head) {
    && EntryOk(e)
    && match s
       case None => STAR !in ToLower(e.name)
       case Some(s) =>
         s in parts && PartOk(s, parts[s]) && ToLower(e.name) == SlotName(name, s, parts[s])
         && e.value == SlotValue(s, parts[s], h)
  }

  predicate AllFit(es: seq<Entry>, slots: seq<Option<Slot>>, name: Key, parts: map<Slot, Piece>, h: Head) {
    |es| == |slots| && forall i :: 0 <= i < |es| ==> Fits(es[i], slots[i], name, parts, h)
  }

  predicate DistinctNames(es: seq<Entry>) {
    forall i, j :: 0 <= i < j < |es| ==> ToLower(es[i].name) != ToLower(es[j].name)
  }

  /** The ordinary parameters. */
  function Ordinary(es: seq<Entry>, slots: seq<Option<Slot>>, m: map<Key, Value>): (r: map<Key, Value>)
    requires |es| == |slots|
    decreases |es|
  {
    if es == [] then m
    else Ordinary(es[1..], slots[1..], if slots[0] == None then m[ToLower(es[0].name) := es[0].value] else m)
  }

  function Slots(slots: seq<Option<Slot>>): (r: set<Slot>) {
    set i | 0 <= i < |slots| && slots[i].Some? :: slots[i].value
  }

  /** The parser collects exactly the ordinary parameters and the parts. */
  lemma {:induction false} PartsCollected(es: seq<Entry>, slots: seq<Option<Slot>>, name: Key, parts: map<Slot, Piece>,
                                          h: Head, p: Pieces, read: set<Slot>) returns (p': Pieces)
    requires AllFit(es, slots, name, parts, h) && DistinctNames(es) && GoodKey(name)
    requires read <= parts.Keys && Holds(Read(p, name), name, parts, read, h)
    requires forall i :: 0 <= i < |es| ==> !Has(p, ToLower(es[i].name))
    ensures PutAll(es, p) == Ended(p') && p'.params == Ordinary(es, slots, p.params)
    ensures Slots(slots) <= parts.Keys && Holds(Read(p', name), name, parts, read + Slots(slots), h)
    ensures p'.starred.Keys - {name} == p.starred.Keys - {name}
    ensures name in p'.starred <==> name in p.starred || Slots(slots) != {}
    decreases |es|
  {
    hide Holds, Has, Put, ToLower, SlotName, SlotValue, EntryOk, PartOk, GoodKey;
    if es == [] {
      p' := p;
      assert Slots(slots) == {} && read + {} == read;
    } else {
      var k, v, s := ToLower(es[0].name), es[0].value, slots[0];
      assert Fits(es[0], s, name, parts, h);
      OnePut(es[0], s, name, parts, h, p, read);
      forall i | 0 <= i < |es[1..]|
        ensures !Has(Put(p, k, v), ToLower(es[1..][i].name))
      {
        HasAfter(p, k, v, ToLower(es[1..][i].name));
      }
      var now := if s.Some? then {s.value} else {};
      p' := PartsCollected(es[1..], slots[1..], name, parts, h, Put(p, k, v), read + now);
      SlotsFirst(slots);
      assert read + now + Slots(slots[1..]) == read + Slots(slots);
    }
  }

  lemma SlotsFirst(slots: seq<Option<Slot>>)
    requires slots != []
    ensures Slots(slots) == (if slots[0].Some? then {slots[0].value} else {}) + Slots(slots[1..])
  {
    forall s
      ensures s in Slots(slots) <==> slots[0] == Some(s) || s in Slots(slots[1..])
    {
      if s in Slots(slots[1..]) {
        var i :| 0 <= i < |slots| - 1 && slots[1..][i] == Some(s);
        assert slots[i + 1] == Some(s);
      }
      if i :| 0 < i < |slots| && slots[i] == Some(s) {
        assert slots[1..][i - 1] == Some(s);
      }
    }
  }

  lemma OnePut(e: Entry, s: Option<Slot>, name: Key, parts: map<Slot, Piece>, h: Head, p: Pieces, read: set<Slot>)
    requires Fits(e, s, name, parts, h) && GoodKey(name) && !Has(p, ToLower(e.name))
    requires read <= parts.Keys && Holds(Read(p, name), name, parts, read, h)
    ensures var p', now := Put(p, ToLower(e.name), e.value), if s.Some? then {s.value} else {};
      && p'.params == (if s == None then p.params[ToLower(e.name) := e.value] else p.params)
      && now <= parts.Keys && Holds(Read(p', name), name, parts, read + now, h)
      && p'.starred.Keys == p.starred.Keys + (if s == None then {} else {name})
  {
    hide Holds, ToLower, SlotName, SlotValue, EntryOk, PartOk, GoodKey;
    match s
    case None => assert read + {} == read;
    case Some(s) =>
      StarAt(name, s, parts[s]);
      if s in read {
        HeldAlready(Read(p, name), name, parts, read, h, s);
      }
      HoldsMore(Read(p, name), name, parts, read, h, s);
  }

  lemma HeldAlready(m: map<Key, Value>, name: Key, parts: map<Slot, Piece>, read: set<Slot>, h: Head, s: Slot)
    requires read <= parts.Keys && s in read && Holds(m, name, parts, read, h)
    ensures SlotName(name, s, parts[s]) in m
  {
  }

  // Putting them together

  /** What PartValue finds under number n. */
  lemma PartFound(m: map<Key, Value>, name: Key, parts: map<Slot, Piece>, h: Head, n: nat)
    requires Holds(m, name, parts, parts.Keys, h) && HeadOk(h)
    requires forall s :: s in parts ==> PartOk(s, parts[s])
    ensures PartValue(name, m, n) == if Num(n) in parts then Some(Says(parts[Num(n)])) else None
  {
    hide Part, Percent, PercentHexUnescape, Decode2231Enc, HeadOk, HeadText;
    var plain, coded := Part(name, n), Part(name, n) + [STAR];
    assert plain + [] == plain;
    SlotUnder(m, name, parts, h, n);
    if Num(n) in parts && parts[Num(n)].Coded? {
      var v := parts[Num(n)].v;
      HeadRound(h, v);
      PercentRound(v);
      assert [] + Percent(v) == Percent(v);
    }
  }

  lemma SlotUnder(m: map<Key, Value>, name: Key, parts: map<Slot, Piece>, h: Head, n: nat)
    requires Holds(m, name, parts, parts.Keys, h)
    ensures Part(name, n) in m <==> Num(n) in parts && parts[Num(n)].AsIs?
    ensures Part(name, n) + [STAR] in m <==> Num(n) in parts && !parts[Num(n)].AsIs?
  {
    hide Part, SlotValue;
    var plain, coded := Part(name, n), Part(name, n) + [STAR];
    assert plain + [] == plain;
    NumNames(name, n);
    hide SlotName;
    if plain in m {
      var s :| s in parts.Keys && plain == SlotName(name, s, parts[s]);
      UnderNum(name, s, parts[s], n, AsIs([]));
    }
    if coded in m {
      var s :| s in parts.Keys && coded == SlotName(name, s, parts[s]);
      UnderNum(name, s, parts[s], n, Coded([]));
    }
    if Num(n) in parts {
      UnderNum(name, Num(n), parts[Num(n)], n, parts[Num(n)]);
    }
  }

  lemma NumNames(name: Key, n: nat)
    ensures SlotName(name, Num(n), AsIs([])) == Part(name, n)
    ensures SlotName(name, Num(n), Coded([])) == Part(name, n) + [STAR]
  {
  }

  /** A name belongs to one slot and one form. */
  lemma UnderNum(name: Key, s: Slot, p: Piece, n: nat, p': Piece)
    requires SlotName(name, s, p) == SlotName(name, Num(n), p')
    ensures s == Num(n) && p.AsIs? == p'.AsIs?
    ensures SlotName(name, s, p) == Part(name, n) + if p.AsIs? then [] else [STAR]
  {
    hide Part;
    if s != Num(n) {
      NamesDiffer(name, s, p, Num(n), p');
    }
  }

  lemma {:induction false} CollectIs(m: map<Key, Value>, name: Key, parts: map<Slot, Piece>, h: Head, n: nat)
    requires Holds(m, name, parts, parts.Keys, h) && HeadOk(h)
    requires forall s :: s in parts ==> PartOk(s, parts[s])
    ensures Collect(name, m, n) == Joint(parts, n)
    decreases parts.Keys - Below(n)
  {
    hide Holds, HeadOk, PartValue;
    PartFound(m, name, parts, h, n);
    if Num(n) in parts {
      assert Num(n) in Below(n + 1) && Num(n) !in Below(n) && Below(n) <= Below(n + 1);
      CollectIs(m, name, parts, h, n + 1);
    }
  }

  lemma WholeUnder(m: map<Key, Value>, name: Key, parts: map<Slot, Piece>, h: Head)
    requires Holds(m, name, parts, parts.Keys, h)
    ensures name + [STAR] in m <==> Whole in parts
    ensures Whole in parts ==> m[name + [STAR]] == SlotValue(Whole, parts[Whole], h)
  {
    hide SlotValue;
    WholeName(name);
    if Whole in parts {
      assert SlotName(name, Whole, parts[Whole]) == name + [STAR];
    }
    if name + [STAR] in m {
      var s :| s in parts.Keys && name + [STAR] == SlotName(name, s, parts[s]);
      if s != Whole {
        NamesDiffer(name, s, parts[s], Whole, Coded([]));
      }
    }
  }

  lemma WholeName(name: Key)
    ensures forall p :: SlotName(name, Whole, p) == name + [STAR]
  {
  }

  lemma JoinedIs(m: map<Key, Value>, name: Key, parts: map<Slot, Piece>, h: Head)
    requires Holds(m, name, parts, parts.Keys, h) && HeadOk(h)
    requires forall s :: s in parts ==> PartOk(s, parts[s])
    ensures Joined(name, m) == Meaning(parts)
  {
    hide Holds, HeadOk, PartValue, Collect, Joint, Decode2231Enc, Percent, HeadText;
    WholeUnder(m, name, parts, h);
    PartFound(m, name, parts, h, 0);
    CollectIs(m, name, parts, h, 0);
    if Whole in parts && parts[Whole].Coded? {
      HeadRound(h, parts[Whole].v);
    }
  }

  // Whole headers

  /** A value in parts among other parameters, in whatever order and layout they come: the
      parser puts together the encoded whole if there is one, and otherwise the numbered
      parts from 0 up to the first that is missing. What there is goes before an ordinary
      parameter of the same name. A broken whole is no value, and a broken part an empty
      one. */
  lemma PartsRound(a: seq<byte>, t: seq<byte>, b: seq<byte>, es: seq<Entry>, tail: seq<byte>,
                   slots: seq<Option<Slot>>, name: Key, parts: map<Slot, Piece>, h: Head)
    requires TypeOk(t) && Blanks(a) && Blanks(b) && Blanks(tail)
    requires if es == [] then tail == [] else es[0].before == []
    requires AllFit(es, slots, name, parts, h) && DistinctNames(es) && GoodKey(name) && HeadOk(h)
    requires Slots(slots) == parts.Keys
    ensures var param := Ordinary(es, slots, map[]);
      Parse(a + (t + b) + EntriesText(es, tail)) ==
      Parsed(ToLower(t), if Meaning(parts).Some? then param[name := Meaning(parts).value] else param)
  {
    hide Parse, EntryOk, TypeOk, GoodKey, HeadOk, ToLower, Holds, Meaning, SlotName, SlotValue, Stitch, PutAll, Has;
    hide PartOk;
    var none := Pieces(map[], map[]);
    AllOk(es, slots, name, parts, h);
    HeaderReads(a, t, b, es, tail);
    NothingHas(es);
    NothingHeld(Read(none, name), name, parts, h);
    var p := PartsCollected(es, slots, name, parts, h, none, {});
    assert {} + Slots(slots) == parts.Keys;
    StitchParts(p, name, parts, h);
  }

  lemma AllOk(es: seq<Entry>, slots: seq<Option<Slot>>, name: Key, parts: map<Slot, Piece>, h: Head)
    requires AllFit(es, slots, name, parts, h) && Slots(slots) == parts.Keys
    ensures EntriesOk(es) && forall s :: s in parts ==> PartOk(s, parts[s])
  {
    hide EntryOk, PartOk, SlotName, SlotValue, ToLower;
    forall i | 0 <= i < |es|
      ensures EntryOk(es[i])
    {
      assert Fits(es[i], slots[i], name, parts, h);
    }
    forall s | s in parts
      ensures PartOk(s, parts[s])
    {
      assert s in Slots(slots);
      var i :| 0 <= i < |slots| && slots[i].Some? && slots[i].value == s;
      assert Fits(es[i], slots[i], name, parts, h);
    }
  }

  lemma NothingHeld(m: map<Key, Value>, name: Key, parts: map<Slot, Piece>, h: Head)
    requires m == map[]
    ensures Holds(m, name, parts, {}, h)
  {
  }

  lemma StitchParts(p: Pieces, name: Key, parts: map<Slot, Piece>, h: Head)
    requires p.starred.Keys - {name} == {} && (name in p.starred <==> parts != map[]) && HeadOk(h)
    requires Holds(Read(p, name), name, parts, parts.Keys, h)
    requires forall s :: s in parts ==> PartOk(s, parts[s])
    ensures Stitch(p) == if Meaning(parts).Some? then p.params[name := Meaning(parts).value] else p.params
  {
    hide HeadOk, Holds, Joined, Stitch, Meaning, PartOk;
    MeaningOfNone();
    if parts != map[] {
      JoinedIs(p.starred[name], name, parts, h);
    }
    var v := Meaning(parts);
    forall k: Key
      ensures k in Stitch(p) <==> k in p.params || (k == name && v.Some?)
      ensures k in Stitch(p) ==> Stitch(p)[k] == if k == name && v.Some? then v.value else p.params[k]
    {
      assert k != name ==> k !in p.starred by {
        assert k in p.starred.Keys ==> k in p.starred.Keys - {name} || k == name;
      }
      StitchAt(p, k);
    }
  }

  lemma MeaningOfNone()
    ensures Meaning(map[]) == None
  {
  }

  /** What the parser gives for name k. */
  lemma StitchAt(p: Pieces, k: Key)
    ensures var v := if k in p.starred then Joined(k, p.starred[k]) else None;
      && (k in Stitch(p) <==> v.Some? || k in p.params)
      && (k in Stitch(p) ==> Stitch(p)[k] == if v.Some? then v.value else p.params[k])
  {
    hide Joined;
  }
}
