/** The synchronous in-memory pipe of package io: every interleaving of parallel
    Reads, Writes and closes. */
module Pipe {
  import opened Common

  datatype Error = EOF | ErrClosedPipe | Other(code: int)

  function Min(a: nat, b: nat): (r: nat) { if a <= b then a else b }

  /** A call of Write: n bytes of data are counted as delivered.  held says whether
      a failing call owns wrMu. */
  datatype WritePc =
    | WStart | WLock | Offer(once: bool) | Await(reader: nat)
    | WFail(held: bool) | WFail2(held: bool, werr: Option<Error>)
    | WDone(err: Option<Error>)
  datatype Writer = Writer(data: seq<byte>, n: nat, pc: WritePc)

  /** A call of Read with a buffer of the given size; hand is the index of its
      handoff in the log. */
  datatype ReadPc =
    | RStart | RSelect | Send(writer: nat) | RFail | RFail2(rerr: Option<Error>)
    | RDone(err: Option<Error>)
  datatype Reader = Reader(size: nat, n: nat, hand: Option<nat>, pc: ReadPc)

  /** One receive from wrCh with the bytes copied out of the slice received. */
  datatype Handoff = Handoff(reader: nat, writer: nat, bytes: seq<byte>)

  /** order and log record the history: the calls of Write in the order in which
      they got wrMu, and the handoffs. */
  datatype State = State(writers: seq<Writer>, readers: seq<Reader>, wrMu: Option<nat>, done: bool,
                         rerr: Option<Error>, werr: Option<Error>,
                         order: seq<nat>, log: seq<Handoff>)

  const Init := State([], [], None, false, None, None, [], [])

  datatype Action =
    | NewWrite(data: seq<byte>) | NewRead(size: nat)
    | StoreRead(err: Option<Error>) | StoreWrite(err: Option<Error>) | CloseDone
    | WStep(w: nat) | WSeesDone(w: nat)
    | RStep(r: nat) | RSeesDone(r: nat)
    | HandOver(w: nat, r: nat) | Count(w: nat, r: nat)

  predicate WriterAt(s: State, w: nat, pc: WritePc) { w < |s.writers| && s.writers[w].pc == pc }

  predicate Offering(s: State, w: nat) {
    w < |s.writers| && s.writers[w].pc.Offer? && (s.writers[w].pc.once || s.writers[w].n < |s.writers[w].data|)
  }

  predicate Enabled(s: State, a: Action) {
    match a
    case NewWrite(_) => true
    case NewRead(_) => true
    case StoreRead(_) => true
    case StoreWrite(_) => true
    case CloseDone => s.rerr.Some? || s.werr.Some?
    case WStep(w) => w < |s.writers| && (
      match s.writers[w].pc
      case WStart => true
      case WLock => s.wrMu == None
      case Offer(_) => !Offering(s, w)
      case WFail(_) => true
      case WFail2(_, _) => true
      case _ => false)
    case WSeesDone(w) => Offering(s, w) && s.done
    case RStep(r) => r < |s.readers| && (
      match s.readers[r].pc
      case RStart => true
      case RFail => true
      case RFail2(_) => true
      case _ => false)
    case RSeesDone(r) => r < |s.readers| && s.readers[r].pc == RSelect && s.done
    case HandOver(w, r) => Offering(s, w) && r < |s.readers| && s.readers[r].pc == RSelect
    case Count(w, r) => w < |s.writers| && s.writers[w].pc.Await? && r < |s.readers| && s.readers[r].pc.Send?
  }

  function SetWriter(s: State, w: nat, x: Writer): (r: State)
    requires w < |s.writers|
  {
    s.(writers := s.writers[w := x])
  }

  function SetReader(s: State, r: nat, x: Reader): (v: State)
    requires r < |s.readers|
  {
    s.(readers := s.readers[r := x])
  }

  /** The first error stored wins. */
  function StoreOnce(old_: Option<Error>, e: Error): (r: Option<Error>) {
    if old_.Some? then old_ else Some(e)
  }

  function ReadCloseError(rerr: Option<Error>, werr: Option<Error>): (r: Error) {
    if rerr == None && werr.Some? then werr.value else ErrClosedPipe
  }

  function WriteCloseError(werr: Option<Error>, rerr: Option<Error>): (r: Error) {
    if werr == None && rerr.Some? then rerr.value else ErrClosedPipe
  }

  function Next(s: State, a: Action): (r: State)
    requires Enabled(s, a)
  {
    match a
    case NewWrite(data) => s.(writers := s.writers + [Writer(data, 0, WStart)])
    case NewRead(size) => s.(readers := s.readers + [Reader(size, 0, None, RStart)])
    case StoreRead(e) => s.(rerr := StoreOnce(s.rerr, if e == None then ErrClosedPipe else e.value))
    case StoreWrite(e) => s.(werr := StoreOnce(s.werr, if e == None then EOF else e.value))
    case CloseDone => s.(done := true)
    case WStep(w) => WriteStep(s, w)
    case WSeesDone(w) => SetWriter(s, w, s.writers[w].(pc := WFail(true)))
    case RStep(r) =>
      var x := s.readers[r];
      (match x.pc
       case RStart => SetReader(s, r, x.(pc := if s.done then RFail else RSelect))
       case RFail => SetReader(s, r, x.(pc := RFail2(s.rerr)))
       case RFail2(rerr) => SetReader(s, r, x.(pc := RDone(Some(ReadCloseError(rerr, s.werr)))))
       case _ => s)
    case RSeesDone(r) => SetReader(s, r, s.readers[r].(pc := RFail))
    case HandOver(w, r) => HandOverStep(s, w, r)
    case Count(w, r) => CountStep(s, w, r)
  }

  function WriteStep(s: State, w: nat): (r: State)
    requires Enabled(s, WStep(w))
  {
    var x := s.writers[w];
    match x.pc
    case WStart => SetWriter(s, w, x.(pc := if s.done then WFail(false) else WLock))
    case WLock => SetWriter(s, w, x.(pc := Offer(true))).(wrMu := Some(w), order := s.order + [w])
    case Offer(_) => SetWriter(s, w, x.(pc := WDone(None))).(wrMu := None)
    case WFail(held) => SetWriter(s, w, x.(pc := WFail2(held, s.werr)))
    case WFail2(held, werr) =>
      var s' := SetWriter(s, w, x.(pc := WDone(Some(WriteCloseError(werr, s.rerr)))));
      if held then s'.(wrMu := None) else s'
    case _ => s
  }

  /** A Read receives what is left of the slice a Write offers and copies as much
      as fits. */
  function HandOverStep(s: State, w: nat, r: nat): (v: State)
    requires Enabled(s, HandOver(w, r))
  {
    var x := s.writers[w];
    var rest := if x.n <= |x.data| then x.data[x.n..] else [];
    var k := Min(s.readers[r].size, |rest|);
    s.(writers := s.writers[w := x.(pc := Await(r))],
       readers := s.readers[r := s.readers[r].(n := k, hand := Some(|s.log|), pc := Send(w))],
       log := s.log + [Handoff(r, w, rest[..k])])
  }

  /** The Read sends the number of bytes it copied, and returns. */
  function CountStep(s: State, w: nat, r: nat): (v: State)
    requires Enabled(s, Count(w, r))
  {
    s.(writers := s.writers[w := s.writers[w].(n := s.writers[w].n + s.readers[r].n, pc := Offer(false))],
       readers := s.readers[r := s.readers[r].(pc := RDone(None))])
  }

  // ---- the invariant

  /** The number of bytes of a Write that have been handed to readers. */
  function Sent(s: State, w: nat): (r: nat)
    requires w < |s.writers|
  {
    var x := s.writers[w];
    if x.pc.Await? && x.pc.reader < |s.readers| then x.n + s.readers[x.pc.reader].n else x.n
  }

  function Prefix(s: State, w: nat): (r: seq<byte>) {
    if w < |s.writers| && Sent(s, w) <= |s.writers[w].data| then s.writers[w].data[..Sent(s, w)] else []
  }

  /** The prefixes consumed from the first k Writes, in wrMu order. */
  function Consumed(s: State, k: nat): (r: seq<byte>)
    requires k <= |s.order|
  {
    if k == 0 then [] else Consumed(s, k - 1) + Prefix(s, s.order[k - 1])
  }

  function Handed(log: seq<Handoff>): (r: seq<byte>) {
    if log == [] then [] else Handed(log[..|log| - 1]) + log[|log| - 1].bytes
  }

  /** The bytes handed over by Write w alone. */
  function HandedBy(log: seq<Handoff>, w: nat): (r: seq<byte>) {
    if log == [] then []
    else
      var h := log[|log| - 1];
      HandedBy(log[..|log| - 1], w) + if h.writer == w then h.bytes else []
  }

  predicate Owns(pc: WritePc) {
    pc.Offer? || pc.Await? || (pc.WFail? && pc.held) || (pc.WFail2? && pc.held)
  }

  predicate WriterOk(s: State, w: nat) {
    w < |s.writers| ==>
      var x := s.writers[w];
      && x.n <= |x.data|
      && (Owns(x.pc) <==> s.wrMu == Some(w))
      && (w !in s.order ==> x.n == 0)
      && (x.pc.WStart? || x.pc.WLock? ==> w !in s.order)
      && (Owns(x.pc) ==> w in s.order)
      && (x.pc.Await? ==> x.pc.reader < |s.readers| && s.readers[x.pc.reader].pc == Send(w)
                          && x.n + s.readers[x.pc.reader].n <= |x.data|)
      && (x.pc == WDone(None) ==> x.n == |x.data|)
      && (x.pc.WFail? || x.pc.WFail2? || (x.pc.WDone? && x.pc.err.Some?) ==> s.done)
      && (x.pc.WFail2? && x.pc.werr == None && s.werr == None ==> s.rerr.Some?)
      && (x.pc.WFail2? && x.pc.werr.Some? ==> s.werr.Some?)
      && (x.pc.WDone? && x.pc.err.Some? && s.werr == None ==> x.pc.err == s.rerr)
      && (x.pc.WDone? && x.pc.err.Some? ==> x.pc.err == s.rerr || x.pc.err == Some(ErrClosedPipe))
  }

  predicate ReaderOk(s: State, r: nat) {
    r < |s.readers| ==>
      var x := s.readers[r];
      && (x.hand.Some? ==> x.hand.value < |s.log| && s.log[x.hand.value].reader == r
                           && |s.log[x.hand.value].bytes| == x.n)
      && (x.hand.Some? <==> x.pc.Send? || x.pc == RDone(None))
      && (x.hand == None ==> x.n == 0)
      && (x.pc.Send? ==> WriterAt(s, x.pc.writer, Await(r)))
      && (x.pc.RFail? || x.pc.RFail2? || (x.pc.RDone? && x.pc.err.Some?) ==> s.done)
      && (x.pc.RFail2? && x.pc.rerr.Some? ==> s.rerr.Some?)
      && (x.pc.RDone? && x.pc.err.Some? && s.rerr == None ==> x.pc.err == s.werr)
      && (x.pc.RDone? && x.pc.err.Some? ==> x.pc.err == s.werr || x.pc.err == Some(ErrClosedPipe))
  }

  /** Each handoff belongs to one Read and one Write. */
  predicate LogOk(s: State, i: nat) {
    i < |s.log| ==>
      var h := s.log[i];
      && h.reader < |s.readers| && s.readers[h.reader].hand == Some(i)
      && h.writer < |s.writers| && |h.bytes| <= s.readers[h.reader].size
  }

  predicate OrderOk(s: State, i: nat, j: nat) {
    i < j < |s.order| ==> s.order[i] != s.order[j]
  }

  ghost predicate Inv(s: State) {
    && (forall w: nat :: WriterOk(s, w))
    && (forall r: nat :: ReaderOk(s, r))
    && (forall i: nat :: LogOk(s, i))
    && (forall i: nat, j: nat :: OrderOk(s, i, j))
    && (forall i: nat :: i < |s.order| ==> s.order[i] < |s.writers|)
    && (s.wrMu.Some? ==> s.order != [] && s.order[|s.order| - 1] == s.wrMu.value)
    && Handed(s.log) == Consumed(s, |s.order|)
    && (s.done ==> s.rerr.Some? || s.werr.Some?)
  }

  lemma {:induction false} ConsumedSame(s: State, s': State, k: nat)
    requires k <= |s.order| && k <= |s'.order|
    requires forall i: nat :: i < k ==> s'.order[i] == s.order[i] && Prefix(s', s.order[i]) == Prefix(s, s.order[i])
    ensures Consumed(s', k) == Consumed(s, k)
  {
    if k > 0 {
      ConsumedSame(s, s', k - 1);
    }
  }

  /** The count a reader sends can only be received by the Write whose slice it
      copied from. */
  lemma CountMatches(s: State, w: nat, r: nat)
    requires Inv(s) && Enabled(s, Count(w, r))
    ensures s.writers[w].pc == Await(r) && s.readers[r].pc == Send(w)
  {
    assert WriterOk(s, w) && ReaderOk(s, r);
    assert WriterOk(s, s.readers[r].pc.writer);
  }

  lemma WriterNext(s: State, a: Action, w: nat)
    requires Inv(s) && Enabled(s, a)
    ensures WriterOk(Next(s, a), w)
  {
    hide WriteStep;
    hide HandOverStep;
    hide CountStep;
    match a {
      case WStep(v) => WriterStep(s, v, w);
      case HandOver(v, r) => WriterHandOver(s, v, r, w);
      case Count(v, r) => WriterCount(s, v, r, w);
      case _ => WriterOther(s, a, w);
    }
  }

  lemma WriterStep(s: State, v: nat, w: nat)
    requires Inv(s) && Enabled(s, WStep(v))
    ensures WriterOk(WriteStep(s, v), w)
  {
    if v == w {
      OwnStep(s, w);
    } else {
      OthersStep(s, v, w);
    }
  }

  lemma OwnStep(s: State, w: nat)
    requires Inv(s) && Enabled(s, WStep(w))
    ensures WriterOk(WriteStep(s, w), w)
  {
    assert WriterOk(s, w);
  }

  lemma OthersStep(s: State, v: nat, w: nat)
    requires Inv(s) && Enabled(s, WStep(v)) && v != w
    ensures WriterOk(WriteStep(s, v), w)
  {
    assert WriterOk(s, w) && WriterOk(s, v);
  }

  lemma WriterHandOver(s: State, v: nat, r: nat, w: nat)
    requires Inv(s) && Enabled(s, HandOver(v, r))
    ensures WriterOk(HandOverStep(s, v, r), w)
  {
    assert WriterOk(s, w) && WriterOk(s, v);
  }

  lemma WriterCount(s: State, v: nat, r: nat, w: nat)
    requires Inv(s) && Enabled(s, Count(v, r))
    ensures WriterOk(CountStep(s, v, r), w)
  {
    assert WriterOk(s, w) && WriterOk(s, v);
    CountMatches(s, v, r);
  }

  lemma WriterOther(s: State, a: Action, w: nat)
    requires Inv(s) && Enabled(s, a) && !a.WStep? && !a.HandOver? && !a.Count?
    ensures WriterOk(Next(s, a), w)
  {
    hide WriteStep, HandOverStep, CountStep, ReaderOk, LogOk, OrderOk, Consumed, Handed;
    assert WriterOk(s, w);
    if a.WSeesDone? {
      assert WriterOk(s, a.w);
    }
  }

  lemma ReaderNext(s: State, a: Action, r: nat)
    requires Inv(s) && Enabled(s, a)
    ensures ReaderOk(Next(s, a), r)
  {
    hide WriteStep;
    hide HandOverStep;
    hide CountStep;
    match a {
      case WStep(v) => ReaderWStep(s, v, r);
      case HandOver(v, q) => ReaderHandOver(s, v, q, r);
      case Count(v, q) => ReaderCount(s, v, q, r);
      case _ => ReaderOther(s, a, r);
    }
  }

  lemma ReaderWStep(s: State, v: nat, r: nat)
    requires Inv(s) && Enabled(s, WStep(v))
    ensures ReaderOk(WriteStep(s, v), r)
  {
    assert ReaderOk(s, r) && WriterOk(s, v);
  }

  lemma ReaderHandOver(s: State, v: nat, q: nat, r: nat)
    requires Inv(s) && Enabled(s, HandOver(v, q))
    ensures ReaderOk(HandOverStep(s, v, q), r)
  {
    assert ReaderOk(s, r) && WriterOk(s, v) && ReaderOk(s, q);
  }

  lemma ReaderCount(s: State, v: nat, q: nat, r: nat)
    requires Inv(s) && Enabled(s, Count(v, q))
    ensures ReaderOk(CountStep(s, v, q), r)
  {
    assert ReaderOk(s, r) && ReaderOk(s, q);
    CountMatches(s, v, q);
  }

  lemma ReaderOther(s: State, a: Action, r: nat)
    requires Inv(s) && Enabled(s, a) && !a.WStep? && !a.HandOver? && !a.Count?
    ensures ReaderOk(Next(s, a), r)
  {
    hide WriteStep, HandOverStep, CountStep, WriterOk, LogOk, OrderOk, Consumed, Handed;
    assert ReaderOk(s, r);
    hide Inv;
  }

  lemma LogNext(s: State, a: Action, i: nat)
    requires Inv(s) && Enabled(s, a)
    ensures LogOk(Next(s, a), i)
  {
    hide HandOverStep;
    if a.HandOver? {
      LogHandOver(s, a.w, a.r, i);
    } else {
      assert LogOk(s, i);
    }
  }

  lemma LogHandOver(s: State, w: nat, r: nat, i: nat)
    requires Inv(s) && Enabled(s, HandOver(w, r))
    ensures LogOk(HandOverStep(s, w, r), i)
  {
    assert LogOk(s, i) && ReaderOk(s, r);
  }

  lemma OrderNext(s: State, a: Action, i: nat, j: nat)
    requires Inv(s) && Enabled(s, a)
    ensures OrderOk(Next(s, a), i, j)
    ensures i < |Next(s, a).order| ==> Next(s, a).order[i] < |Next(s, a).writers|
  {
    assert OrderOk(s, i, j);
    match a {
      case WStep(v) => assert WriterOk(s, v);
      case _ =>
    }
  }

  lemma HolderNext(s: State, a: Action)
    requires Inv(s) && Enabled(s, a)
    ensures var t := Next(s, a); t.wrMu.Some? ==> t.order != [] && t.order[|t.order| - 1] == t.wrMu.value
    ensures var t := Next(s, a); t.done ==> t.rerr.Some? || t.werr.Some?
  {
  }

  /** The bytes handed over are, at every moment, the consumed prefixes in order. */
  lemma ConsumedNext(s: State, a: Action)
    requires Inv(s) && Enabled(s, a)
    ensures var t := Next(s, a); Handed(t.log) == Consumed(t, |t.order|)
  {
    hide WriteStep;
    hide HandOverStep;
    hide CountStep;
    hide Inv;
    match a {
      case HandOver(w, r) => HandOverConsumed(s, w, r);
      case WStep(w) => WStepConsumed(s, w);
      case Count(w, r) => CountConsumed(s, w, r);
      case _ => OtherConsumed(s, a);
    }
  }

  lemma OtherConsumed(s: State, a: Action)
    requires Inv(s) && Enabled(s, a) && !a.WStep? && !a.HandOver? && !a.Count?
    ensures var t := Next(s, a); Handed(t.log) == Consumed(t, |t.order|)
  {
    var t := Next(s, a);
    forall i: nat | i < |s.order| ensures Prefix(t, s.order[i]) == Prefix(s, s.order[i]) {
      SamePrefix(s, a, s.order[i]);
    }
    ConsumedSame(s, t, |s.order|);
  }

  lemma SamePrefix(s: State, a: Action, w: nat)
    requires Inv(s) && Enabled(s, a) && !a.WStep? && !a.HandOver? && !a.Count? && w < |s.writers|
    ensures Prefix(Next(s, a), w) == Prefix(s, w)
  {
    assert WriterOk(s, w);
  }

  lemma WStepConsumed(s: State, w: nat)
    requires Inv(s) && Enabled(s, WStep(w))
    ensures var t := WriteStep(s, w); Handed(t.log) == Consumed(t, |t.order|)
  {
    hide Inv, WriteStep, Prefix, Handed;
    var t := WriteStep(s, w);
    WStepOrder(s, w);
    forall i: nat | i < |s.order| ensures Prefix(t, s.order[i]) == Prefix(s, s.order[i]) {
      WStepPrefix(s, w, s.order[i]);
    }
    WStepPrefix(s, w, w);
    ConsumedSame(s, t, |s.order|);
    assert Consumed(s, |s.order|) + [] == Consumed(s, |s.order|);
  }

  lemma WStepOrder(s: State, w: nat)
    requires Inv(s) && Enabled(s, WStep(w))
    ensures var t := WriteStep(s, w);
      && t.log == s.log && Handed(s.log) == Consumed(s, |s.order|) && w < |s.writers|
      && t.order == (if s.writers[w].pc == WLock then s.order + [w] else s.order)
      && forall i: nat :: i < |s.order| ==> s.order[i] < |s.writers|
  {
  }

  lemma WStepPrefix(s: State, w: nat, v: nat)
    requires Inv(s) && Enabled(s, WStep(w)) && v < |s.writers|
    ensures Prefix(WriteStep(s, w), v) == Prefix(s, v)
    ensures s.writers[w].pc == WLock ==> Prefix(WriteStep(s, w), w) == []
  {
    assert WriterOk(s, w) && WriterOk(s, v);
  }

  lemma CountConsumed(s: State, w: nat, r: nat)
    requires Inv(s) && Enabled(s, Count(w, r))
    ensures var t := CountStep(s, w, r); Handed(t.log) == Consumed(t, |t.order|)
  {
    var t := CountStep(s, w, r);
    forall i: nat | i < |s.order| ensures Prefix(t, s.order[i]) == Prefix(s, s.order[i]) {
      CountPrefix(s, w, r, s.order[i]);
    }
    ConsumedSame(s, t, |s.order|);
  }

  lemma CountPrefix(s: State, w: nat, r: nat, v: nat)
    requires Inv(s) && Enabled(s, Count(w, r)) && v < |s.writers|
    ensures Prefix(CountStep(s, w, r), v) == Prefix(s, v)
  {
    CountMatches(s, w, r);
    assert WriterOk(s, w) && WriterOk(s, v);
  }

  lemma HandOverConsumed(s: State, w: nat, r: nat)
    requires Inv(s) && Enabled(s, HandOver(w, r))
    ensures var t := HandOverStep(s, w, r); Handed(t.log) == Consumed(t, |t.order|)
  {
    hide Inv;
    HolderIsLast(s, w);
    var t, last := HandOverStep(s, w, r), |s.order| - 1;
    HandOverPrefixes(s, w, r);
    hide HandOverStep;
    hide Prefix;
    ConsumedSame(s, t, last);
    LogExtends(s, w, r);
    hide Enabled;
    var extra := t.log[|s.log|].bytes;
    assert Handed(t.log) == Handed(s.log) + extra;
    assert Handed(s.log) == Consumed(s, last) + Prefix(s, w);
    assert Consumed(t, |t.order|) == Consumed(s, last) + Prefix(t, w);
    AppendThree(Consumed(s, last), Prefix(s, w), extra);
  }

  lemma HolderIsLast(s: State, w: nat)
    requires Inv(s) && Offering(s, w)
    ensures s.order != [] && s.order[|s.order| - 1] == w && Handed(s.log) == Consumed(s, |s.order|)
  {
    assert WriterOk(s, w);
  }

  lemma LogExtends(s: State, w: nat, r: nat)
    requires Enabled(s, HandOver(w, r))
    ensures var t := HandOverStep(s, w, r);
            |t.log| == |s.log| + 1 && t.log[..|s.log|] == s.log && t.log[|s.log|].writer == w && t.order == s.order
  {
  }

  lemma HandOverPrefixes(s: State, w: nat, r: nat)
    requires Inv(s) && Enabled(s, HandOver(w, r)) && s.order != [] && s.order[|s.order| - 1] == w
    ensures var t := HandOverStep(s, w, r);
            && (forall i: nat :: i < |s.order| - 1 ==> Prefix(t, s.order[i]) == Prefix(s, s.order[i]))
            && Prefix(t, w) == Prefix(s, w) + t.log[|s.log|].bytes
  {
    var t := HandOverStep(s, w, r);
    assert WriterOk(s, w);
    forall i: nat | i < |s.order| - 1 ensures Prefix(t, s.order[i]) == Prefix(s, s.order[i]) {
      assert OrderOk(s, i, |s.order| - 1);
      HandOverOther(s, w, r, s.order[i]);
    }
    var x := s.writers[w];
    var k := Min(s.readers[r].size, |x.data| - x.n);
    assert x.data[..x.n + k] == x.data[..x.n] + x.data[x.n..][..k];
  }

  lemma HandOverOther(s: State, w: nat, r: nat, v: nat)
    requires Inv(s) && Enabled(s, HandOver(w, r)) && v < |s.writers| && v != w
    ensures Prefix(HandOverStep(s, w, r), v) == Prefix(s, v)
  {
    assert WriterOk(s, v);
  }

  lemma NextInv(s: State, a: Action)
    requires Inv(s) && Enabled(s, a)
    ensures Inv(Next(s, a))
  {
    hide Next;
    hide WriterOk;
    hide ReaderOk;
    hide LogOk;
    hide OrderOk;
    var t := Next(s, a);
    forall w: nat ensures WriterOk(t, w) { WriterNext(s, a, w); }
    forall r: nat ensures ReaderOk(t, r) { ReaderNext(s, a, r); }
    forall i: nat ensures LogOk(t, i) { LogNext(s, a, i); }
    forall i: nat, j: nat ensures OrderOk(t, i, j) { OrderNext(s, a, i, j); }
    forall i: nat | i < |t.order| ensures t.order[i] < |t.writers| { OrderNext(s, a, i, i); }
    HolderNext(s, a);
    ConsumedNext(s, a);
  }

  // ---- over whole runs

  ghost predicate ReachableIn(s: State, steps: nat)
    decreases steps
  {
    if steps == 0 then s == Init
    else exists t: State, a: Action :: ReachableIn(t, steps - 1) && Enabled(t, a) && s == Next(t, a)
  }

  ghost predicate Reachable(s: State) {
    exists steps: nat :: ReachableIn(s, steps)
  }

  lemma LastStep(s: State, steps: nat) returns (t: State, a: Action)
    requires ReachableIn(s, steps) && steps > 0
    ensures ReachableIn(t, steps - 1) && Enabled(t, a) && s == Next(t, a)
  {
    hide Next, Enabled;
    t, a :| ReachableIn(t, steps - 1) && Enabled(t, a) && s == Next(t, a);
  }

  lemma NoStep(s: State)
    requires ReachableIn(s, 0)
    ensures s == Init
  {
  }

  lemma InitInv()
    ensures Inv(Init)
  {
  }

  lemma {:induction false} ReachableInInv(s: State, steps: nat)
    requires ReachableIn(s, steps)
    ensures Inv(s)
    decreases steps
  {
    hide ReachableIn, Next, Enabled, Inv;
    if steps == 0 {
      NoStep(s);
      InitInv();
    } else {
      var t, a := LastStep(s, steps);
      ReachableInInv(t, steps - 1);
      NextInv(t, a);
    }
  }

  lemma ReachableInv(s: State)
    requires Reachable(s)
    ensures Inv(s)
  {
    var steps :| ReachableIn(s, steps);
    ReachableInInv(s, steps);
  }

  /** The handoffs of one Write are the prefix consumed from it, after every step. */
  lemma HandedByNext(s: State, a: Action, w: nat)
    requires Inv(s) && Enabled(s, a) && HandedBy(s.log, w) == Prefix(s, w)
    ensures var t := Next(s, a); HandedBy(t.log, w) == Prefix(t, w)
  {
    hide Inv, HandOverStep, CountStep, WriteStep, Prefix;
    if w >= |s.writers| {
      NoWriter(s, a, w);
    } else {
      match a {
        case WStep(v) =>
          WStepOrder(s, v);
          WStepPrefix(s, v, w);
        case Count(v, r) =>
          CountPrefix(s, v, r, w);
          SameLog(s, v, r);
        case HandOver(v, r) => HandOverBy(s, v, r, w);
        case _ => SamePrefix(s, a, w);
      }
    }
  }

  lemma HandOverBy(s: State, v: nat, r: nat, w: nat)
    requires Inv(s) && Enabled(s, HandOver(v, r)) && w < |s.writers| && HandedBy(s.log, w) == Prefix(s, w)
    ensures var t := HandOverStep(s, v, r); HandedBy(t.log, w) == Prefix(t, w)
  {
    hide Inv, HandOverStep, Prefix;
    HolderIsLast(s, v);
    HandOverPrefixes(s, v, r);
    LogExtends(s, v, r);
    if v != w {
      HandOverOther(s, v, r, w);
      assert Prefix(s, w) + [] == Prefix(s, w);
    }
  }

  lemma SameLog(s: State, w: nat, r: nat)
    requires Enabled(s, Count(w, r))
    ensures CountStep(s, w, r).log == s.log
  {
  }

  /** A Write that has not begun has handed nothing over. */
  lemma NoWriter(s: State, a: Action, w: nat)
    requires Enabled(s, a) && w >= |s.writers| && HandedBy(s.log, w) == Prefix(s, w)
    ensures var t := Next(s, a); HandedBy(t.log, w) == [] == Prefix(t, w)
  {
    if a.HandOver? {
      LogExtends(s, a.w, a.r);
    }
  }

  lemma {:induction false} ReachableHandedBy(s: State, steps: nat, w: nat)
    requires ReachableIn(s, steps)
    ensures HandedBy(s.log, w) == Prefix(s, w)
    decreases steps
  {
    hide ReachableIn, Next, Enabled, Inv;
    if steps == 0 {
      NoStep(s);
    } else {
      var t, a := LastStep(s, steps);
      ReachableInInv(t, steps - 1);
      ReachableHandedBy(t, steps - 1, w);
      HandedByNext(t, a, w);
    }
  }

  /** What a handoff copies: all that fits of what is left of the Write. */
  predicate TookAll(s: State, i: nat) {
    i < |s.log| ==>
      var h := s.log[i];
      && h.reader < |s.readers| && h.writer < |s.writers|
      && var sent, size := |HandedBy(s.log[..i], h.writer)|, |s.writers[h.writer].data|;
      && sent <= size && |h.bytes| == Min(s.readers[h.reader].size, size - sent)
  }

  lemma TookAllNext(s: State, a: Action, i: nat)
    requires Inv(s) && Enabled(s, a) && TookAll(s, i)
    requires forall w: nat :: HandedBy(s.log, w) == Prefix(s, w)
    ensures TookAll(Next(s, a), i)
  {
    hide Inv, HandedBy, Prefix, WriterOk;
    if a.HandOver? {
      LogExtends(s, a.w, a.r);
      assert HandedBy(s.log, a.w) == Prefix(s, a.w);
      OfferPrefix(s, a.w);
      assert (s.log + [HandOverStep(s, a.w, a.r).log[|s.log|]])[..|s.log|] == s.log;
      if i < |s.log| {
        assert Next(s, a).log[..i] == s.log[..i];
      }
    }
  }

  lemma OfferPrefix(s: State, w: nat)
    requires Inv(s) && Offering(s, w)
    ensures s.writers[w].n <= |s.writers[w].data| && |Prefix(s, w)| == s.writers[w].n
  {
    assert WriterOk(s, w);
  }

  lemma {:induction false} ReachableTookAll(s: State, steps: nat, i: nat)
    requires ReachableIn(s, steps)
    ensures TookAll(s, i)
    decreases steps
  {
    hide ReachableIn, Next, Enabled, Inv, HandedBy, Prefix;
    if steps == 0 {
      NoStep(s);
    } else {
      var t, a := LastStep(s, steps);
      ReachableInInv(t, steps - 1);
      forall w: nat ensures HandedBy(t.log, w) == Prefix(t, w) { ReachableHandedBy(t, steps - 1, w); }
      ReachableTookAll(t, steps - 1, i);
      TookAllNext(t, a, i);
    }
  }

  /** Each Read gets all that fits its buffer of what the Write it meets has left. */
  lemma ReadsTakeAll(s: State, i: nat)
    requires Reachable(s) && i < |s.log|
    ensures var h := s.log[i];
            && h.reader < |s.readers| && h.writer < |s.writers|
            && var sent, size := |HandedBy(s.log[..i], h.writer)|, |s.writers[h.writer].data|;
            && sent <= size && |h.bytes| == Min(s.readers[h.reader].size, size - sent)
  {
    var steps :| ReachableIn(s, steps);
    ReachableTookAll(s, steps, i);
  }

  /** A Write that goes on or succeeds has met a Read. */
  predicate Served(s: State, w: nat) {
    w < |s.writers| && (var pc := s.writers[w].pc; pc == Offer(false) || pc.Await? || pc == WDone(None)) ==>
      exists i :: 0 <= i < |s.log| && s.log[i].writer == w
  }

  lemma ServedNext(s: State, a: Action, w: nat)
    requires Inv(s) && Enabled(s, a) && Served(s, w)
    ensures Served(Next(s, a), w)
  {
    hide Inv;
    match a {
      case HandOver(v, r) => ServedHandOver(s, v, r, w);
      case Count(v, r) => CountMatches(s, v, r);
      case _ => assert Next(s, a).log == s.log;
    }
  }

  lemma ServedHandOver(s: State, v: nat, r: nat, w: nat)
    requires Enabled(s, HandOver(v, r)) && Served(s, w)
    ensures Served(HandOverStep(s, v, r), w)
  {
    var t := HandOverStep(s, v, r);
    LogExtends(s, v, r);
    assert t.log[|s.log|].writer == v;
    if i :| 0 <= i < |s.log| && s.log[i].writer == w {
      assert t.log[i] == s.log[i];
    }
  }

  lemma {:induction false} ReachableServed(s: State, steps: nat, w: nat)
    requires ReachableIn(s, steps)
    ensures Served(s, w)
    decreases steps
  {
    hide ReachableIn, Next, Enabled, Inv;
    if steps == 0 {
      NoStep(s);
    } else {
      var t, a := LastStep(s, steps);
      ReachableInInv(t, steps - 1);
      ReachableServed(t, steps - 1, w);
      ServedNext(t, a, w);
    }
  }

  /** Nothing is lost, duplicated or reordered: the bytes handed to readers, in
      handoff order, are the prefixes consumed from the Writes, in wrMu order, and
      each Write has handed over its own. */
  lemma BytesInOrder(s: State)
    requires Reachable(s)
    ensures Handed(s.log) == Consumed(s, |s.order|)
    ensures forall w: nat :: w < |s.writers| ==>
              Sent(s, w) <= |s.writers[w].data| && Prefix(s, w) == s.writers[w].data[..Sent(s, w)]
    ensures forall w: nat :: HandedBy(s.log, w) == Prefix(s, w)
    ensures forall i: nat, j: nat :: i < j < |s.order| ==> s.order[i] != s.order[j]
  {
    ReachableInv(s);
    var steps :| ReachableIn(s, steps);
    forall w: nat | w < |s.writers| ensures Sent(s, w) <= |s.writers[w].data| {
      assert WriterOk(s, w);
    }
    forall w: nat ensures HandedBy(s.log, w) == Prefix(s, w) {
      ReachableHandedBy(s, steps, w);
    }
    forall i: nat, j: nat | i < j < |s.order| ensures s.order[i] != s.order[j] {
      assert OrderOk(s, i, j);
    }
  }

  /** What a Write returns: the count of its bytes in the handoffs, which are a prefix
      of its data; everything, and at least one handoff, when there is no error; an
      error only after a close, and the reader's error if the writer's end was never closed. */
  lemma WriteResult(s: State, w: nat)
    requires Reachable(s) && w < |s.writers| && s.writers[w].pc.WDone?
    ensures var x := s.writers[w];
            && x.n == |HandedBy(s.log, w)| && x.n <= |x.data| && HandedBy(s.log, w) == x.data[..x.n]
            && (x.n > 0 ==> w in s.order)
            && (x.pc.err == None ==> x.n == |x.data| && exists i :: 0 <= i < |s.log| && s.log[i].writer == w)
            && (x.pc.err.Some? ==> s.done && (x.pc.err == s.rerr || x.pc.err == Some(ErrClosedPipe)))
            && (x.pc.err.Some? && s.werr == None ==> x.pc.err == s.rerr && s.rerr.Some?)
  {
    ReachableInv(s);
    var steps :| ReachableIn(s, steps);
    ReachableHandedBy(s, steps, w);
    ReachableServed(s, steps, w);
    hide ReachableIn, HandedBy;
    assert WriterOk(s, w);
  }

  /** What a Read returns: the bytes of its one handoff, or no bytes and an error,
      which is the writer's error if the reader's end was never closed. */
  lemma ReadResult(s: State, r: nat)
    requires Reachable(s) && r < |s.readers| && s.readers[r].pc.RDone?
    ensures var x := s.readers[r];
            if x.pc.err == None
            then x.hand.Some? && x.hand.value < |s.log|
                 && (forall i: nat :: i < |s.log| ==> (s.log[i].reader == r <==> i == x.hand.value))
                 && |s.log[x.hand.value].bytes| == x.n <= x.size
            else x.n == 0 && s.done && (x.pc.err == s.werr || x.pc.err == Some(ErrClosedPipe))
                 && (s.rerr == None ==> x.pc.err == s.werr && s.werr.Some?)
                 && forall i: nat :: i < |s.log| ==> s.log[i].reader != r
  {
    ReachableInv(s);
    assert ReaderOk(s, r);
    forall i: nat | i < |s.log| && s.log[i].reader == r ensures s.readers[r].hand == Some(i) {
      assert LogOk(s, i);
    }
    if s.readers[r].pc.err == None {
      assert LogOk(s, s.readers[r].hand.value);
    }
  }

  /** A Read that has copied bytes always finds its Write waiting for the count,
      also when the pipe is closed in between. */
  lemma CountNeverStuck(s: State, r: nat)
    requires Reachable(s) && r < |s.readers| && s.readers[r].pc.Send?
    ensures Enabled(s, Count(s.readers[r].pc.writer, r))
    ensures forall w: nat :: Enabled(s, Count(w, r)) ==> w == s.readers[r].pc.writer
  {
    ReachableInv(s);
    assert ReaderOk(s, r);
    forall w: nat | Enabled(s, Count(w, r)) ensures w == s.readers[r].pc.writer {
      CountMatches(s, w, r);
    }
  }

  /** A close is final, and the first error given to each end stays. */
  lemma ClosesStay(s: State, a: Action)
    requires Enabled(s, a)
    ensures var t := Next(s, a);
            && (s.done ==> t.done)
            && (s.rerr.Some? ==> t.rerr == s.rerr) && (s.werr.Some? ==> t.werr == s.werr)
  {
  }

  // ---- errors over whole runs

  /** A run from s to t. */
  ghost predicate Run(s: State, actions: seq<Action>, t: State)
    decreases |actions|
  {
    if actions == [] then s == t
    else Enabled(s, actions[0]) && Run(Next(s, actions[0]), actions[1..], t)
  }

  /** The error of the first CloseRead, and of the first CloseWrite. */
  function FirstReadClose(actions: seq<Action>): (r: Option<Error>) {
    if actions == [] then None
    else if actions[0].StoreRead? then Some(if actions[0].err == None then ErrClosedPipe else actions[0].err.value)
    else FirstReadClose(actions[1..])
  }

  function FirstWriteClose(actions: seq<Action>): (r: Option<Error>) {
    if actions == [] then None
    else if actions[0].StoreWrite? then Some(if actions[0].err == None then EOF else actions[0].err.value)
    else FirstWriteClose(actions[1..])
  }

  /** The stored errors are those of the first closes. */
  lemma {:induction false} RunErrors(s: State, actions: seq<Action>, t: State)
    requires Run(s, actions, t)
    ensures t.rerr == if s.rerr.Some? then s.rerr else FirstReadClose(actions)
    ensures t.werr == if s.werr.Some? then s.werr else FirstWriteClose(actions)
    ensures s.done ==> t.done
    decreases |actions|
  {
    if actions != [] {
      ErrorsNext(s, actions[0]);
      hide Next, Enabled;
      RunErrors(Next(s, actions[0]), actions[1..], t);
    }
  }

  lemma ErrorsNext(s: State, a: Action)
    requires Enabled(s, a)
    ensures var t := Next(s, a);
            && t.rerr == (if s.rerr.Some? then s.rerr
                          else if a.StoreRead? then Some(if a.err == None then ErrClosedPipe else a.err.value)
                          else None)
            && t.werr == (if s.werr.Some? then s.werr
                          else if a.StoreWrite? then Some(if a.err == None then EOF else a.err.value)
                          else None)
            && (s.done ==> t.done)
  {
  }

  /** Read r has found nothing to load but the error of a CloseRead. */
  predicate OwnClose(s: State, r: nat) {
    && s.rerr.Some?
    && (r < |s.readers| ==>
          var pc := s.readers[r].pc;
          && (pc.RFail2? ==> pc.rerr.Some?) && (pc.RDone? && pc.err.Some? ==> pc.err == Some(ErrClosedPipe)))
  }

  lemma OwnCloseNext(s: State, a: Action, r: nat)
    requires Enabled(s, a) && OwnClose(s, r)
    ensures OwnClose(Next(s, a), r)
  {
  }

  lemma {:induction false} OwnCloseStays(s: State, actions: seq<Action>, t: State, r: nat)
    requires OwnClose(s, r) && Run(s, actions, t)
    ensures OwnClose(t, r)
    decreases |actions|
  {
    if actions != [] {
      OwnCloseNext(s, actions[0], r);
      hide Next, Enabled, OwnClose;
      OwnCloseStays(Next(s, actions[0]), actions[1..], t, r);
    }
  }

  /** Read r has begun after the close. */
  predicate LateRead(s: State, r: nat) {
    && s.done
    && (r < |s.readers| ==>
          var x := s.readers[r];
          && x.hand == None && x.n == 0
          && (x.pc == RStart || x.pc == RFail || x.pc.RFail2? || (x.pc.RDone? && x.pc.err.Some?)))
  }

  lemma LateReadNext(s: State, a: Action, r: nat)
    requires Enabled(s, a) && LateRead(s, r)
    ensures LateRead(Next(s, a), r)
  {
  }

  lemma {:induction false} LateReadStays(s: State, actions: seq<Action>, t: State, r: nat)
    requires LateRead(s, r) && Run(s, actions, t)
    ensures LateRead(t, r)
    decreases |actions|
  {
    if actions != [] {
      LateReadNext(s, actions[0], r);
      hide Next, Enabled, LateRead;
      LateReadStays(Next(s, actions[0]), actions[1..], t, r);
    }
  }

  predicate OwnWriteClose(s: State, w: nat) {
    && s.werr.Some?
    && (w < |s.writers| ==>
          var pc := s.writers[w].pc;
          && (pc.WFail2? ==> pc.werr.Some?) && (pc.WDone? && pc.err.Some? ==> pc.err == Some(ErrClosedPipe)))
  }

  lemma OwnWriteCloseNext(s: State, a: Action, w: nat)
    requires Enabled(s, a) && OwnWriteClose(s, w)
    ensures OwnWriteClose(Next(s, a), w)
  {
  }

  lemma {:induction false} OwnWriteCloseStays(s: State, actions: seq<Action>, t: State, w: nat)
    requires OwnWriteClose(s, w) && Run(s, actions, t)
    ensures OwnWriteClose(t, w)
    decreases |actions|
  {
    if actions != [] {
      OwnWriteCloseNext(s, actions[0], w);
      hide Next, Enabled, OwnWriteClose;
      OwnWriteCloseStays(Next(s, actions[0]), actions[1..], t, w);
    }
  }

  predicate LateWrite(s: State, w: nat) {
    && s.done
    && (w < |s.writers| ==>
          var x := s.writers[w];
          x.n == 0 && (x.pc == WStart || x.pc.WFail? || x.pc.WFail2? || (x.pc.WDone? && x.pc.err.Some?)))
  }

  lemma LateWriteNext(s: State, a: Action, w: nat)
    requires Enabled(s, a) && LateWrite(s, w)
    ensures LateWrite(Next(s, a), w)
  {
  }

  lemma {:induction false} LateWriteStays(s: State, actions: seq<Action>, t: State, w: nat)
    requires LateWrite(s, w) && Run(s, actions, t)
    ensures LateWrite(t, w)
    decreases |actions|
  {
    if actions != [] {
      LateWriteNext(s, actions[0], w);
      hide Next, Enabled, LateWrite;
      LateWriteStays(Next(s, actions[0]), actions[1..], t, w);
    }
  }

  lemma {:induction false} RunInv(s: State, actions: seq<Action>, t: State)
    requires Inv(s) && Run(s, actions, t)
    ensures Inv(t)
    decreases |actions|
  {
    hide Inv, Next, Enabled;
    if actions != [] {
      NextInv(s, actions[0]);
      RunInv(Next(s, actions[0]), actions[1..], t);
    }
  }

  lemma {:induction false} RunReaches(s: State, steps: nat, actions: seq<Action>, t: State)
    requires ReachableIn(s, steps) && Run(s, actions, t)
    ensures ReachableIn(t, steps + |actions|)
    decreases |actions|
  {
    hide Next, Enabled;
    if actions != [] {
      assert ReachableIn(Next(s, actions[0]), steps + 1);
      RunReaches(Next(s, actions[0]), steps + 1, actions[1..], t);
    }
  }

  lemma {:induction false} RunBoth(s: State, before: seq<Action>, t: State, after: seq<Action>, u: State)
    requires Run(s, before, t) && Run(t, after, u)
    ensures Run(s, before + after, u)
    decreases |before|
  {
    hide Next, Enabled;
    if before == [] {
      assert before + after == after;
    } else {
      RunBoth(Next(s, before[0]), before[1..], t, after, u);
      assert (before + after)[1..] == before[1..] + after;
    }
  }

  /** A Read begun after a close returns no bytes and an error: that of the first
      CloseWrite as long as there is no CloseRead, and ErrClosedPipe after one. */
  lemma ReadsAfterClose(before: seq<Action>, s: State, after: seq<Action>, t: State, r: nat)
    requires Run(Init, before, s) && s.done && Run(s, after, t)
    requires |s.readers| <= r < |t.readers| && t.readers[r].pc.RDone?
    ensures t.readers[r].n == 0 && t.readers[r].pc.err.Some?
    ensures FirstReadClose(before).Some? ==> t.readers[r].pc.err == Some(ErrClosedPipe)
    ensures FirstReadClose(before + after) == None ==> t.readers[r].pc.err == FirstWriteClose(before)
  {
    hide Run, FirstReadClose, FirstWriteClose, Inv;
    RunErrors(Init, before, s);
    LateReadStays(s, after, t, r);
    if s.rerr.Some? {
      OwnCloseStays(s, after, t, r);
    }
    RunBoth(Init, before, s, after, t);
    RunErrors(Init, before + after, t);
    RunErrors(s, after, t);
    RunReaches(Init, 0, before + after, t);
    RunReaches(Init, 0, before, s);
    ReachableInInv(s, |before|);
    assert s.done ==> s.rerr.Some? || s.werr.Some? by { DoneHasError(s); }
    ReadResult(t, r);
  }

  lemma DoneHasError(s: State)
    requires Inv(s)
    ensures s.done ==> s.rerr.Some? || s.werr.Some?
  {
  }

  /** A Write begun after a close accepts nothing and returns an error: that of the
      first CloseRead as long as there is no CloseWrite, and ErrClosedPipe after one. */
  lemma WritesAfterClose(before: seq<Action>, s: State, after: seq<Action>, t: State, w: nat)
    requires Run(Init, before, s) && s.done && Run(s, after, t)
    requires |s.writers| <= w < |t.writers| && t.writers[w].pc.WDone?
    ensures t.writers[w].n == 0 && t.writers[w].pc.err.Some?
    ensures FirstWriteClose(before).Some? ==> t.writers[w].pc.err == Some(ErrClosedPipe)
    ensures FirstWriteClose(before + after) == None ==> t.writers[w].pc.err == FirstReadClose(before)
  {
    hide Run, FirstReadClose, FirstWriteClose, Inv;
    RunErrors(Init, before, s);
    LateWriteStays(s, after, t, w);
    if s.werr.Some? {
      OwnWriteCloseStays(s, after, t, w);
    }
    RunBoth(Init, before, s, after, t);
    RunErrors(Init, before + after, t);
    RunErrors(s, after, t);
    RunReaches(Init, 0, before + after, t);
    RunReaches(Init, 0, before, s);
    ReachableInInv(s, |before|);
    DoneHasError(s);
    WriteResult(t, w);
  }

  // ---- every call returns

  /** A step of a running call. */
  predicate Internal(a: Action) { !a.NewWrite? && !a.NewRead? && !a.StoreRead? && !a.StoreWrite? && !a.CloseDone? }

  function WriteWork(x: Writer): (r: nat) {
    match x.pc
    case WStart => 5
    case WLock => 4
    case Offer(_) => 3
    case Await(_) => 3
    case WFail(_) => 2
    case WFail2(_, _) => 1
    case WDone(_) => 0
  }

  function ReadWork(x: Reader): (r: nat) {
    match x.pc
    case RStart => 4
    case RSelect => 3
    case Send(_) => 2
    case RFail => 2
    case RFail2(_) => 1
    case RDone(_) => 0
  }

  function WritesWork(xs: seq<Writer>): (r: nat) {
    if xs == [] then 0 else WritesWork(xs[..|xs| - 1]) + WriteWork(xs[|xs| - 1])
  }

  function ReadsWork(xs: seq<Reader>): (r: nat) {
    if xs == [] then 0 else ReadsWork(xs[..|xs| - 1]) + ReadWork(xs[|xs| - 1])
  }

  function Work(s: State): (r: nat) { WritesWork(s.writers) + ReadsWork(s.readers) }

  lemma {:induction false} WritesUpdate(xs: seq<Writer>, i: nat, x: Writer)
    requires i < |xs|
    ensures WritesWork(xs[i := x]) + WriteWork(xs[i]) == WritesWork(xs) + WriteWork(x)
  {
    hide WriteWork;
    var k := |xs| - 1;
    if i < k {
      WritesUpdate(xs[..k], i, x);
      assert xs[i := x][..k] == xs[..k][i := x];
    } else {
      assert xs[i := x][..k] == xs[..k];
    }
  }

  lemma {:induction false} ReadsUpdate(xs: seq<Reader>, i: nat, x: Reader)
    requires i < |xs|
    ensures ReadsWork(xs[i := x]) + ReadWork(xs[i]) == ReadsWork(xs) + ReadWork(x)
  {
    hide ReadWork;
    var k := |xs| - 1;
    if i < k {
      ReadsUpdate(xs[..k], i, x);
      assert xs[i := x][..k] == xs[..k][i := x];
    } else {
      assert xs[i := x][..k] == xs[..k];
    }
  }

  lemma StepWorks(s: State, a: Action)
    requires Enabled(s, a) && Internal(a)
    ensures Work(Next(s, a)) < Work(s)
  {
    hide WritesWork, ReadsWork;
    var t := Next(s, a);
    if a.WStep? || a.WSeesDone? || a.HandOver? || a.Count? {
      assert t.writers == s.writers[a.w := t.writers[a.w]];
      WritesUpdate(s.writers, a.w, t.writers[a.w]);
    }
    if a.RStep? || a.RSeesDone? || a.HandOver? || a.Count? {
      assert t.readers == s.readers[a.r := t.readers[a.r]];
      ReadsUpdate(s.readers, a.r, t.readers[a.r]);
    }
  }

  predicate AllInternal(actions: seq<Action>) {
    forall k :: 0 <= k < |actions| ==> Internal(actions[k])
  }

  lemma {:induction false} RunsEnd(s: State, actions: seq<Action>, t: State)
    requires Run(s, actions, t) && AllInternal(actions)
    ensures |actions| + Work(t) <= Work(s)
    decreases |actions|
  {
    if actions != [] {
      StepWorks(s, actions[0]);
      hide Next, Enabled, Work;
      RunsEnd(Next(s, actions[0]), actions[1..], t);
    }
  }

  ghost predicate CanMove(s: State) {
    exists a: Action :: Internal(a) && Enabled(s, a)
  }

  predicate Writing(s: State) {
    exists w :: 0 <= w < |s.writers| && !s.writers[w].pc.WDone?
  }

  predicate Reading(s: State) {
    exists r :: 0 <= r < |s.readers| && !s.readers[r].pc.RDone?
  }

  lemma ReaderMoves(s: State, r: nat)
    requires Inv(s) && r < |s.readers| && !s.readers[r].pc.RDone?
    ensures CanMove(s) || s.readers[r].pc == RSelect
    ensures s.done ==> CanMove(s)
  {
    assert ReaderOk(s, r);
    if s.readers[r].pc.Send? {
      assert Enabled(s, Count(s.readers[r].pc.writer, r));
    } else if s.readers[r].pc == RSelect {
      if s.done {
        assert Enabled(s, RSeesDone(r));
      }
    } else {
      assert Enabled(s, RStep(r));
    }
  }

  lemma WriterMoves(s: State, w: nat)
    requires Inv(s) && w < |s.writers| && !s.writers[w].pc.WDone?
    ensures CanMove(s) || exists v: nat :: Offering(s, v)
    ensures s.done ==> CanMove(s)
  {
    assert WriterOk(s, w);
    if s.writers[w].pc == WLock && s.wrMu.Some? {
      var h := s.wrMu.value;
      assert WriterOk(s, h) && h < |s.writers| by { HolderIsWriter(s); }
      OwnerMoves(s, h);
    } else if s.writers[w].pc.Offer? || s.writers[w].pc.Await? {
      OwnerMoves(s, w);
    } else {
      assert Enabled(s, WStep(w));
    }
  }

  lemma HolderIsWriter(s: State)
    requires Inv(s) && s.wrMu.Some?
    ensures s.wrMu.value < |s.writers| && Owns(s.writers[s.wrMu.value].pc)
  {
    assert WriterOk(s, s.wrMu.value);
  }

  lemma OwnerMoves(s: State, w: nat)
    requires Inv(s) && w < |s.writers| && Owns(s.writers[w].pc)
    ensures CanMove(s) || Offering(s, w)
    ensures s.done ==> CanMove(s)
  {
    assert WriterOk(s, w);
    if s.writers[w].pc.Await? {
      assert Enabled(s, Count(w, s.writers[w].pc.reader));
    } else if Offering(s, w) {
      if s.done {
        assert Enabled(s, WSeesDone(w));
      }
    } else {
      assert Enabled(s, WStep(w));
    }
  }

  lemma SomebodyMoves(s: State)
    requires Inv(s)
    ensures Writing(s) && Reading(s) ==> CanMove(s)
    ensures s.done && (Writing(s) || Reading(s)) ==> CanMove(s)
  {
    hide Inv, Enabled, Offering;
    if Writing(s) {
      var w :| 0 <= w < |s.writers| && !s.writers[w].pc.WDone?;
      WriterMoves(s, w);
    }
    if Reading(s) {
      var r :| 0 <= r < |s.readers| && !s.readers[r].pc.RDone?;
      ReaderMoves(s, r);
      if !CanMove(s) && Writing(s) {
        var v: nat :| Offering(s, v);
        CanHandOver(s, v, r);
      }
    }
  }

  lemma CanHandOver(s: State, v: nat, r: nat)
    requires Offering(s, v) && r < |s.readers| && s.readers[r].pc == RSelect
    ensures CanMove(s)
  {
    assert Enabled(s, HandOver(v, r));
  }

  /** Reads and Writes return. A run without new calls and closes is bounded, and it can
      go on as long as a Read and a Write are both under way, or a single one after a
      close. */
  lemma CallsReturn(s: State, actions: seq<Action>, t: State)
    requires Reachable(s) && Run(s, actions, t) && AllInternal(actions)
    ensures |actions| <= Work(s)
    ensures Writing(t) && Reading(t) ==> CanMove(t)
    ensures t.done && (Writing(t) || Reading(t)) ==> CanMove(t)
  {
    hide Run, Work, Inv, CanMove, Reachable;
    ReachableInv(s);
    RunInv(s, actions, t);
    RunsEnd(s, actions, t);
    SomebodyMoves(t);
  }

  lemma OneMore(s: State, actions: seq<Action>, t: State, a: Action)
    requires Run(s, actions, t) && Enabled(t, a)
    ensures Run(s, actions + [a], Next(t, a))
  {
    hide Next, Enabled;
    assert [a][1..] == [];
    assert Run(Next(t, a), [], Next(t, a));
    assert Run(t, [a], Next(t, a));
    RunBoth(s, actions, t, [a], Next(t, a));
  }

  lemma SomeMove(s: State) returns (a: Action)
    requires CanMove(s)
    ensures Internal(a) && Enabled(s, a)
  {
    a :| Internal(a) && Enabled(s, a);
  }

  lemma {:induction false} Drains(s: State) returns (actions: seq<Action>, t: State)
    requires Inv(s) && s.done
    ensures Run(s, actions, t) && AllInternal(actions) && !Writing(t) && !Reading(t)
    decreases Work(s)
  {
    hide Inv, Enabled, Next, Work, CanMove, Writing, Reading;
    actions, t := [], s;
    if Writing(s) || Reading(s) {
      SomebodyMoves(s);
      var a := SomeMove(s);
      StepWorks(s, a);
      NextInv(s, a);
      ClosesStay(s, a);
      actions, t := Drains(Next(s, a));
      assert ([a] + actions)[1..] == actions;
      actions := [a] + actions;
    }
  }

  /** Whatever is under way, a close can be made at any time, and all calls can then
      return. */
  lemma CloseReleases(s: State, close: Action) returns (actions: seq<Action>, t: State)
    requires Reachable(s) && (close.StoreRead? || close.StoreWrite?)
    ensures Run(s, [close, CloseDone] + actions, t) && AllInternal(actions) && !Writing(t) && !Reading(t)
  {
    hide Inv, Run, AllInternal, Writing, Reading;
    ReachableInv(s);
    var u := Next(s, close);
    NextInv(s, close);
    NextInv(u, CloseDone);
    Standing(s);
    assert [] + [close] == [close] && [close] + [CloseDone] == [close, CloseDone];
    OneMore(s, [], s, close);
    OneMore(s, [close], u, CloseDone);
    actions, t := Drains(Next(u, CloseDone));
    RunBoth(s, [close, CloseDone], Next(u, CloseDone), actions, t);
  }

  lemma Standing(s: State)
    ensures Run(s, [], s)
  {
  }

  /** The calls begin, the Write gets the mutex, and both wait for a partner. */
  lemma Meet(s: State, data: seq<byte>, size: nat) returns (actions: seq<Action>, t: State)
    requires !s.done && s.wrMu == None
    ensures Run(s, actions, t) && t == s.(
      writers := s.writers + [Writer(data, 0, Offer(true))], readers := s.readers + [Reader(size, 0, None, RSelect)],
      wrMu := Some(|s.writers|), order := s.order + [|s.writers|])
  {
    hide Run;
    var w, r := |s.writers|, |s.readers|;
    Standing(s);
    actions, t := Take([], s, s, NewWrite(data));
    actions, t := Take(actions, s, t, NewRead(size));
    actions, t := Take(actions, s, t, WStep(w));
    actions, t := Take(actions, s, t, WStep(w));
    actions, t := Take(actions, s, t, RStep(r));
  }

  /** In an idle pipe a Write and a Read that meet exchange as many bytes as fit, and both
      return when that is all of them. */
  lemma Exchange(s: State, data: seq<byte>, size: nat) returns (actions: seq<Action>, t: State)
    requires Reachable(s) && !s.done && !Writing(s) && !Reading(s)
    ensures Run(s, actions, t)
    ensures var w, r, k := |s.writers|, |s.readers|, Min(size, |data|);
      && t.log == s.log + [Handoff(r, w, data[..k])]
      && t.readers == s.readers + [Reader(size, k, Some(|s.log|), RDone(None))]
      && t.writers == s.writers + [Writer(data, k, if size < |data| then Offer(false) else WDone(None))]
  {
    hide Run, Writing, Reading, Reachable, Inv;
    var w, r := |s.writers|, |s.readers|;
    IdleIsFree(s);
    actions, t := Meet(s, data, size);
    assert data[0..] == data;
    actions, t := Take(actions, s, t, HandOver(w, r));
    actions, t := Take(actions, s, t, Count(w, r));
    if size >= |data| {
      actions, t := Take(actions, s, t, WStep(w));
    }
  }

  lemma IdleIsFree(s: State)
    requires Reachable(s) && !Writing(s)
    ensures s.wrMu == None
  {
    ReachableInv(s);
    if s.wrMu.Some? {
      HolderIsWriter(s);
    }
  }

  lemma Take(actions: seq<Action>, s: State, t: State, a: Action) returns (more: seq<Action>, u: State)
    requires Run(s, actions, t) && Enabled(t, a)
    ensures more == actions + [a] && u == Next(t, a) && Run(s, more, u)
  {
    OneMore(s, actions, t, a);
    more, u := actions + [a], Next(t, a);
  }
}
