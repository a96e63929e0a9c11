/** What the calls on an expvar.Map come to: the table goes through the effects of the
    calls one after the other, as a plain map would, and a call that runs alone does what
    its name says. */
module ExpvarTable {
  import opened Common
  import opened SortedKeys
  import opened Expvar

  // The table as a plain map

  /** The effect of call p on the table: it stored a variable, found one, or took a key
      away. */
  datatype Event = Put(p: nat, key: Key, v: Var) | Found(p: nat, key: Key, v: Var) | Taken(p: nat, key: Key)

  function Lookup(p: nat, k: Key, pc': Pc): (r: seq<Event>) {
    match pc'
    case AddInt(c, _) => [Found(p, k, IntVar(c))]
    case FloatLoad(c, _) => [Found(p, k, FloatVar(c))]
    case Ignored(v) => [Found(p, k, v)]
    case _ => []
  }

  /** What call p has done when it goes from pc to pc'. */
  function Effect(p: nat, pc: Pc, pc': Pc): (r: seq<Event>) {
    match pc
    case SetLoadOrStore(k, v) => if pc'.KeyLock? then [Put(p, k, v)] else []
    case SetStore(k, v) => [Put(p, k, v)]
    case AddLoad(k, _, _) => Lookup(p, k, pc')
    case AddLoadOrStore(k, _, _) =>
      if pc'.KeyLock? && pc'.then_.AddTo? then [Put(p, k, pc'.then_.v)] else Lookup(p, k, pc')
    case DelMap(k) => [Taken(p, k)]
    case DoLoad(seen, vars) =>
      if pc'.DoLoad? && |pc'.seen| > |seen| && |pc'.vars| > |vars| then
        [Found(p, pc'.seen[|seen|], pc'.vars[|vars|])]
      else []
    case _ => []
  }

  function Apply(m: map<Key, Var>, e: Event): (r: map<Key, Var>) {
    match e
    case Put(_, k, v) => m[k := v]
    case Found(_, _, _) => m
    case Taken(_, k) => m - {k}
  }

  function Replay(m: map<Key, Var>, es: seq<Event>): (r: map<Key, Var>)
    decreases |es|
  {
    if es == [] then m else Replay(Apply(m, es[0]), es[1..])
  }

  /** Whatever was found was there. */
  predicate Legal(m: map<Key, Var>, es: seq<Event>)
    decreases |es|
  {
    es == [] || ((es[0].Found? ==> es[0].key in m && m[es[0].key] == es[0].v) && Legal(Apply(m, es[0]), es[1..]))
  }

  ghost function StepEvents(s: State, a: Action, plus: Plus): (r: seq<Event>)
    requires Enabled(s, a)
  {
    var s' := Next(s, a, plus);
    if a.Step? && a.p < |s'.pcs| then Effect(a.p, s.pcs[a.p], s'.pcs[a.p]) else []
  }

  /** The effects of the calls, in the order in which they happened. */
  ghost function Events(s: State, actions: seq<Action>, plus: Plus): (r: seq<Event>)
    decreases |actions|
  {
    if actions == [] || !Enabled(s, actions[0]) then []
    else StepEvents(s, actions[0], plus) + Events(Next(s, actions[0], plus), actions[1..], plus)
  }

  /** Those of call p. */
  function ByCall(es: seq<Event>, p: nat): (r: seq<Event>) {
    if es == [] then []
    else ByCall(es[..|es| - 1], p) + if es[|es| - 1].p == p then [es[|es| - 1]] else []
  }

  lemma StepReplays(s: State, a: Action, plus: Plus)
    requires Enabled(s, a)
    ensures var es := StepEvents(s, a, plus);
      |es| <= 1 && Legal(s.m, es) && Replay(s.m, es) == Next(s, a, plus).m
    ensures forall e :: e in StepEvents(s, a, plus) ==> a.Step? && e.p == a.p
  {
    hide NextStep, Effect;
    if a.Step? {
      EffectReplays(s, a.p, plus);
    }
  }

  lemma EffectReplays(s: State, p: nat, plus: Plus)
    requires Enabled(s, Step(p))
    ensures var s' := NextStep(s, p, plus);
      && p < |s'.pcs| && var es := Effect(p, s.pcs[p], s'.pcs[p]);
      |es| <= 1 && Legal(s.m, es) && Replay(s.m, es) == s'.m && forall e :: e in es ==> e.p == p
  {
    hide Insert, Remove, Plussed, Legal, Replay;
    var s' := NextStep(s, p, plus);
    var es := Effect(p, s.pcs[p], s'.pcs[p]);
    ReplayOne(s.m, es);
  }

  lemma ReplayOne(m: map<Key, Var>, es: seq<Event>)
    requires |es| <= 1
    ensures Replay(m, es) == if es == [] then m else Apply(m, es[0])
    ensures Legal(m, es) <==> es == [] || (es[0].Found? ==> es[0].key in m && m[es[0].key] == es[0].v)
  {
    if es != [] {
      assert es[1..] == [];
    }
  }

  lemma {:induction false} ReplayMore(m: map<Key, Var>, a: seq<Event>, b: seq<Event>)
    ensures Replay(m, a + b) == Replay(Replay(m, a), b)
    ensures Legal(m, a + b) <==> Legal(m, a) && Legal(Replay(m, a), b)
    decreases |a|
  {
    if a == [] {
      assert a + b == b;
    } else {
      ReplayMore(Apply(m, a[0]), a[1..], b);
      assert (a + b)[1..] == a[1..] + b;
    }
  }

  lemma {:induction false} RunReplays(s: State, actions: seq<Action>, s': State, plus: Plus)
    requires Runs(s, actions, s', plus)
    ensures var es := Events(s, actions, plus); Legal(s.m, es) && Replay(s.m, es) == s'.m
    decreases |actions|
  {
    hide Next, Enabled, StepEvents;
    if actions != [] {
      var t := Next(s, actions[0], plus);
      StepReplays(s, actions[0], plus);
      RunReplays(t, actions[1..], s', plus);
      ReplayMore(s.m, StepEvents(s, actions[0], plus), Events(t, actions[1..], plus));
    }
  }

  // What each call has done

  /** The one event of call p is that it stored or found v under k. */
  predicate Looked(es: seq<Event>, p: nat, k: Key, v: Var) { es == [Put(p, k, v)] || es == [Found(p, k, v)] }

  predicate SetExplained(k: Key, v: Var, pc: Pc, p: nat, es: seq<Event>) {
    match pc
    case SetLoad(k', v') => k' == k && v' == v && es == []
    case SetLoadOrStore(k', v') => k' == k && v' == v && es == []
    case SetStore(k', v') => k' == k && v' == v && es == []
    case KeyLock(_, t) => t == Return && es == [Put(p, k, v)]
    case KeyInsert(_, t) => t == Return && es == [Put(p, k, v)]
    case KeyUnlock(t) => t == Return && es == [Put(p, k, v)]
    case Returned => es == [Put(p, k, v)]
    case _ => false
  }

  predicate AddExplained(k: Key, float: bool, pc: Pc, p: nat, es: seq<Event>) {
    match pc
    case AddLoad(k', _, f) => k' == k && f == float && es == []
    case AddLoadOrStore(k', _, f) => k' == k && f == float && es == []
    case KeyLock(_, t) => t.AddTo? && es == [Put(p, k, t.v)]
    case KeyInsert(_, t) => t.AddTo? && es == [Put(p, k, t.v)]
    case KeyUnlock(t) => t.AddTo? && es == [Put(p, k, t.v)]
    case AddInt(c, _) => !float && Looked(es, p, k, IntVar(c))
    case FloatLoad(c, _) => float && Looked(es, p, k, FloatVar(c))
    case FloatCas(c, _, _) => float && Looked(es, p, k, FloatVar(c))
    case Added(c, _) => Looked(es, p, k, if float then FloatVar(c) else IntVar(c))
    case Ignored(v) => es == [Found(p, k, v)]
    case _ => false
  }

  predicate DeleteExplained(k: Key, pc: Pc, p: nat, es: seq<Event>) {
    match pc
    case DelLock(k') => k' == k && es == []
    case DelFind(k') => k' == k && es == []
    case DelMap(k') => k' == k && es == []
    case DelUnlock => es == [] || es == [Taken(p, k)]
    case Returned => es == [] || es == [Taken(p, k)]
    case _ => false
  }

  /** A Do has found what it shows, in order. */
  predicate Shown(es: seq<Event>, p: nat, seen: seq<Key>, vars: seq<Var>) {
    |es| == |seen| == |vars| && forall i :: 0 <= i < |es| ==> es[i] == Found(p, seen[i], vars[i])
  }

  predicate DoExplained(pc: Pc, p: nat, es: seq<Event>) {
    match pc
    case DoLock => es == []
    case DoLoad(seen, vars) => Shown(es, p, seen, vars)
    case DoUnlock(seen, vars) => Shown(es, p, seen, vars)
    case Returned => forall e :: e in es ==> e.Found?
    case Panicked => true
    case _ => false
  }

  predicate Explained(call: Pc, pc: Pc, p: nat, es: seq<Event>) {
    match call
    case SetLoad(k, v) => SetExplained(k, v, pc, p, es)
    case AddLoad(k, _, float) => AddExplained(k, float, pc, p, es)
    case DelLock(k) => DeleteExplained(k, pc, p, es)
    case DoLock => DoExplained(pc, p, es)
    case _ => false
  }

  lemma SetGoesOn(s: State, p: nat, k: Key, v: Var, es: seq<Event>, plus: Plus)
    requires Enabled(s, Step(p)) && SetExplained(k, v, s.pcs[p], p, es)
    ensures var s' := NextStep(s, p, plus);
      p < |s'.pcs| && SetExplained(k, v, s'.pcs[p], p, es + Effect(p, s.pcs[p], s'.pcs[p]))
  {
    hide Insert, Remove, Plussed;
    assert es + [] == es;
  }

  lemma AddGoesOn(s: State, p: nat, k: Key, d: int, float: bool, es: seq<Event>, plus: Plus)
    requires Enabled(s, Step(p)) && AddExplained(k, float, s.pcs[p], p, es)
    requires AddFollows(k, d, float, s.pcs[p], s.cells)
    ensures var s' := NextStep(s, p, plus);
      p < |s'.pcs| && AddExplained(k, float, s'.pcs[p], p, es + Effect(p, s.pcs[p], s'.pcs[p]))
  {
    hide Insert, Remove, Plussed;
    assert es + [] == es;
  }

  lemma DeleteGoesOn(s: State, p: nat, k: Key, es: seq<Event>, plus: Plus)
    requires Enabled(s, Step(p)) && DeleteExplained(k, s.pcs[p], p, es)
    ensures var s' := NextStep(s, p, plus);
      p < |s'.pcs| && DeleteExplained(k, s'.pcs[p], p, es + Effect(p, s.pcs[p], s'.pcs[p]))
  {
    hide Insert, Remove, Plussed;
    assert es + [] == es;
  }

  lemma DoGoesOn(s: State, p: nat, es: seq<Event>, plus: Plus)
    requires Enabled(s, Step(p)) && DoExplained(s.pcs[p], p, es)
    ensures var s' := NextStep(s, p, plus);
      p < |s'.pcs| && DoExplained(s'.pcs[p], p, es + Effect(p, s.pcs[p], s'.pcs[p]))
  {
    hide Insert, Remove, Plussed;
    assert es + [] == es;
  }

  lemma GoesOn(s: State, call: Pc, p: nat, es: seq<Event>, plus: Plus)
    requires Enabled(s, Step(p)) && Explained(call, s.pcs[p], p, es) && Follows(call, s.pcs[p], s.cells)
    ensures var s' := NextStep(s, p, plus);
      p < |s'.pcs| && Explained(call, s'.pcs[p], p, es + Effect(p, s.pcs[p], s'.pcs[p]))
  {
    hide NextStep, Effect, SetExplained, AddExplained, DeleteExplained, DoExplained, AddFollows, OtherFollows;
    match call
    case SetLoad(k, v) => SetGoesOn(s, p, k, v, es, plus);
    case AddLoad(k, d, float) => AddGoesOn(s, p, k, d, float, es, plus);
    case DelLock(k) => DeleteGoesOn(s, p, k, es, plus);
    case DoLock => DoGoesOn(s, p, es, plus);
  }

  /** Each call's position fits the events it has to its name; calls to come have none. */
  ghost predicate AllExplained(s: State, calls: seq<Pc>, es: seq<Event>) {
    && |calls| == |s.pcs|
    && (forall p: nat :: p < |calls| ==> Explained(calls[p], s.pcs[p], p, ByCall(es, p)))
    && (forall p: nat :: p >= |calls| ==> ByCall(es, p) == [])
  }

  lemma OneMore(es: seq<Event>, more: seq<Event>, p: nat)
    requires |more| <= 1
    ensures ByCall(es + more, p) == ByCall(es, p) + if more != [] && more[0].p == p then more else []
  {
    if more == [] {
      assert es + more == es && ByCall(es, p) + [] == ByCall(es, p);
    } else {
      assert (es + more)[..|es|] == es && more == [more[0]];
    }
  }

  lemma ExplainedNext(s: State, calls: seq<Pc>, es: seq<Event>, a: Action, plus: Plus)
    requires AllFollow(s, calls) && AllExplained(s, calls, es) && Enabled(s, a)
    ensures AllExplained(Next(s, a, plus), calls + (if a.Call? then [a.pc] else []), es + StepEvents(s, a, plus))
  {
    hide NextStep, Explained, Follows, ByCall, Effect, Typed;
    var s', more := Next(s, a, plus), StepEvents(s, a, plus);
    StepReplays(s, a, plus);
    forall p: nat
      ensures ByCall(es + more, p) == ByCall(es, p) + if more != [] && more[0].p == p then more else []
    {
      OneMore(es, more, p);
    }
    match a {
      case Step(p) =>
        OthersStay(s, p, plus);
        GoesOn(s, calls[p], p, ByCall(es, p), plus);
        EffectOf(s, p, plus);
        assert calls + [] == calls;
        forall q: nat | q < |calls| ensures Explained(calls[q], s'.pcs[q], q, ByCall(es + more, q)) {
          assert ByCall(es, q) + [] == ByCall(es, q);
        }
      case Call(pc) =>
        Begins(pc, |s.pcs|);
        assert es + more == es;
      case NewCell(_, _) => assert calls + [] == calls && es + more == es;
    }
  }

  lemma EffectOf(s: State, p: nat, plus: Plus)
    requires Enabled(s, Step(p))
    ensures var s' := NextStep(s, p, plus);
      p < |s'.pcs| && var es := Effect(p, s.pcs[p], s'.pcs[p]);
      StepEvents(s, Step(p), plus) == es && (es != [] ==> |es| == 1 && es[0].p == p)
  {
    hide Insert, Remove, Plussed;
  }

  lemma Begins(pc: Pc, p: nat)
    requires Starts(pc)
    ensures Explained(pc, pc, p, [])
  {
  }

  lemma {:induction false} RunExplained(s: State, calls: seq<Pc>, es: seq<Event>, actions: seq<Action>, s': State,
                                        plus: Plus)
    requires AllFollow(s, calls) && AllExplained(s, calls, es) && Runs(s, actions, s', plus)
    ensures AllExplained(s', calls + Calls(actions), es + Events(s, actions, plus))
    decreases |actions|
  {
    hide AllFollow, AllExplained, Next, Enabled, StepEvents;
    if actions != [] {
      var a := actions[0];
      AllFollowKept(s, calls, a, plus);
      ExplainedNext(s, calls, es, a, plus);
      var more, es' := if a.Call? then [a.pc] else [], StepEvents(s, a, plus);
      RunExplained(Next(s, a, plus), calls + more, es + es', actions[1..], s', plus);
      assert calls + more + Calls(actions[1..]) == calls + Calls(actions);
      assert es + es' + Events(Next(s, a, plus), actions[1..], plus) == es + Events(s, actions, plus);
    } else {
      assert calls + [] == calls && es + [] == es;
    }
  }

  /** What the events of a call that has returned must be. */
  predicate Accounted(call: Pc, pc: Pc, p: nat, es: seq<Event>) {
    match call
    case SetLoad(k, v) => es == [Put(p, k, v)]
    case AddLoad(k, d, float) =>
      if pc.Added? then pc.delta == d && Looked(es, p, k, if float then FloatVar(pc.cell) else IntVar(pc.cell))
      else pc.Ignored? && es == [Found(p, k, pc.v)] && if float then !pc.v.FloatVar? else !pc.v.IntVar?
    case DelLock(k) => es == [] || es == [Taken(p, k)]
    case _ => forall e :: e in es ==> e.Found?
  }

  /** Every run, with any number of calls at once, is one of a plain map: the table is what
      the effects of the calls make of an empty map one after the other, and each lookup
      finds what is there at its turn. A Set that has returned has stored its variable
      once, an Add has added to the variable that it found or stored under its key, a
      Delete has taken its key once or not at all, and a Do has only looked. */
  lemma Linearized(actions: seq<Action>, s: State, plus: Plus)
    requires Runs(Init, actions, s, plus)
    ensures var es := Events(Init, actions, plus);
      && Legal(map[], es) && Replay(map[], es) == s.m
      && |Calls(actions)| == |s.pcs|
      && forall p: nat :: p < |s.pcs| && Done(s.pcs[p]) ==>
           Accounted(Calls(actions)[p], s.pcs[p], p, ByCall(es, p))
  {
    hide Runs, Events, Legal, Replay, Explained, Follows, Accounted, Typed, ByCall, Calls, Counted;
    InitExplained();
    RunReplays(Init, actions, s, plus);
    RunCounts(Init, [], actions, s, plus);
    RunExplained(Init, [], [], actions, s, plus);
    var es, calls := Events(Init, actions, plus), Calls(actions);
    assert [] + calls == calls && [] + es == es;
    forall p: nat | p < |s.pcs| && Done(s.pcs[p])
      ensures Accounted(calls[p], s.pcs[p], p, ByCall(es, p))
    {
      ReturnedAccounted(calls[p], s.pcs[p], p, ByCall(es, p), s.cells);
    }
  }

  lemma InitExplained()
    ensures AllFollow(Init, []) && Counted(Init) && AllExplained(Init, [], [])
  {
  }

  lemma ReturnedAccounted(call: Pc, pc: Pc, p: nat, es: seq<Event>, cells: seq<Cell>)
    requires Done(pc) && Explained(call, pc, p, es) && Follows(call, pc, cells)
    ensures Accounted(call, pc, p, es)
  {
  }

  // A call on its own

  /** From s on only call p has gone on; table, list and cells are now these. */
  predicate Solo(s: State, t: State, p: nat, m: map<Key, Var>, keys: seq<Key>, cells: seq<Cell>, writer: Option<nat>) {
    && p < |s.pcs| == |t.pcs| && t.readers == s.readers
    && t.m == m && t.keys == keys && t.cells == cells && t.writer == writer
    && forall q :: 0 <= q < |s.pcs| && q != p ==> t.pcs[q] == s.pcs[q]
  }

  predicate SetSolo(s: State, t: State, p: nat, k: Key, v: Var) {
    var m' := s.m[k := v];
    && p < |t.pcs|
    && match t.pcs[p]
       case SetLoad(k', v') => k' == k && v' == v && Solo(s, t, p, s.m, s.keys, s.cells, s.writer)
       case SetLoadOrStore(k', v') => k' == k && v' == v && k !in s.m && Solo(s, t, p, s.m, s.keys, s.cells, s.writer)
       case SetStore(k', v') => k' == k && v' == v && k in s.m && Solo(s, t, p, s.m, s.keys, s.cells, s.writer)
       case KeyLock(k', th) => k' == k && th == Return && k !in s.m && Solo(s, t, p, m', s.keys, s.cells, s.writer)
       case KeyInsert(k', th) =>
         k' == k && th == Return && k !in s.m && s.writer == None && Solo(s, t, p, m', s.keys, s.cells, Some(p))
       case KeyUnlock(th) =>
         th == Return && k !in s.m && s.writer == None && Solo(s, t, p, m', Insert(s.keys, k), s.cells, Some(p))
       case Returned =>
         Solo(s, t, p, m', if k in s.m then s.keys else Insert(s.keys, k), s.cells, s.writer)
       case _ => false
  }

  /** The variable of an Add, and table and cells with it. */
  function AddVar(s: State, k: Key, float: bool): (v: Var) {
    if k in s.m then s.m[k] else if float then FloatVar(|s.cells|) else IntVar(|s.cells|)
  }

  function AddCells(s: State, k: Key, float: bool): (r: seq<Cell>) {
    if k in s.m then s.cells else s.cells + [Cell(float, 0, 0, [])]
  }

  function AddKeys(s: State, k: Key): (r: seq<Key>) { if k in s.m then s.keys else Insert(s.keys, k) }

  predicate AddSolo(s: State, t: State, p: nat, k: Key, d: int, float: bool, plus: Plus) {
    var v, cells := AddVar(s, k, float), AddCells(s, k, float);
    var m' := s.m[k := v];
    && p < |t.pcs|
    && match t.pcs[p]
       case AddLoad(k', d', f) =>
         k' == k && d' == d && f == float && Solo(s, t, p, s.m, s.keys, s.cells, s.writer)
       case AddLoadOrStore(k', d', f) =>
         k' == k && d' == d && f == float && k !in s.m && Solo(s, t, p, s.m, s.keys, s.cells, s.writer)
       case KeyLock(k', th) =>
         k' == k && th == AddTo(v, d, float) && k !in s.m && Solo(s, t, p, m', s.keys, cells, s.writer)
       case KeyInsert(k', th) =>
         k' == k && th == AddTo(v, d, float) && k !in s.m && s.writer == None
         && Solo(s, t, p, m', s.keys, cells, Some(p))
       case KeyUnlock(th) =>
         th == AddTo(v, d, float) && k !in s.m && s.writer == None
         && Solo(s, t, p, m', Insert(s.keys, k), cells, Some(p))
       case AddInt(c, d') =>
         d' == d && !float && v == IntVar(c) && c < |cells| && Solo(s, t, p, m', AddKeys(s, k), cells, s.writer)
       case FloatLoad(c, d') =>
         d' == d && float && v == FloatVar(c) && c < |cells| && Solo(s, t, p, m', AddKeys(s, k), cells, s.writer)
       case FloatCas(c, d', cur) =>
         d' == d && float && v == FloatVar(c) && c < |cells| && cur == cells[c].value
         && Solo(s, t, p, m', AddKeys(s, k), cells, s.writer)
       case Added(c, d') =>
         d' == d && v == (if float then FloatVar(c) else IntVar(c)) && c < |cells|
         && Solo(s, t, p, m', AddKeys(s, k), cells[c := Plussed(cells[c], d, plus)], s.writer)
       case Ignored(v') =>
         v' == v && !Fits(cells, v, float) && Solo(s, t, p, m', AddKeys(s, k), cells, s.writer)
       case _ => false
  }

  predicate DeleteSolo(s: State, t: State, p: nat, k: Key) {
    && p < |t.pcs|
    && match t.pcs[p]
       case DelLock(k') => k' == k && Solo(s, t, p, s.m, s.keys, s.cells, s.writer)
       case DelFind(k') => k' == k && s.writer == None && Solo(s, t, p, s.m, s.keys, s.cells, Some(p))
       case DelMap(k') =>
         k' == k && s.writer == None && k in s.keys && Solo(s, t, p, s.m, Remove(s.keys, k), s.cells, Some(p))
       case DelUnlock =>
         s.writer == None && if k in s.keys then Solo(s, t, p, s.m - {k}, Remove(s.keys, k), s.cells, Some(p))
                             else Solo(s, t, p, s.m, s.keys, s.cells, Some(p))
       case Returned =>
         if k in s.keys then Solo(s, t, p, s.m - {k}, Remove(s.keys, k), s.cells, s.writer)
         else Solo(s, t, p, s.m, s.keys, s.cells, s.writer)
       case _ => false
  }

  lemma SetSoloNext(s: State, t: State, p: nat, k: Key, v: Var, plus: Plus)
    requires SetSolo(s, t, p, k, v) && Enabled(t, Step(p))
    ensures SetSolo(s, NextStep(t, p, plus), p, k, v)
  {
    hide Insert, Remove, Plussed;
  }

  lemma AddSoloNext(s: State, t: State, p: nat, k: Key, d: int, float: bool, plus: Plus)
    requires AddSolo(s, t, p, k, d, float, plus) && Enabled(t, Step(p))
    ensures AddSolo(s, NextStep(t, p, plus), p, k, d, float, plus)
  {
    hide NextStep, AddSolo;
    if t.pcs[p].AddLoad? || t.pcs[p].AddLoadOrStore? {
      AddSoloLooks(s, t, p, k, d, float, plus);
    } else if Locking(t.pcs[p]) {
      AddSoloLocks(s, t, p, k, d, float, plus);
    } else {
      AddSoloAdds(s, t, p, k, d, float, plus);
    }
  }

  lemma AddSoloLooks(s: State, t: State, p: nat, k: Key, d: int, float: bool, plus: Plus)
    requires AddSolo(s, t, p, k, d, float, plus) && Enabled(t, Step(p))
    requires t.pcs[p].AddLoad? || t.pcs[p].AddLoadOrStore?
    ensures AddSolo(s, NextStep(t, p, plus), p, k, d, float, plus)
  {
    hide Insert, Remove, Plussed;
  }

  lemma AddSoloLocks(s: State, t: State, p: nat, k: Key, d: int, float: bool, plus: Plus)
    requires AddSolo(s, t, p, k, d, float, plus) && Enabled(t, Step(p)) && Locking(t.pcs[p])
    ensures AddSolo(s, NextStep(t, p, plus), p, k, d, float, plus)
  {
    hide Insert, Remove, Plussed;
  }

  lemma AddSoloAdds(s: State, t: State, p: nat, k: Key, d: int, float: bool, plus: Plus)
    requires AddSolo(s, t, p, k, d, float, plus) && Enabled(t, Step(p))
    requires !Locking(t.pcs[p]) && !t.pcs[p].AddLoad? && !t.pcs[p].AddLoadOrStore?
    ensures AddSolo(s, NextStep(t, p, plus), p, k, d, float, plus)
  {
    hide Insert, Remove, Plussed;
  }

  lemma DeleteSoloNext(s: State, t: State, p: nat, k: Key, plus: Plus)
    requires DeleteSolo(s, t, p, k) && Enabled(t, Step(p))
    ensures DeleteSolo(s, NextStep(t, p, plus), p, k)
  {
    hide Insert, Remove, Plussed;
  }

  /** All that happens is that call p goes on. */
  predicate Only(p: nat, actions: seq<Action>) { forall i :: 0 <= i < |actions| ==> actions[i] == Step(p) }

  lemma {:induction false} SetSoloRuns(s: State, t: State, p: nat, k: Key, v: Var, actions: seq<Action>, u: State,
                                       plus: Plus)
    requires SetSolo(s, t, p, k, v) && Runs(t, actions, u, plus) && Only(p, actions)
    ensures SetSolo(s, u, p, k, v)
    decreases |actions|
  {
    hide SetSolo, NextStep;
    if actions != [] {
      assert actions[0] == Step(p);
      SetSoloNext(s, t, p, k, v, plus);
      SetSoloRuns(s, NextStep(t, p, plus), p, k, v, actions[1..], u, plus);
    }
  }

  lemma {:induction false} AddSoloRuns(s: State, t: State, p: nat, k: Key, d: int, float: bool,
                                       actions: seq<Action>, u: State, plus: Plus)
    requires AddSolo(s, t, p, k, d, float, plus) && Runs(t, actions, u, plus) && Only(p, actions)
    ensures AddSolo(s, u, p, k, d, float, plus)
    decreases |actions|
  {
    hide AddSolo, NextStep;
    if actions != [] {
      assert actions[0] == Step(p);
      AddSoloNext(s, t, p, k, d, float, plus);
      AddSoloRuns(s, NextStep(t, p, plus), p, k, d, float, actions[1..], u, plus);
    }
  }

  lemma {:induction false} DeleteSoloRuns(s: State, t: State, p: nat, k: Key, actions: seq<Action>, u: State,
                                          plus: Plus)
    requires DeleteSolo(s, t, p, k) && Runs(t, actions, u, plus) && Only(p, actions)
    ensures DeleteSolo(s, u, p, k)
    decreases |actions|
  {
    hide DeleteSolo, NextStep;
    if actions != [] {
      assert actions[0] == Step(p);
      DeleteSoloNext(s, t, p, k, plus);
      DeleteSoloRuns(s, NextStep(t, p, plus), p, k, actions[1..], u, plus);
    }
  }

  /** A Set that runs alone stores its variable under its key and changes nothing else;
      the key is listed afterwards if and only if it was, or was not stored. */
  lemma SetAlone(s: State, k: Key, v: Var, actions: seq<Action>, t: State, plus: Plus)
    requires Sorted(s.keys) && Enabled(s, Call(SetLoad(k, v)))
    requires Runs(Next(s, Call(SetLoad(k, v)), plus), actions, t, plus) && Only(|s.pcs|, actions)
    requires |s.pcs| < |t.pcs| && Done(t.pcs[|s.pcs|])
    ensures t.m == s.m[k := v] && t.cells == s.cells
    ensures forall j :: j in t.keys <==> j in s.keys || (j == k && k !in s.m)
  {
    hide Sorted, Runs, Insert;
    var s' := Next(s, Call(SetLoad(k, v)), plus);
    SetSoloRuns(s', s', |s.pcs|, k, v, actions, t, plus);
    InsertSorted(s.keys, k);
  }

  /** An Add that runs alone adds to the variable stored under its key, if that is of its
      kind; leaves everything as it is if it is not; and stores and lists a new variable,
      starting from zero, if there is none. */
  lemma AddAlone(s: State, k: Key, d: int, float: bool, actions: seq<Action>, t: State, plus: Plus)
    requires Sorted(s.keys) && Enabled(s, Call(AddLoad(k, d, float)))
    requires Runs(Next(s, Call(AddLoad(k, d, float)), plus), actions, t, plus) && Only(|s.pcs|, actions)
    requires |s.pcs| < |t.pcs| && Done(t.pcs[|s.pcs|])
    ensures k in s.m ==> t.m == s.m && t.keys == s.keys
    ensures k in s.m && Fits(s.cells, s.m[k], float) ==>
              t.cells == s.cells[s.m[k].cell := Plussed(s.cells[s.m[k].cell], d, plus)]
    ensures k in s.m && !Fits(s.cells, s.m[k], float) && Typed(s.cells, s.m[k]) ==> t.cells == s.cells
    ensures k !in s.m ==> t.cells == s.cells + [Plussed(Cell(float, 0, 0, []), d, plus)]
    ensures k !in s.m ==> t.m == s.m[k := if float then FloatVar(|s.cells|) else IntVar(|s.cells|)]
    ensures forall j :: j in t.keys <==> j in s.keys || (j == k && k !in s.m)
  {
    hide Sorted, Runs, Insert, Plussed;
    var s' := Next(s, Call(AddLoad(k, d, float)), plus);
    AddSoloRuns(s', s', |s.pcs|, k, d, float, actions, t, plus);
    InsertSorted(s.keys, k);
  }

  /** A Delete that runs alone takes a listed key out of table and list, and nothing else;
      it does nothing for a key that is not listed. */
  lemma DeleteAlone(s: State, k: Key, actions: seq<Action>, t: State, plus: Plus)
    requires Sorted(s.keys) && Enabled(s, Call(DelLock(k)))
    requires Runs(Next(s, Call(DelLock(k)), plus), actions, t, plus) && Only(|s.pcs|, actions)
    requires |s.pcs| < |t.pcs| && Done(t.pcs[|s.pcs|])
    ensures t.m == (if k in s.keys then s.m - {k} else s.m) && t.cells == s.cells
    ensures forall j :: j in t.keys <==> j in s.keys && j != k
  {
    hide Sorted, Runs, Remove;
    var s' := Next(s, Call(DelLock(k)), plus);
    DeleteSoloRuns(s', s', |s.pcs|, k, actions, t, plus);
    RemoveSorted(s.keys, k);
  }
}
