/** The concurrent map of package expvar: a table with atomic operations, and a sorted
    list of its keys behind a readers-writer lock. Every atomic operation is a step,
    and any number of calls interleave. */
module Expvar {
  import opened Common
  import opened SortedKeys

  // The state machine

  /** An expvar.Var: the number of an Int's or a Float's cell, or anything else. */
  datatype Var = IntVar(cell: nat) | FloatVar(cell: nat) | OtherVar

  /** A word of memory with the additions made to it, in order. */
  datatype Cell = Cell(float: bool, base: int, value: int, log: seq<int>)

  /** Adding to an int64 or to the bits of a float64. */
  type Plus = (bool, int, int) -> int

  /** What an Add or AddFloat does once its key is listed. */
  datatype Then = Return | AddTo(v: Var, delta: int, float: bool)

  /** A call and where it is. One that has returned remembers what it added, or the
      variable of another kind that it left alone. */
  datatype Pc =
    | SetLoad(key: Key, v: Var) | SetLoadOrStore(key: Key, v: Var) | SetStore(key: Key, v: Var)
    | AddLoad(key: Key, delta: int, float: bool) | AddLoadOrStore(key: Key, delta: int, float: bool)
    | AddInt(cell: nat, delta: int) | FloatLoad(cell: nat, delta: int) | FloatCas(cell: nat, delta: int, cur: int)
    | KeyLock(key: Key, then_: Then) | KeyInsert(key: Key, then_: Then) | KeyUnlock(then_: Then)
    | DelLock(key: Key) | DelFind(key: Key) | DelMap(key: Key) | DelUnlock
    | DoLock | DoLoad(seen: seq<Key>, vars: seq<Var>) | DoUnlock(seen: seq<Key>, vars: seq<Var>)
    | Returned | Added(cell: nat, delta: int) | Ignored(v: Var) | Panicked

  datatype State = State(m: map<Key, Var>, keys: seq<Key>, writer: Option<nat>, readers: set<nat>,
                         cells: seq<Cell>, pcs: seq<Pc>)

  const Init := State(map[], [], None, {}, [], [])

  datatype Action = Call(pc: Pc) | NewCell(float: bool, value: int) | Step(p: nat)

  /** A variable has a cell of its own kind. */
  predicate Typed(cells: seq<Cell>, v: Var) {
    match v
    case IntVar(c) => c < |cells| && !cells[c].float
    case FloatVar(c) => c < |cells| && cells[c].float
    case OtherVar => true
  }

  predicate Done(pc: Pc) { pc.Returned? || pc.Added? || pc.Ignored? }

  predicate Starts(pc: Pc) { pc.SetLoad? || pc.AddLoad? || pc.DelLock? || pc.DoLock? }

  predicate Enabled(s: State, a: Action) {
    match a
    case Call(pc) => Starts(pc) && (pc.SetLoad? ==> Typed(s.cells, pc.v))
    case NewCell(_, _) => true
    case Step(p) => p < |s.pcs| && Ready(s, s.pcs[p])
  }

  /** Only taking the lock can make a call wait. */
  predicate Ready(s: State, pc: Pc) {
    match pc
    case KeyLock(_, _) => s.writer == None && s.readers == {}
    case DelLock(_) => s.writer == None && s.readers == {}
    case DoLock => s.writer == None
    case Returned => false
    case Added(_, _) => false
    case Ignored(_) => false
    case Panicked => false
    case _ => true
  }

  /** The variable is added to if it is of the right kind, and ignored otherwise. */
  function Continue(then_: Then, cells: nat): (r: Pc) {
    if then_.Return? then Returned
    else if then_.v.IntVar? && !then_.float && then_.v.cell < cells then AddInt(then_.v.cell, then_.delta)
    else if then_.v.FloatVar? && then_.float && then_.v.cell < cells then FloatLoad(then_.v.cell, then_.delta)
    else Ignored(then_.v)
  }

  function Plussed(c: Cell, delta: int, plus: Plus): (r: Cell) {
    c.(value := plus(c.float, c.value, delta), log := c.log + [delta])
  }

  function To(s: State, p: nat, pc: Pc): (r: State)
    requires p < |s.pcs|
  {
    s.(pcs := s.pcs[p := pc])
  }

  function Next(s: State, a: Action, plus: Plus): (r: State)
    requires Enabled(s, a)
  {
    match a
    case Call(pc) => s.(pcs := s.pcs + [pc])
    case NewCell(float, value) => s.(cells := s.cells + [Cell(float, value, value, [])])
    case Step(p) => NextStep(s, p, plus)
  }

  function NextStep(s: State, p: nat, plus: Plus): (r: State)
    requires Enabled(s, Step(p))
  {
    match s.pcs[p]
    case SetLoad(k, v) => To(s, p, if k in s.m then SetStore(k, v) else SetLoadOrStore(k, v))
    case SetLoadOrStore(k, v) =>
      if k in s.m then To(s, p, SetStore(k, v)) else To(s.(m := s.m[k := v]), p, KeyLock(k, Return))
    case SetStore(k, v) => To(s.(m := s.m[k := v]), p, Returned)
    case AddLoad(k, d, float) =>
      if k in s.m then To(s, p, Continue(AddTo(s.m[k], d, float), |s.cells|)) else To(s, p, AddLoadOrStore(k, d, float))
    case AddLoadOrStore(k, d, float) =>
      if k in s.m then To(s, p, Continue(AddTo(s.m[k], d, float), |s.cells|))
      else
        var v := if float then FloatVar(|s.cells|) else IntVar(|s.cells|);
        To(s.(m := s.m[k := v], cells := s.cells + [Cell(float, 0, 0, [])]), p, KeyLock(k, AddTo(v, d, float)))
    case AddInt(c, d) =>
      if c < |s.cells| then To(s.(cells := s.cells[c := Plussed(s.cells[c], d, plus)]), p, Added(c, d))
      else To(s, p, Returned)
    case FloatLoad(c, d) => To(s, p, if c < |s.cells| then FloatCas(c, d, s.cells[c].value) else Returned)
    case FloatCas(c, d, cur) =>
      if c < |s.cells| && s.cells[c].value == cur then
        To(s.(cells := s.cells[c := Plussed(s.cells[c], d, plus)]), p, Added(c, d))
      else To(s, p, FloatLoad(c, d))
    case KeyLock(k, t) => To(s.(writer := Some(p)), p, KeyInsert(k, t))
    case KeyInsert(k, t) => To(s.(keys := Insert(s.keys, k)), p, KeyUnlock(t))
    case KeyUnlock(t) => To(s.(writer := None), p, Continue(t, |s.cells|))
    case DelLock(k) => To(s.(writer := Some(p)), p, DelFind(k))
    case DelFind(k) =>
      if k in s.keys then To(s.(keys := Remove(s.keys, k)), p, DelMap(k)) else To(s, p, DelUnlock)
    case DelMap(k) => To(s.(m := s.m - {k}), p, DelUnlock)
    case DelUnlock => To(s.(writer := None), p, Returned)
    case DoLock => To(s.(readers := s.readers + {p}), p, DoLoad([], []))
    case DoLoad(seen, vars) =>
      if |seen| >= |s.keys| then To(s, p, DoUnlock(seen, vars))
      else
        var k := s.keys[|seen|];
        if k in s.m then To(s, p, DoLoad(seen + [k], vars + [s.m[k]]))
        else To(s.(readers := s.readers - {p}), p, Panicked)
    case DoUnlock(_, _) => To(s.(readers := s.readers - {p}), p, Returned)
  }

  /** The key that a call has stored but not yet listed, or unlisted but not yet removed. */
  function Owned(pc: Pc): (r: Option<Key>) {
    match pc
    case KeyLock(k, _) => Some(k)
    case KeyInsert(k, _) => Some(k)
    case DelMap(k) => Some(k)
    case _ => None
  }

  predicate Writes(pc: Pc) { pc.KeyInsert? || pc.KeyUnlock? || pc.DelFind? || pc.DelMap? || pc.DelUnlock? }

  predicate Reads(pc: Pc) { pc.DoLoad? || pc.DoUnlock? }

  ghost predicate Locks(s: State) {
    && (forall p :: 0 <= p < |s.pcs| ==> (Writes(s.pcs[p]) <==> s.writer == Some(p)))
    && (forall p :: 0 <= p < |s.pcs| ==> (Reads(s.pcs[p]) <==> p in s.readers))
    && (s.writer.Some? ==> s.writer.value < |s.pcs| && s.readers == {})
    && (forall p :: p in s.readers ==> p < |s.pcs|)
  }

  /** Every listed key is stored. An owned key is stored and not listed, and has one
      owner. */
  ghost predicate Listed(s: State) {
    && (forall k :: k in s.keys ==> k in s.m)
    && (forall p :: 0 <= p < |s.pcs| && Owned(s.pcs[p]).Some? ==>
          Owned(s.pcs[p]).value in s.m && Owned(s.pcs[p]).value !in s.keys)
    && (forall p, q :: 0 <= p < q < |s.pcs| && Owned(s.pcs[p]).Some? ==> Owned(s.pcs[p]) != Owned(s.pcs[q]))
  }

  /** An iteration has come through the list as it is. */
  ghost predicate Iterates(s: State) {
    forall p :: 0 <= p < |s.pcs| ==>
      && s.pcs[p] != Panicked
      && (s.pcs[p].DoLoad? ==> s.pcs[p].seen <= s.keys)
      && (s.pcs[p].DoUnlock? ==> s.pcs[p].seen == s.keys)
  }

  function Total(float: bool, base: int, log: seq<int>, plus: Plus): (r: int) {
    if log == [] then base else plus(float, Total(float, base, log[..|log| - 1], plus), log[|log| - 1])
  }

  /** No addition is lost. */
  ghost predicate Summed(s: State, plus: Plus) {
    forall c :: 0 <= c < |s.cells| ==>
      s.cells[c].value == Total(s.cells[c].float, s.cells[c].base, s.cells[c].log, plus)
  }

  ghost predicate Inv(s: State, plus: Plus) {
    Sorted(s.keys) && Locks(s) && Listed(s) && Iterates(s) && Summed(s, plus)
  }

  /** Call p takes, keeps or gives up the lock as its new position says. */
  lemma LocksFrame(s: State, s': State, p: nat, pc: Pc)
    requires Locks(s) && p < |s.pcs| && s'.pcs == s.pcs[p := pc]
    requires s'.writer == if Writes(pc) then Some(p) else if Writes(s.pcs[p]) then None else s.writer
    requires forall q :: q in s'.readers <==> if q == p then Reads(pc) else q in s.readers
    requires Writes(pc) && !Writes(s.pcs[p]) ==> s.writer == None && s.readers == {} && !Reads(s.pcs[p])
    requires Reads(pc) && !Reads(s.pcs[p]) ==> s.writer == None && !Writes(s.pcs[p])
    ensures Locks(s')
  {
    hide Writes, Reads;
    assert Writes(s.pcs[p]) <==> s.writer == Some(p);
    assert Reads(s.pcs[p]) <==> p in s.readers;
    assert !(Writes(pc) && Reads(pc)) by { OneLock(pc); }
    forall q | 0 <= q < |s'.pcs|
      ensures Writes(s'.pcs[q]) <==> s'.writer == Some(q)
      ensures Reads(s'.pcs[q]) <==> q in s'.readers
    {
      if q != p {
        assert Writes(s.pcs[q]) <==> s.writer == Some(q);
        assert Reads(s.pcs[q]) <==> q in s.readers;
      }
    }
    if s'.writer.Some? {
      assert s'.readers == {};
    }
  }

  lemma OneLock(pc: Pc)
    ensures !(Writes(pc) && Reads(pc))
  {
  }

  /** Where a step takes the call, and the lock with it. */
  ghost predicate Moves(s: State, s': State, p: nat)
    requires p < |s.pcs|
  {
    && |s'.pcs| == |s.pcs| && s'.pcs == s.pcs[p := s'.pcs[p]]
    && var pc := s'.pcs[p];
      && s'.writer == (if Writes(pc) then Some(p) else if Writes(s.pcs[p]) then None else s.writer)
      && s'.readers == (if Reads(pc) then s.readers + {p} else s.readers - {p})
      && (Writes(pc) && !Writes(s.pcs[p]) ==> s.writer == None && s.readers == {} && !Reads(s.pcs[p]))
      && (Reads(pc) && !Reads(s.pcs[p]) ==> s.writer == None && !Writes(s.pcs[p]))
  }

  predicate Locking(pc: Pc) {
    pc.KeyLock? || pc.KeyInsert? || pc.KeyUnlock? || pc.DelLock? || pc.DelFind? || pc.DelMap? || pc.DelUnlock?
  }

  lemma WriterMoves(s: State, p: nat, plus: Plus)
    requires Enabled(s, Step(p)) && Locking(s.pcs[p])
    requires (Writes(s.pcs[p]) <==> s.writer == Some(p)) && p !in s.readers
    ensures Moves(s, NextStep(s, p, plus), p)
  {
    hide Insert, Remove, Plussed;
  }

  lemma OtherMoves(s: State, p: nat, plus: Plus)
    requires Enabled(s, Step(p)) && !Locking(s.pcs[p])
    requires s.writer != Some(p) && (Reads(s.pcs[p]) <==> p in s.readers)
    ensures Moves(s, NextStep(s, p, plus), p)
  {
    hide Insert, Remove, Plussed;
  }

  lemma LocksKept(s: State, a: Action, plus: Plus)
    requires Locks(s) && Enabled(s, a)
    ensures Locks(Next(s, a, plus))
  {
    hide NextStep;
    if a.Step? {
      var s' := Next(s, a, plus);
      assert Writes(s.pcs[a.p]) <==> s.writer == Some(a.p);
      assert Reads(s.pcs[a.p]) <==> a.p in s.readers;
      if Locking(s.pcs[a.p]) {
        WriterMoves(s, a.p, plus);
      } else {
        OtherMoves(s, a.p, plus);
      }
      hide Locks;
      LocksFrame(s, s', a.p, s'.pcs[a.p]);
    }
  }

  lemma SortedKept(s: State, a: Action, plus: Plus)
    requires Sorted(s.keys) && Enabled(s, a)
    ensures Sorted(Next(s, a, plus).keys)
  {
    hide Insert, Remove, Sorted;
    if a.Step? && s.pcs[a.p].KeyInsert? {
      InsertSorted(s.keys, s.pcs[a.p].key);
    } else if a.Step? && s.pcs[a.p].DelFind? {
      RemoveSorted(s.keys, s.pcs[a.p].key);
    }
  }

  lemma ListedFrame(s: State, s': State, p: nat)
    requires Listed(s) && p < |s.pcs| && ListMoves(s, s', p)
    ensures Listed(s')
  {
    hide Owned;
    forall k | k in s'.keys
      ensures k in s'.m
    {
      assert k in s.m;
    }
    forall q | 0 <= q < |s'.pcs| && Owned(s'.pcs[q]).Some?
      ensures Owned(s'.pcs[q]).value in s'.m && Owned(s'.pcs[q]).value !in s'.keys
      ensures q != p ==> Owned(s'.pcs[p]) != Owned(s'.pcs[q])
    {
      if q != p {
        assert s'.pcs[q] == s.pcs[q];
        assert Owned(s.pcs[p]).Some? ==> Owned(s.pcs[p]) != Owned(s.pcs[q]);
      }
    }
    forall q, r | 0 <= q < r < |s'.pcs| && Owned(s'.pcs[q]).Some?
      ensures Owned(s'.pcs[q]) != Owned(s'.pcs[r])
    {
    }
  }

  /** Call p goes on and owns no other key than before; what was listed or owned is still
      stored, unless p gave it up. */
  ghost predicate ListMoves(s: State, s': State, p: nat)
    requires p < |s.pcs|
  {
    && |s'.pcs| == |s.pcs| && s'.pcs == s.pcs[p := s'.pcs[p]]
    && (Owned(s'.pcs[p]).Some? ==>
          || Owned(s'.pcs[p]) == Owned(s.pcs[p])
          || Owned(s'.pcs[p]).value !in s.m || Owned(s'.pcs[p]).value in s.keys)
    && (Owned(s'.pcs[p]).Some? ==> Owned(s'.pcs[p]).value in s'.m && Owned(s'.pcs[p]).value !in s'.keys)
    && (forall k :: k in s'.keys ==> k in s.keys || Owned(s.pcs[p]) == Some(k) != Owned(s'.pcs[p]))
    && (forall k :: k in s.m ==> k in s'.m || (Owned(s.pcs[p]) == Some(k) != Owned(s'.pcs[p]) && k !in s'.keys))
  }

  lemma LockingLists(s: State, p: nat, plus: Plus)
    requires Sorted(s.keys) && Listed(s) && Enabled(s, Step(p)) && Locking(s.pcs[p])
    ensures ListMoves(s, NextStep(s, p, plus), p)
  {
    hide Insert, Remove, Sorted;
    OwnedFacts(s, p);
    ListedFacts(s);
    hide Listed;
    if s.pcs[p].KeyInsert? {
      InsertSorted(s.keys, s.pcs[p].key);
    } else if s.pcs[p].DelFind? {
      RemoveSorted(s.keys, s.pcs[p].key);
    }
  }

  lemma PlainLists(s: State, p: nat, plus: Plus)
    requires Listed(s) && Enabled(s, Step(p)) && !Locking(s.pcs[p])
    ensures ListMoves(s, NextStep(s, p, plus), p)
  {
    hide Plussed;
    OwnedFacts(s, p);
    ListedFacts(s);
    hide Listed;
  }

  lemma ListedKept(s: State, a: Action, plus: Plus)
    requires Sorted(s.keys) && Listed(s) && Enabled(s, a)
    ensures Listed(Next(s, a, plus))
  {
    hide Sorted, NextStep;
    if a.Step? {
      if Locking(s.pcs[a.p]) {
        LockingLists(s, a.p, plus);
      } else {
        PlainLists(s, a.p, plus);
      }
      hide Listed;
      ListedFrame(s, Next(s, a, plus), a.p);
    }
  }

  lemma OwnedFacts(s: State, p: nat)
    requires Listed(s) && p < |s.pcs|
    ensures Owned(s.pcs[p]).Some? ==> Owned(s.pcs[p]).value in s.m && Owned(s.pcs[p]).value !in s.keys
  {
  }

  lemma ListedFacts(s: State)
    requires Listed(s)
    ensures forall k :: k in s.keys ==> k in s.m
  {
  }

  /** While there is a reader the list stays as it is. */
  lemma ListHeld(s: State, a: Action, plus: Plus)
    requires Locks(s) && Enabled(s, a)
    ensures Next(s, a, plus).keys == s.keys || forall q :: 0 <= q < |s.pcs| ==> !Reads(s.pcs[q])
  {
    hide Insert, Remove, Plussed;
    if a.Step? {
      assert Writes(s.pcs[a.p]) <==> s.writer == Some(a.p);
    }
  }

  lemma OthersStay(s: State, p: nat, plus: Plus)
    requires Enabled(s, Step(p))
    ensures var s' := NextStep(s, p, plus); |s'.pcs| == |s.pcs| && s'.pcs == s.pcs[p := s'.pcs[p]]
  {
    hide Insert, Remove, Plussed;
  }

  lemma IteratesOwn(s: State, p: nat, plus: Plus)
    requires Enabled(s, Step(p)) && Iterates(s) && forall k :: k in s.keys ==> k in s.m
    ensures var s' := NextStep(s, p, plus);
      |s'.pcs| == |s.pcs| && s'.pcs[p] != Panicked
      && (s'.pcs[p].DoLoad? ==> s'.pcs[p].seen <= s.keys && s'.keys == s.keys)
      && (s'.pcs[p].DoUnlock? ==> s'.pcs[p].seen == s.keys && s'.keys == s.keys)
  {
    hide Insert, Remove, Plussed;
    assert s.pcs[p].DoLoad? ==> s.pcs[p].seen <= s.keys;
  }

  lemma IteratesKept(s: State, a: Action, plus: Plus)
    requires Locks(s) && Listed(s) && Iterates(s) && Enabled(s, a)
    ensures Iterates(Next(s, a, plus))
  {
    ListHeld(s, a, plus);
    ListedFacts(s);
    if a.Step? {
      OthersStay(s, a.p, plus);
      IteratesOwn(s, a.p, plus);
    }
    hide Locks, Listed, NextStep;
  }

  lemma SummedKept(s: State, a: Action, plus: Plus)
    requires Summed(s, plus) && Enabled(s, a)
    ensures Summed(Next(s, a, plus), plus)
  {
    hide Insert, Remove, Sorted;
  }

  lemma InvKept(s: State, a: Action, plus: Plus)
    requires Inv(s, plus) && Enabled(s, a)
    ensures Inv(Next(s, a, plus), plus)
  {
    hide Sorted, Locks, Listed, Iterates, Summed, Next;
    LocksKept(s, a, plus);
    SortedKept(s, a, plus);
    ListedKept(s, a, plus);
    IteratesKept(s, a, plus);
    SummedKept(s, a, plus);
  }

  // Runs

  ghost predicate Runs(s: State, actions: seq<Action>, s': State, plus: Plus)
    decreases |actions|
  {
    if actions == [] then s' == s
    else Enabled(s, actions[0]) && Runs(Next(s, actions[0], plus), actions[1..], s', plus)
  }

  lemma {:induction false} RunKeeps(s: State, actions: seq<Action>, s': State, plus: Plus)
    requires Inv(s, plus) && Runs(s, actions, s', plus)
    ensures Inv(s', plus)
    decreases |actions|
  {
    hide Inv;
    if actions != [] {
      InvKept(s, actions[0], plus);
      RunKeeps(Next(s, actions[0], plus), actions[1..], s', plus);
    }
  }

  /** In every run the list is sorted without repetition and each listed key is stored,
      so that no iteration fails: each comes through exactly the listed keys. And the
      value of each cell is the total of the additions made to it. */
  lemma DoIsSafe(actions: seq<Action>, s: State, plus: Plus)
    requires Runs(Init, actions, s, plus)
    ensures Sorted(s.keys) && forall k :: k in s.keys ==> k in s.m
    ensures forall p :: 0 <= p < |s.pcs| ==> s.pcs[p] != Panicked && (s.pcs[p].DoUnlock? ==> s.pcs[p].seen == s.keys)
    ensures Summed(s, plus)
  {
    RunKeeps(Init, actions, s, plus);
  }

  // Additions

  /** The calls of a run, in the order in which they began. */
  function Calls(actions: seq<Action>): (r: seq<Pc>) {
    if actions == [] then []
    else if actions[0].Call? then [actions[0].pc] + Calls(actions[1..])
    else Calls(actions[1..])
  }

  /** v is a variable that an Add (float: an AddFloat) adds to. */
  predicate Fits(cells: seq<Cell>, v: Var, float: bool) {
    Typed(cells, v) && if float then v.FloatVar? else v.IntVar?
  }

  predicate Pending(cells: seq<Cell>, t: Then, delta: int, float: bool) {
    t.AddTo? && t.delta == delta && t.float == float && Fits(cells, t.v, float)
  }

  /** An Add can return only by adding its delta to a cell of its kind, or because the
      variable it found is of another kind. */
  predicate AddFollows(k: Key, d: int, float: bool, pc: Pc, cells: seq<Cell>) {
    match pc
    case AddLoad(k', d', f) => k' == k && d' == d && f == float
    case AddLoadOrStore(k', d', f) => k' == k && d' == d && f == float
    case KeyLock(k', t) => k' == k && Pending(cells, t, d, float)
    case KeyInsert(k', t) => k' == k && Pending(cells, t, d, float)
    case KeyUnlock(t) => Pending(cells, t, d, float)
    case AddInt(c, d') => d' == d && !float && c < |cells| && !cells[c].float
    case FloatLoad(c, d') => d' == d && float && c < |cells| && cells[c].float
    case FloatCas(c, d', _) => d' == d && float && c < |cells| && cells[c].float
    case Added(c, d') => d' == d && c < |cells| && cells[c].float == float
    case Ignored(v) => if float then !v.FloatVar? else !v.IntVar?
    case _ => false
  }

  /** No other call adds anything. */
  predicate OtherFollows(pc: Pc, cells: seq<Cell>) {
    match pc
    case SetLoad(_, v) => Typed(cells, v)
    case SetLoadOrStore(_, v) => Typed(cells, v)
    case SetStore(_, v) => Typed(cells, v)
    case KeyLock(_, t) => t == Return
    case KeyInsert(_, t) => t == Return
    case KeyUnlock(t) => t == Return
    case AddLoad(_, _, _) => false
    case AddLoadOrStore(_, _, _) => false
    case AddInt(_, _) => false
    case FloatLoad(_, _) => false
    case FloatCas(_, _, _) => false
    case Added(_, _) => false
    case Ignored(_) => false
    case _ => true
  }

  predicate Follows(call: Pc, pc: Pc, cells: seq<Cell>) {
    if call.AddLoad? then AddFollows(call.key, call.delta, call.float, pc, cells) else OtherFollows(pc, cells)
  }

  /** The deltas that the calls say they have added to cell c. */
  function Deltas(pcs: seq<Pc>, c: nat): (r: multiset<int>) {
    if pcs == [] then multiset{} else Deltas(pcs[..|pcs| - 1], c) + Delta(pcs[|pcs| - 1], c)
  }

  function Delta(pc: Pc, c: nat): (r: multiset<int>) {
    if pc.Added? && pc.cell == c then multiset{pc.delta} else multiset{}
  }

  ghost predicate AllFollow(s: State, calls: seq<Pc>) {
    && |calls| == |s.pcs|
    && (forall p :: 0 <= p < |calls| ==> Follows(calls[p], s.pcs[p], s.cells))
    && (forall k :: k in s.m ==> Typed(s.cells, s.m[k]))
  }

  /** What has been added to each cell is what the calls say. */
  ghost predicate Counted(s: State) {
    forall c :: 0 <= c < |s.cells| ==> multiset(s.cells[c].log) == Deltas(s.pcs, c)
  }

  /** Cells keep their kind, and none goes away. */
  ghost predicate Keeps(cells: seq<Cell>, cells': seq<Cell>) {
    |cells| <= |cells'| && forall c :: 0 <= c < |cells| ==> cells'[c].float == cells[c].float
  }

  lemma FollowsOn(call: Pc, pc: Pc, cells: seq<Cell>, cells': seq<Cell>)
    requires Follows(call, pc, cells) && Keeps(cells, cells')
    ensures Follows(call, pc, cells')
  {
  }

  lemma CellsKept(s: State, a: Action, plus: Plus)
    requires Enabled(s, a)
    ensures Keeps(s.cells, Next(s, a, plus).cells)
  {
    hide Insert, Remove;
  }

  /** The call that takes the step. */
  lemma OwnFollows(s: State, call: Pc, p: nat, plus: Plus)
    requires Enabled(s, Step(p)) && Follows(call, s.pcs[p], s.cells)
    requires forall k :: k in s.m ==> Typed(s.cells, s.m[k])
    ensures var s' := NextStep(s, p, plus); p < |s'.pcs| && Follows(call, s'.pcs[p], s'.cells)
  {
    hide NextStep, AddFollows, OtherFollows;
    if call.AddLoad? {
      AddFollowsOn(s, call.key, call.delta, call.float, p, plus);
    } else {
      OtherFollowsOn(s, p, plus);
    }
  }

  lemma AddFollowsOn(s: State, k: Key, d: int, float: bool, p: nat, plus: Plus)
    requires Enabled(s, Step(p)) && AddFollows(k, d, float, s.pcs[p], s.cells)
    requires forall k :: k in s.m ==> Typed(s.cells, s.m[k])
    ensures var s' := NextStep(s, p, plus); p < |s'.pcs| && AddFollows(k, d, float, s'.pcs[p], s'.cells)
  {
    hide Insert, Remove;
  }

  lemma OtherFollowsOn(s: State, p: nat, plus: Plus)
    requires Enabled(s, Step(p)) && OtherFollows(s.pcs[p], s.cells)
    ensures var s' := NextStep(s, p, plus); p < |s'.pcs| && OtherFollows(s'.pcs[p], s'.cells)
  {
    hide NextStep;
    SameCells(s, p, plus);
    if Locking(s.pcs[p]) {
      LockingFollows(s, p, plus);
    } else {
      PlainFollows(s, p, plus);
    }
  }

  lemma LockingFollows(s: State, p: nat, plus: Plus)
    requires Enabled(s, Step(p)) && OtherFollows(s.pcs[p], s.cells) && Locking(s.pcs[p])
    ensures var s' := NextStep(s, p, plus); p < |s'.pcs| && OtherFollows(s'.pcs[p], s.cells)
  {
    hide Insert, Remove, Typed;
  }

  lemma PlainFollows(s: State, p: nat, plus: Plus)
    requires Enabled(s, Step(p)) && OtherFollows(s.pcs[p], s.cells) && !Locking(s.pcs[p])
    ensures var s' := NextStep(s, p, plus); p < |s'.pcs| && OtherFollows(s'.pcs[p], s.cells)
  {
    hide Plussed, Typed;
  }

  lemma MapKept(s: State, call: Pc, p: nat, plus: Plus)
    requires Enabled(s, Step(p)) && Follows(call, s.pcs[p], s.cells)
    requires forall k :: k in s.m ==> Typed(s.cells, s.m[k])
    ensures var s' := NextStep(s, p, plus); forall k :: k in s'.m ==> Typed(s'.cells, s'.m[k])
  {
    hide Insert, Remove;
  }

  lemma AllFollowKept(s: State, calls: seq<Pc>, a: Action, plus: Plus)
    requires AllFollow(s, calls) && Enabled(s, a)
    ensures AllFollow(Next(s, a, plus), calls + if a.Call? then [a.pc] else [])
  {
    hide Follows, NextStep, Keeps;
    var s' := Next(s, a, plus);
    CellsKept(s, a, plus);
    forall p | 0 <= p < |s.pcs|
      ensures Follows(calls[p], s.pcs[p], s'.cells)
    {
      FollowsOn(calls[p], s.pcs[p], s.cells, s'.cells);
    }
    match a {
      case Step(p) =>
        OthersStay(s, p, plus);
        OwnFollows(s, calls[p], p, plus);
        MapKept(s, calls[p], p, plus);
        assert calls + [] == calls;
      case Call(pc) => CallFollows(s, pc);
      case NewCell(_, _) =>
        TypedOn(s, s'.cells);
        assert calls + [] == calls;
    }
  }

  lemma CallFollows(s: State, pc: Pc)
    requires Enabled(s, Call(pc))
    ensures Follows(pc, pc, s.cells)
  {
  }

  lemma TypedOn(s: State, cells': seq<Cell>)
    requires (forall k :: k in s.m ==> Typed(s.cells, s.m[k])) && Keeps(s.cells, cells')
    ensures forall k :: k in s.m ==> Typed(cells', s.m[k])
  {
  }

  lemma {:induction false} DeltasUpdate(pcs: seq<Pc>, p: nat, pc: Pc, c: nat)
    requires p < |pcs| && Delta(pcs[p], c) == multiset{}
    ensures Deltas(pcs[p := pc], c) == Deltas(pcs, c) + Delta(pc, c)
  {
    hide Delta;
    var n := |pcs| - 1;
    if p < n {
      DeltasUpdate(pcs[..n], p, pc, c);
      assert pcs[p := pc][..n] == pcs[..n][p := pc];
      SwapLast(Deltas(pcs[..n], c), Delta(pc, c), Delta(pcs[n], c));
    } else {
      assert pcs[p := pc][..n] == pcs[..n];
    }
  }

  lemma SwapLast(a: multiset<int>, b: multiset<int>, c: multiset<int>)
    ensures a + b + c == a + c + b
  {
  }

  lemma {:induction false} NoDeltas(pcs: seq<Pc>, c: nat)
    requires forall p :: 0 <= p < |pcs| ==> Delta(pcs[p], c) == multiset{}
    ensures Deltas(pcs, c) == multiset{}
  {
    if pcs != [] {
      NoDeltas(pcs[..|pcs| - 1], c);
    }
  }

  /** What is written to a log is exactly what the call will say it has added. */
  ghost predicate Logs(s: State, s': State, p: nat)
    requires p < |s.pcs|
  {
    && |s.cells| <= |s'.cells| && p < |s'.pcs| && (forall c: nat :: Delta(s.pcs[p], c) == multiset{})
    && (forall c :: 0 <= c < |s.cells| ==>
          multiset(s'.cells[c].log) == multiset(s.cells[c].log) + Delta(s'.pcs[p], c))
    && (forall c :: |s.cells| <= c < |s'.cells| ==> s'.cells[c].log == [] && Delta(s'.pcs[p], c) == multiset{})
  }

  lemma LogAdded(s: State, s': State, p: nat, c: nat, d: int, plus: Plus)
    requires p < |s.pcs| == |s'.pcs| && !s.pcs[p].Added? && s'.pcs[p] == Added(c, d)
    requires c < |s.cells| && s'.cells == s.cells[c := Plussed(s.cells[c], d, plus)]
    ensures Logs(s, s', p)
  {
  }

  lemma LogOther(s: State, s': State, p: nat)
    requires p < |s.pcs| == |s'.pcs| && !s.pcs[p].Added? && !s'.pcs[p].Added?
    requires s'.cells == s.cells || (|s'.cells| == |s.cells| + 1 && s'.cells[..|s.cells|] == s.cells)
    requires |s'.cells| > |s.cells| ==> s'.cells[|s.cells|].log == []
    ensures Logs(s, s', p)
  {
    if |s'.cells| > |s.cells| {
      assert forall c :: 0 <= c < |s.cells| ==> s'.cells[c] == s'.cells[..|s.cells|][c];
    }
  }

  lemma LogStep(s: State, p: nat, plus: Plus)
    requires Enabled(s, Step(p))
    ensures Logs(s, NextStep(s, p, plus), p)
  {
    hide Logs, Plussed, Insert, Remove;
    var pc := s.pcs[p];
    if pc.AddInt? && pc.cell < |s.cells| {
      LogAdded(s, NextStep(s, p, plus), p, pc.cell, pc.delta, plus);
    } else if pc.FloatCas? && pc.cell < |s.cells| && s.cells[pc.cell].value == pc.cur {
      LogAdded(s, NextStep(s, p, plus), p, pc.cell, pc.delta, plus);
    } else if pc.AddInt? || pc.FloatCas? || pc.AddLoadOrStore? {
      LogOther(s, NextStep(s, p, plus), p);
    } else {
      SameCells(s, p, plus);
      hide NextStep;
      LogOther(s, NextStep(s, p, plus), p);
    }
  }

  /** Only three kinds of steps touch the cells. */
  lemma SameCells(s: State, p: nat, plus: Plus)
    requires Enabled(s, Step(p)) && !s.pcs[p].AddInt? && !s.pcs[p].FloatCas? && !s.pcs[p].AddLoadOrStore?
    ensures var s' := NextStep(s, p, plus);
      s'.cells == s.cells && |s'.pcs| == |s.pcs| && !s'.pcs[p].Added? && !s.pcs[p].Added?
  {
    hide Insert, Remove;
  }

  lemma CountedKept(s: State, calls: seq<Pc>, a: Action, plus: Plus)
    requires AllFollow(s, calls) && Counted(s) && Enabled(s, a)
    ensures Counted(Next(s, a, plus))
  {
    hide NextStep, Deltas, Delta;
    var s' := Next(s, a, plus);
    forall c | 0 <= c < |s'.cells|
      ensures multiset(s'.cells[c].log) == Deltas(s'.pcs, c)
    {
      if c >= |s.cells| {
        NotYetAdded(s, calls, c);
      }
      match a {
        case Step(p) =>
          LogStep(s, p, plus);
          OthersStay(s, p, plus);
          DeltasUpdate(s.pcs, p, s'.pcs[p], c);
        case Call(pc) => CallAdds(s.pcs, pc, c);
        case NewCell(_, _) =>
      }
    }
  }

  lemma CallAdds(pcs: seq<Pc>, pc: Pc, c: nat)
    requires Starts(pc)
    ensures Deltas(pcs + [pc], c) == Deltas(pcs, c)
  {
    assert (pcs + [pc])[..|pcs|] == pcs;
  }

  lemma NotYetAdded(s: State, calls: seq<Pc>, c: nat)
    requires AllFollow(s, calls) && c >= |s.cells|
    ensures Deltas(s.pcs, c) == multiset{}
  {
    forall p | 0 <= p < |s.pcs|
      ensures Delta(s.pcs[p], c) == multiset{}
    {
      assert Follows(calls[p], s.pcs[p], s.cells);
    }
    NoDeltas(s.pcs, c);
  }

  lemma {:induction false} RunCounts(s: State, calls: seq<Pc>, actions: seq<Action>, s': State, plus: Plus)
    requires AllFollow(s, calls) && Counted(s) && Runs(s, actions, s', plus)
    ensures AllFollow(s', calls + Calls(actions)) && Counted(s')
    decreases |actions|
  {
    hide AllFollow, Counted, Next, Enabled;
    if actions != [] {
      var a := actions[0];
      AllFollowKept(s, calls, a, plus);
      CountedKept(s, calls, a, plus);
      var more := if a.Call? then [a.pc] else [];
      RunCounts(Next(s, a, plus), calls + more, actions[1..], s', plus);
      assert calls + more + Calls(actions[1..]) == calls + Calls(actions);
    } else {
      assert calls + [] == calls;
    }
  }

  /** In every run no addition is lost or made twice: the value of a cell is the total of
      exactly the deltas of the calls that say they added to it; and a call of Add or
      AddFloat that has returned either says so, for its own delta and a cell of its kind,
      or has found a variable of another kind. */
  lemma AdditionsCounted(actions: seq<Action>, s: State, plus: Plus)
    requires Runs(Init, actions, s, plus)
    ensures |Calls(actions)| == |s.pcs| && Summed(s, plus) && Counted(s)
    ensures forall p :: 0 <= p < |s.pcs| && Calls(actions)[p].AddLoad? && Done(s.pcs[p]) ==>
              var call := Calls(actions)[p];
              if s.pcs[p].Added? then
                s.pcs[p].delta == call.delta && s.pcs[p].cell < |s.cells| && s.cells[s.pcs[p].cell].float == call.float
              else s.pcs[p].Ignored? && if call.float then !s.pcs[p].v.FloatVar? else !s.pcs[p].v.IntVar?
    ensures forall p :: 0 <= p < |s.pcs| && !Calls(actions)[p].AddLoad? ==> !s.pcs[p].Added?
  {
    DoIsSafe(actions, s, plus);
    RunCounts(Init, [], actions, s, plus);
    assert [] + Calls(actions) == Calls(actions);
    hide Summed, Runs, Calls, Sorted;
    forall p | 0 <= p < |s.pcs|
      ensures Follows(Calls(actions)[p], s.pcs[p], s.cells)
    {
    }
  }

  /** A call that waits, waits for one that can go on. */
  lemma NotStuck(s: State, p: nat, plus: Plus)
    requires Inv(s, plus) && p < |s.pcs| && !Done(s.pcs[p])
    ensures exists q: nat :: Enabled(s, Step(q))
  {
    if Ready(s, s.pcs[p]) {
      assert Enabled(s, Step(p));
    } else if s.writer.Some? {
      assert Writes(s.pcs[s.writer.value]);
      assert Enabled(s, Step(s.writer.value));
    } else {
      assert s.readers != {};
      var q :| q in s.readers;
      assert Reads(s.pcs[q]);
      assert Enabled(s, Step(q));
    }
  }

  /** A key that is stored, but that no list shows and no call will list. */
  ghost predicate Lost(s: State, k: Key) {
    && k in s.m && k !in s.keys
    && forall p :: 0 <= p < |s.pcs| ==> Owned(s.pcs[p]) != Some(k)
  }

  /** The converse, that a stored key gets listed, fails in exactly one way: a Set that
      has found the key stores it after a Delete took it away. */
  lemma LostWhen(s: State, a: Action, k: Key, plus: Plus)
    requires Inv(s, plus) && Enabled(s, a) && !Lost(s, k)
    ensures Lost(Next(s, a, plus), k) <==>
            a.Step? && s.pcs[a.p].SetStore? && s.pcs[a.p].key == k && k !in s.m
  {
    hide Insert, Remove, Sorted, Plussed, Summed, Iterates, Locks, NextStep;
    var s' := Next(s, a, plus);
    if a.Step? {
      var p := a.p;
      if s.pcs[p].KeyInsert? {
        InsertSorted(s.keys, s.pcs[p].key);
      } else if s.pcs[p].DelFind? {
        RemoveSorted(s.keys, s.pcs[p].key);
      }
      LostStep(s, s', p, k, plus);
    } else {
      assert forall q :: 0 <= q < |s.pcs| ==> s'.pcs[q] == s.pcs[q];
    }
  }

  lemma LostStep(s: State, s': State, p: nat, k: Key, plus: Plus)
    requires Inv(s, plus) && Enabled(s, Step(p)) && !Lost(s, k) && s' == NextStep(s, p, plus)
    requires s.pcs[p].KeyInsert? ==> forall j :: j in Insert(s.keys, s.pcs[p].key) <==> j in s.keys || j == s.pcs[p].key
    requires s.pcs[p].DelFind? ==> forall j :: j in Remove(s.keys, s.pcs[p].key) <==> j in s.keys && j != s.pcs[p].key
    ensures Lost(s', k) <==> s.pcs[p].SetStore? && s.pcs[p].key == k && k !in s.m
  {
    hide Sorted, Summed, Iterates, Locks;
    OthersStay(s, p, plus);
    if k !in s.m {
      NotStored(s, p, k, plus);
      if Owned(s'.pcs[p]) != Some(k) && k in s'.m {
        forall q | 0 <= q < |s'.pcs|
          ensures Owned(s'.pcs[q]) != Some(k)
        {
          assert q != p ==> s'.pcs[q] == s.pcs[q];
        }
      }
    } else if k in s.keys {
      assert Owned(s.pcs[p]) != Some(k);
      StillListed(s, p, k, plus);
    } else {
      var q :| 0 <= q < |s.pcs| && Owned(s.pcs[q]) == Some(k);
      if q != p {
        assert s'.pcs[q] == s.pcs[q];
      } else {
        StillOwned(s, p, k, plus);
      }
    }
  }

  lemma NotStored(s: State, p: nat, k: Key, plus: Plus)
    requires Listed(s) && Enabled(s, Step(p)) && k !in s.m
    requires s.pcs[p].KeyInsert? ==> forall j :: j in Insert(s.keys, s.pcs[p].key) <==> j in s.keys || j == s.pcs[p].key
    requires s.pcs[p].DelFind? ==> forall j :: j in Remove(s.keys, s.pcs[p].key) <==> j in s.keys && j != s.pcs[p].key
    ensures var s' := NextStep(s, p, plus);
      && k !in s'.keys && p < |s'.pcs|
      && (k in s'.m && Owned(s'.pcs[p]) != Some(k) <==> s.pcs[p].SetStore? && s.pcs[p].key == k)
  {
    hide Insert, Remove, Plussed;
    OwnedFacts(s, p);
    ListedFacts(s);
    hide Listed;
  }

  lemma StillListed(s: State, p: nat, k: Key, plus: Plus)
    requires Enabled(s, Step(p)) && k in s.keys && k in s.m && Owned(s.pcs[p]) != Some(k)
    requires s.pcs[p].KeyInsert? ==> forall j :: j in Insert(s.keys, s.pcs[p].key) <==> j in s.keys || j == s.pcs[p].key
    requires s.pcs[p].DelFind? ==> forall j :: j in Remove(s.keys, s.pcs[p].key) <==> j in s.keys && j != s.pcs[p].key
    ensures var s' := NextStep(s, p, plus); p < |s'.pcs| && (k in s'.keys || Owned(s'.pcs[p]) == Some(k))
  {
    hide Insert, Remove, Plussed;
  }

  lemma StillOwned(s: State, p: nat, k: Key, plus: Plus)
    requires Enabled(s, Step(p)) && Owned(s.pcs[p]) == Some(k)
    requires s.pcs[p].KeyInsert? ==> forall j :: j in Insert(s.keys, s.pcs[p].key) <==> j in s.keys || j == s.pcs[p].key
    ensures var s' := NextStep(s, p, plus); p < |s'.pcs| && (k in s'.keys || k !in s'.m || Owned(s'.pcs[p]) == Some(k))
  {
    hide Insert, Remove, Plussed;
  }

  /** A lost key stays lost: Delete does not find it, and Set does not list it. */
  lemma LostStays(s: State, a: Action, k: Key, plus: Plus)
    requires Inv(s, plus) && Enabled(s, a) && Lost(s, k)
    ensures Lost(Next(s, a, plus), k)
  {
    hide Insert, Remove, Plussed, Summed, Iterates, Locks, Listed;
    if a.Step? {
      if s.pcs[a.p].KeyInsert? {
        InsertSorted(s.keys, s.pcs[a.p].key);
      } else if s.pcs[a.p].DelFind? {
        RemoveSorted(s.keys, s.pcs[a.p].key);
      }
      assert Owned(s.pcs[a.p]) != Some(k);
    }
  }

  lemma {:induction false} RunsOn(s0: State, actions: seq<Action>, s: State, a: Action, plus: Plus)
    requires Runs(s0, actions, s, plus) && Enabled(s, a)
    ensures Runs(s0, actions + [a], Next(s, a, plus), plus)
    decreases |actions|
  {
    if actions != [] {
      RunsOn(Next(s0, actions[0], plus), actions[1..], s, a, plus);
      assert (actions + [a])[1..] == actions[1..] + [a];
    } else {
      assert Runs(Next(s, a, plus), [], Next(s, a, plus), plus);
      assert [a][1..] == [];
    }
  }

  ghost predicate Reachable(s: State, plus: Plus) {
    exists actions: seq<Action> :: Runs(Init, actions, s, plus)
  }

  lemma ReachOn(s: State, a: Action, s': State, plus: Plus)
    requires Reachable(s, plus) && Enabled(s, a)
    requires var t := Next(s, a, plus);
      t.pcs == s'.pcs && t.m == s'.m && t.keys == s'.keys && t.writer == s'.writer && t.readers == s'.readers
      && t.cells == s'.cells
    ensures Reachable(s', plus)
  {
    var actions :| Runs(Init, actions, s, plus);
    RunsOn(Init, actions, s, a, plus);
  }

  /** One such run: a Set between the look and the store of which a Delete comes. */
  lemma LostKey(k: Key, v: Var, plus: Plus)
    requires v == OtherVar
    ensures exists s: State :: Reachable(s, plus) && Lost(s, k) && s.pcs == [Returned, Returned, Returned]
  {
    hide Runs, Search, Less, Remove, Insert;
    var s5 := Overtaken(k, v, plus);
    RemoveOnly(k);
    var s6 := s5.(pcs := [Returned, SetStore(k, v), DelMap(k)], keys := []);
    ReachOn(s5, Step(2), s6, plus);
    var s7 := s6.(pcs := [Returned, SetStore(k, v), DelUnlock], m := map[]);
    assert s6.m - {k} == map[];
    ReachOn(s6, Step(2), s7, plus);
    var s8 := s7.(pcs := [Returned, SetStore(k, v), Returned], writer := None);
    ReachOn(s7, Step(2), s8, plus);
    var s9 := s8.(pcs := [Returned, Returned, Returned], m := map[k := v]);
    ReachOn(s8, Step(1), s9, plus);
    assert Lost(s9, k);
  }

  lemma Overtaken(k: Key, v: Var, plus: Plus) returns (s5: State)
    requires v == OtherVar
    ensures Reachable(s5, plus)
    ensures s5 == State(map[k := v], [k], Some(2), {}, [], [Returned, SetStore(k, v), DelFind(k)])
  {
    hide Runs, Search, Less, Remove, Insert;
    var s1 := Alone(k, v, plus);
    var s2 := s1.(pcs := [Returned, SetLoad(k, v)]);
    ReachOn(s1, Call(SetLoad(k, v)), s2, plus);
    var s3 := s2.(pcs := [Returned, SetStore(k, v)]);
    ReachOn(s2, Step(1), s3, plus);
    var s4 := s3.(pcs := [Returned, SetStore(k, v), DelLock(k)]);
    ReachOn(s3, Call(DelLock(k)), s4, plus);
    s5 := s4.(pcs := [Returned, SetStore(k, v), DelFind(k)], writer := Some(2));
    ReachOn(s4, Step(2), s5, plus);
  }

  lemma RunsNone(plus: Plus)
    ensures Runs(Init, [], Init, plus)
  {
  }

  lemma RemoveOnly(k: Key)
    ensures Remove([k], k) == [] && Insert([], k) == [k]
  {
    LessTotal(k, k);
  }

  /** A Set on its own. */
  lemma Alone(k: Key, v: Var, plus: Plus) returns (s: State)
    requires v == OtherVar
    ensures Reachable(s, plus) && s == State(map[k := v], [k], None, {}, [], [Returned])
  {
    hide Runs, Search, Less, Insert;
    RunsNone(plus);
    RemoveOnly(k);
    var s1 := Init.(pcs := [SetLoad(k, v)]);
    ReachOn(Init, Call(SetLoad(k, v)), s1, plus);
    var s2 := s1.(pcs := [SetLoadOrStore(k, v)]);
    ReachOn(s1, Step(0), s2, plus);
    var s3 := s2.(pcs := [KeyLock(k, Return)], m := map[k := v]);
    ReachOn(s2, Step(0), s3, plus);
    var s4 := s3.(pcs := [KeyInsert(k, Return)], writer := Some(0));
    ReachOn(s3, Step(0), s4, plus);
    var s5 := s4.(pcs := [KeyUnlock(Return)], keys := [k]);
    ReachOn(s4, Step(0), s5, plus);
    s := s5.(pcs := [Returned], writer := None);
    ReachOn(s5, Step(0), s, plus);
  }
}
