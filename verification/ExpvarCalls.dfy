/** Every call of the map of package expvar returns: a measure that each step of a call
    lowers, compare-and-swap loops included. */
module ExpvarCalls {
  import opened Common
  import opened Expvar
  import opened SortedKeys

  function Left(keys: seq<Key>, seen: seq<Key>): (n: nat) { if |seen| < |keys| then |keys| - |seen| else 0 }

  /** A loaded value that is out of date costs another turn of the loop. */
  function Turns(cells: seq<Cell>, c: nat, cur: int): (n: nat) {
    if c < |cells| && cells[c].value == cur then 1 else 3
  }

  /** What a call at pc has still to do. unit pays for what a step can cost other calls. */
  function Cost(s: State, pc: Pc, unit: nat): (n: nat) {
    match pc
    case SetLoad(_, _) => 2 * unit + 8
    case SetLoadOrStore(_, _) => 2 * unit + 7
    case SetStore(_, _) => 1
    case AddLoad(_, _, _) => 2 * unit + 8
    case AddLoadOrStore(_, _, _) => 2 * unit + 7
    case KeyLock(_, _) => 2 * unit + 6
    case KeyInsert(_, _) => 2 * unit + 5
    case KeyUnlock(_) => unit + 4
    case AddInt(_, _) => unit + 1
    case FloatLoad(_, _) => unit + 2
    case FloatCas(c, _, cur) => unit + Turns(s.cells, c, cur)
    case DelLock(_) => 4
    case DelFind(_) => 3
    case DelMap(_) => 2
    case DelUnlock => 1
    case DoLock => |s.keys| + 3
    case DoLoad(seen, _) => Left(s.keys, seen) + 2
    case DoUnlock(_, _) => 1
    case _ => 0
  }

  function Costs(s: State, pcs: seq<Pc>, unit: nat): (n: nat) {
    if pcs == [] then 0 else Costs(s, pcs[..|pcs| - 1], unit) + Cost(s, pcs[|pcs| - 1], unit)
  }

  function Work(s: State): (n: nat) { Costs(s, s.pcs, 2 * |s.pcs|) }

  /** Each of the other calls may have to do r more. */
  lemma {:induction false} CostsChange(s: State, t: State, pcs: seq<Pc>, p: nat, pc: Pc, unit: nat, r: nat)
    requires p < |pcs| && forall q :: 0 <= q < |pcs| && q != p ==> Cost(t, pcs[q], unit) <= Cost(s, pcs[q], unit) + r
    ensures Costs(t, pcs[p := pc], unit) + Cost(s, pcs[p], unit) + r
         <= Costs(s, pcs, unit) + Cost(t, pc, unit) + r * |pcs|
  {
    hide Cost;
    var k := |pcs| - 1;
    if p < k {
      CostsChange(s, t, pcs[..k], p, pc, unit, r);
      assert pcs[p := pc][..k] == pcs[..k][p := pc];
    } else {
      CostsRise(s, t, pcs[..k], unit, r);
      assert pcs[p := pc][..k] == pcs[..k];
    }
  }

  lemma {:induction false} CostsRise(s: State, t: State, pcs: seq<Pc>, unit: nat, r: nat)
    requires forall q :: 0 <= q < |pcs| ==> Cost(t, pcs[q], unit) <= Cost(s, pcs[q], unit) + r
    ensures Costs(t, pcs, unit) <= Costs(s, pcs, unit) + r * |pcs|
  {
    hide Cost;
    if pcs != [] {
      CostsRise(s, t, pcs[..|pcs| - 1], unit, r);
    }
  }

  /** How much more each other call may have to do after a step: two if a cell gets a new
      value, one if a key is listed. */
  function Rise(s: State, pc: Pc): (r: nat) {
    match pc
    case AddInt(_, _) => 2
    case FloatCas(c, _, cur) => if Turns(s.cells, c, cur) == 1 then 2 else 0
    case KeyInsert(_, _) => 1
    case _ => 0
  }

  lemma InsertLength(keys: seq<Key>, k: Key)
    ensures |keys| <= |Insert(keys, k)| <= |keys| + 1 && |Remove(keys, k)| <= |keys|
  {
  }

  /** Only iterations and loaded values depend on the shared state. */
  lemma CostRises(s: State, t: State, pc: Pc, unit: nat, more: nat)
    requires |t.keys| <= |s.keys| + more
    requires forall c :: 0 <= c < |s.cells| ==> c < |t.cells| && t.cells[c].value == s.cells[c].value
    ensures Cost(t, pc, unit) <= Cost(s, pc, unit) + more
  {
  }

  lemma CostTurns(s: State, t: State, pc: Pc, unit: nat)
    requires t.keys == s.keys
    ensures Cost(t, pc, unit) <= Cost(s, pc, unit) + 2
  {
  }

  lemma OthersRise(s: State, p: nat, plus: Plus, pc: Pc, unit: nat)
    requires Enabled(s, Step(p))
    ensures Cost(NextStep(s, p, plus), pc, unit) <= Cost(s, pc, unit) + Rise(s, s.pcs[p])
  {
    hide Cost;
    var t, x := NextStep(s, p, plus), s.pcs[p];
    if x.KeyInsert? || x.DelFind? {
      InsertLength(s.keys, x.key);
    }
    if Rise(s, x) == 2 {
      CostTurns(s, t, pc, unit);
    } else {
      hide Insert, Remove;
      CostRises(s, t, pc, unit, Rise(s, x));
    }
  }

  /** The step itself pays for that. */
  predicate Falls(s: State, p: nat, t: State, unit: nat)
    requires p < |s.pcs|
  {
    && |t.pcs| == |s.pcs| && t.pcs == s.pcs[p := t.pcs[p]]
    && Cost(t, t.pcs[p], unit) + (if Rise(s, s.pcs[p]) > 0 then unit else 0) < Cost(s, s.pcs[p], unit)
  }

  predicate Deletes(pc: Pc) { pc.DelLock? || pc.DelFind? || pc.DelMap? || pc.DelUnlock? }

  predicate Looks(pc: Pc) { pc.DoLock? || pc.DoLoad? || pc.DoUnlock? }

  predicate Adds(pc: Pc) { pc.AddInt? || pc.FloatLoad? || pc.FloatCas? }

  lemma DeleteFalls(s: State, p: nat, plus: Plus, unit: nat)
    requires Enabled(s, Step(p)) && (Deletes(s.pcs[p]) || Looks(s.pcs[p]))
    ensures Falls(s, p, NextStep(s, p, plus), unit)
  {
    hide Insert, Remove;
  }

  lemma AddFalls(s: State, p: nat, plus: Plus, unit: nat)
    requires Enabled(s, Step(p)) && Adds(s.pcs[p])
    ensures Falls(s, p, NextStep(s, p, plus), unit)
  {
    hide Insert, Remove;
  }

  lemma OtherFalls(s: State, p: nat, plus: Plus, unit: nat)
    requires Enabled(s, Step(p)) && !Adds(s.pcs[p]) && !Deletes(s.pcs[p]) && !Looks(s.pcs[p])
    ensures Falls(s, p, NextStep(s, p, plus), unit)
  {
    hide Insert, Remove, Plussed;
  }

  lemma OwnFalls(s: State, p: nat, plus: Plus, unit: nat)
    requires Enabled(s, Step(p))
    ensures Falls(s, p, NextStep(s, p, plus), unit)
  {
    hide NextStep, Falls;
    if Adds(s.pcs[p]) {
      AddFalls(s, p, plus, unit);
    } else if Deletes(s.pcs[p]) || Looks(s.pcs[p]) {
      DeleteFalls(s, p, plus, unit);
    } else {
      OtherFalls(s, p, plus, unit);
    }
  }

  /** Every step of a call leaves less to do. */
  lemma StepWorks(s: State, p: nat, plus: Plus)
    requires Enabled(s, Step(p))
    ensures Work(Next(s, Step(p), plus)) < Work(s)
  {
    hide NextStep, Cost, Costs, Rise;
    var t, unit := NextStep(s, p, plus), 2 * |s.pcs|;
    OwnFalls(s, p, plus, unit);
    var r := Rise(s, s.pcs[p]);
    forall q | 0 <= q < |s.pcs|
      ensures Cost(t, s.pcs[q], unit) <= Cost(s, s.pcs[q], unit) + r
    {
      OthersRise(s, p, plus, s.pcs[q], unit);
    }
    AtMostTwo(s, s.pcs[p]);
    CostsChange(s, t, s.pcs, p, t.pcs[p], unit, r);
    assert r * |s.pcs| <= unit;
  }

  lemma AtMostTwo(s: State, pc: Pc)
    ensures Rise(s, pc) <= 2
  {
  }

  predicate AllSteps(actions: seq<Action>) { forall i :: 0 <= i < |actions| ==> actions[i].Step? }

  lemma {:induction false} RunsEnd(s: State, actions: seq<Action>, t: State, plus: Plus)
    requires Runs(s, actions, t, plus) && AllSteps(actions)
    ensures |actions| + Work(t) <= Work(s)
    decreases |actions|
  {
    if actions != [] {
      StepWorks(s, actions[0].p, plus);
      hide Next, Enabled, Work;
      RunsEnd(Next(s, actions[0], plus), actions[1..], t, plus);
    }
  }

  /** All calls return: without new ones a run is bounded, and it can go on until every
      call has returned. */
  lemma CallsReturn(before: seq<Action>, s: State, actions: seq<Action>, t: State, plus: Plus)
    requires Runs(Init, before, s, plus) && Runs(s, actions, t, plus) && AllSteps(actions)
    ensures |actions| <= Work(s)
    ensures (forall p :: 0 <= p < |t.pcs| ==> Done(t.pcs[p])) || exists q: nat :: Enabled(t, Step(q))
  {
    hide Runs, Work, Inv, Enabled, Done;
    RunsEnd(s, actions, t, plus);
    InitInv(plus);
    RunKeeps(Init, before, s, plus);
    RunKeeps(s, actions, t, plus);
    if p :| 0 <= p < |t.pcs| && !Done(t.pcs[p]) {
      NotStuck(t, p, plus);
    }
  }

  lemma InitInv(plus: Plus)
    ensures Inv(Init, plus)
  {
  }
}
