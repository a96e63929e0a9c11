/** The cancellation protocol of package context: every interleaving of creating
    contexts, cancelling them and looking at their Done channels.

    Nodes are the cancelCtx values; a valueCtx passes everything on to the nearest
    enclosing one and does not appear.  Processes are the running calls of cancel
    and propagateCancel.  A critical section in which nothing blocks is one step,
    enabled while its mutex is free; a call made while a mutex is held is a
    process of its own, and the caller keeps the mutex until it has finished. */
module Context {
  import opened Common

  datatype Error = Canceled | DeadlineExceeded

  /** The field done: unset, the node's own channel, or the shared closedchan. */
  datatype Channel = Unset | Own(closed: bool) | ClosedChan

  predicate Closed(c: Channel) { c == ClosedChan || c == Own(true) }

  /** What a first call of Done leaves in the field. */
  function Made(c: Channel): (r: Channel) { if c == Unset then Own(false) else c }

  /** timed: a timerCtx; armed: its timer is set; linked: propagateCancel has
      returned for it; holder: the process that holds mu.  Two fields only keep
      track of processes: first is the call of cancel that set err, linker the
      call of propagateCancel. */
  datatype Node = Node(parent: Option<nat>, timed: bool, linked: bool, holder: Option<nat>,
                       err: Option<Error>, done: Channel, children: set<nat>,
                       armed: bool, first: nat, linker: nat)

  datatype Pc =
    // cancel
    | Enter | SetErr | Close | Loop | Call(callee: nat)
    | RemoveDone | RemoveFind | RemoveDelete | Stop
    // propagateCancel
    | LinkDone | LinkSelect | LinkErr | LinkCall(callee: nat)
    | LinkFindDone | LinkFindCompare | LinkLock | LinkHold(callee: nat) | LinkSpawn
    // either
    | Finished

  /** node: the context to cancel, or the child to link.  rest: the children the
      loop of cancel has still to visit. */
  datatype Process = Process(node: nat, links: bool, remove: bool, err: Option<Error>, pc: Pc, rest: set<nat>)

  datatype State = State(nodes: seq<Node>, procs: seq<Process>)

  const Init := State([], [])

  /** Calls from outside, and one step of a running process; Pick is the loop of
      cancel going on to one of the remaining children, in any order. */
  datatype Action =
    | New(parent: Option<nat>, timed: bool)
    | StartCancel(node: nat, remove: bool, err: Error)
    | Arm(node: nat)
    | ReadDone(node: nat)
    | Pick(i: nat, child: nat)
    | Step(i: nat)

  function NodeOf(s: State, i: nat): (r: Node)
    requires i < |s.procs| && s.procs[i].node < |s.nodes|
  {
    s.nodes[s.procs[i].node]
  }

  predicate Free(s: State, n: nat) { n < |s.nodes| && s.nodes[n].holder == None }

  /** The mutex of the parent of process i's node is free. */
  predicate ParentFree(s: State, i: nat)
    requires i < |s.procs|
  {
    s.procs[i].node < |s.nodes| && NodeOf(s, i).parent.Some? && Free(s, NodeOf(s, i).parent.value)
  }

  predicate IsFinished(s: State, i: nat) { i < |s.procs| && s.procs[i].pc == Finished }

  predicate Enabled(s: State, a: Action) {
    match a
    case New(p, timed) => p.Some? ==> p.value < |s.nodes| && s.nodes[p.value].linked
    case StartCancel(n, remove, e) => n < |s.nodes| && s.nodes[n].linked && (remove || s.nodes[n].err.Some?)
    case Arm(n) => Free(s, n) && s.nodes[n].linked && s.nodes[n].timed
    case ReadDone(n) => Free(s, n)
    case Pick(i, c) => i < |s.procs| && s.procs[i].pc == Loop && c in s.procs[i].rest
    case Step(i) =>
      i < |s.procs| && s.procs[i].node < |s.nodes| &&
      match s.procs[i].pc
      case Enter => Free(s, s.procs[i].node)
      case SetErr => true
      case Close => true
      case Loop => s.procs[i].rest == {}
      case Call(q) => IsFinished(s, q)
      case RemoveDone => NodeOf(s, i).parent == None || ParentFree(s, i)
      case RemoveFind => ParentFree(s, i)
      case RemoveDelete => ParentFree(s, i)
      case Stop => Free(s, s.procs[i].node)
      case LinkDone => ParentFree(s, i)
      case LinkSelect => NodeOf(s, i).parent.Some? && NodeOf(s, i).parent.value < |s.nodes|
      case LinkErr => ParentFree(s, i)
      case LinkCall(q) => IsFinished(s, q)
      case LinkFindDone => ParentFree(s, i)
      case LinkFindCompare => ParentFree(s, i)
      case LinkLock => ParentFree(s, i)
      case LinkHold(q) => IsFinished(s, q) && NodeOf(s, i).parent.Some? && NodeOf(s, i).parent.value < |s.nodes|
      case LinkSpawn => false
      case Finished => false
  }

  // ---- the steps

  function WithPc(s: State, i: nat, pc: Pc): (r: State)
    requires i < |s.procs|
  {
    s.(procs := s.procs[i := s.procs[i].(pc := pc)])
  }

  function WithNode(s: State, n: nat, node: Node): (r: State)
    requires n < |s.nodes|
  {
    s.(nodes := s.nodes[n := node])
  }

  /** A nested call of cancel(false, e). */
  function WithCall(s: State, c: nat, e: Option<Error>): (r: State) {
    s.(procs := s.procs + [Process(c, false, false, e, Enter, {})])
  }

  /** Where cancel goes on after cancelCtx.cancel has released the mutex. */
  function AfterCancel(s: State, i: nat): (r: Pc)
    requires i < |s.procs| && s.procs[i].node < |s.nodes|
  {
    if s.procs[i].remove then RemoveDone else AfterRemove(s, i)
  }

  function AfterRemove(s: State, i: nat): (r: Pc)
    requires i < |s.procs| && s.procs[i].node < |s.nodes|
  {
    if NodeOf(s, i).timed then Stop else Finished
  }

  function Next(s: State, a: Action): (r: State)
    requires Enabled(s, a)
  {
    match a
    case New(p, timed) =>
      Created(s, p, timed)
    case StartCancel(n, remove, e) =>
      s.(procs := s.procs + [Process(n, false, remove, Some(e), Enter, {})])
    case Arm(n) => WithNode(s, n, s.nodes[n].(armed := s.nodes[n].armed || s.nodes[n].err == None))
    case ReadDone(n) => WithNode(s, n, s.nodes[n].(done := Made(s.nodes[n].done)))
    case Pick(i, c) =>
      var q := |s.procs|;
      var s' := WithCall(s, c, s.procs[i].err);
      s'.(procs := s'.procs[i := s.procs[i].(pc := Call(q), rest := s.procs[i].rest - {c})])
    case Step(i) => if s.procs[i].links then LinkStep(s, i) else CancelStep(s, i)
  }

  /** cancelCtx.cancel and, for a timed node, timerCtx.cancel around it. */
  function CancelStep(s: State, i: nat): (r: State)
    requires Enabled(s, Step(i))
  {
    var n := s.procs[i].node;
    var node := s.nodes[n];
    match s.procs[i].pc
    case Enter =>
      if node.err.Some? then WithPc(s, i, if node.timed then AfterCancel(s, i) else Finished)
      else WithPc(WithNode(s, n, node.(holder := Some(i))), i, SetErr)
    case SetErr => WithPc(WithNode(s, n, node.(err := s.procs[i].err, first := i)), i, Close)
    case Close =>
      Closing(s, i)
    case Loop => WithPc(WithNode(s, n, node.(children := {}, holder := None)), i, AfterCancel(s, i))
    case Call(q) => WithPc(s, i, Loop)
    case RemoveDone =>
      if node.parent == None then WithPc(s, i, AfterRemove(s, i))
      else
        var p := node.parent.value;
        var s' := WithNode(s, p, s.nodes[p].(done := Made(s.nodes[p].done)));
        WithPc(s', i, if s.nodes[p].done == ClosedChan then AfterRemove(s, i) else RemoveFind)
    case RemoveFind =>
      WithPc(s, i, if s.nodes[node.parent.value].done.Own? then RemoveDelete else AfterRemove(s, i))
    case RemoveDelete =>
      var p := node.parent.value;
      WithPc(WithNode(s, p, s.nodes[p].(children := s.nodes[p].children - {n})), i, AfterRemove(s, i))
    case Stop => WithPc(WithNode(s, n, node.(armed := false)), i, Finished)
    case _ => s
  }

  /** propagateCancel; parentCancelCtx is the two steps LinkFind. */
  function LinkStep(s: State, i: nat): (r: State)
    requires Enabled(s, Step(i))
  {
    var c := s.procs[i].node;
    if s.nodes[c].parent == None || s.nodes[c].parent.value >= |s.nodes| then s
    else
      var p := s.nodes[c].parent.value;
      var node := s.nodes[p];
      var q := |s.procs|;
      match s.procs[i].pc
      case LinkDone => WithPc(WithNode(s, p, node.(done := Made(node.done))), i, LinkSelect)
      case LinkSelect => WithPc(s, i, if Closed(node.done) then LinkErr else LinkFindDone)
      case LinkErr => WithPc(WithCall(s, c, node.err), i, LinkCall(q))
      case LinkCall(_) => WithPc(WithNode(s, c, s.nodes[c].(linked := true)), i, Finished)
      case LinkFindDone =>
        WithPc(WithNode(s, p, node.(done := Made(node.done))), i,
               if node.done == ClosedChan then LinkSpawn else LinkFindCompare)
      case LinkFindCompare => WithPc(s, i, if node.done.Own? then LinkLock else LinkSpawn)
      case LinkLock =>
        if node.err.Some? then
          WithPc(WithCall(WithNode(s, p, node.(holder := Some(i))), c, node.err), i, LinkHold(q))
        else
          Registered(s, i, c, p)
      case LinkHold(_) =>
        Released(s, i, c, p)
      case _ => s
  }

  // ---- the invariant

  /** Process i is in the part of cancel that holds its node's mutex. */
  predicate Cancelling(s: State, i: nat) {
    i < |s.procs| && !s.procs[i].links &&
    var pc := s.procs[i].pc; pc == SetErr || pc == Close || pc == Loop || pc.Call?
  }

  /** The node whose mutex process i holds, if any. */
  function Holds(s: State, i: nat): (r: Option<nat>)
    requires i < |s.procs|
  {
    var pc := s.procs[i].pc;
    if Cancelling(s, i) then Some(s.procs[i].node)
    else if s.procs[i].links && pc.LinkHold? && s.procs[i].node < |s.nodes| then NodeOf(s, i).parent
    else None
  }

  predicate Busy(s: State, n: nat) {
    n < |s.nodes| && s.nodes[n].holder.Some? && Cancelling(s, s.nodes[n].holder.value)
  }

  /** Cancelled for good: nothing of the call that set err is left to do under the
      mutex. */
  predicate Settled(s: State, n: nat) {
    n < |s.nodes| && s.nodes[n].err.Some? && Closed(s.nodes[n].done) && !Busy(s, n)
  }

  /** The children that are still to be cancelled when n is, or by the call that
      is cancelling n. */
  function Pending(s: State, n: nat): (r: set<nat>)
    requires n < |s.nodes|
  {
    if Busy(s, n) then
      var p := s.procs[s.nodes[n].holder.value];
      if p.pc == Loop then p.rest
      else if p.pc.Call? && p.pc.callee < |s.procs| then p.rest + {s.procs[p.pc.callee].node}
      else s.nodes[n].children
    else if s.nodes[n].err == None then s.nodes[n].children
    else {}
  }

  predicate CancelPc(pc: Pc) {
    pc == Enter || pc == SetErr || pc == Close || pc == Loop || pc.Call?
    || pc == RemoveDone || pc == RemoveFind || pc == RemoveDelete || pc == Stop || pc == Finished
  }

  predicate LinkPc(pc: Pc) {
    !CancelPc(pc) || pc == Finished
  }

  predicate HasParent(s: State, n: nat) {
    n < |s.nodes| && s.nodes[n].parent.Some? && s.nodes[n].parent.value < n
  }

  function ParentOf(s: State, n: nat): (r: Node)
    requires HasParent(s, n)
  {
    s.nodes[s.nodes[n].parent.value]
  }

  predicate ParentCancelled(s: State, n: nat) {
    HasParent(s, n) && ParentOf(s, n).err.Some?
  }

  predicate NodeOk(s: State, n: nat) {
    n < |s.nodes| ==>
      var node := s.nodes[n];
      && (node.parent.Some? ==> HasParent(s, n) && ParentOf(s, n).linked)
      && (node.parent == None ==> node.linked)
      && (node.holder.Some? ==> node.holder.value < |s.procs| && Holds(s, node.holder.value) == Some(n))
      && (Closed(node.done) ==> node.err.Some?)
      && (node.err.Some? ==> node.first < |s.procs| && !s.procs[node.first].links && s.procs[node.first].node == n
                             && s.procs[node.first].pc != Enter && s.procs[node.first].pc != SetErr)
      && (node.err.Some? && !Closed(node.done) ==> Busy(s, n) && s.procs[node.holder.value].pc == Close)
      && (node.err.Some? && !Busy(s, n) ==> node.children == {})
      && (node.armed ==> node.timed && (node.err.Some? ==> s.procs[node.first].pc != Finished))
      && (!node.linked && node.err.Some? ==> ParentCancelled(s, n))
  }

  predicate CancelOk(s: State, i: nat)
    requires i < |s.procs| && s.procs[i].node < |s.nodes|
  {
    var p := s.procs[i];
    var node := s.nodes[p.node];
    && CancelPc(p.pc) && p.err.Some?
    && (p.remove ==> node.linked)
    && (!p.remove ==> ParentCancelled(s, p.node) || (node.err.Some? && node.first != i))
    && (p.pc == SetErr ==> node.err == None)
    && (p.pc == Close ==> node.err.Some? && !Closed(node.done))
    && (p.pc == Loop || p.pc.Call? ==> node.err.Some? && Closed(node.done) && p.rest <= node.children)
    && (p.pc.Call? ==> p.pc.callee < |s.procs| && !s.procs[p.pc.callee].links && !s.procs[p.pc.callee].remove
                       && HasParent(s, s.procs[p.pc.callee].node)
                       && s.nodes[s.procs[p.pc.callee].node].parent == Some(p.node))
    && (p.pc == RemoveDone || p.pc == RemoveFind || p.pc == RemoveDelete || p.pc == Stop || p.pc == Finished
        ==> Settled(s, p.node))
    && (p.pc == RemoveDone || p.pc == RemoveFind || p.pc == RemoveDelete ==> p.remove)
    && (p.pc == RemoveFind || p.pc == RemoveDelete ==> HasParent(s, p.node) && ParentOf(s, p.node).done != Unset)
    && (p.pc == Stop ==> node.timed)
  }

  predicate LinkOk(s: State, i: nat)
    requires i < |s.procs| && s.procs[i].node < |s.nodes|
  {
    var p := s.procs[i];
    && LinkPc(p.pc) && p.pc != LinkSpawn
    && s.nodes[p.node].linker == i
    && (p.pc != Finished ==> HasParent(s, p.node) && !s.nodes[p.node].linked)
    && (p.pc == LinkErr ==> ParentCancelled(s, p.node))
    && (p.pc == LinkSelect || p.pc == LinkFindDone || p.pc == LinkFindCompare || p.pc == LinkLock
        ==> ParentOf(s, p.node).done != Unset)
    && (p.pc == LinkFindDone || p.pc == LinkFindCompare || p.pc == LinkLock ==> ParentOf(s, p.node).done.Own?)
    && (p.pc.LinkHold? ==> ParentCancelled(s, p.node))
    && (p.pc.LinkCall? || p.pc.LinkHold? ==>
          p.pc.callee < |s.procs| && !s.procs[p.pc.callee].links && !s.procs[p.pc.callee].remove
          && s.procs[p.pc.callee].node == p.node)
  }

  predicate ProcOk(s: State, i: nat) {
    i < |s.procs| ==>
      && s.procs[i].node < |s.nodes|
      && (Holds(s, i).Some? ==> Holds(s, i).value < |s.nodes| && s.nodes[Holds(s, i).value].holder == Some(i))
      && (if s.procs[i].links then LinkOk(s, i) else CancelOk(s, i))
  }

  /** Propagation and removal, seen from a child. */
  predicate ChildOk(s: State, c: nat) {
    HasParent(s, c) ==>
      var p := s.nodes[c].parent.value;
      && (s.nodes[c].linked ==> Settled(s, c) || c in Pending(s, p))
      && (c in s.nodes[p].children ==> s.nodes[c].linked)
      && (s.nodes[c].err.Some? && Removed(s, s.nodes[c].first) ==> c !in s.nodes[p].children || s.nodes[p].err.Some?)
  }

  /** Process i has nothing more to do with the parent's children. */
  predicate Removed(s: State, i: nat) {
    i < |s.procs| && (s.procs[i].pc == Stop || s.procs[i].pc == Finished)
  }

  /** Only real children are registered. */
  predicate RegistryOk(s: State, n: nat, c: nat) {
    n < |s.nodes| && c in s.nodes[n].children ==> c < |s.nodes| && s.nodes[c].parent == Some(n)
  }

  ghost predicate Inv(s: State) {
    && (forall n: nat :: NodeOk(s, n))
    && (forall i: nat :: ProcOk(s, i))
    && (forall c: nat :: ChildOk(s, c))
    && (forall n: nat, c: nat :: RegistryOk(s, n, c))
  }

  /** Process i is a call of cancel for n. */
  predicate Calling(s: State, i: nat, n: nat) {
    i < |s.procs| && !s.procs[i].links && s.procs[i].node == n && n < |s.nodes|
  }

  /** Process i links c to its parent p. */
  predicate Linking(s: State, i: nat, c: nat, p: nat) {
    i < |s.procs| && s.procs[i].links && s.procs[i].node == c && HasParent(s, c) && s.nodes[c].parent == Some(p)
  }

  lemma InvNode(s: State, n: nat)
    requires Inv(s)
    ensures NodeOk(s, n)
  {
  }

  lemma InvProc(s: State, i: nat)
    requires Inv(s)
    ensures ProcOk(s, i)
  {
  }

  lemma InvChild(s: State, c: nat)
    requires Inv(s)
    ensures ChildOk(s, c)
  {
  }

  lemma InvRegistry(s: State, n: nat, c: nat)
    requires Inv(s)
    ensures RegistryOk(s, n, c)
  {
  }

  // ---- what no step undoes

  /** A channel is made once and closed once. */
  predicate ChannelEvolves(a: Channel, b: Channel) {
    a == b || a == Unset || (a == Own(false) && b == Own(true))
  }

  /** A step of process i on node n.  err and first, once set, stay; a node whose
      mutex another process holds is left alone. */
  predicate NodeEvolves(s: State, s': State, i: nat, n: nat) {
    n < |s.nodes| <= |s'.nodes| ==>
      var a, b := s.nodes[n], s'.nodes[n];
      && a.parent == b.parent && a.timed == b.timed && a.linker == b.linker
      && (a.linked ==> b.linked) && (b.linked && !a.linked ==> a.linker == i)
      && (a.err.Some? ==> b.err == a.err && b.first == a.first)
      && ChannelEvolves(a.done, b.done)
      && (a.holder.Some? && a.holder != Some(i) ==>
            b.holder == a.holder && b.err == a.err && b.done == a.done && b.children == a.children)
      && (Settled(s, n) ==> Settled(s', n))
  }

  predicate ProcEvolves(s: State, s': State, i: nat, k: nat) {
    k < |s.procs| <= |s'.procs| ==>
      var a, b := s.procs[k], s'.procs[k];
      a == b || (k == i && a.node == b.node && a.links == b.links && a.remove == b.remove && a.err == b.err)
  }

  ghost predicate Evolves(s: State, s': State, i: nat) {
    && |s.nodes| <= |s'.nodes| && |s.procs| <= |s'.procs|
    && (forall n: nat :: NodeEvolves(s, s', i, n))
    && (forall k: nat :: ProcEvolves(s, s', i, k))
  }

  /** The other processes are not disturbed. */
  lemma OtherProc(s: State, s': State, i: nat, k: nat)
    requires Inv(s) && Evolves(s, s', i) && k < |s.procs| && k != i
    ensures ProcOk(s', k)
  {
    assert ProcOk(s, k) && ProcEvolves(s, s', i, k);
    var n := s.procs[k].node;
    assert NodeEvolves(s, s', i, n);
    if HasParent(s, n) {
      assert NodeEvolves(s, s', i, s.nodes[n].parent.value);
    }
    if s.procs[k].pc.Call? || s.procs[k].pc.LinkCall? || s.procs[k].pc.LinkHold? {
      assert ProcEvolves(s, s', i, s.procs[k].pc.callee);
      assert NodeEvolves(s, s', i, s.procs[s.procs[k].pc.callee].node);
    }
  }

  /** A node that the step does not touch stays as it should be. */
  lemma OtherNode(s: State, s': State, i: nat, n: nat)
    requires Inv(s) && Evolves(s, s', i) && n < |s.nodes| && s'.nodes[n] == s.nodes[n]
    requires s.nodes[n].holder != Some(i)
    requires s.nodes[n].err.Some? && s.nodes[n].first == i ==> i < |s'.procs|
    requires s.nodes[n].err.Some? && s.nodes[n].first == i ==>
               s'.procs[i].pc != Enter && s'.procs[i].pc != SetErr && (s.nodes[n].armed ==> s'.procs[i].pc != Finished)
    ensures NodeOk(s', n)
  {
    assert NodeOk(s, n);
    if HasParent(s, n) {
      assert NodeEvolves(s, s', i, s.nodes[n].parent.value);
    }
    if s.nodes[n].holder.Some? {
      assert ProcEvolves(s, s', i, s.nodes[n].holder.value);
      assert NodeEvolves(s, s', i, s.procs[s.nodes[n].holder.value].node);
    }
    if s.nodes[n].err.Some? {
      assert ProcEvolves(s, s', i, s.nodes[n].first);
    }
  }

  /** A child that was linked before, whose parent's registry and lock did not
      change, is still propagated to. */
  lemma OtherChild(s: State, s': State, i: nat, c: nat)
    requires Inv(s) && Evolves(s, s', i) && HasParent(s, c)
    requires var p := s.nodes[c].parent.value;
             && s'.nodes[p].children == s.nodes[p].children && s'.nodes[p].holder == s.nodes[p].holder
             && s'.nodes[p].err == s.nodes[p].err && s.nodes[p].holder != Some(i)
    requires s'.nodes[c].linked == s.nodes[c].linked && s'.nodes[c].err == s.nodes[c].err
    requires s.nodes[c].err.Some? && Removed(s', s.nodes[c].first) ==>
               Removed(s, s.nodes[c].first) || c !in s.nodes[s.nodes[c].parent.value].children || ParentCancelled(s, c)
    ensures ChildOk(s', c)
  {
    var p := s.nodes[c].parent.value;
    assert ChildOk(s, c) && NodeEvolves(s, s', i, c) && NodeEvolves(s, s', i, p) && NodeOk(s, p);
    if s.nodes[p].holder.Some? {
      var h := s.nodes[p].holder.value;
      assert ProcOk(s, h) && ProcEvolves(s, s', i, h);
      if s.procs[h].pc.Call? {
        assert ProcEvolves(s, s', i, s.procs[h].pc.callee);
      }
    }
  }

  // ---- the atomic changes that steps are made of

  /** The first call of Done makes the channel; it changes nothing else. */
  lemma MakeInv(s: State, n: nat)
    requires Inv(s) && Free(s, n)
    ensures var s' := WithNode(s, n, s.nodes[n].(done := Made(s.nodes[n].done)));
            Inv(s') && Evolves(s, s', |s.procs|)
  {
    var i := |s.procs|;
    var s' := WithNode(s, n, s.nodes[n].(done := Made(s.nodes[n].done)));
    assert Evolves(s, s', i) by {
      forall m: nat ensures NodeEvolves(s, s', i, m) { assert NodeOk(s, m); }
    }
    forall k: nat ensures ProcOk(s', k) {
      if k < |s.procs| { OtherProc(s, s', i, k); }
    }
    forall m: nat ensures NodeOk(s', m) {
      assert NodeOk(s, m);
      if m != n && m < |s.nodes| { OtherNode(s, s', i, m); }
    }
    forall c: nat ensures ChildOk(s', c) {
      assert NodeOk(s, c);
      if HasParent(s', c) { assert NodeOk(s, s.nodes[c].parent.value); OtherChild(s, s', i, c); }
    }
    forall m: nat, c: nat ensures RegistryOk(s', m, c) { assert RegistryOk(s, m, c); }
  }

  /** WithDeadline's last critical section sets the timer unless err is set. */
  lemma ArmInv(s: State, n: nat)
    requires Inv(s) && Free(s, n) && s.nodes[n].timed
    ensures var s' := WithNode(s, n, s.nodes[n].(armed := s.nodes[n].armed || s.nodes[n].err == None));
            Inv(s') && Evolves(s, s', |s.procs|)
  {
    var i := |s.procs|;
    var s' := WithNode(s, n, s.nodes[n].(armed := s.nodes[n].armed || s.nodes[n].err == None));
    assert Evolves(s, s', i) by {
      forall m: nat ensures NodeEvolves(s, s', i, m) { assert NodeOk(s, m); }
    }
    forall k: nat ensures ProcOk(s', k) {
      if k < |s.procs| { OtherProc(s, s', i, k); }
    }
    forall m: nat ensures NodeOk(s', m) {
      assert NodeOk(s, m);
      if m != n && m < |s.nodes| { OtherNode(s, s', i, m); }
    }
    forall c: nat ensures ChildOk(s', c) {
      assert NodeOk(s, c);
      if HasParent(s', c) { assert NodeOk(s, s.nodes[c].parent.value); OtherChild(s, s', i, c); }
    }
    forall m: nat, c: nat ensures RegistryOk(s', m, c) { assert RegistryOk(s, m, c); }
  }

  /** A process moves on without touching any node and without holding a mutex. */
  lemma MoveInv(s: State, i: nat, pc: Pc)
    requires Inv(s) && i < |s.procs| && Holds(s, i) == None && ProcOk(WithPc(s, i, pc), i)
    requires Holds(WithPc(s, i, pc), i) == None && pc != Enter && pc != SetErr && !Removed(s, i)
    requires !s.procs[i].links && s.nodes[s.procs[i].node].err.Some? && s.nodes[s.procs[i].node].first == i ==>
               (s.nodes[s.procs[i].node].armed ==> pc != Finished)
               && (pc == Stop || pc == Finished ==> Unregistered(s, s.procs[i].node))
    ensures Inv(WithPc(s, i, pc)) && Evolves(s, WithPc(s, i, pc), i)
  {
    var s' := WithPc(s, i, pc);
    assert ProcOk(s, i);
    assert Evolves(s, s', i) by {
      forall m: nat ensures NodeEvolves(s, s', i, m) { assert NodeOk(s, m); }
    }
    forall k: nat ensures ProcOk(s', k) {
      if k < |s.procs| && k != i { OtherProc(s, s', i, k); }
    }
    forall m: nat ensures NodeOk(s', m) {
      assert NodeOk(s, m);
      if m < |s.nodes| { OtherNode(s, s', i, m); }
    }
    forall c: nat ensures ChildOk(s', c) {
      assert NodeOk(s, c);
      if HasParent(s', c) { assert NodeOk(s, s.nodes[c].parent.value); OtherChild(s, s', i, c); }
    }
    forall m: nat, c: nat ensures RegistryOk(s', m, c) { assert RegistryOk(s, m, c); }
  }

  predicate Unregistered(s: State, c: nat) {
    HasParent(s, c) ==> c !in ParentOf(s, c).children || ParentOf(s, c).err.Some?
  }

  lemma DisarmChild(s: State, i: nat, n: nat, c: nat)
    requires Inv(s) && Calling(s, i, n) && s.procs[i].pc == Stop
    requires Evolves(s, WithPc(WithNode(s, n, s.nodes[n].(armed := false)), i, Finished), i)
    ensures ChildOk(WithPc(WithNode(s, n, s.nodes[n].(armed := false)), i, Finished), c)
  {
    hide Inv;
    var s' := WithPc(WithNode(s, n, s.nodes[n].(armed := false)), i, Finished);
    InvProc(s, i);
    InvNode(s, c);
    if HasParent(s', c) {
      InvNode(s, s.nodes[c].parent.value);
      OtherChild(s, s', i, c);
    }
  }

  /** The last critical section of timerCtx.cancel. */
  lemma DisarmInv(s: State, i: nat, n: nat)
    requires Inv(s) && Calling(s, i, n) && s.procs[i].pc == Stop
    ensures var s' := WithPc(WithNode(s, n, s.nodes[n].(armed := false)), i, Finished);
            Inv(s') && Evolves(s, s', i)
  {
    var s' := WithPc(WithNode(s, n, s.nodes[n].(armed := false)), i, Finished);
    assert ProcOk(s, i);
    assert Evolves(s, s', i) by {
      forall m: nat ensures NodeEvolves(s, s', i, m) { assert NodeOk(s, m); }
    }
    forall k: nat ensures ProcOk(s', k) {
      if k < |s.procs| && k != i { OtherProc(s, s', i, k); }
    }
    forall m: nat ensures NodeOk(s', m) {
      assert NodeOk(s, m);
      if m < |s.nodes| && m != n { OtherNode(s, s', i, m); }
    }
    forall c: nat ensures ChildOk(s', c) { DisarmChild(s, i, n, c); }
    forall m: nat, c: nat ensures RegistryOk(s', m, c) { assert RegistryOk(s, m, c); }
  }

  /** A new call of cancel. */
  lemma StartInv(s: State, c: nat, remove: bool, e: Option<Error>)
    requires Inv(s) && c < |s.nodes| && e.Some? && (remove ==> s.nodes[c].linked)
    requires !remove ==> ParentCancelled(s, c) || s.nodes[c].err.Some?
    ensures var s' := s.(procs := s.procs + [Process(c, false, remove, e, Enter, {})]);
            Inv(s') && Evolves(s, s', |s.procs|)
  {
    var i := |s.procs|;
    var s' := s.(procs := s.procs + [Process(c, false, remove, e, Enter, {})]);
    assert NodeOk(s, c);
    assert Evolves(s, s', i) by {
      forall m: nat ensures NodeEvolves(s, s', i, m) { assert NodeOk(s, m); }
    }
    forall k: nat ensures ProcOk(s', k) {
      if k < |s.procs| && k != i { OtherProc(s, s', i, k); }
    }
    forall m: nat ensures NodeOk(s', m) {
      assert NodeOk(s, m);
      if m < |s.nodes| { OtherNode(s, s', i, m); }
    }
    forall c: nat ensures ChildOk(s', c) {
      assert NodeOk(s, c);
      if HasParent(s', c) { assert NodeOk(s, s.nodes[c].parent.value); OtherChild(s, s', i, c); }
    }
    forall m: nat, c: nat ensures RegistryOk(s', m, c) { assert RegistryOk(s, m, c); }
  }

  lemma AcquireChild(s: State, i: nat, n: nat, c: nat)
    requires Inv(s) && Calling(s, i, n) && s.procs[i].pc == Enter && Free(s, n) && s.nodes[n].err == None
    requires Evolves(s, WithPc(WithNode(s, n, s.nodes[n].(holder := Some(i))), i, SetErr), i)
    ensures ChildOk(WithPc(WithNode(s, n, s.nodes[n].(holder := Some(i))), i, SetErr), c)
  {
    hide Inv;
    var s' := WithPc(WithNode(s, n, s.nodes[n].(holder := Some(i))), i, SetErr);
    InvProc(s, i);
    InvNode(s, c);
    InvChild(s, c);
    if HasParent(s', c) && s.nodes[c].parent != Some(n) {
      InvNode(s, s.nodes[c].parent.value);
      OtherChild(s, s', i, c);
    }
  }

  /** cancel takes the mutex of a context that is not cancelled. */
  lemma AcquireInv(s: State, i: nat, n: nat)
    requires Inv(s) && i < |s.procs| && !s.procs[i].links && s.procs[i].pc == Enter && s.procs[i].node == n
    requires Free(s, n) && s.nodes[n].err == None
    ensures var s' := WithPc(WithNode(s, n, s.nodes[n].(holder := Some(i))), i, SetErr);
            Inv(s') && Evolves(s, s', i)
  {
    var s' := WithPc(WithNode(s, n, s.nodes[n].(holder := Some(i))), i, SetErr);
    assert ProcOk(s, i);
    assert Evolves(s, s', i) by {
      forall m: nat ensures NodeEvolves(s, s', i, m) { assert NodeOk(s, m); }
    }
    forall k: nat ensures ProcOk(s', k) {
      if k < |s.procs| && k != i { OtherProc(s, s', i, k); }
    }
    forall m: nat ensures NodeOk(s', m) {
      assert NodeOk(s, m);
      if m < |s.nodes| && m != n { OtherNode(s, s', i, m); }
    }
    forall c: nat ensures ChildOk(s', c) { AcquireChild(s, i, n, c); }
    forall m: nat, c: nat ensures RegistryOk(s', m, c) { assert RegistryOk(s, m, c); }
  }

  lemma SetErrChild(s: State, i: nat, n: nat, c: nat)
    requires Inv(s) && Calling(s, i, n) && s.procs[i].pc == SetErr
    requires Evolves(s, WithPc(WithNode(s, n, s.nodes[n].(err := s.procs[i].err, first := i)), i, Close), i)
    ensures ChildOk(WithPc(WithNode(s, n, s.nodes[n].(err := s.procs[i].err, first := i)), i, Close), c)
  {
    hide Inv;
    var s' := WithPc(WithNode(s, n, s.nodes[n].(err := s.procs[i].err, first := i)), i, Close);
    InvProc(s, i); InvNode(s, n);
    InvNode(s, c); InvChild(s, c);
    if HasParent(s', c) && s.nodes[c].parent != Some(n) && c != n {
      InvNode(s, s.nodes[c].parent.value);
      OtherChild(s, s', i, c);
    }
  }

  /** err is set once, to the error of the call. */
  lemma SetErrInv(s: State, i: nat, n: nat)
    requires Inv(s) && Calling(s, i, n) && s.procs[i].pc == SetErr
    ensures var s' := WithPc(WithNode(s, n, s.nodes[n].(err := s.procs[i].err, first := i)), i, Close);
            Inv(s') && Evolves(s, s', i)
  {
    var s' := WithPc(WithNode(s, n, s.nodes[n].(err := s.procs[i].err, first := i)), i, Close);
    assert ProcOk(s, i) && NodeOk(s, n);
    assert Evolves(s, s', i) by {
      forall m: nat ensures NodeEvolves(s, s', i, m) { assert NodeOk(s, m); }
    }
    forall k: nat ensures ProcOk(s', k) {
      if k < |s.procs| && k != i { OtherProc(s, s', i, k); }
    }
    forall m: nat ensures NodeOk(s', m) {
      assert NodeOk(s, m);
      if m < |s.nodes| && m != n { OtherNode(s, s', i, m); }
    }
    forall c: nat ensures ChildOk(s', c) { SetErrChild(s, i, n, c); }
    forall m: nat, c: nat ensures RegistryOk(s', m, c) { assert RegistryOk(s, m, c); }
  }

  lemma CloseEvolves(s: State, i: nat, n: nat)
    requires Inv(s) && Calling(s, i, n) && s.procs[i].pc == Close
    ensures Evolves(s, Closing(s, i), i)
  {
    var s' := Closing(s, i);
    assert ProcOk(s, i) && NodeOk(s, n);
    forall m: nat ensures NodeEvolves(s, s', i, m) { assert NodeOk(s, m); }
  }

  lemma CloseChild(s: State, i: nat, n: nat, c: nat)
    requires Inv(s) && Calling(s, i, n) && s.procs[i].pc == Close
    requires Evolves(s, Closing(s, i), i)
    ensures ChildOk(Closing(s, i), c)
  {
    var s' := Closing(s, i);
    assert ProcOk(s, i) && NodeOk(s, n);
    assert NodeOk(s, c) && ChildOk(s, c) && NodeEvolves(s, s', i, c);
    if HasParent(s', c) && s.nodes[c].parent != Some(n) {
      assert NodeOk(s, s.nodes[c].parent.value);
      OtherChild(s, s', i, c);
    }
  }

  /** The channel, which is not closed yet, is closed. */
  lemma CloseInv(s: State, i: nat, n: nat)
    requires Inv(s) && Calling(s, i, n) && s.procs[i].pc == Close
    ensures var s' := Closing(s, i);
            Inv(s') && Evolves(s, s', i)
  {
    var s' := Closing(s, i);
    assert ProcOk(s, i) && NodeOk(s, n);
    CloseEvolves(s, i, n);
    forall k: nat ensures ProcOk(s', k) {
      if k < |s.procs| && k != i { OtherProc(s, s', i, k); }
    }
    forall m: nat ensures NodeOk(s', m) {
      assert NodeOk(s, m);
      if m < |s.nodes| && m != n { OtherNode(s, s', i, m); }
    }
    forall c: nat ensures ChildOk(s', c) { CloseChild(s, i, n, c); }
    forall m: nat, c: nat ensures RegistryOk(s', m, c) { assert RegistryOk(s, m, c); }
  }

  lemma LeaveChild(s: State, i: nat, n: nat, pc: Pc, c: nat)
    requires Inv(s) && Calling(s, i, n) && s.procs[i].pc == Loop
    requires s.procs[i].rest == {} && pc == AfterCancel(s, i)
    requires Evolves(s, WithPc(WithNode(s, n, s.nodes[n].(children := {}, holder := None)), i, pc), i)
    ensures ChildOk(WithPc(WithNode(s, n, s.nodes[n].(children := {}, holder := None)), i, pc), c)
  {
    var s' := WithPc(WithNode(s, n, s.nodes[n].(children := {}, holder := None)), i, pc);
    assert ProcOk(s, i) && NodeOk(s, n);
    assert NodeOk(s, c) && ChildOk(s, c) && NodeEvolves(s, s', i, c);
    if HasParent(s', c) && s.nodes[c].parent != Some(n) {
      assert NodeOk(s, s.nodes[c].parent.value);
      OtherChild(s, s', i, c);
    }
  }

  /** All children visited: cancel drops the registry and releases the mutex. */
  lemma LeaveInv(s: State, i: nat, n: nat, pc: Pc)
    requires Inv(s) && Calling(s, i, n) && s.procs[i].pc == Loop
    requires s.procs[i].rest == {} && pc == AfterCancel(s, i)
    ensures var s' := WithPc(WithNode(s, n, s.nodes[n].(children := {}, holder := None)), i, pc);
            Inv(s') && Evolves(s, s', i)
  {
    var s' := WithPc(WithNode(s, n, s.nodes[n].(children := {}, holder := None)), i, pc);
    assert ProcOk(s, i) && NodeOk(s, n);
    assert Evolves(s, s', i) by {
      forall m: nat ensures NodeEvolves(s, s', i, m) { assert NodeOk(s, m); }
    }
    forall k: nat ensures ProcOk(s', k) {
      if k < |s.procs| && k != i { OtherProc(s, s', i, k); }
    }
    forall m: nat ensures NodeOk(s', m) {
      assert NodeOk(s, m);
      if m < |s.nodes| && m != n { OtherNode(s, s', i, m); }
    }
    forall c: nat ensures ChildOk(s', c) { LeaveChild(s, i, n, pc, c); }
    forall m: nat, c: nat ensures RegistryOk(s', m, c) { assert RegistryOk(s, m, c); }
  }

  function Closing(s: State, i: nat): (r: State)
    requires i < |s.procs| && s.procs[i].node < |s.nodes|
  {
    var node := NodeOf(s, i);
    var s' := WithNode(s, s.procs[i].node, node.(done := if node.done == Unset then ClosedChan else Own(true)));
    s'.(procs := s.procs[i := s.procs[i].(pc := Loop, rest := node.children)])
  }

  lemma PickChild(s: State, i: nat, n: nat, q: nat, c: nat)
    requires Inv(s) && Calling(s, i, n) && s.procs[i].pc == Loop
    requires q < |s.procs| && q != i && !s.procs[q].links && !s.procs[q].remove && s.procs[q].node in s.procs[i].rest
    requires Evolves(
               s, s.(procs := s.procs[i := s.procs[i].(pc := Call(q), rest := s.procs[i].rest - {s.procs[q].node})]), i)
    ensures ChildOk(
              s.(procs := s.procs[i := s.procs[i].(pc := Call(q), rest := s.procs[i].rest - {s.procs[q].node})]), c)
  {
    var s' := s.(procs := s.procs[i := s.procs[i].(pc := Call(q), rest := s.procs[i].rest - {s.procs[q].node})]);
    assert ProcOk(s, i) && NodeOk(s, n);
    assert ProcOk(s, q) && RegistryOk(s, n, s.procs[q].node) && NodeOk(s, s.procs[q].node);
    assert NodeOk(s, c) && ChildOk(s, c) && NodeEvolves(s, s', i, c);
    if HasParent(s', c) && s.nodes[c].parent != Some(n) {
      assert NodeOk(s, s.nodes[c].parent.value);
      OtherChild(s, s', i, c);
    }
  }

  /** The loop waits for the call it has made for one child. */
  lemma PickInv(s: State, i: nat, n: nat, q: nat)
    requires Inv(s) && Calling(s, i, n) && s.procs[i].pc == Loop
    requires q < |s.procs| && q != i && !s.procs[q].links && !s.procs[q].remove && s.procs[q].node in s.procs[i].rest
    ensures var s' :=
              s.(procs := s.procs[i := s.procs[i].(pc := Call(q), rest := s.procs[i].rest - {s.procs[q].node})]);
            Inv(s') && Evolves(s, s', i)
  {
    var s' := s.(procs := s.procs[i := s.procs[i].(pc := Call(q), rest := s.procs[i].rest - {s.procs[q].node})]);
    assert ProcOk(s, i) && NodeOk(s, n);
    assert ProcOk(s, q) && RegistryOk(s, n, s.procs[q].node) && NodeOk(s, s.procs[q].node);
    assert Evolves(s, s', i) by {
      forall m: nat ensures NodeEvolves(s, s', i, m) { assert NodeOk(s, m); }
    }
    forall k: nat ensures ProcOk(s', k) {
      if k < |s.procs| && k != i { OtherProc(s, s', i, k); }
    }
    forall m: nat ensures NodeOk(s', m) {
      assert NodeOk(s, m);
      if m < |s.nodes| && m != n { OtherNode(s, s', i, m); }
    }
    forall c: nat ensures ChildOk(s', c) { PickChild(s, i, n, q, c); }
    forall m: nat, c: nat ensures RegistryOk(s', m, c) { assert RegistryOk(s, m, c); }
  }

  /** What is known when the call for a child has finished. */
  lemma CallFacts(s: State, i: nat, n: nat, q: nat)
    requires Inv(s) && Calling(s, i, n)
    requires s.procs[i].pc == Call(q) && IsFinished(s, q)
    ensures s.nodes[n].holder == Some(i) && s.nodes[n].err.Some? && Closed(s.nodes[n].done)
    ensures Settled(s, s.procs[q].node)
    ensures Pending(s, n) == s.procs[i].rest + {s.procs[q].node} && Pending(WithPc(s, i, Loop), n) == s.procs[i].rest
  {
    hide Inv, NodeOk;
    InvProc(s, i);
    InvProc(s, q);
  }

  lemma ReturnChild(s: State, i: nat, n: nat, q: nat, c: nat)
    requires Inv(s) && Calling(s, i, n) && s.procs[i].pc == Call(q) && IsFinished(s, q)
    requires Evolves(s, WithPc(s, i, Loop), i)
    ensures ChildOk(WithPc(s, i, Loop), c)
  {
    hide Inv, NodeOk, ProcOk;
    var s' := WithPc(s, i, Loop);
    CallFacts(s, i, n, q);
    InvChild(s, c);
    assert NodeEvolves(s, s', i, c);
    if HasParent(s', c) && s.nodes[c].parent != Some(n) {
      ParentNotHeld(s, i, n, s.nodes[c].parent.value);
      OtherChild(s, s', i, c);
    }
  }

  /** A process holds the mutex of one node at most. */
  lemma ParentNotHeld(s: State, i: nat, n: nat, m: nat)
    requires Inv(s) && i < |s.procs| && m < |s.nodes| && m != n && Holds(s, i) in {None, Some(n)}
    ensures s.nodes[m].holder != Some(i)
  {
    InvNode(s, m);
  }

  /** The call has finished: its child is cancelled for good. */
  lemma ReturnEvolves(s: State, i: nat, n: nat, q: nat)
    requires Inv(s) && Calling(s, i, n)
    requires s.procs[i].pc == Call(q) && IsFinished(s, q)
    ensures Evolves(s, WithPc(s, i, Loop), i)
  {
    hide Inv, ProcOk;
    forall m: nat ensures NodeEvolves(s, WithPc(s, i, Loop), i, m) { InvNode(s, m); }
  }

  lemma ReturnNode(s: State, i: nat, n: nat, q: nat, m: nat)
    requires Inv(s) && Calling(s, i, n)
    requires s.procs[i].pc == Call(q) && IsFinished(s, q) && Evolves(s, WithPc(s, i, Loop), i)
    ensures NodeOk(WithPc(s, i, Loop), m)
  {
    hide Inv, ProcOk;
    InvNode(s, m);
    if m < |s.nodes| && m != n {
      ParentNotHeld(s, i, n, m);
      OtherNode(s, WithPc(s, i, Loop), i, m);
    }
  }

  lemma ReturnProc(s: State, i: nat, n: nat, q: nat, k: nat)
    requires Inv(s) && Calling(s, i, n)
    requires s.procs[i].pc == Call(q) && IsFinished(s, q) && Evolves(s, WithPc(s, i, Loop), i)
    ensures ProcOk(WithPc(s, i, Loop), k)
  {
    hide Inv, NodeOk;
    InvProc(s, k);
    if k < |s.procs| && k != i {
      OtherProc(s, WithPc(s, i, Loop), i, k);
    }
  }

  lemma ReturnInv(s: State, i: nat, n: nat, q: nat)
    requires Inv(s) && Calling(s, i, n) && s.procs[i].pc == Call(q) && IsFinished(s, q)
    ensures var s' := WithPc(s, i, Loop);
            Inv(s') && Evolves(s, s', i)
  {
    hide NodeOk, ProcOk, ChildOk, RegistryOk, Evolves;
    var s' := WithPc(s, i, Loop);
    ReturnEvolves(s, i, n, q);
    forall k: nat ensures ProcOk(s', k) { ReturnProc(s, i, n, q, k); }
    forall m: nat ensures NodeOk(s', m) { ReturnNode(s, i, n, q, m); }
    forall c: nat ensures ChildOk(s', c) { ReturnChild(s, i, n, q, c); }
    forall m: nat, c: nat ensures RegistryOk(s', m, c) { ReturnRegistry(s, i, m, c); }
  }

  lemma ReturnRegistry(s: State, i: nat, m: nat, c: nat)
    requires Inv(s) && i < |s.procs|
    ensures RegistryOk(WithPc(s, i, Loop), m, c)
  {
    InvRegistry(s, m, c);
  }

  lemma DeleteChild(s: State, i: nat, n: nat, p: nat, pc: Pc, c: nat)
    requires Inv(s) && Calling(s, i, n) && s.procs[i].pc == RemoveDelete
    requires HasParent(s, n) && s.nodes[n].parent == Some(p) && Free(s, p) && pc == AfterRemove(s, i)
    requires Evolves(s, WithPc(WithNode(s, p, s.nodes[p].(children := s.nodes[p].children - {n})), i, pc), i)
    ensures ChildOk(WithPc(WithNode(s, p, s.nodes[p].(children := s.nodes[p].children - {n})), i, pc), c)
  {
    hide Inv;
    var s' := WithPc(WithNode(s, p, s.nodes[p].(children := s.nodes[p].children - {n})), i, pc);
    InvProc(s, i); InvNode(s, n); InvNode(s, p);
    InvNode(s, c); InvChild(s, c);
    if HasParent(s', c) && s.nodes[c].parent != Some(p) && c != n {
      InvNode(s, s.nodes[c].parent.value);
      OtherChild(s, s', i, c);
    }
  }

  /** removeChild takes a cancelled context out of its parent's registry. */
  lemma DeleteInv(s: State, i: nat, n: nat, p: nat, pc: Pc)
    requires Inv(s) && Calling(s, i, n) && s.procs[i].pc == RemoveDelete
    requires HasParent(s, n) && s.nodes[n].parent == Some(p) && Free(s, p) && pc == AfterRemove(s, i)
    ensures var s' := WithPc(WithNode(s, p, s.nodes[p].(children := s.nodes[p].children - {n})), i, pc);
            Inv(s') && Evolves(s, s', i)
  {
    var s' := WithPc(WithNode(s, p, s.nodes[p].(children := s.nodes[p].children - {n})), i, pc);
    assert ProcOk(s, i) && NodeOk(s, n) && NodeOk(s, p);
    assert Evolves(s, s', i) by {
      forall m: nat ensures NodeEvolves(s, s', i, m) { assert NodeOk(s, m); }
    }
    forall k: nat ensures ProcOk(s', k) {
      if k < |s.procs| && k != i { OtherProc(s, s', i, k); }
    }
    forall m: nat ensures NodeOk(s', m) {
      assert NodeOk(s, m);
      if m < |s.nodes| && m != p { OtherNode(s, s', i, m); }
    }
    forall c: nat ensures ChildOk(s', c) { DeleteChild(s, i, n, p, pc, c); }
    forall m: nat, c: nat ensures RegistryOk(s', m, c) { assert RegistryOk(s, m, c); }
  }

  /** What is known when the call of cancel for the child has finished. */
  lemma LinkFacts(s: State, i: nat, c: nat, p: nat, q: nat)
    requires Inv(s) && Linking(s, i, c, p)
    requires (s.procs[i].pc == LinkCall(q) || s.procs[i].pc == LinkHold(q)) && IsFinished(s, q)
    ensures Settled(s, c) && !s.nodes[c].linked && s.nodes[c].linker == i
    ensures s.procs[i].pc == LinkHold(q) ==> s.nodes[p].holder == Some(i) && s.nodes[p].err.Some? && Pending(s, p) == {}
  {
    hide Inv, NodeOk;
    InvProc(s, i);
    InvProc(s, q);
  }

  /** err is set by a call of cancel. */
  lemma FirstCancels(s: State, i: nat, d: nat)
    requires Inv(s) && i < |s.procs| && s.procs[i].links && d < |s.nodes| && s.nodes[d].err.Some?
    ensures s.nodes[d].first != i && s.nodes[d].first < |s.procs|
  {
    InvNode(s, d);
  }

  lemma LinkedChild(s: State, i: nat, c: nat, p: nat, q: nat, d: nat)
    requires Inv(s) && Linking(s, i, c, p) && s.procs[i].pc == LinkCall(q) && IsFinished(s, q)
    requires Evolves(s, WithPc(WithNode(s, c, s.nodes[c].(linked := true)), i, Finished), i)
    ensures ChildOk(WithPc(WithNode(s, c, s.nodes[c].(linked := true)), i, Finished), d)
  {
    hide Inv, NodeOk, ProcOk;
    var s' := WithPc(WithNode(s, c, s.nodes[c].(linked := true)), i, Finished);
    LinkFacts(s, i, c, p, q);
    InvChild(s, d);
    if HasParent(s', d) {
      assert NodeEvolves(s, s', i, d);
      if s.nodes[d].err.Some? {
        FirstCancels(s, i, d);
      }
      if d != c {
        ParentNotHeld(s, i, |s.nodes|, s.nodes[d].parent.value);
        OtherChild(s, s', i, d);
      }
    }
  }

  lemma LinkedEvolves(s: State, i: nat, c: nat, p: nat, q: nat)
    requires Inv(s) && Linking(s, i, c, p) && s.procs[i].pc == LinkCall(q) && IsFinished(s, q)
    ensures Evolves(s, WithPc(WithNode(s, c, s.nodes[c].(linked := true)), i, Finished), i)
  {
    hide Inv, NodeOk, ProcOk;
    LinkFacts(s, i, c, p, q);
    forall m: nat ensures NodeEvolves(s, WithPc(WithNode(s, c, s.nodes[c].(linked := true)), i, Finished), i, m) {
    }
  }

  lemma LinkedNode(s: State, i: nat, c: nat, p: nat, q: nat, m: nat)
    requires Inv(s) && Linking(s, i, c, p) && s.procs[i].pc == LinkCall(q) && IsFinished(s, q)
    requires Evolves(s, WithPc(WithNode(s, c, s.nodes[c].(linked := true)), i, Finished), i)
    ensures NodeOk(WithPc(WithNode(s, c, s.nodes[c].(linked := true)), i, Finished), m)
  {
    hide Inv, ProcOk;
    var s' := WithPc(WithNode(s, c, s.nodes[c].(linked := true)), i, Finished);
    LinkFacts(s, i, c, p, q);
    InvNode(s, m);
    if m < |s.nodes| && m != c {
      ParentNotHeld(s, i, |s.nodes|, m);
      if s.nodes[m].err.Some? {
        FirstCancels(s, i, m);
      }
      OtherNode(s, s', i, m);
    }
  }

  /** The child was cancelled at once because its parent is; it counts as linked. */
  lemma LinkedProc(s: State, i: nat, c: nat, p: nat, q: nat, k: nat)
    requires Inv(s) && Linking(s, i, c, p) && s.procs[i].pc == LinkCall(q) && IsFinished(s, q)
    requires Evolves(s, WithPc(WithNode(s, c, s.nodes[c].(linked := true)), i, Finished), i)
    ensures ProcOk(WithPc(WithNode(s, c, s.nodes[c].(linked := true)), i, Finished), k)
  {
    hide Inv, NodeOk;
    InvProc(s, k);
    if k < |s.procs| && k != i {
      OtherProc(s, WithPc(WithNode(s, c, s.nodes[c].(linked := true)), i, Finished), i, k);
    }
  }

  lemma LinkedInv(s: State, i: nat, c: nat, p: nat, q: nat)
    requires Inv(s) && Linking(s, i, c, p) && s.procs[i].pc == LinkCall(q) && IsFinished(s, q)
    ensures var s' := WithPc(WithNode(s, c, s.nodes[c].(linked := true)), i, Finished);
            Inv(s') && Evolves(s, s', i)
  {
    hide NodeOk, ProcOk, ChildOk, Evolves;
    var s' := WithPc(WithNode(s, c, s.nodes[c].(linked := true)), i, Finished);
    LinkedEvolves(s, i, c, p, q);
    forall k: nat ensures ProcOk(s', k) { LinkedProc(s, i, c, p, q, k); }
    forall m: nat ensures NodeOk(s', m) { LinkedNode(s, i, c, p, q, m); }
    forall d: nat ensures ChildOk(s', d) { LinkedChild(s, i, c, p, q, d); }
    forall m: nat, c: nat ensures RegistryOk(s', m, c) { InvRegistry(s, m, c); }
  }

  lemma AddChild(s: State, i: nat, c: nat, p: nat, d: nat)
    requires Inv(s) && Linking(s, i, c, p) && s.procs[i].pc == LinkLock && Free(s, p) && s.nodes[p].err == None
    requires Evolves(s, Registered(s, i, c, p), i)
    ensures ChildOk(Registered(s, i, c, p), d)
  {
    hide Inv;
    var s' := Registered(s, i, c, p);
    InvProc(s, i); InvNode(s, c); InvNode(s, p); InvChild(s, c);
    InvNode(s, d); InvChild(s, d);
    if HasParent(s', d) && d != c && s.nodes[d].parent != Some(p) {
      InvNode(s, s.nodes[d].parent.value);
      OtherChild(s, s', i, d);
    }
  }

  /** The parent is not cancelled: the child is registered with it. */
  lemma AddInv(s: State, i: nat, c: nat, p: nat)
    requires Inv(s) && Linking(s, i, c, p) && s.procs[i].pc == LinkLock && Free(s, p) && s.nodes[p].err == None
    ensures var s' := Registered(s, i, c, p);
            Inv(s') && Evolves(s, s', i)
  {
    var s' := Registered(s, i, c, p);
    assert ProcOk(s, i) && NodeOk(s, c) && NodeOk(s, p) && ChildOk(s, c);
    assert Evolves(s, s', i) by {
      forall m: nat ensures NodeEvolves(s, s', i, m) { assert NodeOk(s, m); }
    }
    forall k: nat ensures ProcOk(s', k) {
      if k < |s.procs| && k != i { OtherProc(s, s', i, k); }
    }
    forall m: nat ensures NodeOk(s', m) {
      assert NodeOk(s, m);
      if m < |s.nodes| && m != c && m != p { OtherNode(s, s', i, m); }
    }
    forall d: nat ensures ChildOk(s', d) { AddChild(s, i, c, p, d); }
    forall m: nat, c: nat ensures RegistryOk(s', m, c) { assert RegistryOk(s, m, c); }
  }

  lemma HoldChild(s: State, i: nat, c: nat, p: nat, q: nat, d: nat)
    requires Inv(s) && Linking(s, i, c, p) && s.procs[i].pc == LinkLock && Free(s, p) && s.nodes[p].err.Some?
    requires q < |s.procs| && !s.procs[q].links && !s.procs[q].remove && s.procs[q].node == c
    requires Evolves(s, WithPc(WithNode(s, p, s.nodes[p].(holder := Some(i))), i, LinkHold(q)), i)
    ensures ChildOk(WithPc(WithNode(s, p, s.nodes[p].(holder := Some(i))), i, LinkHold(q)), d)
  {
    hide Inv;
    var s' := WithPc(WithNode(s, p, s.nodes[p].(holder := Some(i))), i, LinkHold(q));
    InvProc(s, i); InvNode(s, c); InvNode(s, p); InvProc(s, q);
    InvNode(s, d); InvChild(s, d);
    if HasParent(s', d) && s.nodes[d].parent != Some(p) {
      InvNode(s, s.nodes[d].parent.value);
      OtherChild(s, s', i, d);
    }
  }

  /** The parent is cancelled: propagateCancel keeps its mutex during the call for the child. */
  lemma HoldInv(s: State, i: nat, c: nat, p: nat, q: nat)
    requires Inv(s) && Linking(s, i, c, p) && s.procs[i].pc == LinkLock && Free(s, p) && s.nodes[p].err.Some?
    requires q < |s.procs| && !s.procs[q].links && !s.procs[q].remove && s.procs[q].node == c
    ensures var s' := WithPc(WithNode(s, p, s.nodes[p].(holder := Some(i))), i, LinkHold(q));
            Inv(s') && Evolves(s, s', i)
  {
    var s' := WithPc(WithNode(s, p, s.nodes[p].(holder := Some(i))), i, LinkHold(q));
    assert ProcOk(s, i) && NodeOk(s, c) && NodeOk(s, p) && ProcOk(s, q);
    assert Evolves(s, s', i) by {
      forall m: nat ensures NodeEvolves(s, s', i, m) { assert NodeOk(s, m); }
    }
    forall k: nat ensures ProcOk(s', k) {
      if k < |s.procs| && k != i { OtherProc(s, s', i, k); }
    }
    forall m: nat ensures NodeOk(s', m) {
      assert NodeOk(s, m);
      if m < |s.nodes| && m != p { OtherNode(s, s', i, m); }
    }
    forall d: nat ensures ChildOk(s', d) { HoldChild(s, i, c, p, q, d); }
    forall m: nat, c: nat ensures RegistryOk(s', m, c) { assert RegistryOk(s, m, c); }
  }

  lemma ReleaseChild(s: State, i: nat, c: nat, p: nat, q: nat, d: nat)
    requires Inv(s) && Linking(s, i, c, p) && s.procs[i].pc == LinkHold(q) && IsFinished(s, q)
    requires Evolves(s, Released(s, i, c, p), i)
    ensures ChildOk(Released(s, i, c, p), d)
  {
    hide Inv, NodeOk, ProcOk;
    var s' := Released(s, i, c, p);
    LinkFacts(s, i, c, p, q);
    InvChild(s, d);
    if HasParent(s', d) {
      assert NodeEvolves(s, s', i, d);
      if s.nodes[d].err.Some? {
        FirstCancels(s, i, d);
      }
      if d != c && s.nodes[d].parent != Some(p) {
        ParentNotHeld(s, i, p, s.nodes[d].parent.value);
        OtherChild(s, s', i, d);
      }
    }
  }

  lemma ReleaseEvolves(s: State, i: nat, c: nat, p: nat, q: nat)
    requires Inv(s) && Linking(s, i, c, p) && s.procs[i].pc == LinkHold(q) && IsFinished(s, q)
    ensures Evolves(s, Released(s, i, c, p), i)
  {
    hide Inv, NodeOk, ProcOk;
    LinkFacts(s, i, c, p, q);
    forall m: nat ensures NodeEvolves(s, Released(s, i, c, p), i, m) {
    }
  }

  lemma ReleaseNode(s: State, i: nat, c: nat, p: nat, q: nat, m: nat)
    requires Inv(s) && Linking(s, i, c, p) && s.procs[i].pc == LinkHold(q) && IsFinished(s, q)
    requires Evolves(s, Released(s, i, c, p), i)
    ensures NodeOk(Released(s, i, c, p), m)
  {
    hide Inv, ProcOk;
    var s' := Released(s, i, c, p);
    LinkFacts(s, i, c, p, q);
    InvNode(s, m);
    if m < |s.nodes| && m != c && m != p {
      ParentNotHeld(s, i, p, m);
      if s.nodes[m].err.Some? {
        FirstCancels(s, i, m);
      }
      OtherNode(s, s', i, m);
    }
  }

  lemma ReleaseProc(s: State, i: nat, c: nat, p: nat, q: nat, k: nat)
    requires Inv(s) && Linking(s, i, c, p) && s.procs[i].pc == LinkHold(q) && IsFinished(s, q)
    requires Evolves(s, Released(s, i, c, p), i)
    ensures ProcOk(Released(s, i, c, p), k)
  {
    assert ProcOk(s, i) && NodeOk(s, c) && ProcOk(s, q);
    if k < |s.procs| && k != i { OtherProc(s, Released(s, i, c, p), i, k); }
  }

  lemma ReleaseRegistry(s: State, i: nat, c: nat, p: nat, q: nat, m: nat, d: nat)
    requires Inv(s) && Linking(s, i, c, p) && s.procs[i].pc == LinkHold(q) && IsFinished(s, q)
    ensures RegistryOk(Released(s, i, c, p), m, d)
  {
    assert RegistryOk(s, m, d);
  }

  /** That call has finished; the mutex is released. */
  lemma ReleaseInv(s: State, i: nat, c: nat, p: nat, q: nat)
    requires Inv(s) && Linking(s, i, c, p) && s.procs[i].pc == LinkHold(q) && IsFinished(s, q)
    ensures var s' := Released(s, i, c, p);
            Inv(s') && Evolves(s, s', i)
  {
    hide NodeOk;
    hide ProcOk;
    hide ChildOk;
    hide RegistryOk;
    hide Released;
    ReleaseEvolves(s, i, c, p, q);
    var s' := Released(s, i, c, p);
    forall k: nat ensures ProcOk(s', k) { ReleaseProc(s, i, c, p, q, k); }
    forall m: nat ensures NodeOk(s', m) { ReleaseNode(s, i, c, p, q, m); }
    forall d: nat ensures ChildOk(s', d) { ReleaseChild(s, i, c, p, q, d); }
    forall m: nat, d: nat ensures RegistryOk(s', m, d) { ReleaseRegistry(s, i, c, p, q, m, d); }
  }

  /** A new context, with its call of propagateCancel unless it has no cancellable parent. */
  lemma NewInv(s: State, p: Option<nat>, timed: bool)
    requires Inv(s) && (p.Some? ==> p.value < |s.nodes| && s.nodes[p.value].linked)
    ensures var s' := Created(s, p, timed);
            Inv(s') && Evolves(s, s', |s.procs|)
  {
    var i := |s.procs|;
    var s' := Created(s, p, timed);
    assert Evolves(s, s', i) by {
      forall m: nat ensures NodeEvolves(s, s', i, m) { assert NodeOk(s, m); }
    }
    forall k: nat ensures ProcOk(s', k) {
      if k < |s.procs| && k != i { OtherProc(s, s', i, k); }
    }
    forall m: nat ensures NodeOk(s', m) {
      assert NodeOk(s, m);
      if m < |s.nodes| { OtherNode(s, s', i, m); }
    }
    forall c: nat ensures ChildOk(s', c) {
      assert NodeOk(s, c);
      if HasParent(s, c) && c < |s.nodes| { assert NodeOk(s, s.nodes[c].parent.value); OtherChild(s, s', i, c); }
      if c == |s.nodes| && p.Some? { assert RegistryOk(s, p.value, c); }
    }
    forall m: nat, c: nat ensures RegistryOk(s', m, c) { assert RegistryOk(s, m, c); }
  }

  function Registered(s: State, i: nat, c: nat, p: nat): (r: State)
    requires i < |s.procs| && c < |s.nodes| && p < |s.nodes|
  {
    var s' := WithNode(s, p, s.nodes[p].(children := s.nodes[p].children + {c}));
    WithPc(WithNode(s', c, s'.nodes[c].(linked := true)), i, Finished)
  }

  function Released(s: State, i: nat, c: nat, p: nat): (r: State)
    requires i < |s.procs| && c < |s.nodes| && p < |s.nodes|
  {
    var s' := WithNode(s, p, s.nodes[p].(holder := None));
    WithPc(WithNode(s', c, s'.nodes[c].(linked := true)), i, Finished)
  }

  function Created(s: State, p: Option<nat>, timed: bool): (r: State) {
    var s' := s.(nodes := s.nodes + [Node(p, timed, p == None, None, None, Unset, {}, false, 0, |s.procs|)]);
    if p == None then s'
    else s'.(procs := s.procs + [Process(|s.nodes|, true, false, None, LinkDone, {})])
  }

  // ---- every step of every interleaving

  /** What a step keeps of a node: the error once set, the channel once closed, and
      with them the cancellation of the whole subtree. */
  predicate Keeps(s: State, s': State, n: nat) {
    n < |s.nodes| ==>
      && n < |s'.nodes|
      && var a, b := s.nodes[n], s'.nodes[n];
      && a.parent == b.parent && (a.linked ==> b.linked) && (a.err.Some? ==> b.err == a.err)
      && ChannelEvolves(a.done, b.done) && (Settled(s, n) ==> Settled(s', n))
  }

  ghost predicate Keep(s: State, s': State) {
    forall n: nat :: Keeps(s, s', n)
  }

  lemma EvolvesKeep(s: State, s': State, i: nat)
    requires Evolves(s, s', i)
    ensures Keep(s, s')
  {
    forall n: nat ensures Keeps(s, s', n) { assert NodeEvolves(s, s', i, n); }
  }

  lemma KeepTransitive(s: State, t: State, u: State)
    requires Keep(s, t) && Keep(t, u)
    ensures Keep(s, u)
  {
    forall n: nat ensures Keeps(s, u, n) { assert Keeps(s, t, n) && Keeps(t, u, n); }
  }

  /** The effect of every action on the invariant. */
  lemma NextInv(s: State, a: Action)
    requires Inv(s) && Enabled(s, a)
    ensures Inv(Next(s, a)) && Keep(s, Next(s, a))
  {
    hide Inv;
    hide Evolves;
    hide Keep;
    match a
    case New(p, timed) =>
      NewInv(s, p, timed);
      EvolvesKeep(s, Next(s, a), |s.procs|);
    case StartCancel(n, remove, e) =>
      StartInv(s, n, remove, Some(e));
      EvolvesKeep(s, Next(s, a), |s.procs|);
    case Arm(n) =>
      ArmInv(s, n);
      EvolvesKeep(s, Next(s, a), |s.procs|);
    case ReadDone(n) =>
      MakeInv(s, n);
      EvolvesKeep(s, Next(s, a), |s.procs|);
    case Pick(i, c) => PickStep(s, i, c);
    case Step(i) => if s.procs[i].links { LinkStepInv(s, i); } else { CancelStepInv(s, i); }
  }

  /** The invariant's clauses for one process and its node. */
  lemma Facts(s: State, i: nat)
    requires Inv(s) && i < |s.procs|
    ensures ProcOk(s, i) && NodeOk(s, s.procs[i].node) && ChildOk(s, s.procs[i].node)
    ensures HasParent(s, s.procs[i].node) ==> NodeOk(s, s.nodes[s.procs[i].node].parent.value)
  {
    assert ProcOk(s, i) && NodeOk(s, s.procs[i].node) && ChildOk(s, s.procs[i].node);
    if HasParent(s, s.procs[i].node) {
      assert NodeOk(s, s.nodes[s.procs[i].node].parent.value);
    }
  }

  lemma PickStep(s: State, i: nat, c: nat)
    requires Inv(s) && Enabled(s, Pick(i, c))
    ensures Inv(Next(s, Pick(i, c))) && Keep(s, Next(s, Pick(i, c)))
  {
    hide Inv;
    hide Evolves;
    hide Keep;
    Facts(s, i);
    var n, q := s.procs[i].node, |s.procs|;
    RegistryFact(s, n, c);
    StartInv(s, c, false, s.procs[i].err);
    var t := WithCall(s, c, s.procs[i].err);
    EvolvesKeep(s, t, q);
    PickInv(t, i, n, q);
    EvolvesKeep(t, Next(s, Pick(i, c)), i);
    KeepTransitive(s, t, Next(s, Pick(i, c)));
  }

  lemma RegistryFact(s: State, n: nat, c: nat)
    requires Inv(s) && n < |s.nodes| && c in s.nodes[n].children
    ensures c < |s.nodes| && s.nodes[c].parent == Some(n) && HasParent(s, c)
  {
    assert RegistryOk(s, n, c) && NodeOk(s, c);
  }

  lemma CancelStepInv(s: State, i: nat)
    requires Inv(s) && Enabled(s, Step(i)) && !s.procs[i].links
    ensures Inv(CancelStep(s, i)) && Keep(s, CancelStep(s, i))
  {
    hide Inv;
    hide Evolves;
    hide Keep;
    var pc := s.procs[i].pc;
    if pc == RemoveDone {
      RemoveDoneInv(s, i);
    } else if pc == SetErr || pc == Close || pc == Loop || pc.Call? {
      LockedStepInv(s, i);
    } else {
      UnlockedStepInv(s, i);
    }
  }

  lemma LockedStepInv(s: State, i: nat)
    requires Inv(s) && Enabled(s, Step(i)) && !s.procs[i].links
    requires var pc := s.procs[i].pc; pc == SetErr || pc == Close || pc == Loop || pc.Call?
    ensures Inv(CancelStep(s, i)) && Keep(s, CancelStep(s, i))
  {
    hide Inv;
    hide Evolves;
    hide Keep;
    var n := s.procs[i].node;
    match s.procs[i].pc {
      case SetErr => SetErrInv(s, i, n);
      case Close => CloseInv(s, i, n);
      case Loop => LeaveInv(s, i, n, AfterCancel(s, i));
      case Call(q) => ReturnInv(s, i, n, q);
    }
    EvolvesKeep(s, CancelStep(s, i), i);
  }

  lemma UnlockedStepInv(s: State, i: nat)
    requires Inv(s) && Enabled(s, Step(i)) && !s.procs[i].links
    requires s.procs[i].pc in {Enter, RemoveFind, RemoveDelete, Stop} || LinkPc(s.procs[i].pc)
    ensures Inv(CancelStep(s, i)) && Keep(s, CancelStep(s, i))
  {
    hide Inv;
    hide Evolves;
    hide Keep;
    if s.procs[i].pc == Enter {
      EnterInv(s, i);
    } else if s.procs[i].pc == RemoveFind {
      RemoveFindInv(s, i);
    } else if s.procs[i].pc == RemoveDelete || s.procs[i].pc == Stop {
      LastStepInv(s, i);
    } else {
      Same(s, i);
      EvolvesKeep(s, s, i);
    }
  }

  lemma Same(s: State, i: nat)
    ensures Evolves(s, s, i)
  {
  }

  lemma LastStepInv(s: State, i: nat)
    requires Inv(s) && Enabled(s, Step(i)) && !s.procs[i].links
    requires s.procs[i].pc == RemoveDelete || s.procs[i].pc == Stop
    ensures Inv(CancelStep(s, i)) && Keep(s, CancelStep(s, i))
  {
    hide Inv;
    hide Evolves;
    hide Keep;
    Facts(s, i);
    var n := s.procs[i].node;
    if s.procs[i].pc == RemoveDelete {
      DeleteInv(s, i, n, s.nodes[n].parent.value, AfterRemove(s, i));
    } else {
      DisarmInv(s, i, n);
    }
    EvolvesKeep(s, CancelStep(s, i), i);
  }

  lemma EnterInv(s: State, i: nat)
    requires Inv(s) && Enabled(s, Step(i)) && !s.procs[i].links && s.procs[i].pc == Enter
    ensures Inv(CancelStep(s, i)) && Keep(s, CancelStep(s, i))
  {
    hide Inv;
    hide Evolves;
    hide Keep;
    Facts(s, i);
    var n := s.procs[i].node;
    if s.nodes[n].err.Some? {
      MoveInv(s, i, if s.nodes[n].timed then AfterCancel(s, i) else Finished);
    } else {
      AcquireInv(s, i, n);
    }
    EvolvesKeep(s, CancelStep(s, i), i);
  }

  lemma RemoveFindInv(s: State, i: nat)
    requires Inv(s) && Enabled(s, Step(i)) && !s.procs[i].links && s.procs[i].pc == RemoveFind
    ensures Inv(CancelStep(s, i)) && Keep(s, CancelStep(s, i))
  {
    hide Inv;
    hide Evolves;
    hide Keep;
    Facts(s, i);
    var n := s.procs[i].node;
    MoveInv(s, i, if ParentOf(s, n).done.Own? then RemoveDelete else AfterRemove(s, i));
    EvolvesKeep(s, CancelStep(s, i), i);
  }

  lemma RemoveDoneInv(s: State, i: nat)
    requires Inv(s) && Enabled(s, Step(i)) && !s.procs[i].links && s.procs[i].pc == RemoveDone
    ensures Inv(CancelStep(s, i)) && Keep(s, CancelStep(s, i))
  {
    hide Inv;
    hide Evolves;
    hide Keep;
    Facts(s, i);
    var n := s.procs[i].node;
    if s.nodes[n].parent == None {
      MoveInv(s, i, AfterRemove(s, i));
      EvolvesKeep(s, CancelStep(s, i), i);
    } else {
      var p := s.nodes[n].parent.value;
      MakeInv(s, p);
      var t := WithNode(s, p, s.nodes[p].(done := Made(s.nodes[p].done)));
      EvolvesKeep(s, t, |s.procs|);
      FoundDone(t, i, p);
      KeepTransitive(s, t, CancelStep(s, i));
    }
  }

  /** With the parent's channel made, removal goes on or is over. */
  lemma FoundDone(t: State, i: nat, p: nat)
    requires Inv(t) && i < |t.procs| && !t.procs[i].links && t.procs[i].pc == RemoveDone
    requires t.procs[i].node < |t.nodes| && NodeOf(t, i).parent == Some(p) && p < |t.nodes| && t.nodes[p].done != Unset
    ensures var t' := WithPc(t, i, if t.nodes[p].done == ClosedChan then AfterRemove(t, i) else RemoveFind);
            Inv(t') && Keep(t, t')
  {
    hide Inv;
    hide Evolves;
    hide Keep;
    var pc := if t.nodes[p].done == ClosedChan then AfterRemove(t, i) else RemoveFind;
    Facts(t, i);
    MoveInv(t, i, pc);
    EvolvesKeep(t, WithPc(t, i, pc), i);
  }

  lemma LinkStepInv(s: State, i: nat)
    requires Inv(s) && Enabled(s, Step(i)) && s.procs[i].links
    ensures Inv(LinkStep(s, i)) && Keep(s, LinkStep(s, i))
  {
    hide Inv;
    hide Evolves;
    hide Keep;
    Facts(s, i);
    var p := s.nodes[s.procs[i].node].parent.value;
    if s.procs[i].pc == LinkDone {
      MakeAndMove(s, i, p, LinkSelect);
    } else if s.procs[i].pc == LinkFindDone {
      MakeAndMove(s, i, p, LinkFindCompare);
    } else if s.procs[i].pc == LinkErr {
      LinkErrInv(s, i);
    } else if s.procs[i].pc == LinkLock && s.nodes[p].err.Some? {
      LinkHoldInv(s, i);
    } else {
      LinkMoveInv(s, i, p);
    }
  }

  lemma LinkMoveInv(s: State, i: nat, p: nat)
    requires Inv(s) && Enabled(s, Step(i)) && s.procs[i].links && HasParent(s, s.procs[i].node)
    requires s.nodes[s.procs[i].node].parent == Some(p)
    requires var pc := s.procs[i].pc;
             pc == LinkSelect || pc.LinkCall? || pc == LinkFindCompare || pc.LinkHold?
             || (pc == LinkLock && s.nodes[p].err == None)
    ensures Inv(LinkStep(s, i)) && Keep(s, LinkStep(s, i))
  {
    hide Inv;
    hide Evolves;
    hide Keep;
    var c := s.procs[i].node;
    match s.procs[i].pc {
      case LinkSelect => LinkMove(s, i, if Closed(s.nodes[p].done) then LinkErr else LinkFindDone);
      case LinkCall(r) => LinkedInv(s, i, c, p, r);
      case LinkFindCompare => LinkMove(s, i, LinkLock);
      case LinkLock => AddInv(s, i, c, p);
      case LinkHold(r) => ReleaseInv(s, i, c, p, r);
    }
    EvolvesKeep(s, LinkStep(s, i), i);
  }

  lemma LinkMove(s: State, i: nat, pc: Pc)
    requires Inv(s) && i < |s.procs| && s.procs[i].links && HasParent(s, s.procs[i].node)
    requires (s.procs[i].pc == LinkSelect
              && pc == if Closed(ParentOf(s, s.procs[i].node).done) then LinkErr else LinkFindDone)
             || (s.procs[i].pc == LinkFindCompare && pc == LinkLock)
    ensures Inv(WithPc(s, i, pc)) && Evolves(s, WithPc(s, i, pc), i)
    ensures pc == LinkLock ==> ParentOf(s, s.procs[i].node).done.Own?
  {
    hide Inv;
    hide Evolves;
    Facts(s, i);
    MoveInv(s, i, pc);
  }

  lemma MakeAndMove(s: State, i: nat, p: nat, pc: Pc)
    requires Inv(s) && i < |s.procs| && s.procs[i].links && Free(s, p) && ProcOk(s, i)
    requires HasParent(s, s.procs[i].node) && s.nodes[s.procs[i].node].parent == Some(p)
    requires (s.procs[i].pc == LinkDone && pc == LinkSelect) || (s.procs[i].pc == LinkFindDone && pc == LinkFindCompare)
    ensures var t := WithPc(WithNode(s, p, s.nodes[p].(done := Made(s.nodes[p].done))), i, pc);
            Inv(t) && Keep(s, t)
  {
    hide Inv;
    hide Evolves;
    hide Keep;
    MakeInv(s, p);
    var t := WithNode(s, p, s.nodes[p].(done := Made(s.nodes[p].done)));
    EvolvesKeep(s, t, |s.procs|);
    Facts(t, i);
    MoveInv(t, i, pc);
    EvolvesKeep(t, WithPc(t, i, pc), i);
    KeepTransitive(s, t, WithPc(t, i, pc));
  }

  lemma LinkErrInv(s: State, i: nat)
    requires Inv(s) && Enabled(s, Step(i)) && s.procs[i].links && s.procs[i].pc == LinkErr
    ensures Inv(LinkStep(s, i)) && Keep(s, LinkStep(s, i))
  {
    hide Inv;
    hide Evolves;
    hide Keep;
    Facts(s, i);
    var c, q := s.procs[i].node, |s.procs|;
    var e := ParentOf(s, c).err;
    StartInv(s, c, false, e);
    var t := WithCall(s, c, e);
    EvolvesKeep(s, t, q);
    Facts(t, i);
    MoveInv(t, i, LinkCall(q));
    EvolvesKeep(t, LinkStep(s, i), i);
    KeepTransitive(s, t, LinkStep(s, i));
  }

  lemma LinkHoldInv(s: State, i: nat)
    requires Inv(s) && Enabled(s, Step(i)) && s.procs[i].links && s.procs[i].pc == LinkLock
    requires ParentCancelled(s, s.procs[i].node)
    ensures Inv(LinkStep(s, i)) && Keep(s, LinkStep(s, i))
  {
    hide Inv;
    hide Evolves;
    hide Keep;
    var c, q := s.procs[i].node, |s.procs|;
    var e := ParentOf(s, c).err;
    StartInv(s, c, false, e);
    var t := WithCall(s, c, e);
    EvolvesKeep(s, t, q);
    HoldInv(t, i, c, s.nodes[c].parent.value, q);
    EvolvesKeep(t, LinkStep(s, i), i);
    KeepTransitive(s, t, LinkStep(s, i));
  }

  // ---- over whole runs

  ghost predicate ReachableIn(s: State, steps: nat)
    decreases steps
  {
    if steps == 0 then s == Init
    else exists t: State, a: Action :: ReachableIn(t, steps - 1) && Enabled(t, a) && s == Next(t, a)
  }

  ghost predicate Reachable(s: State) {
    exists steps: nat :: ReachableIn(s, steps)
  }

  lemma InitInv()
    ensures Inv(Init)
  {
  }

  lemma {:induction false} ReachableInInv(s: State, steps: nat)
    requires ReachableIn(s, steps)
    ensures Inv(s)
    decreases steps
  {
    if steps == 0 {
      InitInv();
    } else {
      var t, a :| ReachableIn(t, steps - 1) && Enabled(t, a) && s == Next(t, a);
      ReachableInInv(t, steps - 1);
      NextInv(t, a);
    }
  }

  lemma ReachableInv(s: State)
    requires Reachable(s)
    ensures Inv(s)
  {
    var steps :| ReachableIn(s, steps);
    ReachableInInv(s, steps);
  }

  /** d is a or has a among its ancestors. */
  predicate Below(s: State, a: nat, d: nat)
    decreases d
  {
    d == a || (HasParent(s, d) && Below(s, a, s.nodes[d].parent.value))
  }

  /** Cancellation reaches everybody: once a context has its error set and its mutex
      is free, every descendant that has finished being constructed is cancelled
      and its Done channel closed. */
  lemma Propagation(s: State, a: nat, d: nat)
    requires Reachable(s)
    requires Free(s, a) && s.nodes[a].err.Some?
    requires d < |s.nodes| && s.nodes[d].linked && Below(s, a, d)
    ensures s.nodes[d].err.Some? && Closed(s.nodes[d].done)
  {
    ReachableInv(s);
    SubtreeSettled(s, a, d);
  }

  lemma {:induction false} SubtreeSettled(s: State, a: nat, d: nat)
    requires Inv(s) && Free(s, a) && s.nodes[a].err.Some?
    requires d < |s.nodes| && s.nodes[d].linked && Below(s, a, d)
    ensures Settled(s, d)
    decreases d
  {
    assert NodeOk(s, d);
    if d != a {
      SubtreeSettled(s, a, s.nodes[d].parent.value);
      assert ChildOk(s, d);
    }
  }

  /** A run from s to t. */
  ghost predicate Run(s: State, actions: seq<Action>, t: State)
    decreases |actions|
  {
    if actions == [] then s == t
    else Enabled(s, actions[0]) && Run(Next(s, actions[0]), actions[1..], t)
  }

  /** In the rest of any run an error that is set stays the same, a closed channel
      stays closed, and a cancelled subtree stays cancelled. */
  lemma {:induction false} RunKeeps(s: State, actions: seq<Action>, t: State)
    requires Inv(s) && Run(s, actions, t)
    ensures Inv(t) && Keep(s, t)
    decreases |actions|
  {
    hide Inv;
    if actions == [] {
    } else {
      var u := Next(s, actions[0]);
      NextInv(s, actions[0]);
      RunKeeps(u, actions[1..], t);
      KeepTransitive(s, u, t);
    }
  }

  /** No channel is closed twice, cancel is never called without an error, and
      propagateCancel never has to start a goroutine. */
  lemma CallsAreSafe(s: State, i: nat)
    requires Reachable(s) && i < |s.procs|
    ensures s.procs[i].node < |s.nodes|
    ensures s.procs[i].pc == Close ==> !Closed(NodeOf(s, i).done)
    ensures !s.procs[i].links ==> s.procs[i].err.Some?
    ensures s.procs[i].pc != LinkSpawn
  {
    ReachableInv(s);
    assert ProcOk(s, i);
  }

  /** Mutexes are nested from parent to child only: what a process holds is the
      parent of the context that the call it waits for works on. */
  lemma LockOrder(s: State, i: nat)
    requires Reachable(s) && i < |s.procs| && Holds(s, i).Some? && (s.procs[i].pc.Call? || s.procs[i].pc.LinkHold?)
    ensures s.procs[i].pc.callee < |s.procs|
    ensures var c := s.procs[s.procs[i].pc.callee].node;
            HasParent(s, c) && s.nodes[c].parent == Holds(s, i) && !s.procs[s.procs[i].pc.callee].remove
  {
    ReachableInv(s);
    assert ProcOk(s, i);
  }

  /** When the call that set the error has returned, the timer is stopped and the
      context is no longer registered with a parent that is still active. */
  lemma CleanedUp(s: State, n: nat)
    requires Reachable(s) && n < |s.nodes| && s.nodes[n].err.Some? && IsFinished(s, s.nodes[n].first)
    ensures !s.nodes[n].armed && Unregistered(s, n)
  {
    ReachableInv(s);
    assert NodeOk(s, n) && ChildOk(s, n);
  }

  /** A context has an error exactly when its channel is closed, but for the moment
      between the two under the mutex. */
  lemma ClosedIffErr(s: State, n: nat)
    requires Reachable(s) && n < |s.nodes|
    ensures Closed(s.nodes[n].done) ==> s.nodes[n].err.Some?
    ensures Free(s, n) ==> (Closed(s.nodes[n].done) <==> s.nodes[n].err.Some?)
  {
    ReachableInv(s);
    InvNode(s, n);
  }

  /** A call of cancel that has returned leaves its context cancelled. */
  lemma CancelReturns(s: State, i: nat)
    requires Reachable(s) && IsFinished(s, i) && !s.procs[i].links
    ensures Settled(s, s.procs[i].node)
  {
    ReachableInv(s);
    InvProc(s, i);
  }

  /** Done always returns the same channel, which is closed at most once. */
  lemma DoneIsOne(s: State, n: nat, actions: seq<Action>, t: State)
    requires Reachable(s) && Enabled(s, ReadDone(n)) && Run(Next(s, ReadDone(n)), actions, t)
    ensures n < |t.nodes|
    ensures var c, d := Next(s, ReadDone(n)).nodes[n].done, t.nodes[n].done;
            && c != Unset && (s.nodes[n].done != Unset ==> c == s.nodes[n].done)
            && (d == c || (c == Own(false) && d == Own(true)))
  {
    var u := Next(s, ReadDone(n));
    ReachableInv(s);
    NextInv(s, ReadDone(n));
    hide Inv, Run;
    RunKeeps(u, actions, t);
    KeepAt(u, t, n);
  }

  /** The timer is set or not needed any more. */
  predicate Timed(s: State, n: nat) { n < |s.nodes| && (s.nodes[n].armed || s.nodes[n].err.Some?) }

  lemma TimedNext(s: State, a: Action, n: nat)
    requires Inv(s) && Enabled(s, a) && Timed(s, n)
    ensures Timed(Next(s, a), n)
  {
    hide Next, Inv, Keep, CancelOk, ProcOk;
    NextInv(s, a);
    KeepAt(s, Next(s, a), n);
    if s.nodes[n].armed {
      ArmedNext(s, a, n);
      if a.Step? && !s.procs[a.i].links && s.procs[a.i].pc == Stop {
        StopsSettled(s, a.i);
      }
    }
  }

  /** Only the last section of timerCtx.cancel stops a timer. */
  lemma ArmedNext(s: State, a: Action, n: nat)
    requires Enabled(s, a) && n < |s.nodes| && s.nodes[n].armed
    ensures n < |Next(s, a).nodes|
    ensures Next(s, a).nodes[n].armed
         || (a.Step? && a.i < |s.procs| && !s.procs[a.i].links && s.procs[a.i].pc == Stop && s.procs[a.i].node == n)
  {
  }

  lemma StopsSettled(s: State, i: nat)
    requires Inv(s) && i < |s.procs| && !s.procs[i].links && s.procs[i].pc == Stop
    ensures Settled(s, s.procs[i].node)
  {
    InvProc(s, i);
  }

  /** Once set, the timer of a context stays set until the context is cancelled. */
  lemma {:induction false} TimerStays(s: State, n: nat, actions: seq<Action>, t: State)
    requires Inv(s) && Timed(s, n) && Run(s, actions, t)
    ensures Timed(t, n)
    decreases |actions|
  {
    hide Inv, Next, Enabled, Timed;
    if actions != [] {
      NextInv(s, actions[0]);
      TimedNext(s, actions[0], n);
      TimerStays(Next(s, actions[0]), n, actions[1..], t);
    }
  }

  /** WithDeadline sets the timer of a context that is not cancelled, and nothing but a
      cancellation stops it. */
  lemma TimerArmed(s: State, n: nat, actions: seq<Action>, t: State)
    requires Reachable(s) && Enabled(s, Arm(n)) && Run(Next(s, Arm(n)), actions, t)
    ensures n < |t.nodes| && (t.nodes[n].armed || t.nodes[n].err.Some?)
    ensures t.nodes[n].armed ==> t.nodes[n].timed
  {
    var u := Next(s, Arm(n));
    ReachableInv(s);
    NextInv(s, Arm(n));
    assert Timed(u, n);
    hide Next;
    TimerStays(u, n, actions, t);
    RunKeeps(u, actions, t);
    InvNode(t, n);
  }

  // ---- where errors come from

  /** The calls from outside asked for node n to be cancelled with error e. */
  predicate Asked(actions: seq<Action>, n: nat, e: Error) {
    exists j :: 0 <= j < |actions| && actions[j].StartCancel? && actions[j].node == n && actions[j].err == e
  }

  /** Error e was asked for at n, or came down from n's parent, which has it too and
      for the same reason. */
  predicate Caused(s: State, actions: seq<Action>, n: nat, e: Error)
    decreases n
  {
    Asked(actions, n, e)
    || (HasParent(s, n) && ParentOf(s, n).err == Some(e) && Caused(s, actions, s.nodes[n].parent.value, e))
  }

  /** A node's error is that of the call that set it, and has a cause. */
  predicate NodeBlamed(s: State, actions: seq<Action>, n: nat) {
    n < |s.nodes| && s.nodes[n].err.Some? ==>
      && s.nodes[n].first < |s.procs| && s.procs[s.nodes[n].first].err == s.nodes[n].err
      && Caused(s, actions, n, s.nodes[n].err.value)
  }

  /** So does the error of a call, and once the call has set it, it is the node's. */
  predicate ProcBlamed(s: State, actions: seq<Action>, i: nat) {
    i < |s.procs| && !s.procs[i].links ==>
      var p := s.procs[i];
      && p.node < |s.nodes| && p.err.Some? && Caused(s, actions, p.node, p.err.value)
      && (PastErr(p.pc) ==> s.nodes[p.node].err == p.err)
  }

  predicate PastErr(pc: Pc) { pc == Close || pc == Loop || pc.Call? }

  ghost predicate Blamed(s: State, actions: seq<Action>) {
    && (forall n: nat :: NodeBlamed(s, actions, n))
    && (forall i: nat :: ProcBlamed(s, actions, i))
  }

  lemma {:induction false} CausedOn(s: State, actions: seq<Action>, s': State, a: Action, n: nat, e: Error)
    requires Keep(s, s') && n < |s.nodes| && Caused(s, actions, n, e)
    ensures Caused(s', actions + [a], n, e)
    decreases n
  {
    if Asked(actions, n, e) {
      var j :| 0 <= j < |actions| && actions[j].StartCancel? && actions[j].node == n && actions[j].err == e;
      assert (actions + [a])[j] == actions[j];
    } else {
      var p := s.nodes[n].parent.value;
      assert Keeps(s, s', n) && Keeps(s, s', p);
      CausedOn(s, actions, s', a, p, e);
    }
  }

  /** Errors are set by SetErr only, to the error of the call. */
  predicate ErrStep(s: State, s': State, a: Action, n: nat)
    requires Enabled(s, a)
  {
    n < |s'.nodes| ==>
      if n >= |s.nodes| then s'.nodes[n].err == None
      else
        || (s'.nodes[n].err == s.nodes[n].err && s'.nodes[n].first == s.nodes[n].first)
        || (a.Step? && !s.procs[a.i].links && s.procs[a.i].pc == SetErr && s.procs[a.i].node == n
            && s'.nodes[n].err == s.procs[a.i].err && s'.nodes[n].first == a.i)
  }

  lemma ErrStepOf(s: State, a: Action, n: nat)
    requires Enabled(s, a)
    ensures ErrStep(s, Next(s, a), a, n)
  {
  }

  /** A call keeps its node and error, and is past SetErr only after setting it. */
  predicate CallStep(s: State, s': State, a: Action, k: nat)
    requires Enabled(s, a) && k < |s.procs|
  {
    && k < |s'.procs| && s'.procs[k].links == s.procs[k].links
    && s'.procs[k].node == s.procs[k].node && s'.procs[k].err == s.procs[k].err
    && (!s.procs[k].links && PastErr(s'.procs[k].pc) && !PastErr(s.procs[k].pc) ==>
          s.procs[k].node < |s'.nodes| && s'.nodes[s.procs[k].node].err == s.procs[k].err)
  }

  lemma CallStepOf(s: State, a: Action, k: nat)
    requires Enabled(s, a) && k < |s.procs|
    ensures CallStep(s, Next(s, a), a, k)
  {
  }

  /** Where the error of a new call comes from. */
  lemma NewCall(s: State, actions: seq<Action>, a: Action)
    requires Inv(s) && Blamed(s, actions) && Enabled(s, a)
    ensures var s', k := Next(s, a), |s.procs|;
      && |s'.procs| <= k + 1
      && (k < |s'.procs| && !s'.procs[k].links ==>
            var p := s'.procs[k];
            && p.pc == Enter && p.err.Some? && p.node < |s.nodes|
            && (|| Asked(actions + [a], p.node, p.err.value)
                || (HasParent(s, p.node) && ParentOf(s, p.node).err == p.err
                    && Caused(s, actions, s.nodes[p.node].parent.value, p.err.value))))
  {
    hide Inv, Caused;
    match a {
      case StartCancel(n, _, e) => assert (actions + [a])[|actions|] == a;
      case Pick(i, c) =>
        assert ProcBlamed(s, actions, i) && ProcOk(s, i) by { InvProc(s, i); }
        RegistryFact(s, s.procs[i].node, c);
      case Step(i) => if s.procs[i].links { NewLinkCall(s, actions, i); }
      case _ =>
    }
  }

  /** propagateCancel passes the parent's error on. */
  lemma NewLinkCall(s: State, actions: seq<Action>, i: nat)
    requires Inv(s) && Blamed(s, actions) && Enabled(s, Step(i)) && s.procs[i].links
    ensures var s', k := LinkStep(s, i), |s.procs|;
      && |s'.procs| <= k + 1
      && (k < |s'.procs| ==>
            var p := s'.procs[k];
            && p.pc == Enter && p.err.Some? && p.node < |s.nodes|
            && HasParent(s, p.node) && ParentOf(s, p.node).err == p.err
            && Caused(s, actions, s.nodes[p.node].parent.value, p.err.value))
  {
    LinkKind(s, i);
    InvProc(s, i);
    assert NodeBlamed(s, actions, s.nodes[s.procs[i].node].parent.value);
    hide Inv, Caused;
  }

  lemma BlamedNext(s: State, actions: seq<Action>, a: Action)
    requires Inv(s) && Blamed(s, actions) && Enabled(s, a)
    ensures Blamed(Next(s, a), actions + [a])
  {
    hide Inv, Next, Caused, Keep;
    var s' := Next(s, a);
    NextInv(s, a);
    forall n: nat ensures NodeBlamed(s', actions + [a], n) { NodeBlamedNext(s, actions, a, n); }
    forall i: nat ensures ProcBlamed(s', actions + [a], i) { ProcBlamedNext(s, actions, a, i); }
  }

  lemma NodeBlamedNext(s: State, actions: seq<Action>, a: Action, n: nat)
    requires Inv(s) && Blamed(s, actions) && Enabled(s, a) && Keep(s, Next(s, a))
    ensures NodeBlamed(Next(s, a), actions + [a], n)
  {
    hide Inv, Next, Caused, Keep;
    var s' := Next(s, a);
    ErrStepOf(s, a, n);
    KeepAt(s, s', n);
    if n < |s.nodes| && s'.nodes[n].err.Some? {
      if s'.nodes[n].err == s.nodes[n].err && s'.nodes[n].first == s.nodes[n].first {
        assert NodeBlamed(s, actions, n);
        CallStepOf(s, a, s.nodes[n].first);
      } else {
        assert ProcBlamed(s, actions, a.i);
        CallStepOf(s, a, a.i);
      }
      CausedOn(s, actions, s', a, n, s'.nodes[n].err.value);
    }
  }

  lemma ProcBlamedNext(s: State, actions: seq<Action>, a: Action, i: nat)
    requires Inv(s) && Blamed(s, actions) && Enabled(s, a) && Keep(s, Next(s, a))
    ensures ProcBlamed(Next(s, a), actions + [a], i)
  {
    hide Inv, Next, Keep;
    var s' := Next(s, a);
    if i < |s.procs| {
      CallStepOf(s, a, i);
      if !s.procs[i].links {
        assert ProcBlamed(s, actions, i);
        CausedOn(s, actions, s', a, s.procs[i].node, s.procs[i].err.value);
        assert Keeps(s, s', s.procs[i].node) by { KeepAt(s, s', s.procs[i].node); }
      }
    } else {
      NewCall(s, actions, a);
      if i < |s'.procs| && !s'.procs[i].links {
        var c, e := s'.procs[i].node, s'.procs[i].err.value;
        KeepAt(s, s', c);
        if !Asked(actions + [a], c, e) {
          var p := s.nodes[c].parent.value;
          KeepAt(s, s', p);
          CausedOn(s, actions, s', a, p, e);
        }
      }
    }
  }

  lemma KeepAt(s: State, s': State, n: nat)
    requires Keep(s, s')
    ensures Keeps(s, s', n)
  {
  }

  lemma {:induction false} RunBlames(s: State, before: seq<Action>, actions: seq<Action>, t: State)
    requires Inv(s) && Blamed(s, before) && Run(s, actions, t)
    ensures Inv(t) && Blamed(t, before + actions)
    decreases |actions|
  {
    hide Inv, Blamed, Next;
    if actions == [] {
      assert before + actions == before;
    } else {
      NextInv(s, actions[0]);
      BlamedNext(s, before, actions[0]);
      RunBlames(Next(s, actions[0]), before + [actions[0]], actions[1..], t);
      assert before + [actions[0]] + actions[1..] == before + actions;
    }
  }

  lemma {:induction false} Culprit(s: State, actions: seq<Action>, n: nat, e: Error) returns (a: nat)
    requires n < |s.nodes| && s.nodes[n].err == Some(e) && Caused(s, actions, n, e)
    ensures Below(s, a, n) && Asked(actions, a, e)
    ensures forall m: nat :: Below(s, a, m) && Below(s, m, n) ==> m < |s.nodes| && s.nodes[m].err == Some(e)
    decreases n
  {
    if Asked(actions, n, e) {
      a := n;
    } else {
      a := Culprit(s, actions, s.nodes[n].parent.value, e);
    }
    forall m: nat | Below(s, a, m) && Below(s, m, n) ensures m < |s.nodes| && s.nodes[m].err == Some(e) {
      if Asked(actions, n, e) {
        OneAbove(s, n, m);
      }
    }
  }

  /** Two contexts below one another are the same. */
  lemma OneAbove(s: State, n: nat, m: nat)
    requires Below(s, n, m) && Below(s, m, n)
    ensures m == n
  {
    BelowIsLater(s, n, m);
    BelowIsLater(s, m, n);
  }

  lemma {:induction false} BelowIsLater(s: State, a: nat, d: nat)
    requires Below(s, a, d)
    ensures a <= d
    decreases d
  {
    if d != a {
      BelowIsLater(s, a, s.nodes[d].parent.value);
    }
  }

  /** In every run the error of a context was given to a call of cancel from outside,
      for the context itself or one above it, and every context between the two has the
      same error. Without such a call for the context itself it is the parent's. */
  lemma ErrorCause(actions: seq<Action>, s: State, n: nat) returns (a: nat)
    requires Run(Init, actions, s) && n < |s.nodes| && s.nodes[n].err.Some?
    ensures Below(s, a, n) && Asked(actions, a, s.nodes[n].err.value)
    ensures forall m: nat :: Below(s, a, m) && Below(s, m, n) ==> m < |s.nodes| && s.nodes[m].err == s.nodes[n].err
    ensures Asked(actions, n, s.nodes[n].err.value)
         || (HasParent(s, n) && ParentOf(s, n).err == s.nodes[n].err)
    ensures s.nodes[n].first < |s.procs| && s.procs[s.nodes[n].first].err == s.nodes[n].err
  {
    hide Inv;
    InitInv();
    RunBlames(Init, [], actions, s);
    assert [] + actions == actions;
    assert NodeBlamed(s, actions, n);
    a := Culprit(s, actions, n, s.nodes[n].err.value);
  }

  // ---- no deadlock

  ghost predicate CanMove(s: State) {
    exists a: Action :: Internal(a) && Enabled(s, a)
  }

  /** A step of a running call. */
  predicate Internal(a: Action) { a.Step? || a.Pick? }

  /** As long as some call is running, some call can make a step. */
  lemma NoDeadlock(s: State, i: nat)
    requires Reachable(s) && i < |s.procs| && s.procs[i].pc != Finished
    ensures CanMove(s)
  {
    ReachableInv(s);
    SomebodyMoves(s, i);
  }

  lemma SomebodyMoves(s: State, i: nat)
    requires Inv(s) && i < |s.procs| && s.procs[i].pc != Finished
    ensures CanMove(s)
  {
    if AnyHeld(s, |s.nodes|) {
      var n := LastHeld(s, |s.nodes|);
      HolderMoves(s, n);
    } else {
      UnlockedMoves(s, i);
    }
  }

  ghost predicate AnyHeld(s: State, bound: nat)
    requires bound <= |s.nodes|
  {
    exists n: nat :: n < bound && s.nodes[n].holder.Some?
  }

  /** The held mutex of the youngest context. */
  lemma {:induction false} LastHeld(s: State, bound: nat) returns (n: nat)
    requires bound <= |s.nodes| && AnyHeld(s, bound)
    ensures n < bound && s.nodes[n].holder.Some?
    ensures forall m: nat :: n < m < bound ==> s.nodes[m].holder == None
    decreases bound
  {
    if s.nodes[bound - 1].holder.Some? {
      n := bound - 1;
    } else {
      n := LastHeld(s, bound - 1);
    }
  }

  /** A call for a context younger than every held mutex is not stuck. */
  lemma CalleeMoves(s: State, q: nat)
    requires Inv(s) && q < |s.procs| && !s.procs[q].links && !s.procs[q].remove && s.procs[q].pc != Finished
    requires s.procs[q].node < |s.nodes| && s.nodes[s.procs[q].node].holder == None
    ensures CanMove(s)
  {
    assert ProcOk(s, q);
    assert Enabled(s, Step(q));
  }

  lemma HolderMoves(s: State, n: nat)
    requires Inv(s) && n < |s.nodes| && s.nodes[n].holder.Some?
    requires forall m: nat :: n < m < |s.nodes| ==> s.nodes[m].holder == None
    ensures CanMove(s)
  {
    assert NodeOk(s, n);
    var h := s.nodes[n].holder.value;
    assert ProcOk(s, h);
    var p := s.procs[h];
    if p.pc.Call? || p.pc.LinkHold? {
      var q := p.pc.callee;
      if s.procs[q].pc == Finished {
        assert Enabled(s, Step(h));
      } else {
        assert ProcOk(s, q);
        CalleeMoves(s, q);
      }
    } else if p.pc == Loop && p.rest != {} {
      var c :| c in p.rest;
      assert Enabled(s, Pick(h, c));
    } else {
      assert Enabled(s, Step(h));
    }
  }

  lemma UnlockedMoves(s: State, i: nat)
    requires Inv(s) && i < |s.procs| && s.procs[i].pc != Finished
    requires forall n: nat :: n < |s.nodes| ==> s.nodes[n].holder == None
    ensures CanMove(s)
  {
    Facts(s, i);
    if s.procs[i].pc.LinkCall? {
      var q := s.procs[i].pc.callee;
      if s.procs[q].pc == Finished {
        assert Enabled(s, Step(i));
      } else {
        assert ProcOk(s, q);
        CalleeMoves(s, q);
      }
    } else {
      assert Enabled(s, Step(i));
    }
  }

  // ---- every call ends

  /** A bound on the steps that process p causes: its own, and 10 for each child
      whose cancellation it starts. */
  function ProcWork(p: Process): (r: nat) {
    match p.pc
    case Enter => 8
    case SetErr => 7
    case Close => 6
    case Loop => 5 + 10 * |p.rest|
    case Call(_) => 6 + 10 * |p.rest|
    case RemoveDone => 4
    case RemoveFind => 3
    case RemoveDelete => 2
    case Stop => 1
    case LinkDone => 15
    case LinkSelect => 14
    case LinkErr => 10
    case LinkCall(_) => 1
    case LinkFindDone => 13
    case LinkFindCompare => 12
    case LinkLock => 11
    case LinkHold(_) => 1
    case LinkSpawn => 0
    case Finished => 0
  }

  /** The children that a later call of cancel will visit. */
  function NodeWork(n: Node): (r: nat) { if Closed(n.done) then 0 else 10 * |n.children| }

  function ProcsWork(ps: seq<Process>): (r: nat) {
    if ps == [] then 0 else ProcsWork(ps[..|ps| - 1]) + ProcWork(ps[|ps| - 1])
  }

  function NodesWork(ns: seq<Node>): (r: nat) {
    if ns == [] then 0 else NodesWork(ns[..|ns| - 1]) + NodeWork(ns[|ns| - 1])
  }

  function Work(s: State): (r: nat) { NodesWork(s.nodes) + ProcsWork(s.procs) }

  lemma {:induction false} ProcsUpdate(ps: seq<Process>, i: nat, p: Process)
    requires i < |ps|
    ensures ProcsWork(ps[i := p]) + ProcWork(ps[i]) == ProcsWork(ps) + ProcWork(p)
  {
    hide ProcWork;
    var k := |ps| - 1;
    if i < k {
      ProcsUpdate(ps[..k], i, p);
      assert ps[i := p][..k] == ps[..k][i := p];
    } else {
      assert ps[i := p][..k] == ps[..k];
    }
  }

  lemma {:induction false} NodesUpdate(ns: seq<Node>, i: nat, n: Node)
    requires i < |ns|
    ensures NodesWork(ns[i := n]) + NodeWork(ns[i]) == NodesWork(ns) + NodeWork(n)
  {
    hide NodeWork;
    var k := |ns| - 1;
    if i < k {
      NodesUpdate(ns[..k], i, n);
      assert ns[i := n][..k] == ns[..k][i := n];
    } else {
      assert ns[i := n][..k] == ns[..k];
    }
  }

  lemma PcWork(s: State, i: nat, pc: Pc)
    requires i < |s.procs|
    ensures Work(WithPc(s, i, pc)) + ProcWork(s.procs[i]) == Work(s) + ProcWork(s.procs[i].(pc := pc))
  {
    hide ProcWork, ProcsWork, NodesWork;
    ProcsUpdate(s.procs, i, s.procs[i].(pc := pc));
  }

  lemma NodeChange(s: State, n: nat, node: Node)
    requires n < |s.nodes|
    ensures Work(WithNode(s, n, node)) + NodeWork(s.nodes[n]) == Work(s) + NodeWork(node)
  {
    hide NodeWork, ProcsWork, NodesWork;
    NodesUpdate(s.nodes, n, node);
  }

  lemma CallWork(s: State, c: nat, e: Option<Error>)
    ensures Work(WithCall(s, c, e)) == Work(s) + 8
  {
    var p := Process(c, false, false, e, Enter, {});
    assert (s.procs + [p])[..|s.procs|] == s.procs;
  }

  /** Each step of a running call uses up some of the work. */
  lemma StepWorks(s: State, a: Action)
    requires Inv(s) && Enabled(s, a) && Internal(a)
    ensures Work(Next(s, a)) < Work(s)
  {
    hide Inv, Work, ProcWork;
    if a.Pick? {
      PickWorks(s, a.i, a.child);
    } else if s.procs[a.i].links {
      LinkWorks(s, a.i);
    } else {
      CancelWorks(s, a.i);
    }
  }

  lemma PickWorks(s: State, i: nat, c: nat)
    requires Enabled(s, Pick(i, c))
    ensures Work(Next(s, Pick(i, c))) < Work(s)
  {
    hide ProcsWork, NodesWork;
    var q, p := |s.procs|, s.procs[i];
    var s' := WithCall(s, c, p.err);
    CallWork(s, c, p.err);
    ProcsUpdate(s'.procs, i, p.(pc := Call(q), rest := p.rest - {c}));
    assert |p.rest - {c}| == |p.rest| - 1;
  }

  lemma CancelKind(s: State, i: nat)
    requires Inv(s) && i < |s.procs| && !s.procs[i].links
    ensures CancelPc(s.procs[i].pc)
  {
    InvProc(s, i);
  }

  lemma LinkKind(s: State, i: nat)
    requires Inv(s) && i < |s.procs| && s.procs[i].links && s.procs[i].pc != Finished
    ensures LinkPc(s.procs[i].pc) && s.procs[i].node < |s.nodes| && HasParent(s, s.procs[i].node)
  {
    InvProc(s, i);
  }

  lemma CancelWorks(s: State, i: nat)
    requires Inv(s) && Enabled(s, Step(i)) && !s.procs[i].links
    ensures Work(CancelStep(s, i)) < Work(s)
  {
    hide Inv, Work, NodeWork;
    CancelKind(s, i);
    var n, node := s.procs[i].node, NodeOf(s, i);
    match s.procs[i].pc {
      case Enter =>
        if node.err == None {
          NodeSame(s, n, node.(holder := Some(i)));
          PcWork(WithNode(s, n, node.(holder := Some(i))), i, SetErr);
        } else {
          PcWork(s, i, if node.timed then AfterCancel(s, i) else Finished);
        }
      case SetErr =>
        NodeSame(s, n, node.(err := s.procs[i].err, first := i));
        PcWork(WithNode(s, n, node.(err := s.procs[i].err, first := i)), i, Close);
      case Close => CloseWorks(s, i);
      case Loop =>
        EmptyWork(s, n, node.(children := {}, holder := None));
        PcWork(WithNode(s, n, node.(children := {}, holder := None)), i, AfterCancel(s, i));
      case Call(q) => PcWork(s, i, Loop);
      case RemoveDone => RemoveWorks(s, i);
      case RemoveFind =>
        PcWork(s, i, if s.nodes[node.parent.value].done.Own? then RemoveDelete else AfterRemove(s, i));
      case RemoveDelete => RemoveWorks(s, i);
      case Stop =>
        NodeSame(s, n, node.(armed := false));
        PcWork(WithNode(s, n, node.(armed := false)), i, Finished);
      case _ => assert false;
    }
  }

  /** A change to a node that leaves its children and the state of its channel. */
  lemma NodeSame(s: State, n: nat, node: Node)
    requires n < |s.nodes| && node.children == s.nodes[n].children && Closed(node.done) == Closed(s.nodes[n].done)
    ensures Work(WithNode(s, n, node)) == Work(s)
  {
    hide Work, Closed;
    NodeChange(s, n, node);
  }

  lemma EmptyWork(s: State, n: nat, node: Node)
    requires n < |s.nodes| && node.children == {}
    ensures Work(WithNode(s, n, node)) <= Work(s)
  {
    hide Work, Closed;
    NodeChange(s, n, node);
  }

  /** Closing the channel hands the children over to the loop. */
  lemma CloseWorks(s: State, i: nat)
    requires Inv(s) && Enabled(s, Step(i)) && !s.procs[i].links && s.procs[i].pc == Close
    ensures Work(Closing(s, i)) < Work(s)
  {
    hide ProcsWork, NodesWork;
    InvProc(s, i);
    hide Inv;
    var n, node := s.procs[i].node, NodeOf(s, i);
    NodesUpdate(s.nodes, n, node.(done := if node.done == Unset then ClosedChan else Own(true)));
    ProcsUpdate(s.procs, i, s.procs[i].(pc := Loop, rest := node.children));
  }

  lemma RemoveWorks(s: State, i: nat)
    requires Enabled(s, Step(i)) && !s.procs[i].links && (s.procs[i].pc == RemoveDone || s.procs[i].pc == RemoveDelete)
    ensures Work(CancelStep(s, i)) < Work(s)
  {
    hide Work, NodeWork;
    var n, node := s.procs[i].node, NodeOf(s, i);
    if node.parent == None {
      PcWork(s, i, AfterRemove(s, i));
    } else if s.procs[i].pc == RemoveDone {
      var p := node.parent.value;
      NodeSame(s, p, s.nodes[p].(done := Made(s.nodes[p].done)));
      PcWork(WithNode(s, p, s.nodes[p].(done := Made(s.nodes[p].done))), i,
             if s.nodes[p].done == ClosedChan then AfterRemove(s, i) else RemoveFind);
    } else {
      var p := node.parent.value;
      var t := WithNode(s, p, s.nodes[p].(children := s.nodes[p].children - {n}));
      FewerChildren(s, p, n);
      PcWork(t, i, AfterRemove(s, i));
    }
  }

  lemma FewerChildren(s: State, p: nat, c: nat)
    requires p < |s.nodes|
    ensures Work(WithNode(s, p, s.nodes[p].(children := s.nodes[p].children - {c}))) <= Work(s)
  {
    hide Work, Closed;
    NodeChange(s, p, s.nodes[p].(children := s.nodes[p].children - {c}));
  }

  lemma LinkWorks(s: State, i: nat)
    requires Inv(s) && Enabled(s, Step(i)) && s.procs[i].links
    ensures Work(LinkStep(s, i)) < Work(s)
  {
    hide Inv, Work, NodeWork;
    LinkKind(s, i);
    var c := s.procs[i].node;
    var p := s.nodes[c].parent.value;
    var node, q := s.nodes[p], |s.procs|;
    match s.procs[i].pc {
      case LinkDone =>
        NodeSame(s, p, node.(done := Made(node.done)));
        PcWork(WithNode(s, p, node.(done := Made(node.done))), i, LinkSelect);
      case LinkSelect => PcWork(s, i, if Closed(node.done) then LinkErr else LinkFindDone);
      case LinkErr =>
        CallWork(s, c, node.err);
        PcWork(WithCall(s, c, node.err), i, LinkCall(q));
      case LinkCall(_) =>
        NodeSame(s, c, s.nodes[c].(linked := true));
        PcWork(WithNode(s, c, s.nodes[c].(linked := true)), i, Finished);
      case LinkFindDone =>
        NodeSame(s, p, node.(done := Made(node.done)));
        PcWork(WithNode(s, p, node.(done := Made(node.done))), i,
               if node.done == ClosedChan then LinkSpawn else LinkFindCompare);
      case LinkFindCompare => PcWork(s, i, if node.done.Own? then LinkLock else LinkSpawn);
      case LinkLock => LockWorks(s, i, c, p);
      case LinkHold(_) =>
        var t := WithNode(s, p, node.(holder := None));
        NodeSame(s, p, node.(holder := None));
        NodeSame(t, c, t.nodes[c].(linked := true));
        PcWork(WithNode(t, c, t.nodes[c].(linked := true)), i, Finished);
      case _ => assert false;
    }
  }

  lemma LockWorks(s: State, i: nat, c: nat, p: nat)
    requires Enabled(s, Step(i)) && s.procs[i].links && s.procs[i].pc == LinkLock
    requires s.procs[i].node == c && s.nodes[c].parent == Some(p) && p < |s.nodes|
    ensures Work(LinkStep(s, i)) < Work(s)
  {
    hide Work, NodeWork;
    var node := s.nodes[p];
    if node.err.Some? {
      var t := WithNode(s, p, node.(holder := Some(i)));
      NodeSame(s, p, node.(holder := Some(i)));
      CallWork(t, c, node.err);
      PcWork(WithCall(t, c, node.err), i, LinkHold(|s.procs|));
    } else {
      var t := WithNode(s, p, node.(children := node.children + {c}));
      MoreChildren(s, p, c);
      NodeSame(t, c, t.nodes[c].(linked := true));
      PcWork(WithNode(t, c, t.nodes[c].(linked := true)), i, Finished);
    }
  }

  lemma MoreChildren(s: State, p: nat, c: nat)
    requires p < |s.nodes|
    ensures Work(WithNode(s, p, s.nodes[p].(children := s.nodes[p].children + {c}))) <= Work(s) + 10
  {
    hide Work, Closed;
    NodeChange(s, p, s.nodes[p].(children := s.nodes[p].children + {c}));
  }

  predicate AllInternal(actions: seq<Action>) {
    forall k :: 0 <= k < |actions| ==> Internal(actions[k])
  }

  predicate AllReturned(s: State) {
    forall i :: 0 <= i < |s.procs| ==> s.procs[i].pc == Finished
  }

  /** Without calls from outside a run has at most Work(s) steps. */
  lemma {:induction false} RunsEnd(s: State, actions: seq<Action>, t: State)
    requires Inv(s) && Run(s, actions, t) && AllInternal(actions)
    ensures Inv(t) && |actions| + Work(t) <= Work(s)
    decreases |actions|
  {
    hide Inv, Work;
    if actions != [] {
      StepWorks(s, actions[0]);
      NextInv(s, actions[0]);
      RunsEnd(Next(s, actions[0]), actions[1..], t);
    }
  }

  /** Every call returns: as long as one is running, a run without calls from outside
      can go on, and it cannot go on for ever. */
  lemma CallsReturn(s: State, actions: seq<Action>, t: State)
    requires Reachable(s) && Run(s, actions, t) && AllInternal(actions)
    ensures |actions| <= Work(s)
    ensures AllReturned(t) || CanMove(t)
  {
    hide Inv, Work;
    ReachableInv(s);
    RunsEnd(s, actions, t);
    if !AllReturned(t) {
      var i: nat :| i < |t.procs| && t.procs[i].pc != Finished;
      SomebodyMoves(t, i);
    }
  }

  /** When all calls have returned no mutex is held, and every descendant of every
      cancelled context is cancelled. */
  lemma AtRest(s: State, a: nat, d: nat)
    requires Reachable(s) && AllReturned(s) && a < |s.nodes|
    ensures Free(s, a)
    ensures s.nodes[a].err.Some? && d < |s.nodes| && s.nodes[d].linked && Below(s, a, d) ==> Settled(s, d)
  {
    ReachableInv(s);
    InvNode(s, a);
    hide Inv;
    if s.nodes[a].err.Some? && d < |s.nodes| && s.nodes[d].linked && Below(s, a, d) {
      SubtreeSettled(s, a, d);
    }
  }
}
