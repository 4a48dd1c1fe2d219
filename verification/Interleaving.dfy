/** The real manager under interleaving: its critical sections run one at a time, in any order any
    number of threads may choose, and each is one step of the protocol. */
module Interleaving {
  import opened Ids
  import opened Collections
  import opened Modes
  import opened Ranges
  import opened Routing
  import opened Digraph
  import opened WaitGraphs
  import opened FlatTable
  import opened Merging
  import opened Manager
  import P = Protocol
  import V = Verdicts

  /** Who holds the registry mutex, and how far the call under it has come. */
  datatype Registry = Idle | Trying(txn: TxnId, req: Request) | Reading(who: Option<TxnId>, todo: set<TxnId>)

  class Sections {
    const manager: LockManager
    var sweeps: map<nat, P.Sweep>
    var registry: Registry
    var graph: WaitForGraph
    ghost var state: P.State
    ghost var run: seq<P.Action>

    /** The concrete manager shows the state that the steps so far lead to. */
    ghost predicate Valid()
      reads this, manager, manager.shards, graph
    {
      manager.Valid() &&
      state.held == manager.held && state.spans == manager.spans && state.waits == manager.waits &&
      state.sweeps == sweeps && JobShown(state.job) && Recorded()
    }

    ghost predicate JobShown(job: P.Job)
      reads this`registry, this`graph, graph
    {
      match registry
      case Idle => job == P.Free
      case Trying(t, req) => job == P.Requesting(t, req)
      case Reading(who, todo) =>
        job.Building? && job.who == who && job.todo == todo && SameGraph(AsGraph(graph.edges), job.graph)
    }

    /** `run` is what has happened since the table was empty. */
    ghost predicate Recorded()
      reads this`state, this`run
    {
      P.Feasible(manager.bits, P.Start, run) && P.Exec(manager.bits, P.Start, run) == state
    }

    constructor (requested: nat)
      requires requested <= 0x8000_0000_0000_0000
      ensures Valid() && fresh(manager) && fresh(manager.shards) && fresh(graph) && state == P.Start && run == []
    {
      var m := new LockManager.WithShards(requested);
      manager := m;
      graph := new WaitForGraph();
      sweeps, registry := map[], Idle;
      state, run := P.Start, [];
    }

    /** The method took step `a` and nothing else. */
    twostate predicate Did(a: P.Action)
      reads this
    {
      P.Enabled(old(state), a) && state == P.Step(manager.bits, old(state), a) && run == old(run) + [a]
    }

    /** The recorded run grows by `a`. */
    ghost method Record(a: P.Action)
      requires Recorded() && P.Enabled(state, a)
      modifies this`state, this`run
      ensures Recorded() && Did(a)
    {
      P.ExecAppend(manager.bits, P.Start, run, [a]);
      run := run + [a];
      state := P.Step(manager.bits, state, a);
    }

    /** No lock conflicts with another, so that the grant rule means what it should. */
    lemma TableIsSafe()
      requires Valid()
      ensures Safe(manager.held) && RangesSafe(manager.spans)
    {
      manager.NeverConflicting();
    }

    /** Neither the registry nor any call under way is touched. */
    twostate predicate CallsStay()
      reads this, manager
    {
      manager.waits == old(manager.waits) && sweeps == old(sweeps) && registry == old(registry) && graph == old(graph)
    }

    method TryAcquire(txn: TxnId, res: ResourceId, mode: LockMode) returns (outcome: Outcome)
      requires Valid()
      modifies this, manager, manager.shards
      ensures Valid() && Did(P.TryAcquire(txn, res, mode)) && CallsStay() && manager.spans == old(manager.spans)
      ensures outcome.Err? <==> Blocked(old(manager.held), txn, res, mode)
      ensures outcome.Err? ==> manager.held == old(manager.held)
      ensures outcome.Ok? ==> LeastGrant(old(manager.held), manager.held, txn, res, mode)
    {
      hide CanGrant, LeastGrant, Blocked, Recorded, LockManager.Valid;
      TableIsSafe();
      GrantMeans(manager.held, txn, res, mode);
      outcome := manager.TryAcquire(txn, res, mode);
      Record(P.TryAcquire(txn, res, mode));
    }

    method Release(txn: TxnId, res: ResourceId) returns (outcome: Outcome)
      requires Valid()
      modifies this, manager, manager.shards
      ensures Valid() && Did(P.Release(txn, res)) && CallsStay() && manager.spans == old(manager.spans)
      ensures outcome.Ok? <==> (txn, res) in old(manager.held)
      ensures LockGone(old(manager.held), manager.held, txn, res)
    {
      hide Recorded, LockManager.Valid;
      DropMeans(manager.held, txn, res);
      outcome := manager.Release(txn, res);
      Record(P.Release(txn, res));
    }

    method TryAcquireRange(txn: TxnId, space: ResourceId, range: KeyRange, mode: LockMode) returns (outcome: Outcome)
      requires Valid()
      modifies this, manager, manager.shards
      ensures Valid() && Did(P.TryAcquireRange(txn, Span(space, range, mode))) && CallsStay()
      ensures manager.held == old(manager.held)
      ensures outcome.Ok? <==> CanGrantSpan(old(manager.spans), txn, Span(space, range, mode))
      ensures forall u: TxnId | u != txn :: SpansOf(manager.spans, u) == SpansOf(old(manager.spans), u)
      ensures SpansOf(manager.spans, txn) ==
              SpansOf(old(manager.spans), txn) + if outcome.Ok? then multiset{Span(space, range, mode)} else multiset{}
    {
      hide CanGrantSpan, AddSpan, SpansOf, Recorded, LockManager.Valid;
      ghost var before := manager.spans;
      outcome := manager.TryAcquireRange(txn, space, range, mode);
      Record(P.TryAcquireRange(txn, Span(space, range, mode)));
      forall u: TxnId { SpansAfter(before, txn, Span(space, range, mode), u); }
    }

    /** Which mode goes, when the range is held in several, is up to the vector order. */
    method ReleaseRange(txn: TxnId, space: ResourceId, range: KeyRange) returns (outcome: Outcome, ghost mode: LockMode)
      requires Valid()
      modifies this, manager, manager.shards
      ensures Valid() && Did(P.ReleaseRange(txn, Span(space, range, mode))) && CallsStay()
      ensures manager.held == old(manager.held)
      ensures outcome.Ok? <==> exists m :: Span(space, range, m) in SpansOf(old(manager.spans), txn)
      ensures outcome.Ok? ==> Span(space, range, mode) in SpansOf(old(manager.spans), txn)
      ensures forall u: TxnId | u != txn :: SpansOf(manager.spans, u) == SpansOf(old(manager.spans), u)
      ensures SpansOf(manager.spans, txn) ==
              SpansOf(old(manager.spans), txn) - if outcome.Ok? then multiset{Span(space, range, mode)} else multiset{}
    {
      hide RemoveSpan, SpansOf, Recorded, LockManager.Valid;
      ghost var before := manager.spans;
      outcome, mode := manager.ReleaseRange(txn, space, range);
      assert outcome.Err? ==> Span(space, range, mode) !in SpansOf(state.spans, txn);
      Record(P.ReleaseRange(txn, Span(space, range, mode)));
      forall u: TxnId { SpansAfter(before, txn, Span(space, range, mode), u); }
    }

    /** `release_all` clears the wait under the registry mutex ... */
    method BeginReleaseAll(thread: nat, txn: TxnId)
      requires Valid() && registry.Idle? && thread !in sweeps
      modifies this, manager
      ensures Valid() && Did(P.BeginReleaseAll(thread, txn)) && registry == old(registry) && graph == old(graph)
      ensures manager.held == old(manager.held) && manager.spans == old(manager.spans)
      ensures manager.waits == old(manager.waits) - {txn} && sweeps == old(sweeps)[thread := P.Sweep(txn, 0)]
    {
      manager.CancelWait(txn);
      sweeps := sweeps[thread := P.Sweep(txn, 0)];
      Record(P.BeginReleaseAll(thread, txn));
    }

    /** ... and then visits the shards, each under its own mutex. */
    method SweepNext(thread: nat) returns (released: nat)
      requires Valid() && thread in sweeps
      modifies this, manager, manager.shards
      ensures Valid() && Did(P.SweepNext(thread))
      ensures manager.waits == old(manager.waits) && registry == old(registry) && graph == old(graph)
      ensures var txn, next := old(sweeps)[thread].txn, old(sweeps)[thread].next;
              SweptIn(manager.bits, old(manager.held), manager.held, txn, next) &&
              SpansSweptIn(manager.bits, old(manager.spans), manager.spans, txn, next) &&
              released == |LocksOf(old(manager.held), txn)| + |SpansOf(old(manager.spans), txn)| -
                          |LocksOf(manager.held, txn)| - |SpansOf(manager.spans, txn)| &&
              sweeps == if next + 1 < |manager.shards| then old(sweeps)[thread := P.Sweep(txn, next + 1)]
                        else old(sweeps) - {thread}
    {
      hide Recorded, LockManager.Valid, JobShown, DropIn, DropSpansIn, LocksOf, SpansOf, P.Step, P.Enabled;
      hide SweptIn, SpansSweptIn;
      SweepInRange(thread);
      SweepIsStep(manager.bits, state, thread);
      var txn, next := sweeps[thread].txn, sweeps[thread].next;
      DropInMeans(manager.bits, manager.held, manager.spans, txn, next);
      released := manager.SweepShard(txn, next);
      sweeps := if next + 1 < |manager.shards| then sweeps[thread := P.Sweep(txn, next + 1)] else sweeps - {thread};
      Record(P.SweepNext(thread));
    }

    lemma SweepInRange(thread: nat)
      requires Valid() && thread in sweeps
      ensures sweeps[thread].next < Pow2(manager.bits) == |manager.shards|
    {
      P.RunKeepsShape(manager.bits, P.Start, run);
    }

    method CancelWait(txn: TxnId)
      requires Valid() && registry.Idle?
      modifies this, manager
      ensures Valid() && Did(P.CancelWait(txn))
      ensures registry == old(registry) && sweeps == old(sweeps) && graph == old(graph)
      ensures manager.held == old(manager.held) && manager.spans == old(manager.spans)
      ensures manager.waits == old(manager.waits) - {txn}
    {
      manager.CancelWait(txn);
      Record(P.CancelWait(txn));
    }

    /** `request` takes the registry mutex ... */
    method BeginRequest(txn: TxnId, req: Request)
      requires Valid() && registry.Idle?
      modifies this
      ensures Valid() && Did(P.BeginRequest(txn, req))
      ensures registry == Trying(txn, req) && sweeps == old(sweeps) && graph == old(graph)
    {
      registry := Trying(txn, req);
      Record(P.BeginRequest(txn, req));
    }

    /** ... tries the grant under the shard mutex, and registers the wait if it is refused. What is
        decided is what was asked: if somebody else is in the way the caller now waits for just
        that, and a build from it begins; otherwise it holds the least mode that will do ... */
    method Attempt() returns (granted: bool)
      requires Valid() && registry.Trying?
      modifies this, manager, manager.shards
      ensures Valid() && Did(P.Attempt) && manager.spans == old(manager.spans) && sweeps == old(sweeps)
      ensures var Trying(txn, req) := old(registry);
              (!granted <==> Blocked(old(manager.held), txn, req.res, req.mode)) &&
              (granted ==>
                 LeastGrant(old(manager.held), manager.held, txn, req.res, req.mode) &&
                 manager.waits == old(manager.waits) - {txn} && registry == Idle && graph == old(graph)) &&
              (!granted ==>
                 manager.held == old(manager.held) && manager.waits == old(manager.waits)[txn := req] &&
                 registry == Reading(Some(txn), manager.waits.Keys) && fresh(graph) && graph.edges == map[])
    {
      hide CanGrant, LeastGrant, Blocked, Recorded, Grant, LockManager.Valid;
      var Trying(txn, req) := registry;
      TableIsSafe();
      GrantMeans(manager.held, txn, req.res, req.mode);
      var outcome := manager.TryAcquire(txn, req.res, req.mode);
      granted := outcome.Ok?;
      if granted {
        manager.CancelWait(txn);
        registry := Idle;
      } else {
        manager.RegisterWait(txn, req);
        registry := Reading(Some(txn), manager.waits.Keys);
        graph := new WaitForGraph();
      }
      Record(P.Attempt);
    }

    /** `find_deadlock` starts from everywhere. */
    method BeginScan()
      requires Valid() && registry.Idle?
      modifies this
      ensures Valid() && Did(P.BeginScan)
      ensures registry == Reading(None, manager.waits.Keys) && sweeps == old(sweeps)
      ensures fresh(graph) && graph.edges == map[]
    {
      registry := Reading(None, manager.waits.Keys);
      graph := new WaitForGraph();
      Record(P.BeginScan);
    }

    /** A waiter still to be read has no edges yet, and the step gives it the true ones. */
    lemma NotYetRead(waiter: TxnId)
      requires Valid() && registry.Reading? && waiter in registry.todo
      ensures waiter in manager.waits && Succ(AsGraph(graph.edges), waiter) == {}
      ensures P.Enabled(state, P.ReadBlockers(waiter)) && SameGraph(AsGraph(graph.edges), state.job.graph)
      ensures P.Step(manager.bits, state, P.ReadBlockers(waiter)) ==
              state.(job := P.Building(state.job.who, state.job.todo - {waiter},
                                       state.job.graph[waiter := Succ(WaitFor(manager.held, manager.waits), waiter)]))
    {
      P.RunKeepsShape(manager.bits, P.Start, run);
      hide Recorded, LockManager.Valid;
      V.TrueEdges(state);
      ReadIsStep(manager.bits, state, waiter);
    }

    /** ... reads the blockers of one waiter after another, each under the mutex of its shard ... */
    method ReadBlockers(waiter: TxnId)
      requires Valid() && registry.Reading? && waiter in registry.todo
      modifies this, graph
      ensures Valid() && Did(P.ReadBlockers(waiter)) && graph == old(graph) && sweeps == old(sweeps)
      ensures registry == old(registry).(todo := old(registry).todo - {waiter})
      ensures EdgesRead(AsGraph(old(graph.edges)), AsGraph(graph.edges), WaitFor(manager.held, manager.waits), waiter)
    {
      hide Recorded, LockManager.Valid, Blockers, Succ, SameGraph, AsGraph, WaitFor, EdgesRead, P.Step, P.Enabled;
      NotYetRead(waiter);
      ghost var before := AsGraph(graph.edges);
      AddBlockers(waiter);
      GraphGains(before, AsGraph(graph.edges), state.job.graph, WaitFor(manager.held, manager.waits), waiter);
      registry := registry.(todo := registry.todo - {waiter});
      Record(P.ReadBlockers(waiter));
    }

    method AddBlockers(waiter: TxnId)
      requires manager.Valid() && waiter in manager.waits && Succ(AsGraph(graph.edges), waiter) == {}
      modifies graph
      ensures EdgesRead(AsGraph(old(graph.edges)), AsGraph(graph.edges), WaitFor(manager.held, manager.waits), waiter)
    {
      hide LockManager.Valid, Blockers, AsGraph, Others;
      var Request(res, mode) := manager.waits[waiter];
      var blockers := manager.HoldersBlocking(waiter, res, mode);
      NeverSelf(manager.held, waiter, res, mode, blockers);
      graph.AddWaits(waiter, blockers);
    }

    /** When the graph read is right for this instant, it decides this instant. */
    lemma Answer()
      requires Valid() && registry.Reading? && registry.todo == {} && P.GraphOk(state)
      ensures match registry.who
              case Some(txn) =>
                CycleReachable(AsGraph(graph.edges), txn) <==> CycleReachable(WaitFor(manager.held, manager.waits), txn)
              case None => Acyclic(AsGraph(graph.edges)) <==> Acyclic(WaitFor(manager.held, manager.waits))
      ensures forall c :: IsCycle(AsGraph(graph.edges), c) <==> IsCycle(WaitFor(manager.held, manager.waits), c)
    {
      hide WaitFor;
      SameCycles(AsGraph(graph.edges), state.job.graph);
      V.GraphIsExact(state);
    }

    /** It is right after every run that keeps waiters suspended, and by
        `Verdicts.VerdictHoldsThroughout` after every run that has changed no edge between waiters
        since the build began. */
    lemma SuspensionIsEnough()
      requires Valid() && P.SuspendedRun(manager.bits, P.Start, run)
      ensures P.GraphOk(state)
    {
      P.RunKeepsWaitInv(manager.bits, P.Start, run);
    }

    method Search() returns (found: Option<Deadlock>)
      requires registry.Reading?
      ensures found.Some? <==> match registry.who
                               case Some(txn) => CycleReachable(AsGraph(graph.edges), txn)
                               case None => !Acyclic(AsGraph(graph.edges))
      ensures found.Some? ==> Genuine(found.value, AsGraph(graph.edges))
    {
      hide CycleReachable, Acyclic;
      var cycle: Option<seq<TxnId>>;
      match registry.who {
        case Some(txn) =>
          ghost var steps;
          cycle, steps := graph.CycleFrom(txn);
        case None =>
          cycle := graph.DetectCycle();
      }
      if cycle.None? {
        return None;
      }
      var victim := PickVictim(cycle.value, Youngest);
      found := if victim.Some? then Some(Deadlock(victim.value, cycle.value)) else None;
    }

    /** ... and searches the graph. Whatever other threads did between the sections, if the graph is
        right the answer is a deadlock exactly when there is one at this instant, and the cycle is
        one of this instant. */
    method Conclude() returns (found: Option<Deadlock>)
      requires Valid() && registry.Reading? && registry.todo == {}
      modifies this
      ensures Valid() && Did(P.Conclude) && registry == Idle && graph == old(graph) && sweeps == old(sweeps)
      ensures P.GraphOk(old(state)) || P.SuspendedRun(manager.bits, P.Start, old(run)) ==>
                (found.Some? ==> Genuine(found.value, WaitFor(manager.held, manager.waits))) &&
                match old(registry).who
                case Some(txn) => found.Some? <==> CycleReachable(WaitFor(manager.held, manager.waits), txn)
                case None => found.Some? <==> !Acyclic(WaitFor(manager.held, manager.waits))
    {
      hide CycleReachable, Acyclic, WaitFor, P.GraphOk, P.SuspendedRun, Recorded;
      if P.SuspendedRun(manager.bits, P.Start, run) { SuspensionIsEnough(); }
      if P.GraphOk(state) { Answer(); }
      found := Search();
      registry := Idle;
      Record(P.Conclude);
    }
  }

  lemma SweepIsStep(bits: Bits, s: P.State, th: nat)
    requires th in s.sweeps
    ensures var a := P.SweepNext(th); P.Enabled(s, a) && P.Step(bits, s, a) == P.SweepOne(bits, s, th)
  {
  }

  lemma ReadIsStep(bits: Bits, s: P.State, w: TxnId)
    requires P.Enabled(s, P.ReadBlockers(w))
    ensures s.job.Building? && w in s.job.todo
    ensures P.Step(bits, s, P.ReadBlockers(w)) ==
            s.(job := P.Building(s.job.who, s.job.todo - {w}, s.job.graph[w := P.ReadEdges(s, w)]))
  {
  }

  /** The edges out of `w` have been read off `truth`, and no other has changed. */
  ghost predicate EdgesRead(before: Graph, after: Graph, truth: Graph, w: TxnId) {
    forall v :: Succ(after, v) == if v == w then Succ(truth, w) else Succ(before, v)
  }

  lemma GraphGains(before: Graph, after: Graph, shown: Graph, truth: Graph, w: TxnId)
    requires SameGraph(before, shown) && EdgesRead(before, after, truth, w)
    ensures SameGraph(after, shown[w := Succ(truth, w)])
  {
  }
}
