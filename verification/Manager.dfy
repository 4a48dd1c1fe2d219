/** The sharded lock manager: routes each call to the shard that owns the resource, keeps the wait
    registry, and detects deadlocks on a graph rebuilt from the table. Every method is specified
    on the flat table, so nothing a caller sees depends on the number of shards. */
module Manager {
  import opened Ids
  import opened Collections
  import opened Modes
  import opened Ranges
  import opened Routing
  import opened Digraph
  import opened WaitGraphs
  import opened FlatTable
  import opened Merging
  import opened Shards

  datatype Deadlock = Deadlock(victim: TxnId, cycle: seq<TxnId>)

  datatype Acquisition = Granted | Waiting | Deadlocked(deadlock: Deadlock)

  /** A reported cycle is a simple cycle of real wait edges, and its victim the youngest member. */
  ghost predicate Genuine(d: Deadlock, g: Graph) {
    IsCycle(g, d.cycle) && NoDup(d.cycle) && d.victim in d.cycle && forall t | t in d.cycle :: t <= d.victim
  }

  class LockManager {
    const bits: Bits
    const shards: seq<Shard>
    var waits: Waits
    ghost var held: Held
    ghost var spans: Spans
    ghost var heldParts: seq<Held>
    ghost var spanParts: seq<Spans>

    ghost predicate ShardsOk()
      reads this`heldParts, this`spanParts, shards
    {
      |shards| == |heldParts| == |spanParts| == Pow2(bits) &&
      (forall i, j | 0 <= i < j < |shards| :: shards[i] != shards[j]) &&
      (forall i | 0 <= i < |shards| ::
        shards[i].Valid() && shards[i].held == heldParts[i] && shards[i].spans == spanParts[i])
    }

    /** The flat view is the disjoint union of the shards' views. */
    ghost predicate Valid()
      reads this`held, this`spans, this`heldParts, this`spanParts, shards
    {
      ShardsOk() && Merges(bits, heldParts, held) && SpansMerge(bits, spanParts, spans)
    }

    /** The shard a resource or key space is routed to. */
    ghost function Owner(res: ResourceId): Shard
      requires |shards| == Pow2(bits)
    {
      ShardInBounds(bits, res);
      shards[ShardIndex(bits, res)]
    }

    /** No conflicting locks are held, whatever the routing. */
    lemma NeverConflicting()
      requires Valid()
      ensures Safe(held) && RangesSafe(spans)
    {
      forall i | 0 <= i < |shards| ensures Safe(heldParts[i]) && RangesSafe(spanParts[i]) {
        assert shards[i].Valid();
      }
      MergedSafe(bits, heldParts, held);
      MergedRangesSafe(bits, spanParts, spans);
    }

    /** The shard count is the least power of two covering the request; the table starts empty. */
    constructor WithShards(requested: nat)
      requires requested <= 0x8000_0000_0000_0000
      ensures Valid() && fresh(shards)
      ensures |shards| == Pow2(bits) && Pow2(bits) >= requested && (bits > 0 ==> Pow2(bits - 1) < requested)
      ensures held == map[] && spans == map[] && waits == map[]
    {
      hide PointsValid, SpansValid, Merges, SpansMerge, ShardIndex;
      RoundingFits(requested);
      var n := ShardBits(requested);
      var made: seq<Shard> := [];
      for i := 0 to Pow2(n)
        invariant |made| == i
        invariant forall j | 0 <= j < i ::
          fresh(made[j]) && allocated(made[j]) && made[j].Valid() && made[j].held == map[] && made[j].spans == map[]
        invariant forall j, k | 0 <= j < k < i :: made[j] != made[k]
      {
        var shard := new Shard();
        made := made + [shard];
      }
      bits := n;
      shards := made;
      waits := map[];
      held := map[];
      spans := map[];
      heldParts := seq(Pow2(n), _ => map[]);
      spanParts := seq(Pow2(n), _ => map[]);
      new;
      EmptyMerge(bits, heldParts, spanParts);
    }

    /** What a method needs to know about the shard it routes to. */
    lemma ShardAt(i: nat)
      requires ShardsOk() && i < Pow2(bits)
      ensures |shards| == |heldParts| == |spanParts| == Pow2(bits)
      ensures shards[i].Valid() && shards[i].held == heldParts[i] && shards[i].spans == spanParts[i]
      ensures forall j | 0 <= j < |shards| && j != i :: shards[j] != shards[i]
    {
    }

    /** One shard changed and the others did not. */
    twostate lemma ShardUpdated(i: nat)
      requires old(ShardsOk()) && i < |shards| && shards[i].Valid()
      requires forall j | 0 <= j < |shards| && j != i :: unchanged(shards[j])
      requires heldParts == old(heldParts)[i := shards[i].held] && spanParts == old(spanParts)[i := shards[i].spans]
      ensures ShardsOk()
    {
    }

    /** What is not touched stays valid. */
    twostate lemma Untouched()
      requires old(Valid()) && unchanged(this) && forall i | 0 <= i < |shards| :: unchanged(shards[i])
      ensures Valid()
    {
      hide Merges, SpansMerge;
    }

    // ---- point locks -------------------------------------------------------------------

    method TryAcquire(txn: TxnId, res: ResourceId, mode: LockMode) returns (outcome: Outcome)
      requires Valid()
      modifies this`held, this`heldParts, shards`locks, shards`byTxn, shards`held
      ensures Valid()
      ensures outcome == if CanGrant(old(held), txn, res, mode) then Ok else Err(Conflict)
      ensures held == TryGrant(old(held), txn, res, mode) && spans == old(spans)
      ensures forall j | 0 <= j < |shards| && j != ShardIndex(bits, res) :: unchanged(shards[j])
    {
      hide ShardsOk, PointsValid, SpansValid, Merges, SpansMerge, CanGrant, ShardIndex;
      var i := ShardIndex(bits, res);
      ShardInBounds(bits, res);
      ShardAt(i);
      PartDecides(bits, heldParts, held, txn, res, mode);
      MergeGrant(bits, heldParts, held, txn, res, mode);
      var granted := shards[i].TryGrantLocked(txn, res, mode);
      held := TryGrant(held, txn, res, mode);
      heldParts := heldParts[i := shards[i].held];
      ShardUpdated(i);
      outcome := if granted then Ok else Err(Conflict);
    }

    method Release(txn: TxnId, res: ResourceId) returns (outcome: Outcome)
      requires Valid()
      modifies this`held, this`heldParts, shards`locks, shards`byTxn, shards`held
      ensures Valid()
      ensures outcome == if (txn, res) in old(held) then Ok else Err(NotHeld)
      ensures held == DropLock(old(held), txn, res) && spans == old(spans)
      ensures forall j | 0 <= j < |shards| && j != ShardIndex(bits, res) :: unchanged(shards[j])
    {
      hide ShardsOk, PointsValid, SpansValid, Merges, SpansMerge, ShardIndex, DropLock;
      var i := ShardIndex(bits, res);
      ShardInBounds(bits, res);
      ShardAt(i);
      MergeDropLock(bits, heldParts, held, txn, res);
      outcome := shards[i].Release(txn, res);
      held := DropLock(held, txn, res);
      heldParts := heldParts[i := shards[i].held];
      ShardUpdated(i);
    }

    /** Drops exactly the transaction's locks, spans and wait, and returns how many locks and
        spans that was. */
    method ReleaseAll(txn: TxnId) returns (released: nat)
      requires Valid()
      modifies this`waits, this`held, this`spans, this`heldParts, this`spanParts, shards
      ensures Valid()
      ensures held == DropTxn(old(held), txn) && spans == DropSpans(old(spans), txn)
      ensures waits == old(waits) - {txn}
      ensures released == |LocksOf(old(held), txn)| + |SpansOf(old(spans), txn)|
    {
      hide ShardsOk, PointsValid, SpansValid, Merges, SpansMerge, ShardIndex;
      hide DropIn, DropBelow, DropTxn, LocksOf, DropSpans, DropSpansIn, SweptBelow;
      waits := waits - {txn};
      released := 0;
      DropBelowNext(bits, held, txn, 0);
      NothingSwept(bits, spans, txn);
      for i := 0 to Pow2(bits)
        invariant Valid()
        invariant held == DropBelow(bits, old(held), txn, i) && waits == old(waits) - {txn}
        invariant SweptBelow(bits, old(spans), spans, txn, i)
        invariant released + |LocksOf(held, txn)| + |SpansOf(spans, txn)| ==
                  |LocksOf(old(held), txn)| + |SpansOf(old(spans), txn)|
      {
        ghost var before := spans;
        var n := SweepShard(txn, i);
        released := released + n;
        DropBelowNext(bits, old(held), txn, i);
        SweptNext(bits, old(spans), before, txn, i);
      }
      DropBelowAll(bits, old(held), txn);
      SweptAll(bits, old(spans), spans, txn);
      NoLocksLeft(old(held), old(spans), txn);
      MergeFrame(bits, spanParts, spans, DropSpans(old(spans), txn));
      spans := DropSpans(old(spans), txn);
    }

    /** One iteration of the bulk release: the critical section on shard `i`. */
    method SweepShard(txn: TxnId, i: nat) returns (n: nat)
      requires Valid() && i < Pow2(bits)
      modifies this`held, this`spans, this`heldParts, this`spanParts, shards
      ensures Valid()
      ensures held == DropIn(bits, old(held), txn, i) && spans == DropSpansIn(bits, old(spans), txn, i)
      ensures |LocksOf(old(held), txn)| + |SpansOf(old(spans), txn)| == n + |LocksOf(held, txn)| + |SpansOf(spans, txn)|
      ensures forall j | 0 <= j < |shards| && j != i :: unchanged(shards[j])
    {
      hide ShardsOk, PointsValid, SpansValid, Merges, SpansMerge, ShardIndex;
      hide DropIn, DropTxn, LocksOf, DropSpans, DropSpansIn, SpansOf;
      ShardAt(i);
      MergeDropIn(bits, heldParts, held, txn, i);
      CountDropIn(bits, heldParts, held, txn, i);
      MergeDropSpans(bits, spanParts, spans, txn, i);
      var points := shards[i].ReleaseAllPoints(txn);
      var ranges := shards[i].ReleaseAllRanges(txn);
      n := points + ranges;
      held := DropIn(bits, held, txn, i);
      spans := DropSpansIn(bits, spans, txn, i);
      heldParts := heldParts[i := shards[i].held];
      spanParts := spanParts[i := shards[i].spans];
      ShardUpdated(i);
    }

    // ---- range locks -------------------------------------------------------------------

    method TryAcquireRange(txn: TxnId, space: ResourceId, range: KeyRange, mode: LockMode) returns (outcome: Outcome)
      requires Valid()
      modifies this`spans, this`spanParts, shards`ranges, shards`rangeByTxn, shards`spans
      ensures Valid()
      ensures outcome == if CanGrantSpan(old(spans), txn, Span(space, range, mode)) then Ok else Err(Conflict)
      ensures spans == if outcome.Ok? then AddSpan(old(spans), txn, Span(space, range, mode)) else old(spans)
      ensures held == old(held)
      ensures forall j | 0 <= j < |shards| && j != ShardIndex(bits, space) :: unchanged(shards[j])
    {
      hide ShardsOk, PointsValid, SpansValid, Merges, SpansMerge, ShardIndex;
      hide CanGrantSpan, AddSpan, RemoveSpan, SpansOf;
      var x := Span(space, range, mode);
      var i := ShardIndex(bits, space);
      ShardInBounds(bits, space);
      ShardAt(i);
      PartDecidesSpan(bits, spanParts, spans, txn, x);
      outcome := shards[i].TryAcquireRange(txn, space, range, mode);
      if outcome.Ok? {
        MergeSpan(bits, spanParts, spans, txn, x);
        spans := AddSpan(spans, txn, x);
      }
      assert outcome.Err? ==> spanParts[i := shards[i].spans] == spanParts;
      spanParts := spanParts[i := shards[i].spans];
      ShardUpdated(i);
    }

    method ReleaseRange(txn: TxnId, space: ResourceId, range: KeyRange) returns (outcome: Outcome, ghost mode: LockMode)
      requires Valid()
      modifies this`spans, this`spanParts, shards`ranges, shards`rangeByTxn, shards`spans
      ensures Valid()
      ensures outcome.Ok? <==> exists m :: Span(space, range, m) in SpansOf(old(spans), txn)
      ensures outcome.Ok? ==>
                FirstMode(old(Owner(space).ranges), space, txn, range) == Some(mode)
      ensures outcome.Err? ==> outcome.error == NotHeld && spans == old(spans)
      ensures outcome.Ok? ==> Span(space, range, mode) in SpansOf(old(spans), txn) &&
                              spans == RemoveSpan(old(spans), txn, Span(space, range, mode))
      ensures held == old(held)
      ensures forall j | 0 <= j < |shards| && j != ShardIndex(bits, space) :: unchanged(shards[j])
    {
      hide ShardsOk, PointsValid, SpansValid, Merges, SpansMerge, ShardIndex, RemoveSpan, CountAt, SpansOf;
      var i := ShardIndex(bits, space);
      ShardInBounds(bits, space);
      ShardAt(i);
      PartDecidesSpan(bits, spanParts, spans, txn, Span(space, range, IS));
      CountMeansHeld(SpansOf(spanParts[i], txn), SpansOf(spans, txn), space, range);
      outcome, mode := shards[i].ReleaseRange(txn, space, range);
      if outcome.Ok? {
        MergeSpan(bits, spanParts, spans, txn, Span(space, range, mode));
        spans := RemoveSpan(spans, txn, Span(space, range, mode));
      }
      assert outcome.Err? ==> spanParts[i := shards[i].spans] == spanParts;
      spanParts := spanParts[i := shards[i].spans];
      ShardUpdated(i);
    }

    // ---- the deadlock-aware path -------------------------------------------------------

    /** Reads the holders of every waited resource: the graph is the true wait-for relation. */
    method BuildWaitGraph() returns (graph: WaitForGraph)
      requires Valid()
      ensures fresh(graph) && SameGraph(AsGraph(graph.edges), WaitFor(held, waits))
    {
      hide ShardsOk, PointsValid, SpansValid, Merges, SpansMerge, Blockers;
      graph := new WaitForGraph();
      var todo := waits.Keys;
      while todo != {}
        invariant fresh(graph) && todo <= waits.Keys
        invariant forall v ::
          Succ(AsGraph(graph.edges), v) ==
          if v in waits && v !in todo then Succ(WaitFor(held, waits), v) else {}
        decreases todo
      {
        var waiter :| waiter in todo;
        var Request(res, mode) := waits[waiter];
        var blockers := HoldersBlocking(waiter, res, mode);
        NeverSelf(held, waiter, res, mode, blockers);
        graph.AddWaits(waiter, blockers);
        assert {} + Blockers(held, waiter, res, mode) == Succ(WaitFor(held, waits), waiter);
        todo := todo - {waiter};
      }
    }

    method HoldersBlocking(waiter: TxnId, res: ResourceId, mode: LockMode) returns (blockers: seq<TxnId>)
      requires Valid()
      ensures (set b | b in blockers) == Blockers(held, waiter, res, mode)
    {
      hide ShardsOk, PointsValid, SpansValid, Merges, SpansMerge, ShardIndex, Blockers, CanGrant;
      var i := ShardIndex(bits, res);
      PartDecides(bits, heldParts, held, waiter, res, mode);
      ShardInBounds(bits, res);
      ShardAt(i);
      blockers := shards[i].HoldersBlocking(waiter, res, mode);
    }

    /** A transaction waits for one request at a time; a new one replaces the old. */
    method RegisterWait(txn: TxnId, req: FlatTable.Request)
      requires Valid()
      modifies this`waits
      ensures Valid() && waits == old(waits)[txn := req] && held == old(held) && spans == old(spans)
    {
      waits := waits[txn := req];
    }

    /** Grants when the flat rule allows and clears the wait; otherwise registers the wait and
        reports a deadlock exactly when a cycle of the true wait-for relation can be reached from
        the requester. */
    method Request(txn: TxnId, res: ResourceId, mode: LockMode) returns (result: Acquisition)
      requires Valid()
      modifies this`waits, this`held, this`heldParts, shards`locks, shards`byTxn, shards`held
      ensures Valid()
      ensures result.Granted? <==> CanGrant(old(held), txn, res, mode)
      ensures held == TryGrant(old(held), txn, res, mode) && spans == old(spans)
      ensures waits == if result.Granted? then old(waits) - {txn} else old(waits)[txn := FlatTable.Request(res, mode)]
      ensures !result.Granted? ==> (result.Deadlocked? <==> CycleReachable(WaitFor(held, waits), txn))
      ensures result.Deadlocked? ==> Genuine(result.deadlock, WaitFor(held, waits))
    {
      hide ShardsOk, Merges, SpansMerge, CanGrant, WaitFor, CycleReachable;
      var outcome := TryAcquire(txn, res, mode);
      if outcome.Ok? {
        waits := waits - {txn};
        return Granted;
      }
      RegisterWait(txn, FlatTable.Request(res, mode));
      var graph := BuildWaitGraph();
      SameCycles(AsGraph(graph.edges), WaitFor(held, waits));
      ghost var steps;
      var found: Option<seq<TxnId>>;
      found, steps := graph.CycleFrom(txn);
      match found {
        case Some(cycle) =>
          var victim := PickVictim(cycle, Youngest);
          result := Deadlocked(Deadlock(if victim.Some? then victim.value else txn, cycle));
        case None =>
          result := Waiting;
      }
    }

    /** Periodic detection: `None` exactly when the true wait-for relation has no cycle. */
    method FindDeadlock() returns (found: Option<Deadlock>)
      requires Valid()
      ensures found.None? <==> Acyclic(WaitFor(held, waits))
      ensures found.Some? ==> Genuine(found.value, WaitFor(held, waits))
    {
      hide Valid, WaitFor, Acyclic;
      var graph := BuildWaitGraph();
      SameCycles(AsGraph(graph.edges), WaitFor(held, waits));
      var cycle := graph.DetectCycle();
      if cycle.None? {
        return None;
      }
      var victim := PickVictim(cycle.value, Youngest);
      if victim.None? {
        return None;
      }
      found := Some(Deadlock(victim.value, cycle.value));
    }

    method CancelWait(txn: TxnId)
      requires Valid()
      modifies this`waits
      ensures Valid() && waits == old(waits) - {txn} && held == old(held) && spans == old(spans)
    {
      waits := waits - {txn};
    }

    method ModeHeld(txn: TxnId, res: ResourceId) returns (mode: Option<LockMode>)
      requires Valid()
      ensures mode == if (txn, res) in held then Some(held[(txn, res)]) else None
    {
      PartSeesResource(bits, heldParts, held, res);
      mode := shards[ShardIndex(bits, res)].ModeHeld(txn, res);
    }

    method HolderCount(res: ResourceId) returns (n: nat)
      requires Valid()
      ensures n == |set k | k in held && k.1 == res|
    {
      hide ShardIndex;
      PartSeesResource(bits, heldParts, held, res);
      var i := ShardIndex(bits, res);
      ShardInBounds(bits, res);
      ShardAt(i);
      n := shards[i].HolderCount(res);
      forall k ensures k in HoldersOf(held, res) <==> k in HoldersOf(heldParts[i], res) {
        if k.1 == res { assert k == (k.0, res); }
      }
      assert HoldersOf(held, res) == HoldersOf(heldParts[i], res);
    }
  }

  lemma EmptyMerge(bits: Bits, parts: seq<Held>, spanParts: seq<Spans>)
    requires |parts| == |spanParts| == Pow2(bits)
    requires forall i | 0 <= i < |parts| :: parts[i] == map[] && spanParts[i] == map[]
    ensures Merges(bits, parts, map[]) && SpansMerge(bits, spanParts, map[])
  {
  }

  lemma NothingSwept(bits: Bits, spans: Spans, t: TxnId)
    ensures SweptBelow(bits, spans, spans, t, 0)
  {
  }

  lemma NoLocksLeft(held: Held, spans: Spans, t: TxnId)
    ensures |LocksOf(DropTxn(held, t), t)| == 0 && |SpansOf(DropSpans(spans, t), t)| == 0
  {
  }

  lemma CountMeansHeld(part: multiset<Span>, whole: multiset<Span>, s: ResourceId, g: KeyRange)
    requires forall x: Span | x.space == s :: part[x] == whole[x]
    ensures CountAt(part, s, g) > 0 <==> exists m :: Span(s, g, m) in whole
    ensures forall m :: Span(s, g, m) in part <==> Span(s, g, m) in whole
  {
    assert forall m :: Span(s, g, m) in part <==> Span(s, g, m) in whole;
    if m :| Span(s, g, m) in whole {
      match m
      case IS => case IX => case S => case SIX => case X =>
    }
  }

  lemma NeverSelf(held: Held, t: TxnId, r: ResourceId, m: LockMode, blockers: seq<TxnId>)
    requires (set b | b in blockers) == Blockers(held, t, r, m)
    ensures Others(blockers, t) == Blockers(held, t, r, m)
  {
  }

  /** Graphs with the same edges have the same cycles, reached from the same vertices. */
  lemma SameCycles(g: Graph, h: Graph)
    requires SameGraph(g, h)
    ensures forall c :: IsCycle(g, c) <==> IsCycle(h, c)
    ensures forall a :: CycleReachable(g, a) <==> CycleReachable(h, a)
    ensures Acyclic(g) <==> Acyclic(h)
  {
    forall c ensures IsCycle(g, c) <==> IsCycle(h, c) {
      if IsCycle(g, c) { SubgraphCycle(g, h, c); }
      if IsCycle(h, c) { SubgraphCycle(h, g, c); }
    }
    forall a ensures CycleReachable(g, a) <==> CycleReachable(h, a) {
      if CycleReachable(g, a) { SameReach(g, h, a); }
      if CycleReachable(h, a) { SameReach(h, g, a); }
    }
  }

  lemma SameReach(g: Graph, h: Graph, a: TxnId)
    requires SameGraph(g, h) && CycleReachable(g, a)
    ensures CycleReachable(h, a)
  {
    var c :| IsCycle(g, c) && Reaches(g, a, c[0]);
    SubgraphCycle(g, h, c);
    var p :| Connects(g, p, a, c[0]);
    assert Connects(h, p, a, c[0]);
  }
}
