/** What the verdicts do not promise: reachable tables in which an undisciplined step of a registered
    waiter makes them wrong, and tables in which aborting one transaction is not enough. */
module Limits {
  import opened Ids
  import opened Collections
  import opened Modes
  import opened Routing
  import opened Digraph
  import opened FlatTable
  import opened Manager
  import opened Protocol
  import opened Verdicts
  import opened Draining
  import opened BulkRelease
  import opened Merging

  const T1: TxnId := 1
  const T2: TxnId := 2
  const T3: TxnId := 3
  const T4: TxnId := 4
  const A: ResourceId := 10
  const B: ResourceId := 20
  const C: ResourceId := 30
  const D: ResourceId := 40

  // ---- getting there -------------------------------------------------------------------

  /** A lock on a resource nobody else holds incompatibly. */
  lemma Take(bits: Bits, s: State, t: TxnId, r: ResourceId, m: LockMode)
    requires Reached(bits, s) && s.sweeps == map[] && t !in s.waits
    requires (t, r) !in s.held && OthersAllow(s.held, t, r, m)
    ensures Reached(bits, s.(held := s.held[(t, r) := m]))
  {
    hide Reached;
    ReachedNext(bits, s, TryAcquire(t, r, m));
  }

  /** A `request` that is refused because of `u`. */
  lemma Refuse(bits: Bits, s: State, t: TxnId, req: Request, u: TxnId)
    requires Reached(bits, s) && s.sweeps == map[] && s.job.Free?
    requires (t, req.res) !in s.held && u != t && (u, req.res) in s.held && !Compatible(s.held[(u, req.res)], req.mode)
    ensures var waits := s.waits[t := req];
            Reached(bits, s.(waits := waits, job := Building(Some(t), waits.Keys, map[])))
  {
    hide Reached;
    var a := BeginRequest(t, req);
    ReachedNext(bits, s, a);
    ReachedNext(bits, Step(bits, s, a), Attempt);
    assert !OthersAllow(s.held, t, req.res, req.mode);
  }

  lemma Read(bits: Bits, s: State, w: TxnId, edges: set<TxnId>)
    requires Reached(bits, s) && s.job.Building? && w in s.job.todo && ReadEdges(s, w) == edges
    ensures Reached(bits, s.(job := Building(s.job.who, s.job.todo - {w}, s.job.graph[w := edges])))
  {
    hide Reached;
    ReachedNext(bits, s, ReadBlockers(w));
  }

  /** A build runs to its end and its caller goes its way, whatever the verdict. */
  lemma {:induction false} BuildEnds(bits: Bits, s: State)
    requires Reached(bits, s) && s.job.Building?
    ensures Reached(bits, s.(job := Free))
    decreases |s.job.todo|
  {
    hide Reached;
    if s.job.todo == {} {
      ReachedNext(bits, s, Conclude);
    } else {
      var w: TxnId :| w in s.job.todo;
      Read(bits, s, w, ReadEdges(s, w));
      BuildEnds(bits, s.(job := Building(s.job.who, s.job.todo - {w}, s.job.graph[w := ReadEdges(s, w)])));
    }
  }

  lemma Wait(bits: Bits, s: State, t: TxnId, req: Request, u: TxnId)
    requires Reached(bits, s) && s.sweeps == map[] && s.job.Free?
    requires (t, req.res) !in s.held && u != t && (u, req.res) in s.held && !Compatible(s.held[(u, req.res)], req.mode)
    ensures Reached(bits, s.(waits := s.waits[t := req]))
  {
    hide Reached;
    Refuse(bits, s, t, req, u);
    var waits := s.waits[t := req];
    BuildEnds(bits, s.(waits := waits, job := Building(Some(t), waits.Keys, map[])));
    assert s.(waits := waits, job := Free) == s.(waits := waits);
  }

  lemma StartIsReached(bits: Bits)
    ensures Reached(bits, Start)
  {
    assert Legal(bits, Start, []) && Exec(bits, Start, []) == Start;
  }

  lemma ReachedInv(bits: Bits, s: State)
    requires Reached(bits, s)
    ensures Inv(bits, s)
  {
    var run :| Legal(bits, Start, run) && Exec(bits, Start, run) == s;
    RunKeepsInv(bits, Start, run);
  }

  // ---- a waiter that does not stay suspended -------------------------------------------

  /** T1 holds A and waits for B, T2 holds B and waits for A, and the graph is built. */
  function Crossed(): State {
    State(map[(T1, A) := X, (T2, B) := X], map[], map[T1 := Request(B, X), T2 := Request(A, X)], map[],
          Building(Some(T2), {}, map[T1 := {T2}, T2 := {T1}]))
  }

  lemma CrossedEdges(s: State)
    requires s.held == Crossed().held && s.waits == Crossed().waits
    ensures ReadEdges(s, T1) == {T2} && ReadEdges(s, T2) == {T1}
  {
  }

  lemma CrossedIsReached(bits: Bits)
    ensures Reached(bits, Crossed())
  {
    StartIsReached(bits);
    hide Reached, ReadEdges, OthersAllow;
    var s0 := Start;
    TakeFree(bits, s0, T1, A, X);
    var s1 := s0.(held := map[(T1, A) := X]);
    TakeFree(bits, s1, T2, B, X);
    var s2 := s1.(held := map[(T1, A) := X, (T2, B) := X]);
    Wait(bits, s2, T1, Request(B, X), T2);
    var s3 := s2.(waits := map[T1 := Request(B, X)]);
    Refuse(bits, s3, T2, Request(A, X), T1);
    var s4 := s3.(waits := Crossed().waits, job := Building(Some(T2), {T1, T2}, map[]));
    assert Crossed().waits.Keys == {T1, T2};
    assert Reached(bits, s4);
    CrossedEdges(s4);
    Read(bits, s4, T1, {T2});
    var s5 := s4.(job := Building(Some(T2), {T2}, map[T1 := {T2}]));
    assert {T1, T2} - {T1} == {T2};
    assert Reached(bits, s5);
    CrossedEdges(s5);
    Read(bits, s5, T2, {T1});
    assert {T2} - {T2} == {};
  }

  lemma TakeFree(bits: Bits, s: State, t: TxnId, r: ResourceId, m: LockMode)
    requires Reached(bits, s) && s.sweeps == map[] && t !in s.waits
    requires forall u: TxnId :: (u, r) !in s.held
    ensures Reached(bits, s.(held := s.held[(t, r) := m]))
  {
    hide Reached;
    Take(bits, s, t, r, m);
  }

  /** If a registered waiter releases a lock while the graph is being built, a deadlock is
      reported that is no longer there. */
  lemma WaiterReleaseFalsifiesVerdict(bits: Bits)
    ensures Reached(bits, Crossed()) && Inv(bits, Crossed())
    ensures Enabled(Crossed(), Release(T1, A)) && !Suspended(Crossed(), Release(T1, A))
    ensures var s := Step(bits, Crossed(), Release(T1, A)); Reports(s) && !TrulyDeadlocked(s)
  {
    CrossedIsReached(bits);
    ReachedInv(bits, Crossed());
    hide Reached, Inv, Reports, TrulyDeadlocked;
    CrossedIsReported(bits);
  }

  lemma CrossedIsReported(bits: Bits)
    ensures var s := Step(bits, Crossed(), Release(T1, A)); Reports(s) && !TrulyDeadlocked(s)
  {
    var s := Step(bits, Crossed(), Release(T1, A));
    var c := [T2, T1];
    assert c[1] in Succ(s.job.graph, c[0]) && c[0] in Succ(s.job.graph, c[1]);
    MemberReachesCycle(s.job.graph, c, T2);
    BlockersMeaning(s.held, T2, A, X);
    TrueEdges(s);
    LeafReachesNoCycle(TrueGraph(s), T2);
  }

  lemma LeafReachesNoCycle(g: Graph, t: TxnId)
    requires Succ(g, t) == {}
    ensures !CycleReachable(g, t)
  {
    assert Ordered(g, [t]);
    OrderedHasNoCycle(g, [t], t);
  }

  /** T1 waits for A held by T2; T2 waits for B, which T3 holds shared. */
  function Chained(): State {
    State(map[(T2, A) := X, (T3, B) := S], map[], map[T1 := Request(A, X), T2 := Request(B, X)], map[], Free)
  }

  lemma ChainedIsAcyclic()
    ensures Acyclic(TrueGraph(Chained()))
  {
    var s := Chained();
    BlockersMeaning(s.held, T1, A, X);
    BlockersMeaning(s.held, T2, B, X);
    TrueEdges(s);
    ChainHasNoCycle(TrueGraph(s), T1, T2, T3);
  }

  lemma ChainedIsReached(bits: Bits)
    ensures Reached(bits, Chained())
  {
    StartIsReached(bits);
    hide Reached, OthersAllow;
    TakeFree(bits, Start, T2, A, X);
    var s1 := Start.(held := map[(T2, A) := X]);
    TakeFree(bits, s1, T3, B, S);
    var s2 := s1.(held := map[(T2, A) := X, (T3, B) := S]);
    Wait(bits, s2, T1, Request(A, X), T2);
    var s3 := s2.(waits := map[T1 := Request(A, X)]);
    Wait(bits, s3, T2, Request(B, X), T3);
  }

  lemma ChainHasNoCycle(g: Graph, a: TxnId, b: TxnId, c: TxnId)
    requires a != b && b != c && c != a
    requires Succ(g, a) == {b} && Succ(g, b) == {c} && forall v | v != a && v != b :: Succ(g, v) == {}
    ensures Acyclic(g)
  {
    var order := [c, b, a];
    assert order[..0] == [] && order[..1] == [c] && order[..2] == [c, b];
    forall k ensures !IsCycle(g, k) {
      if IsCycle(g, k) {
        var next := MemberWaits(g, k, k[0]);
        MemberReachesCycle(g, k, k[0]);
        OrderedHasNoCycle(g, order, k[0]);
      }
    }
  }

  /** If a registered waiter takes a lock by `try_acquire`, it can close a cycle nobody examines. */
  lemma WaiterAcquireClosesUnseenCycle(bits: Bits)
    ensures Reached(bits, Chained()) && Inv(bits, Chained()) && Acyclic(TrueGraph(Chained()))
    ensures Enabled(Chained(), TryAcquire(T1, B, S)) && !Suspended(Chained(), TryAcquire(T1, B, S))
    ensures var s := Step(bits, Chained(), TryAcquire(T1, B, S)); s.job.Free? && !Acyclic(TrueGraph(s))
  {
    ChainedIsAcyclic();
    ChainedIsReached(bits);
    ReachedInv(bits, Chained());
    hide Inv, Acyclic, Reached;
    var before := Chained();
    var s := Step(bits, before, TryAcquire(T1, B, S));
    assert OthersAllow(before.held, T1, B, S);
    assert s.held == before.held[(T1, B) := S];
    ClosedCycle(s);
  }

  lemma ClosedCycle(s: State)
    requires s.held == map[(T2, A) := X, (T3, B) := S, (T1, B) := S] && s.waits == Chained().waits
    ensures !Acyclic(TrueGraph(s))
  {
    BlockersMeaning(s.held, T1, A, X);
    BlockersMeaning(s.held, T2, B, X);
    TrueEdges(s);
    var c := [T1, T2];
    assert c[1] in Succ(TrueGraph(s), c[0]) && c[0] in Succ(TrueGraph(s), c[1]);
    assert IsCycle(TrueGraph(s), c);
  }

  // ---- an acquisition that outlives a bulk release -------------------------------------

  /** Hashes to the first shard, however many there are. */
  const Z: ResourceId := 0

  /** T1 is being released, which takes at least two shards; the first is done. */
  function HalfSwept(): State {
    State(map[], map[T1 := multiset{}], map[], map[0 := Sweep(T1, 1)], Free)
  }

  lemma HalfSweptIsReached(bits: Bits)
    requires bits > 0
    ensures Reached(bits, HalfSwept())
  {
    StartIsReached(bits);
    hide Reached;
    var s := Step(bits, Start, BeginReleaseAll(0, T1));
    ReachedNext(bits, Start, BeginReleaseAll(0, T1));
    assert s == State(map[], map[], map[], map[0 := Sweep(T1, 0)], Free);
    ReachedNext(bits, s, SweepNext(0));
    assert Pow2(bits) == 2 * Pow2(bits - 1);
    assert DropIn(bits, s.held, T1, 0) == map[];
    assert DropSpansIn(bits, s.spans, T1, 0) == map[T1 := multiset{}];
    assert s.sweeps[0 := Sweep(T1, 1)] == map[0 := Sweep(T1, 1)];
    assert Step(bits, s, SweepNext(0)) == HalfSwept();
  }

  lemma {:induction false} RestOfSweep(bits: Bits, s: State, n: nat) returns (run: seq<Action>)
    requires 0 in s.sweeps && s.sweeps[0] == Sweep(T1, n) && 0 < n < Pow2(bits) && (T1, Z) in s.held
    ensures Feasible(bits, s, run) && OneCall(bits, s, run, 0) && (T1, Z) in Exec(bits, s, run).held
    decreases Pow2(bits) - n
  {
    assert ShardIndex(bits, Z) == 0;
    var s' := SweepOne(bits, s, 0);
    if n + 1 < Pow2(bits) {
      var rest := RestOfSweep(bits, s', n + 1);
      run := [SweepNext(0)] + rest;
      assert run[1..] == rest;
    } else {
      run := [SweepNext(0)];
      assert run[1..] == [];
    }
  }

  /** If a lock is acquired for a transaction during its bulk release, in a shard already visited, it
      outlives the call. */
  lemma AcquiredDuringReleaseSurvives(bits: Bits) returns (run: seq<Action>)
    requires bits > 0
    ensures Reached(bits, HalfSwept())
    ensures Enabled(HalfSwept(), TryAcquire(T1, Z, S)) && !Departs(HalfSwept(), TryAcquire(T1, Z, S), T1)
    ensures var s := Step(bits, HalfSwept(), TryAcquire(T1, Z, S));
            Feasible(bits, s, run) && OneCall(bits, s, run, 0) && (T1, Z) in Exec(bits, s, run).held
  {
    HalfSweptIsReached(bits);
    assert 0 in HalfSwept().sweeps && HalfSwept().sweeps[0].txn == T1;
    var s := Step(bits, HalfSwept(), TryAcquire(T1, Z, S));
    assert Pow2(bits) == 2 * Pow2(bits - 1);
    hide Reached;
    run := RestOfSweep(bits, s, 1);
  }

  // ---- a request during a bulk release -------------------------------------------------

  /** T1 holds Z, which T2 waits for, and T2 holds B; the bulk release of T1 has just begun. */
  function Leaving(): State {
    State(map[(T1, Z) := X, (T2, B) := X], map[], map[T2 := Request(Z, X)], map[0 := Sweep(T1, 0)], Free)
  }

  lemma LeavingIsReached(bits: Bits)
    ensures Reached(bits, Leaving())
  {
    StartIsReached(bits);
    hide Reached, OthersAllow;
    TakeFree(bits, Start, T1, Z, X);
    var s1 := Start.(held := map[(T1, Z) := X]);
    TakeFree(bits, s1, T2, B, X);
    var s2 := s1.(held := map[(T1, Z) := X, (T2, B) := X]);
    Wait(bits, s2, T2, Request(Z, X), T1);
    var s3 := s2.(waits := map[T2 := Request(Z, X)]);
    ReachedNext(bits, s3, BeginReleaseAll(0, T1));
    assert s3.waits - {T1} == s3.waits;
    assert Step(bits, s3, BeginReleaseAll(0, T1)) == Leaving();
  }

  /** T1 has asked for B all the same, was refused, and the graph has been read. */
  function AskedWhileLeaving(): State {
    Leaving().(waits := map[T1 := Request(B, X), T2 := Request(Z, X)],
               job := Building(Some(T1), {}, map[T1 := {T2}, T2 := {T1}]))
  }

  lemma AskedEdges(s: State)
    requires s.held == Leaving().held && s.waits == AskedWhileLeaving().waits
    ensures ReadEdges(s, T1) == {T2} && ReadEdges(s, T2) == {T1}
  {
    BlockersMeaning(s.held, T1, B, X);
    BlockersMeaning(s.held, T2, Z, X);
  }

  lemma AskedReads(bits: Bits, s: State)
    requires s == AskedWhileLeaving().(job := Building(Some(T1), {T1, T2}, map[]))
    ensures var run := [ReadBlockers(T1), ReadBlockers(T2)];
            Feasible(bits, s, run) && Exec(bits, s, run) == AskedWhileLeaving()
  {
    AskedEdges(s);
    var s1 := s.(job := Building(Some(T1), {T2}, map[T1 := {T2}]));
    assert Step(bits, s, ReadBlockers(T1)) == s1 by {
      assert {T1, T2} - {T1} == {T2};
    }
    AskedEdges(s1);
    assert Step(bits, s1, ReadBlockers(T2)) == AskedWhileLeaving() by {
      assert {T2} - {T2} == {};
      assert map[T1 := {T2}][T2 := {T1}] == AskedWhileLeaving().job.graph;
    }
    assert Enabled(s, ReadBlockers(T1)) && Enabled(s1, ReadBlockers(T2));
    hide Step, Enabled;
    assert [ReadBlockers(T1), ReadBlockers(T2)][1..] == [ReadBlockers(T2)];
    assert [ReadBlockers(T2)][1..] == [];
    assert Feasible(bits, s1, [ReadBlockers(T2)]) && Exec(bits, s1, [ReadBlockers(T2)]) == AskedWhileLeaving();
  }

  lemma AskingWhileLeaving(bits: Bits) returns (run: seq<Action>)
    ensures Feasible(bits, Leaving(), run) && Exec(bits, Leaving(), run) == AskedWhileLeaving()
    ensures run != [] && Enabled(Leaving(), run[0]) && !Suspended(Leaving(), run[0])
  {
    var s := Leaving();
    assert 0 in s.sweeps && s.sweeps[0].txn == T1;
    var a := BeginRequest(T1, Request(B, X));
    var s1 := Step(bits, s, a);
    var s2 := AskedWhileLeaving().(job := Building(Some(T1), {T1, T2}, map[]));
    assert Step(bits, s1, Attempt) == s2 by {
      assert (T2, B) in s.held && !Compatible(s.held[(T2, B)], X) && (T1, B) !in s.held;
      assert s.waits[T1 := Request(B, X)] == s2.waits;
      assert s2.waits.Keys == {T1, T2};
    }
    AskedReads(bits, s2);
    assert Enabled(s, a) && Enabled(s1, Attempt) && !Suspended(s, a);
    hide Step, Enabled, Suspended;
    var rest := [ReadBlockers(T1), ReadBlockers(T2)];
    assert ([Attempt] + rest)[1..] == rest;
    assert Feasible(bits, s1, [Attempt] + rest) && Exec(bits, s1, [Attempt] + rest) == AskedWhileLeaving();
    run := [a] + ([Attempt] + rest);
    assert run[1..] == [Attempt] + rest;
  }

  /** If a `request` is begun for a transaction during its bulk release, the release can take the lock
      a reported deadlock rests on before the report is made. */
  lemma RequestDuringReleaseFalsifiesVerdict(bits: Bits) returns (run: seq<Action>)
    ensures Reached(bits, Leaving())
    ensures run != [] && Enabled(Leaving(), run[0]) && !Suspended(Leaving(), run[0])
    ensures Feasible(bits, Leaving(), run) && Exec(bits, Leaving(), run) == AskedWhileLeaving()
    ensures var s := Step(bits, AskedWhileLeaving(), SweepNext(0)); Reports(s) && !TrulyDeadlocked(s)
  {
    LeavingIsReached(bits);
    run := AskingWhileLeaving(bits);
    hide Reached, Reports, TrulyDeadlocked, Step, Feasible, Exec;
    LeavingIsReported(bits);
  }

  lemma LeavingIsReported(bits: Bits)
    ensures var s := Step(bits, AskedWhileLeaving(), SweepNext(0)); Reports(s) && !TrulyDeadlocked(s)
  {
    var s := Step(bits, AskedWhileLeaving(), SweepNext(0));
    var c := [T1, T2];
    assert c[1] in Succ(s.job.graph, c[0]) && c[0] in Succ(s.job.graph, c[1]);
    MemberReachesCycle(s.job.graph, c, T1);
    assert ShardIndex(bits, Z) == 0;
    assert forall u: TxnId :: (u, Z) !in s.held;
    OnlyLeaf(s);
  }

  lemma OnlyLeaf(s: State)
    requires s.waits == AskedWhileLeaving().waits && forall u: TxnId :: (u, Z) !in s.held
    ensures !CycleReachable(TrueGraph(s), T1)
  {
    BlockersMeaning(s.held, T2, Z, X);
    TrueEdges(s);
    assert Succ(TrueGraph(s), T2) == {};
    forall c ensures !IsCycle(TrueGraph(s), c) {
      if IsCycle(TrueGraph(s), c) {
        var first := MemberWaits(TrueGraph(s), c, c[0]);
        var second := MemberWaits(TrueGraph(s), c, first);
        BlockersMeaning(s.held, T1, B, X);
      }
    }
  }

  // ---- one abort that is not enough ----------------------------------------------------

  /** T2 and T3 share A and both wait for B; T1 holds B and waits for A. */
  function Forked(): State {
    State(map[(T2, A) := S, (T3, A) := S, (T1, B) := X], map[],
          map[T1 := Request(A, X), T2 := Request(B, X), T3 := Request(B, X)], map[], Free)
  }

  lemma ForkedIsReached(bits: Bits)
    ensures Reached(bits, Forked())
  {
    StartIsReached(bits);
    hide Reached;
    TakeFree(bits, Start, T2, A, S);
    var s1 := Start.(held := map[(T2, A) := S]);
    Take(bits, s1, T3, A, S);
    var s2 := s1.(held := map[(T2, A) := S, (T3, A) := S]);
    hide OthersAllow;
    TakeFree(bits, s2, T1, B, X);
    var s3 := s2.(held := Forked().held);
    Wait(bits, s3, T2, Request(B, X), T1);
    var s4 := s3.(waits := map[T2 := Request(B, X)]);
    Wait(bits, s4, T3, Request(B, X), T1);
    var s5 := s4.(waits := map[T2 := Request(B, X), T3 := Request(B, X)]);
    Wait(bits, s5, T1, Request(A, X), T2);
    assert s5.waits[T1 := Request(A, X)] == Forked().waits;
  }

  /** The wait-for relation once `v` has been aborted. */
  function AfterAbort(s: State, v: TxnId): Graph {
    WaitFor(DropTxn(s.held, v), s.waits - {v})
  }

  /** T1's request closes two cycles. Whichever is reported, with its youngest member as victim,
      aborting that victim leaves the other. */
  lemma OneAbortMayNotBeEnough(bits: Bits)
    ensures Reached(bits, Forked())
    ensures Genuine(Deadlock(T2, [T1, T2]), TrueGraph(Forked())) && !Acyclic(AfterAbort(Forked(), T2))
    ensures Genuine(Deadlock(T3, [T1, T3]), TrueGraph(Forked())) && !Acyclic(AfterAbort(Forked(), T3))
  {
    ForkedIsReached(bits);
    hide Reached;
    BlockersMeaning(Forked().held, T1, A, X);
    BlockersMeaning(Forked().held, T2, B, X);
    TwoCycle(Forked(), T1, T2);
    TwoCycle(Forked(), T1, T3);
    AbortBreaksCycles(Forked().held, Forked().waits, T2);
    AbortBreaksCycles(Forked().held, Forked().waits, T3);
  }

  lemma TwoCycle(s: State, t: TxnId, u: TxnId)
    requires t < u && u in ReadEdges(s, t) && t in ReadEdges(s, u)
    ensures IsCycle(TrueGraph(s), [t, u]) && Genuine(Deadlock(u, [t, u]), TrueGraph(s))
  {
    TrueEdges(s);
    var c := [t, u];
    assert c[1] in Succ(TrueGraph(s), c[0]) && c[0] in Succ(TrueGraph(s), c[1]);
  }

  /** T1 and T2 block each other, and so do T3 and T4. */
  function Paired(): State {
    State(map[(T1, A) := X, (T2, B) := X, (T3, C) := X, (T4, D) := X], map[],
          map[T1 := Request(B, X), T2 := Request(A, X), T3 := Request(D, X), T4 := Request(C, X)], map[], Free)
  }

  lemma PairedIsReached(bits: Bits)
    ensures Reached(bits, Paired())
  {
    StartIsReached(bits);
    hide Reached, OthersAllow;
    TakeFree(bits, Start, T1, A, X);
    var s1 := Start.(held := map[(T1, A) := X]);
    TakeFree(bits, s1, T2, B, X);
    var s2 := s1.(held := map[(T1, A) := X, (T2, B) := X]);
    TakeFree(bits, s2, T3, C, X);
    var s3 := s2.(held := map[(T1, A) := X, (T2, B) := X, (T3, C) := X]);
    TakeFree(bits, s3, T4, D, X);
    var s4 := s3.(held := Paired().held);
    Wait(bits, s4, T1, Request(B, X), T2);
    var s5 := s4.(waits := map[T1 := Request(B, X)]);
    Wait(bits, s5, T2, Request(A, X), T1);
    var s6 := s5.(waits := map[T1 := Request(B, X), T2 := Request(A, X)]);
    Wait(bits, s6, T3, Request(D, X), T4);
    var s7 := s6.(waits := map[T1 := Request(B, X), T2 := Request(A, X), T3 := Request(D, X)]);
    Wait(bits, s7, T4, Request(C, X), T3);
  }

  /** Aborting the requester of a reported deadlock, here T4, is not enough either when another
      deadlock was there before. */
  lemma RequesterAbortMayNotBeEnough(bits: Bits)
    ensures Reached(bits, Paired())
    ensures Genuine(Deadlock(T4, [T3, T4]), TrueGraph(Paired())) && !Acyclic(AfterAbort(Paired(), T4))
  {
    PairedIsReached(bits);
    hide Reached;
    BlockersMeaning(Paired().held, T1, B, X);
    BlockersMeaning(Paired().held, T2, A, X);
    BlockersMeaning(Paired().held, T3, D, X);
    BlockersMeaning(Paired().held, T4, C, X);
    TwoCycle(Paired(), T3, T4);
    TwoCycle(Paired(), T1, T2);
    AbortBreaksCycles(Paired().held, Paired().waits, T4);
  }
}
