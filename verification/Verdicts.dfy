/** What a deadlock verdict means: it is exact under interleaving, a reported deadlock is permanent,
    and without one the wait-for relation stays acyclic. */
module Verdicts {
  import opened Ids
  import opened Collections
  import opened Modes
  import opened Routing
  import opened Digraph
  import opened FlatTable
  import opened Protocol

  /** The answer of a finished graph build: `request` looks from the requester, `find_deadlock`
      looks everywhere. */
  ghost predicate Reports(s: State)
    requires s.job.Building?
  {
    match s.job.who
    case Some(t) => CycleReachable(s.job.graph, t)
    case None => !Acyclic(s.job.graph)
  }

  ghost predicate TrulyDeadlocked(s: State)
    requires s.job.Building?
  {
    match s.job.who
    case Some(t) => CycleReachable(TrueGraph(s), t)
    case None => !Acyclic(TrueGraph(s))
  }

  lemma TrueEdges(s: State)
    ensures forall v :: Succ(TrueGraph(s), v) == ReadEdges(s, v)
  {
  }

  // ---- exactness -----------------------------------------------------------------------

  /** The graph was read shard by shard while others acquired and released; still its cycles are
      exactly those of the wait-for relation of this instant. */
  lemma GraphIsExact(s: State)
    requires GraphOk(s) && s.job.Building? && s.job.todo == {}
    ensures forall c :: IsCycle(s.job.graph, c) <==> IsCycle(TrueGraph(s), c)
    ensures forall a :: CycleReachable(s.job.graph, a) <==> CycleReachable(TrueGraph(s), a)
    ensures Acyclic(s.job.graph) <==> Acyclic(TrueGraph(s))
  {
    TrueEdges(s);
    InsideDecidesCycles(s.job.graph, TrueGraph(s), s.waits.Keys);
  }

  /** A stretch of a build that changes no edge between registered waiters. */
  ghost predicate Calm(bits: Bits, s: State, run: seq<Action>)
    requires Feasible(bits, s, run)
    decreases run
  {
    run == [] ||
    (!run[0].Conclude? && LeavesEdges(bits, s, run[0]) && Calm(bits, Step(bits, s, run[0]), run[1..]))
  }

  /** While a graph is being built, a step that changes no edge between waiters changes no cycle and
      not who can reach one. */
  lemma CyclesFrozen(bits: Bits, s: State, a: Action)
    requires Enabled(s, a) && s.job.Building? && !a.Conclude? && LeavesEdges(bits, s, a)
    ensures var s' := Step(bits, s, a);
            s'.job.Building? && s'.job.who == s.job.who && s'.waits == s.waits &&
            (forall c :: IsCycle(TrueGraph(s'), c) <==> IsCycle(TrueGraph(s), c)) &&
            (forall t :: CycleReachable(TrueGraph(s'), t) <==> CycleReachable(TrueGraph(s), t))
  {
    var s' := Step(bits, s, a);
    BuildStep(bits, s, a);
    TrueEdges(s);
    TrueEdges(s');
    hide Step, Enabled, Blockers, TrueGraph, IsCycle, CycleReachable;
    assert forall v :: ReadEdges(s', v) * s.waits.Keys == ReadEdges(s, v) * s.waits.Keys;
    InsideDecidesCycles(TrueGraph(s'), TrueGraph(s), s.waits.Keys);
  }

  /** From any state with a build that is right so far, however it came about, a calm stretch keeps
      the deadlocks as they are; when all waiters have been read, the verdict is right for its
      first instant and its last, and so for every instant between. */
  lemma {:induction false} VerdictHoldsThroughout(bits: Bits, s: State, run: seq<Action>)
    requires GraphOk(s) && s.job.Building? && Feasible(bits, s, run) && Calm(bits, s, run)
    ensures var end := Exec(bits, s, run);
            GraphOk(end) && end.job.Building? && end.job.who == s.job.who &&
            (TrulyDeadlocked(end) <==> TrulyDeadlocked(s)) &&
            (end.job.todo == {} ==> (Reports(end) <==> TrulyDeadlocked(s)))
    decreases run
  {
    if run == [] {
      if s.job.todo == {} { GraphIsExact(s); }
    } else {
      CyclesFrozen(bits, s, run[0]);
      StepKeepsGraph(bits, s, run[0]);
      VerdictHoldsThroughout(bits, Step(bits, s, run[0]), run[1..]);
    }
  }

  /** Whatever the table and whatever its callers did before: if no edge between waiters changes
      from the step that opens a build to its last read, the verdict is a deadlock exactly when
      there was one at the first instant and is one at the last. */
  lemma VerdictIsExact(bits: Bits, s: State, opening: Action, run: seq<Action>)
    requires Enabled(s, opening) && !s.job.Building? && Step(bits, s, opening).job.Building?
    requires Feasible(bits, Step(bits, s, opening), run) && Calm(bits, Step(bits, s, opening), run)
    requires var last := Exec(bits, Step(bits, s, opening), run); last.job.Building? && last.job.todo == {}
    ensures var first := Step(bits, s, opening); var last := Exec(bits, first, run);
            (Reports(last) <==> TrulyDeadlocked(first)) && (Reports(last) <==> TrulyDeadlocked(last)) &&
            (opening == BeginScan ==>
               (Reports(last) <==> !Acyclic(TrueGraph(first))) && (Reports(last) <==> !Acyclic(TrueGraph(last)))) &&
            (opening == Attempt ==>
               (Reports(last) <==> CycleReachable(TrueGraph(first), s.job.txn)) &&
               (Reports(last) <==> CycleReachable(TrueGraph(last), s.job.txn)))
  {
    OpeningLooks(bits, s, opening);
    VerdictHoldsThroughout(bits, Step(bits, s, opening), run);
  }

  /** A scan looks everywhere; a refused request looks from the requester. */
  lemma OpeningLooks(bits: Bits, s: State, opening: Action)
    requires Enabled(s, opening) && !s.job.Building? && Step(bits, s, opening).job.Building?
    ensures opening == BeginScan || opening == Attempt
    ensures var first := Step(bits, s, opening);
            first.job == Building(if opening == Attempt then Some(s.job.txn) else None, first.waits.Keys, map[])
  {
    hide CanGrant, CanGrantSpan;
  }

  /** Suspended waiters leave every build calm. */
  lemma {:induction false} SuspensionIsCalm(bits: Bits, s: State, run: seq<Action>)
    requires WaitInv(s) && s.job.Building? && SuspendedRun(bits, s, run)
    requires forall i | 0 <= i < |run| :: !run[i].Conclude?
    ensures Calm(bits, s, run)
    decreases run
  {
    if run != [] {
      assert !run[0].Conclude?;
      SuspendedLeavesEdges(bits, s, run[0]);
      StepKeepsWaitInv(bits, s, run[0]);
      SuspensionIsCalm(bits, Step(bits, s, run[0]), run[1..]);
    }
  }

  /** So where waiters are suspended, a scan reports a deadlock exactly when there is any, and a
      refused request exactly when its caller can reach one, under every interleaving. */
  lemma SuspendedBuildIsExact(bits: Bits, s: State, opening: Action, run: seq<Action>)
    requires WaitInv(s) && Enabled(s, opening) && Suspended(s, opening) && !s.job.Building?
    requires Step(bits, s, opening).job.Building? && SuspendedRun(bits, Step(bits, s, opening), run)
    requires forall i | 0 <= i < |run| :: !run[i].Conclude?
    requires var last := Exec(bits, Step(bits, s, opening), run); last.job.Building? && last.job.todo == {}
    ensures var last := Exec(bits, Step(bits, s, opening), run);
            (opening == BeginScan ==> (Reports(last) <==> !Acyclic(TrueGraph(last)))) &&
            (opening == Attempt ==> (Reports(last) <==> CycleReachable(TrueGraph(last), s.job.txn)))
  {
    StepKeepsWaitInv(bits, s, opening);
    SuspensionIsCalm(bits, Step(bits, s, opening), run);
    VerdictIsExact(bits, s, opening, run);
  }

  /** In every run that keeps waiters suspended, under every interleaving, a finished detection
      reports a deadlock exactly when there is one. */
  lemma SuspendedVerdictIsExact(bits: Bits, run: seq<Action>)
    requires SuspendedRun(bits, Start, run)
    requires var s := Exec(bits, Start, run); s.job.Building? && s.job.todo == {}
    ensures var s := Exec(bits, Start, run); Reports(s) <==> TrulyDeadlocked(s)
  {
    RunKeepsWaitInv(bits, Start, run);
    VerdictHoldsThroughout(bits, Exec(bits, Start, run), []);
  }

  // ---- a reported deadlock is permanent ------------------------------------------------

  /** No member of `c` gives up a lock, cancels, is aborted or asks for something else. */
  ghost predicate Undisturbed(s: State, a: Action, c: seq<TxnId>)
    requires Enabled(s, a)
  {
    match a
    case Release(t, _) => t !in c
    case SweepNext(th) => s.sweeps[th].txn !in c
    case CancelWait(t) => t !in c
    case BeginReleaseAll(_, t) => t !in c
    case BeginRequest(t, req) => t in c ==> t in s.waits && req == s.waits[t]
    case _ => true
  }

  /** Neither does a request already under way. */
  ghost predicate JobUndisturbed(s: State, c: seq<TxnId>) {
    s.job.Requesting? && s.job.txn in c ==> s.job.txn in s.waits && s.job.req == s.waits[s.job.txn]
  }

  ghost predicate AllUndisturbed(bits: Bits, s: State, run: seq<Action>, c: seq<TxnId>)
    requires Feasible(bits, s, run)
    decreases run
  {
    run == [] || (Undisturbed(s, run[0], c) && AllUndisturbed(bits, Step(bits, s, run[0]), run[1..], c))
  }

  /** Every retry by a member is refused. */
  ghost predicate MembersRefused(bits: Bits, s: State, run: seq<Action>, c: seq<TxnId>)
    requires Feasible(bits, s, run)
    decreases run
  {
    run == [] ||
    ((run[0].Attempt? && s.job.txn in c ==> !CanGrant(s.held, s.job.txn, s.job.req.res, s.job.req.mode)) &&
     MembersRefused(bits, Step(bits, s, run[0]), run[1..], c))
  }

  lemma CycleMembersWait(s: State, c: seq<TxnId>, t: TxnId)
    requires IsCycle(TrueGraph(s), c) && t in c
    ensures t in s.waits && Blockers(s.held, t, s.waits[t].res, s.waits[t].mode) != {}
  {
    var b := MemberWaits(TrueGraph(s), c, t);
    TrueEdges(s);
  }

  /** What the members of `c` hold they still hold, in the same mode or a stronger one. */
  ghost predicate Keeps(held: Held, held': Held, c: seq<TxnId>) {
    forall t: TxnId, r: ResourceId | t in c && (t, r) in held ::
      (t, r) in held' && Covers(held'[(t, r)], held[(t, r)])
  }

  /** Nobody needs to be disciplined for this, and members may even take more: as long as they keep
      what they hold and what they wait for, the same cycle persists and every retry of a member
      is refused. */
  lemma DeadlockPersistsStep(bits: Bits, s: State, a: Action, c: seq<TxnId>)
    requires Safe(s.held) && Enabled(s, a) && Undisturbed(s, a, c)
    requires IsCycle(TrueGraph(s), c) && JobUndisturbed(s, c)
    ensures var s' := Step(bits, s, a);
            IsCycle(TrueGraph(s'), c) && JobUndisturbed(s', c) &&
            forall t | t in c :: t in s.waits && t in s'.waits && s'.waits[t] == s.waits[t]
    ensures a.Attempt? && s.job.txn in c ==> !CanGrant(s.held, s.job.txn, s.job.req.res, s.job.req.mode)
  {
    var s' := Step(bits, s, a);
    forall t | t in c ensures t in s.waits {
      CycleMembersWait(s, c, t);
    }
    if a.Attempt? && s.job.txn in c {
      CycleMembersWait(s, c, s.job.txn);
      WaitEdgesExact(s.held, s.job.txn, s.job.req.res, s.job.req.mode);
    }
    hide CanGrant, TrueGraph;
    MembersKeepLocks(bits, s, a, c);
    MembersKeepWaits(bits, s, a, c);
    MembersKeepCycle(s, s', c);
  }

  lemma MembersKeepLocks(bits: Bits, s: State, a: Action, c: seq<TxnId>)
    requires Enabled(s, a) && Undisturbed(s, a, c)
    ensures Keeps(s.held, Step(bits, s, a).held, c)
  {
    hide CanGrant, CanGrantSpan, ShardIndex, Join;
    forall m: LockMode, n: LockMode ensures Covers(Join(m, n), m) && Covers(m, m) {
      JoinIsLeastUpperBound(m, n, m);
      CoversIsPartialOrder(m, m, m);
    }
  }

  lemma MembersKeepWaits(bits: Bits, s: State, a: Action, c: seq<TxnId>)
    requires Enabled(s, a) && Undisturbed(s, a, c) && JobUndisturbed(s, c)
    requires forall t | t in c :: t in s.waits
    requires a.Attempt? && s.job.txn in c ==> !CanGrant(s.held, s.job.txn, s.job.req.res, s.job.req.mode)
    ensures var s' := Step(bits, s, a);
            JobUndisturbed(s', c) && forall t | t in c :: t in s'.waits && s'.waits[t] == s.waits[t]
  {
    hide CanGrant, CanGrantSpan;
  }

  /** A stronger mode conflicts with whatever the weaker one did. */
  lemma StrongerConflicts(weaker: LockMode, stronger: LockMode, m: LockMode)
    requires Covers(stronger, weaker) && !Compatible(weaker, m)
    ensures !Compatible(stronger, m)
  {
  }

  /** Transactions that keep their locks and requests keep a cycle among them. */
  lemma MembersKeepCycle(s: State, s': State, c: seq<TxnId>)
    requires IsCycle(TrueGraph(s), c) && Keeps(s.held, s'.held, c)
    requires forall t | t in c :: t in s.waits && t in s'.waits && s'.waits[t] == s.waits[t]
    ensures IsCycle(TrueGraph(s'), c)
  {
    hide Blockers, Compatible, Covers;
    TrueEdges(s);
    TrueEdges(s');
    forall x, b | x in c && b in c && b in Succ(TrueGraph(s), x) ensures b in Succ(TrueGraph(s'), x) {
      var Request(r, m) := s.waits[x];
      BlockersMeaning(s.held, x, r, m);
      BlockersMeaning(s'.held, x, r, m);
      StrongerConflicts(s.held[(b, r)], s'.held[(b, r)], m);
    }
    CycleKept(TrueGraph(s), TrueGraph(s'), c);
  }

  /** A deadlock is permanent: in every continuation the mutexes allow in which no member gives up a
      lock, cancels, is aborted or changes its request, the same cycle is there at the end and
      every retry by a member is refused, whatever everybody else does. */
  lemma {:induction false} DeadlockIsPermanent(bits: Bits, s: State, run: seq<Action>, c: seq<TxnId>)
    requires Safe(s.held) && Feasible(bits, s, run) && AllUndisturbed(bits, s, run, c)
    requires IsCycle(TrueGraph(s), c) && JobUndisturbed(s, c)
    ensures var end := Exec(bits, s, run);
            IsCycle(TrueGraph(end), c) && JobUndisturbed(end, c) && MembersRefused(bits, s, run, c) &&
            forall t | t in c :: t in s.waits && t in end.waits && end.waits[t] == s.waits[t]
    decreases run
  {
    if run == [] {
      forall t | t in c ensures t in s.waits { CycleMembersWait(s, c, t); }
    } else {
      DeadlockPersistsStep(bits, s, run[0], c);
      StepKeepsSafe(bits, s, run[0]);
      DeadlockIsPermanent(bits, Step(bits, s, run[0]), run[1..], c);
    }
  }

  /** No member of `c` cancels, is aborted or asks for something else. */
  ghost predicate NobodyWithdraws(bits: Bits, s: State, run: seq<Action>, c: seq<TxnId>)
    requires Feasible(bits, s, run)
    decreases run
  {
    run == [] ||
    ((run[0].Release? || run[0].SweepNext? || Undisturbed(s, run[0], c)) &&
     NobodyWithdraws(bits, Step(bits, s, run[0]), run[1..], c))
  }

  /** Suspended members give up no lock but by being aborted. So where waiters are suspended,
      cancelling, aborting and changing a request is all that can end a deadlock. */
  lemma {:induction false} SuspendedMembersKeepLocks(bits: Bits, s: State, run: seq<Action>, c: seq<TxnId>)
    requires Safe(s.held) && WaitInv(s) && SuspendedRun(bits, s, run) && NobodyWithdraws(bits, s, run, c)
    requires IsCycle(TrueGraph(s), c) && JobUndisturbed(s, c)
    ensures AllUndisturbed(bits, s, run, c)
    decreases run
  {
    if run != [] {
      forall t | t in c ensures t in s.waits { CycleMembersWait(s, c, t); }
      DeadlockPersistsStep(bits, s, run[0], c);
      StepKeepsSafe(bits, s, run[0]);
      StepKeepsWaitInv(bits, s, run[0]);
      SuspendedMembersKeepLocks(bits, Step(bits, s, run[0]), run[1..], c);
    }
  }

  // ---- every deadlock is known ---------------------------------------------------------

  /** Who has been told of a deadlock and has not tried again, given up or been aborted since. */
  ghost function Tell(s: State, a: Action, told: set<TxnId>): set<TxnId> {
    match a
    case Conclude =>
      if s.job.Building? && s.job.who.Some? && Reports(s) then told + {s.job.who.value} else told
    case Attempt => if s.job.Requesting? then told - {s.job.txn} else told
    case CancelWait(t) => told - {t}
    case BeginReleaseAll(_, t) => told - {t}
    case _ => told
  }

  ghost function ToldAfter(bits: Bits, s: State, run: seq<Action>, told: set<TxnId>): set<TxnId>
    requires Feasible(bits, s, run)
    decreases run
  {
    if run == [] then told else ToldAfter(bits, Step(bits, s, run[0]), run[1..], Tell(s, run[0], told))
  }

  /** Step `i` tells `t` of a deadlock: its `request` returns with one. */
  ghost predicate TellsAt(bits: Bits, s: State, run: seq<Action>, i: nat, t: TxnId)
    requires Feasible(bits, s, run) && i < |run|
  {
    var now := StateAt(bits, s, run, i);
    run[i].Conclude? && now.job.Building? && now.job.who == Some(t) && Reports(now)
  }

  /** Step `i` decides a new request of `t`, cancels its wait, or begins to abort it. */
  ghost predicate WithdrawsAt(bits: Bits, s: State, run: seq<Action>, i: nat, t: TxnId)
    requires Feasible(bits, s, run) && i < |run|
  {
    var now := StateAt(bits, s, run, i);
    (run[i].Attempt? && now.job.Requesting? && now.job.txn == t) || run[i] == CancelWait(t) ||
    (run[i].BeginReleaseAll? && run[i].txn == t)
  }

  /** Step `i` of the run has told `t`, and `t` has not withdrawn since. */
  ghost predicate ToldAt(bits: Bits, s: State, run: seq<Action>, i: nat, t: TxnId)
    requires Feasible(bits, s, run) && i < |run|
  {
    TellsAt(bits, s, run, i, t) && forall j | i < j < |run| :: !WithdrawsAt(bits, s, run, j, t)
  }

  /** Who counts as told: those told at some step or at the start, and not withdrawn since. */
  lemma {:induction false} ToldMeans(bits: Bits, s: State, run: seq<Action>, told: set<TxnId>, t: TxnId)
    requires Feasible(bits, s, run)
    ensures t in ToldAfter(bits, s, run, told) <==>
            (t in told && forall j | 0 <= j < |run| :: !WithdrawsAt(bits, s, run, j, t)) ||
            exists i :: 0 <= i < |run| && ToldAt(bits, s, run, i, t)
    decreases run
  {
    if run != [] {
      var s' := Step(bits, s, run[0]);
      var rest := run[1..];
      var told' := Tell(s, run[0], told);
      ToldMeans(bits, s', rest, told', t);
      assert t in told' <==> (t in told && !WithdrawsAt(bits, s, run, 0, t)) || TellsAt(bits, s, run, 0, t);
      forall j | 0 <= j < |rest|
        ensures WithdrawsAt(bits, s', rest, j, t) == WithdrawsAt(bits, s, run, j + 1, t)
        ensures TellsAt(bits, s', rest, j, t) == TellsAt(bits, s, run, j + 1, t)
      {
        assert rest[j] == run[j + 1];
      }
      assert ToldAfter(bits, s, run, told) == ToldAfter(bits, s', rest, told');
      hide WithdrawsAt, TellsAt, Feasible, Step, Tell, ToldAfter;
      LaterSteps(bits, s, run, t);
      var later := forall j | 1 <= j < |run| :: !WithdrawsAt(bits, s, run, j, t);
      assert (forall j | 0 <= j < |run| :: !WithdrawsAt(bits, s, run, j, t)) ==
             (!WithdrawsAt(bits, s, run, 0, t) && later);
      assert ToldAt(bits, s, run, 0, t) == (TellsAt(bits, s, run, 0, t) && later);
      assert (exists i :: 0 <= i < |run| && ToldAt(bits, s, run, i, t)) ==
             (ToldAt(bits, s, run, 0, t) || exists i :: 1 <= i < |run| && ToldAt(bits, s, run, i, t));
    }
  }

  /** What is true of the steps of a run but the first. */
  lemma LaterSteps(bits: Bits, s: State, run: seq<Action>, t: TxnId)
    requires Feasible(bits, s, run) && run != []
    requires var s' := Step(bits, s, run[0]);
             forall j | 0 <= j < |run| - 1 ::
               WithdrawsAt(bits, s', run[1..], j, t) == WithdrawsAt(bits, s, run, j + 1, t) &&
               TellsAt(bits, s', run[1..], j, t) == TellsAt(bits, s, run, j + 1, t)
    ensures var s' := Step(bits, s, run[0]);
            (forall j | 0 <= j < |run| - 1 :: !WithdrawsAt(bits, s', run[1..], j, t)) ==
            (forall j | 1 <= j < |run| :: !WithdrawsAt(bits, s, run, j, t))
    ensures var s' := Step(bits, s, run[0]);
            (exists i :: 0 <= i < |run| - 1 && ToldAt(bits, s', run[1..], i, t)) ==
            (exists i :: 1 <= i < |run| && ToldAt(bits, s, run, i, t))
  {
    hide WithdrawsAt, TellsAt, Step;
    var s' := Step(bits, s, run[0]);
    forall i | 0 <= i < |run| - 1 ensures ToldAt(bits, s', run[1..], i, t) == ToldAt(bits, s, run, i + 1, t) {
      forall j | i + 1 < j < |run|
        ensures WithdrawsAt(bits, s, run, j, t) == WithdrawsAt(bits, s', run[1..], j - 1, t)
      {
      }
      forall j | i < j < |run| - 1
        ensures WithdrawsAt(bits, s', run[1..], j, t) == WithdrawsAt(bits, s, run, j + 1, t)
      {
      }
    }
    if i :| 1 <= i < |run| && ToldAt(bits, s, run, i, t) {
      assert ToldAt(bits, s', run[1..], i - 1, t) == ToldAt(bits, s, run, i - 1 + 1, t);
    }
    forall j | 1 <= j < |run| ensures WithdrawsAt(bits, s, run, j, t) == WithdrawsAt(bits, s', run[1..], j - 1, t) {
      assert WithdrawsAt(bits, s', run[1..], j - 1, t) == WithdrawsAt(bits, s, run, j - 1 + 1, t);
    }
  }

  ghost predicate UnderExamination(s: State, t: TxnId) {
    s.job.Building? && s.job.who == Some(t)
  }

  /** Every cycle has a member that has been told, or is just being examined. */
  ghost predicate Known(s: State, told: set<TxnId>) {
    told <= s.waits.Keys &&
    forall c | IsCycle(TrueGraph(s), c) :: exists t :: t in c && (t in told || UnderExamination(s, t))
  }

  /** Only a refusal can form a cycle: while waiters are suspended, any other step inherits the cycles
      there are. */
  lemma StepInherits(bits: Bits, s: State, a: Action)
    requires Enabled(s, a) && (a.TryAcquire? ==> a.txn !in s.waits)
    requires a.Attempt? ==> CanGrant(s.held, s.job.txn, s.job.req.res, s.job.req.mode)
    ensures InsideOf(TrueGraph(Step(bits, s, a)), TrueGraph(s), Step(bits, s, a).waits.Keys)
  {
  }

  /** And the only cycles a refusal can form pass through the requester, in any state whatever:
      those that avoid it are the ones there were before. */
  lemma RefusalMeets(bits: Bits, s: State)
    requires s.job.Requesting? && !CanGrant(s.held, s.job.txn, s.job.req.res, s.job.req.mode)
    ensures forall c | s.job.txn !in c :: IsCycle(TrueGraph(Step(bits, s, Attempt)), c) <==> IsCycle(TrueGraph(s), c)
  {
    hide CanGrant, Blockers;
    var s' := Step(bits, s, Attempt);
    TrueEdges(s);
    TrueEdges(s');
    forall c | s.job.txn !in c ensures IsCycle(TrueGraph(s'), c) <==> IsCycle(TrueGraph(s), c) {
      if IsCycle(TrueGraph(s'), c) {
        CycleKept(TrueGraph(s'), TrueGraph(s), c);
      } else if IsCycle(TrueGraph(s), c) {
        CycleKept(TrueGraph(s), TrueGraph(s'), c);
      }
    }
  }

  /** A cycle the examined requester is on is reported to it. */
  lemma MemberIsTold(s: State, c: seq<TxnId>, t: TxnId)
    requires GraphOk(s) && UnderExamination(s, t) && s.job.todo == {}
    requires IsCycle(TrueGraph(s), c) && t in c
    ensures Reports(s)
  {
    GraphIsExact(s);
    MemberReachesCycle(TrueGraph(s), c, t);
  }

  /** While waiters are suspended every step keeps all deadlocks known, verdicts that report one
      included. */
  lemma StepKeepsKnown(bits: Bits, s: State, a: Action, told: set<TxnId>)
    requires WaitInv(s) && Enabled(s, a) && Suspended(s, a) && Known(s, told)
    ensures Known(Step(bits, s, a), Tell(s, a, told))
  {
    var s' := Step(bits, s, a);
    var refused := a.Attempt? && !CanGrant(s.held, s.job.txn, s.job.req.res, s.job.req.mode);
    if refused {
      RefusalMeets(bits, s);
    } else {
      StepInherits(bits, s, a);
      CyclesInherited(TrueGraph(s'), TrueGraph(s), s'.waits.Keys);
    }
    forall c | IsCycle(TrueGraph(s'), c)
      ensures exists t :: t in c && (t in Tell(s, a, told) || UnderExamination(s', t))
    {
      if refused && s.job.txn in c {
        assert UnderExamination(s', s.job.txn);
      } else {
        assert IsCycle(TrueGraph(s), c);
        var t :| t in c && (t in told || UnderExamination(s, t));
        if a.Conclude? && UnderExamination(s, t) {
          MemberIsTold(s, c, t);
        }
        assert t in Tell(s, a, told) || UnderExamination(s', t);
      }
    }
  }

  /** Throughout every run that keeps waiters suspended, with any number of deadlocks reported, aborts
      under way and verdicts reached meanwhile: no cycle exists that nobody has been told of, but for
      one the requester under examination has just closed. */
  lemma {:induction false} EveryDeadlockIsKnown(bits: Bits, s: State, run: seq<Action>, told: set<TxnId>)
    requires WaitInv(s) && Known(s, told) && SuspendedRun(bits, s, run)
    ensures Known(Exec(bits, s, run), ToldAfter(bits, s, run, told))
    decreases run
  {
    if run != [] {
      StepKeepsKnown(bits, s, run[0], told);
      StepKeepsWaitInv(bits, s, run[0]);
      EveryDeadlockIsKnown(bits, Step(bits, s, run[0]), run[1..], Tell(s, run[0], told));
    }
  }

  /** The same, said of the run itself: in every run from the empty table that keeps waiters suspended,
      each cycle there is at the end has a member whose `request` returned with a deadlock at some
      step and that has not withdrawn or tried again since, or that is being examined. */
  lemma EveryDeadlockWasReported(bits: Bits, run: seq<Action>, c: seq<TxnId>)
    requires SuspendedRun(bits, Start, run) && IsCycle(TrueGraph(Exec(bits, Start, run)), c)
    ensures exists t :: t in c &&
              (UnderExamination(Exec(bits, Start, run), t) ||
               exists i :: 0 <= i < |run| && ToldAt(bits, Start, run, i, t))
  {
    StartIsKnown();
    EveryDeadlockIsKnown(bits, Start, run, {});
    var end := Exec(bits, Start, run);
    var t :| t in c && (t in ToldAfter(bits, Start, run, {}) || UnderExamination(end, t));
    ToldMeans(bits, Start, run, {}, t);
  }

  /** Looking only from the requester misses nothing: if it is told of no deadlock, every cycle there
      is has been reported to a member already. Once everybody told has withdrawn or tried again,
      the verdict decides whether there is any cycle at all, and a periodic scan finds none. */
  lemma RequesterSeesAll(bits: Bits, run: seq<Action>)
    requires SuspendedRun(bits, Start, run)
    requires var s := Exec(bits, Start, run); s.job.Building? && s.job.todo == {}
    ensures var s := Exec(bits, Start, run); var told := ToldAfter(bits, Start, run, {});
            (!Reports(s) ==> forall c | IsCycle(TrueGraph(s), c) :: exists t :: t in c && t in told) &&
            (told == {} ==> (Reports(s) <==> !Acyclic(TrueGraph(s)))) &&
            (told == {} && s.job.who.None? ==> !Reports(s))
  {
    RunKeepsWaitInv(bits, Start, run);
    StartIsKnown();
    EveryDeadlockIsKnown(bits, Start, run, {});
    hide SuspendedRun, Feasible, Exec, ToldAfter, Known, Reports, IsCycle, Acyclic, TrueGraph;
    KnownSeesAll(Exec(bits, Start, run), ToldAfter(bits, Start, run, {}));
  }

  lemma KnownSeesAll(s: State, told: set<TxnId>)
    requires GraphOk(s) && s.job.Building? && s.job.todo == {} && Known(s, told)
    ensures !Reports(s) ==> forall c | IsCycle(TrueGraph(s), c) :: exists t :: t in c && t in told
    ensures told == {} ==> (Reports(s) <==> !Acyclic(TrueGraph(s)))
    ensures told == {} && s.job.who.None? ==> !Reports(s)
  {
    GraphIsExact(s);
    hide TrueGraph, GraphOk, IsCycle, CycleReachable;
    forall c | IsCycle(TrueGraph(s), c) ensures Reports(s) || exists t :: t in c && t in told {
      var t :| t in c && (t in told || UnderExamination(s, t));
      if UnderExamination(s, t) { MemberIsTold(s, c, t); }
    }
    if told == {} && s.job.who.Some? {
      MeetingPointDecides(TrueGraph(s), s.job.who.value);
    }
  }

  lemma StartIsKnown()
    ensures Known(Start, {}) && Acyclic(TrueGraph(Start))
  {
  }

  /** No `request` of the run reports a deadlock. */
  ghost predicate Quiet(bits: Bits, s: State, run: seq<Action>)
    requires Feasible(bits, s, run)
    decreases run
  {
    run == [] ||
    ((run[0].Conclude? && s.job.who.Some? ==> !Reports(s)) && Quiet(bits, Step(bits, s, run[0]), run[1..]))
  }

  lemma {:induction false} QuietTellsNobody(bits: Bits, s: State, run: seq<Action>)
    requires Feasible(bits, s, run) && Quiet(bits, s, run)
    ensures ToldAfter(bits, s, run, {}) == {}
    decreases run
  {
    if run != [] {
      assert Tell(s, run[0], {}) == {};
      QuietTellsNobody(bits, Step(bits, s, run[0]), run[1..]);
    }
  }

  /** In particular, a run in which no request reports a deadlock stays acyclic, but for cycles
      through the requester under examination. */
  lemma QuietRunsStayAcyclic(bits: Bits, run: seq<Action>)
    requires SuspendedRun(bits, Start, run) && Quiet(bits, Start, run)
    ensures var s := Exec(bits, Start, run);
            if s.job.Building? && s.job.who.Some? then CyclesMeet(TrueGraph(s), s.job.who.value)
            else Acyclic(TrueGraph(s))
  {
    StartIsKnown();
    EveryDeadlockIsKnown(bits, Start, run, {});
    QuietTellsNobody(bits, Start, run);
  }
}
