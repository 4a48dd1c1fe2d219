/** No cycle means not stuck: the wait set can be emptied without aborting or cancelling a waiter
    exactly when the wait-for relation is acyclic. And aborting a victim is graph removal. */
module Draining {
  import opened Ids
  import opened Collections
  import opened Modes
  import opened Routing
  import opened Digraph
  import opened FlatTable
  import opened Merging
  import opened Protocol
  import opened Verdicts

  /** No waiter is aborted or cancelled or gives up a lock, and a waiter only retries what it waits
      for. */
  ghost predicate Voluntary(s: State, a: Action)
    requires Enabled(s, a)
  {
    match a
    case Release(t, _) => t !in s.waits
    case SweepNext(th) => s.sweeps[th].txn !in s.waits
    case CancelWait(t) => t !in s.waits
    case BeginReleaseAll(_, t) => t !in s.waits
    case BeginRequest(t, req) => t in s.waits ==> req == s.waits[t]
    case _ => true
  }

  ghost predicate AllVoluntary(bits: Bits, s: State, run: seq<Action>)
    requires Feasible(bits, s, run)
    decreases run
  {
    run == [] || (Voluntary(s, run[0]) && AllVoluntary(bits, Step(bits, s, run[0]), run[1..]))
  }

  /** A legal voluntary run in which every attempt is granted. */
  ghost predicate Smooth(bits: Bits, s: State, run: seq<Action>)
    decreases run
  {
    run == [] ||
    (Enabled(s, run[0]) && Disciplined(s, run[0]) && Voluntary(s, run[0]) &&
     (run[0].Attempt? ==> CanGrant(s.held, s.job.txn, s.job.req.res, s.job.req.mode)) &&
     Smooth(bits, Step(bits, s, run[0]), run[1..]))
  }

  lemma {:induction false} SmoothIsLegal(bits: Bits, s: State, run: seq<Action>)
    requires Smooth(bits, s, run)
    ensures Legal(bits, s, run) && AllVoluntary(bits, s, run)
    decreases run
  {
    if run != [] {
      SmoothIsLegal(bits, Step(bits, s, run[0]), run[1..]);
    }
  }

  ghost function After(bits: Bits, s: State, run: seq<Action>): State
    requires Smooth(bits, s, run)
  {
    SmoothIsLegal(bits, s, run);
    Exec(bits, s, run)
  }

  lemma {:induction false} SmoothAppend(bits: Bits, s: State, a: seq<Action>, b: seq<Action>)
    requires Smooth(bits, s, a) && Smooth(bits, After(bits, s, a), b)
    ensures Smooth(bits, s, a + b) && After(bits, s, a + b) == After(bits, After(bits, s, a), b)
    decreases a
  {
    if a == [] {
      assert a + b == b;
    } else {
      assert (a + b)[1..] == a[1..] + b && (a + b)[0] == a[0];
      SmoothAppend(bits, Step(bits, s, a[0]), a[1..], b);
    }
  }

  /** What the schedules below need of a state: a safe table and waiters that are not being swept. */
  ghost predicate Fit(s: State) {
    Safe(s.held) && Parted(s)
  }

  lemma {:induction false} SmoothKeepsFit(bits: Bits, s: State, run: seq<Action>)
    requires Smooth(bits, s, run) && Fit(s)
    ensures Fit(After(bits, s, run))
    decreases run
  {
    if run != [] {
      StepKeepsSafe(bits, s, run[0]);
      StepKeepsParted(bits, s, run[0]);
      SmoothKeepsFit(bits, Step(bits, s, run[0]), run[1..]);
    }
  }

  // ---- pieces of the schedule ----------------------------------------------------------

  lemma SmoothOne(bits: Bits, s: State, a: Action)
    requires Enabled(s, a) && Disciplined(s, a) && Voluntary(s, a)
    requires a.Attempt? ==> CanGrant(s.held, s.job.txn, s.job.req.res, s.job.req.mode)
    ensures Smooth(bits, s, [a]) && After(bits, s, [a]) == Step(bits, s, a)
  {
    assert [a][1..] == [];
    assert After(bits, Step(bits, s, a), []) == Step(bits, s, a);
  }

  /** A bulk release runs to its end, one shard after the other. */
  lemma {:induction false} FinishSweep(bits: Bits, s: State, th: nat, before: Held, t: TxnId, n: nat)
    returns (run: seq<Action>)
    requires th in s.sweeps && s.sweeps[th] == Sweep(t, n) && n < Pow2(bits) && t !in s.waits
    requires s.held == DropBelow(bits, before, t, n)
    ensures Smooth(bits, s, run)
    ensures var e := After(bits, s, run); e.held == DropTxn(before, t) && e.waits == s.waits && e.job == s.job
    decreases Pow2(bits) - n
  {
    hide DropBelow, DropIn, DropTxn, DropSpansIn;
    var a := SweepNext(th);
    SmoothOne(bits, s, a);
    DropBelowNext(bits, before, t, n);
    var s' := Step(bits, s, a);
    if n + 1 < Pow2(bits) {
      var rest := FinishSweep(bits, s', th, before, t, n + 1);
      run := [a] + rest;
      SmoothAppend(bits, s, [a], rest);
    } else {
      run := [a];
      DropBelowAll(bits, before, t);
    }
  }

  /** Some thread is not sweeping. */
  lemma FreshThread(busy: set<int>, n: nat) returns (th: nat)
    requires Interval(0, n) <= busy
    ensures th !in busy
    decreases |busy| - n
  {
    if n !in busy {
      th := n;
    } else {
      SubsetCard(Interval(0, n + 1), busy);
      th := FreshThread(busy, n + 1);
    }
  }

  lemma SubsetCard(a: set<int>, b: set<int>)
    requires a <= b
    ensures |a| <= |b|
  {
    assert b == a + (b - a);
  }

  /** A transaction that waits for nothing can give up all its locks. */
  lemma SweepOut(bits: Bits, s: State, b: TxnId) returns (run: seq<Action>)
    requires s.job.Free? && b !in s.waits
    ensures Smooth(bits, s, run)
    ensures var e := After(bits, s, run); e.held == DropTxn(s.held, b) && e.waits == s.waits && e.job.Free?
  {
    var th := FreshThread(s.sweeps.Keys, 0);
    var a := BeginReleaseAll(th, b);
    SmoothOne(bits, s, a);
    var s' := Step(bits, s, a);
    DropBelowNext(bits, s.held, b, 0);
    assert s'.waits == s.waits;
    var rest := FinishSweep(bits, s', th, s.held, b, 0);
    run := [a] + rest;
    SmoothAppend(bits, s, [a], rest);
  }

  /** Bulk release by a non-waiter takes away exactly the edges into it. */
  lemma DropRemovesEdges(held: Held, b: TxnId, w: TxnId, r: ResourceId, m: LockMode)
    ensures Blockers(DropTxn(held, b), w, r, m) == Blockers(held, w, r, m) - {b}
  {
  }

  /** The blockers of a waiter that waits for no waiter can all leave. */
  lemma {:induction false} ClearBlockers(bits: Bits, s: State, w: TxnId) returns (run: seq<Action>)
    requires Fit(s) && s.job.Free? && w in s.waits && ReadEdges(s, w) * s.waits.Keys == {}
    ensures Smooth(bits, s, run)
    ensures var e := After(bits, s, run);
            Fit(e) && e.waits == s.waits && e.job.Free? && ReadEdges(e, w) == {} &&
            Subgraph(TrueGraph(e), TrueGraph(s))
    decreases |ReadEdges(s, w)|
  {
    if ReadEdges(s, w) == {} {
      run := [];
    } else {
      var b :| b in ReadEdges(s, w);
      assert b !in ReadEdges(s, w) * s.waits.Keys;
      var first := SweepOut(bits, s, b);
      var s' := After(bits, s, first);
      SmoothKeepsFit(bits, s, first);
      TrueEdges(s);
      TrueEdges(s');
      forall v ensures ReadEdges(s', v) == ReadEdges(s, v) - {b} {
        if v in s.waits { DropRemovesEdges(s.held, b, v, s.waits[v].res, s.waits[v].mode); }
      }
      var rest := ClearBlockers(bits, s', w);
      SmoothAppend(bits, s, first, rest);
      run := first + rest;
    }
  }

  /** A waiter without blockers retries, is granted, and waits no more. */
  lemma GrantOne(bits: Bits, s: State, w: TxnId) returns (run: seq<Action>)
    requires Fit(s) && s.job.Free? && w in s.waits && ReadEdges(s, w) == {} && Acyclic(TrueGraph(s))
    ensures Smooth(bits, s, run)
    ensures var e := After(bits, s, run);
            Fit(e) && e.waits == s.waits - {w} && e.job.Free? && Acyclic(TrueGraph(e))
  {
    var req := s.waits[w];
    assert !InSweep(s, w);
    var a := BeginRequest(w, req);
    SmoothOne(bits, s, a);
    var s1 := Step(bits, s, a);
    WaitEdgesExact(s.held, w, req.res, req.mode);
    SmoothOne(bits, s1, Attempt);
    var s2 := Step(bits, s1, Attempt);
    SmoothAppend(bits, s, [a], [Attempt]);
    run := [a] + [Attempt];
    SmoothKeepsFit(bits, s, run);
    assert TrueGraph(s1) == TrueGraph(s);
    StepInherits(bits, s1, Attempt);
    CyclesInherited(TrueGraph(s2), TrueGraph(s1), s2.waits.Keys);
  }

  /** A build under way runs to its end. */
  lemma {:induction false} FinishBuild(bits: Bits, s: State) returns (run: seq<Action>)
    requires s.job.Building?
    ensures Smooth(bits, s, run) && After(bits, s, run) == s.(job := Free)
    decreases |s.job.todo|
  {
    if s.job.todo == {} {
      SmoothOne(bits, s, Conclude);
      run := [Conclude];
    } else {
      var w: TxnId :| w in s.job.todo;
      var a := ReadBlockers(w);
      SmoothOne(bits, s, a);
      var rest := FinishBuild(bits, Step(bits, s, a));
      run := [a] + rest;
      SmoothAppend(bits, s, [a], rest);
    }
  }

  lemma {:induction false} FreeDrains(bits: Bits, s: State) returns (run: seq<Action>)
    requires Fit(s) && s.job.Free? && Acyclic(TrueGraph(s))
    ensures Smooth(bits, s, run) && After(bits, s, run).waits == map[]
    decreases |s.waits|
  {
    if s.waits == map[] {
      run := [];
    } else {
      assert s.waits.Keys != {};
      var w := SinkExists(TrueGraph(s), s.waits.Keys);
      TrueEdges(s);
      var clear := ClearBlockers(bits, s, w);
      var s1 := After(bits, s, clear);
      SubgraphAcyclic(TrueGraph(s1), TrueGraph(s));
      var grant := GrantOne(bits, s1, w);
      var s2 := After(bits, s1, grant);
      assert |s2.waits| < |s.waits|;
      var rest := FreeDrains(bits, s2);
      SmoothAppend(bits, s1, grant, rest);
      SmoothAppend(bits, s, clear, grant + rest);
      run := clear + (grant + rest);
    }
  }

  /** From every acyclic state, also one in the middle of a graph build, the wait set drains
      completely, by disciplined callers and with every retry granted. */
  lemma AcyclicDrains(bits: Bits, s: State) returns (run: seq<Action>)
    requires Fit(s) && !s.job.Requesting? && Acyclic(TrueGraph(s))
    ensures Smooth(bits, s, run) && After(bits, s, run).waits == map[]
  {
    if s.job.Free? {
      run := FreeDrains(bits, s);
    } else {
      var build := FinishBuild(bits, s);
      var s' := After(bits, s, build);
      assert TrueGraph(s') == TrueGraph(s);
      var rest := FreeDrains(bits, s');
      run := build + rest;
      SmoothAppend(bits, s, build, rest);
    }
  }

  /** A cycle blocks every run in which waiters keep what they hold and what they ask for, whatever
      everybody else does. */
  lemma {:induction false} CycleNeverDrains(bits: Bits, s: State, run: seq<Action>, c: seq<TxnId>)
    requires Safe(s.held) && Feasible(bits, s, run) && AllVoluntary(bits, s, run)
    requires IsCycle(TrueGraph(s), c) && JobUndisturbed(s, c)
    ensures Exec(bits, s, run).waits != map[]
    decreases run
  {
    CycleMembersWait(s, c, c[0]);
    if run != [] {
      forall t | t in c ensures t in s.waits { CycleMembersWait(s, c, t); }
      DeadlockPersistsStep(bits, s, run[0], c);
      StepKeepsSafe(bits, s, run[0]);
      CycleNeverDrains(bits, Step(bits, s, run[0]), run[1..], c);
    }
  }

  /** Can the waiters all be served without any of them giving way? */
  ghost predicate CanDrain(bits: Bits, s: State) {
    exists run :: Feasible(bits, s, run) && AllVoluntary(bits, s, run) && Exec(bits, s, run).waits == map[]
  }

  /** What the detector tests is exactly being stuck. */
  lemma DrainableIffAcyclic(bits: Bits, s: State)
    requires Fit(s) && !s.job.Requesting?
    ensures CanDrain(bits, s) <==> Acyclic(TrueGraph(s))
  {
    if Acyclic(TrueGraph(s)) {
      var run := AcyclicDrains(bits, s);
      SmoothIsLegal(bits, s, run);
      assert Feasible(bits, s, run) && AllVoluntary(bits, s, run) && Exec(bits, s, run).waits == map[];
    } else {
      var c :| IsCycle(TrueGraph(s), c);
      forall run | Feasible(bits, s, run) && AllVoluntary(bits, s, run) ensures Exec(bits, s, run).waits != map[] {
        CycleNeverDrains(bits, s, run, c);
      }
    }
  }

  // ---- aborting a victim ---------------------------------------------------------------

  /** Rebuilding the graph after `release_all` gives the graph with the transaction removed. */
  lemma AbortIsRemoval(held: Held, waits: Waits, t: TxnId)
    ensures forall v :: Succ(WaitFor(DropTxn(held, t), waits - {t}), v) ==
                        if v == t then {} else Succ(WaitFor(held, waits), v) - {t}
  {
  }

  /** So no cycle through the aborted transaction is left, and no new one appears. */
  lemma AbortBreaksCycles(held: Held, waits: Waits, t: TxnId)
    ensures forall c ::
              IsCycle(WaitFor(DropTxn(held, t), waits - {t}), c) <==> IsCycle(WaitFor(held, waits), c) && t !in c
  {
    var g := WaitFor(held, waits);
    var g' := WaitFor(DropTxn(held, t), waits - {t});
    AbortIsRemoval(held, waits, t);
    assert Subgraph(g', g);
    forall c ensures IsCycle(g', c) <==> IsCycle(g, c) && t !in c {
      if IsCycle(g', c) {
        SubgraphCycle(g', g, c);
        if t in c {
          var b := MemberWaits(g', c, t);
        }
      } else if IsCycle(g, c) && t !in c {
        CycleKept(g, g', c);
      }
    }
  }

  /** One abort clears the table of deadlocks exactly when every cycle passes through the victim. */
  lemma OneAbortSuffices(held: Held, waits: Waits, v: TxnId)
    ensures Acyclic(WaitFor(DropTxn(held, v), waits - {v})) <==> CyclesMeet(WaitFor(held, waits), v)
  {
    AbortBreaksCycles(held, waits, v);
  }

  /** The cycles are gone as soon as the wait is: right after a cancellation, or after the first
      section of a bulk release and before any lock is swept, the cycles left are exactly those
      that avoid the transaction. */
  lemma WithdrawalBreaksCycles(bits: Bits, s: State, a: Action, t: TxnId)
    requires Enabled(s, a) && (a == CancelWait(t) || (a.BeginReleaseAll? && a.txn == t))
    ensures forall c :: IsCycle(TrueGraph(Step(bits, s, a)), c) <==> IsCycle(TrueGraph(s), c) && t !in c
    ensures Acyclic(TrueGraph(Step(bits, s, a))) <==> CyclesMeet(TrueGraph(s), t)
  {
    hide Blockers;
    var s' := Step(bits, s, a);
    TrueEdges(s);
    TrueEdges(s');
    forall c ensures IsCycle(TrueGraph(s'), c) <==> IsCycle(TrueGraph(s), c) && t !in c {
      if IsCycle(TrueGraph(s'), c) {
        SubgraphCycle(TrueGraph(s'), TrueGraph(s), c);
        if t in c { var b := MemberWaits(TrueGraph(s'), c, t); }
      } else if IsCycle(TrueGraph(s), c) && t !in c {
        CycleKept(TrueGraph(s), TrueGraph(s'), c);
      }
    }
  }

  /** `find_deadlock` then `release_all(victim)`, repeated: each victim sits on a genuine cycle of
      the table it was found in. */
  ghost predicate VictimRun(held: Held, waits: Waits, victims: seq<TxnId>)
    decreases victims
  {
    victims == [] ||
    ((exists c :: IsCycle(WaitFor(held, waits), c) && victims[0] in c) &&
     VictimRun(DropTxn(held, victims[0]), waits - {victims[0]}, victims[1..]))
  }

  /** However victims are picked, only waiters are aborted, each at most once, so there are at
      most `waiting_count` rounds. */
  lemma {:induction false} VictimRunsAreShort(held: Held, waits: Waits, victims: seq<TxnId>)
    requires VictimRun(held, waits, victims)
    ensures |victims| <= |waits|
    ensures NoDup(victims) && forall v | v in victims :: v in waits
    decreases victims
  {
    if victims != [] {
      var v := victims[0];
      var c :| IsCycle(WaitFor(held, waits), c) && v in c;
      var b := MemberWaits(WaitFor(held, waits), c, v);
      VictimRunsAreShort(DropTxn(held, v), waits - {v}, victims[1..]);
      assert victims == [v] + victims[1..];
      assert (waits - {v}).Keys == waits.Keys - {v};
      assert |waits.Keys| == |waits| && |(waits - {v}).Keys| == |waits - {v}|;
    }
  }

  ghost function HeldAfter(held: Held, victims: seq<TxnId>): Held
    decreases victims
  {
    if victims == [] then held else HeldAfter(DropTxn(held, victims[0]), victims[1..])
  }

  ghost function WaitsLeft(waits: Waits, victims: seq<TxnId>): Waits
    decreases victims
  {
    if victims == [] then waits else WaitsLeft(waits - {victims[0]}, victims[1..])
  }
}
