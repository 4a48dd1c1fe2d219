/** Which mutexes the critical sections of a call lock, in order: the programs of `Mutexes` are what
    the steps of the protocol do, also when other threads step in between. */
module Footprints {
  import opened Ids
  import opened Routing
  import opened FlatTable
  import opened Merging
  import opened Protocol
  import M = Mutexes

  /** A step that is no part of a `request` or `find_deadlock` is a section of its own. */
  ghost function OpsOf(bits: Bits, s: State, a: Action): seq<M.Op>
    requires Enabled(s, a)
  {
    match a
    case TryAcquire(_, r, _) => M.Section(M.ShardMutex(ShardIndex(bits, r)))
    case Release(_, r) => M.Section(M.ShardMutex(ShardIndex(bits, r)))
    case TryAcquireRange(_, x) => M.Section(M.ShardMutex(ShardIndex(bits, x.space)))
    case ReleaseRange(_, x) => M.Section(M.ShardMutex(ShardIndex(bits, x.space)))
    case BeginReleaseAll(_, _) => M.Section(M.Registry)
    case SweepNext(th) => M.Section(M.ShardMutex(s.sweeps[th].next))
    case CancelWait(_) => M.Section(M.Registry)
    case BeginRequest(_, _) => [M.Lock(M.Registry)]
    case BeginScan => [M.Lock(M.Registry)]
    case Attempt =>
      M.Section(M.ShardMutex(ShardIndex(bits, s.job.req.res))) +
      if Step(bits, s, a).job.Free? then [M.Unlock(M.Registry)] else []
    case ReadBlockers(w) => if w in s.waits then M.Section(M.ShardMutex(ShardIndex(bits, s.waits[w].res))) else []
    case Conclude => [M.Unlock(M.Registry)]
  }

  /** Steps of the call that holds the registry. */
  predicate UnderRegistry(a: Action) {
    a.BeginRequest? || a.BeginScan? || a.Attempt? || a.ReadBlockers? || a.Conclude?
  }

  ghost function RegistryOps(bits: Bits, s: State, run: seq<Action>): seq<M.Op>
    requires Feasible(bits, s, run)
    decreases run
  {
    if run == [] then []
    else
      (if UnderRegistry(run[0]) then OpsOf(bits, s, run[0]) else []) +
      RegistryOps(bits, Step(bits, s, run[0]), run[1..])
  }

  ghost function SweepOps(bits: Bits, s: State, run: seq<Action>, th: nat): seq<M.Op>
    requires Feasible(bits, s, run)
    decreases run
  {
    if run == [] then []
    else
      (if run[0] == SweepNext(th) then OpsOf(bits, s, run[0]) else []) +
      SweepOps(bits, Step(bits, s, run[0]), run[1..], th)
  }

  /** A call ends when its thread sweeps no more. */
  ghost predicate UntilSwept(bits: Bits, s: State, run: seq<Action>, th: nat)
    requires Feasible(bits, s, run)
    decreases run
  {
    if run == [] then th !in s.sweeps
    else th in s.sweeps && UntilSwept(bits, Step(bits, s, run[0]), run[1..], th)
  }

  /** The call under the registry ends when the registry is free. */
  ghost predicate UntilFree(bits: Bits, s: State, run: seq<Action>)
    requires Feasible(bits, s, run)
    decreases run
  {
    if run == [] then s.job.Free? else !s.job.Free? && UntilFree(bits, Step(bits, s, run[0]), run[1..])
  }

  /** Calls of one section lock one mutex: that of the shard their resource is routed to, or the
      registry's. */
  lemma OneSection(bits: Bits, s: State, a: Action)
    requires Enabled(s, a) && !UnderRegistry(a) && !a.SweepNext? && !a.BeginReleaseAll?
    ensures OpsOf(bits, s, a) ==
            M.Program(bits, match a
                            case TryAcquire(_, r, _) => M.OneShard(r)
                            case Release(_, r) => M.OneShard(r)
                            case TryAcquireRange(_, x) => M.OneShard(x.space)
                            case ReleaseRange(_, x) => M.OneShard(x.space)
                            case _ => M.RegistryOnly)
  {
  }

  lemma SweepHead(bits: Bits, s: State, run: seq<Action>, th: nat)
    requires Feasible(bits, s, run) && UntilSwept(bits, s, run, th) && th in s.sweeps
    ensures run != [] && Enabled(s, run[0])
    ensures var n := s.sweeps[th].next; var s' := Step(bits, s, run[0]);
            Feasible(bits, s', run[1..]) && UntilSwept(bits, s', run[1..], th) &&
            SweepOps(bits, s, run, th) ==
            (if run[0] == SweepNext(th) then M.Section(M.ShardMutex(n)) else []) + SweepOps(bits, s', run[1..], th) &&
            if run[0] != SweepNext(th) then th in s'.sweeps && s'.sweeps[th].next == n
            else if n + 1 < Pow2(bits) then th in s'.sweeps && s'.sweeps[th].next == n + 1
            else th !in s'.sweeps && SweepOps(bits, s', run[1..], th) == []
  {
    SweepsAfter(bits, s, run[0]);
    hide Step, Pow2, M.Section;
  }

  /** What is left of a bulk release locks every shard not visited yet, once, in order. */
  lemma {:induction false} SweepVisitsAll(bits: Bits, s: State, run: seq<Action>, th: nat)
    requires Feasible(bits, s, run) && UntilSwept(bits, s, run, th) && th in s.sweeps && s.sweeps[th].next < Pow2(bits)
    ensures SweepOps(bits, s, run, th) == M.SweepSections(s.sweeps[th].next, Pow2(bits))
    decreases run
  {
    hide Step, Enabled, Feasible, UntilSwept, SweepOps, OpsOf, Pow2, M.Section;
    SweepHead(bits, s, run, th);
    var s' := Step(bits, s, run[0]);
    if th in s'.sweeps {
      SweepVisitsAll(bits, s', run[1..], th);
    }
  }

  /** A whole `release_all`. */
  lemma ReleaseAllVisits(bits: Bits, s: State, th: nat, t: TxnId, run: seq<Action>)
    requires Enabled(s, BeginReleaseAll(th, t))
    requires var first := Step(bits, s, BeginReleaseAll(th, t));
             Feasible(bits, first, run) && UntilSwept(bits, first, run, th)
    ensures OpsOf(bits, s, BeginReleaseAll(th, t)) + SweepOps(bits, Step(bits, s, BeginReleaseAll(th, t)), run, th) ==
            M.Program(bits, M.ReleaseAllCall)
  {
    assert Pow2(bits) >= 1;
    SweepVisitsAll(bits, Step(bits, s, BeginReleaseAll(th, t)), run, th);
  }

  /** What is left of a build locks the shard of each waiter still to be read, one at a time, and then
      lets the registry go. */
  lemma {:induction false} BuildVisits(bits: Bits, s: State, run: seq<Action>) returns (visited: seq<ResourceId>)
    requires s.job.Building? && s.job.todo <= s.waits.Keys && Feasible(bits, s, run) && UntilFree(bits, s, run)
    ensures RegistryOps(bits, s, run) == M.ReadSections(bits, visited) + [M.Unlock(M.Registry)]
    ensures |visited| == |s.job.todo| && forall r | r in visited :: Awaited(s.waits, r)
    decreases run
  {
    var a := run[0];
    var s' := Step(bits, s, a);
    BuildStep(bits, s, a);
    hide Step, ShardIndex, Enabled;
    if a.Conclude? {
      visited := [];
      assert RegistryOps(bits, s', run[1..]) == [];
    } else {
      var rest := BuildVisits(bits, s', run[1..]);
      if a.ReadBlockers? {
        visited := [s.waits[a.waiter].res] + rest;
        assert visited[1..] == rest;
      } else {
        visited := rest;
      }
    }
  }

  lemma ScanOpens(bits: Bits, s: State)
    requires Enabled(s, BeginScan)
    ensures OpsOf(bits, s, BeginScan) == [M.Lock(M.Registry)]
    ensures var first := Step(bits, s, BeginScan);
            first.waits == s.waits && first.job.Building? && first.job.todo == s.waits.Keys
  {
  }

  /** A whole `find_deadlock` reads one shard for each waiter under the registry. */
  lemma ScanVisits(bits: Bits, s: State, run: seq<Action>) returns (visited: seq<ResourceId>)
    requires Enabled(s, BeginScan)
    requires var first := Step(bits, s, BeginScan); Feasible(bits, first, run) && UntilFree(bits, first, run)
    ensures OpsOf(bits, s, BeginScan) + RegistryOps(bits, Step(bits, s, BeginScan), run) ==
            M.Program(bits, M.FindDeadlockCall(visited))
    ensures |visited| == |s.waits| && forall r | r in visited :: Awaited(s.waits, r)
  {
    hide Feasible, UntilFree, RegistryOps, ShardIndex, Awaited, M.ReadSections;
    ScanOpens(bits, s);
    hide Step, OpsOf;
    visited := BuildVisits(bits, Step(bits, s, BeginScan), run);
    assert |s.waits.Keys| == |s.waits|;
  }

  lemma RequestHead(bits: Bits, s: State, run: seq<Action>)
    requires s.job.Requesting? && Feasible(bits, s, run) && UntilFree(bits, s, run)
    ensures run != [] && Enabled(s, run[0])
    ensures var s' := Step(bits, s, run[0]);
            Feasible(bits, s', run[1..]) && UntilFree(bits, s', run[1..]) &&
            RegistryOps(bits, s, run) ==
            (if run[0].Attempt? then
               M.Section(M.ShardMutex(ShardIndex(bits, s.job.req.res))) +
               if s'.job.Free? then [M.Unlock(M.Registry)] else []
             else []) + RegistryOps(bits, s', run[1..]) &&
            (s'.job.Free? ==> RegistryOps(bits, s', run[1..]) == [])
  {
    RequestStep(bits, s, run[0]);
    hide Step, ShardIndex, M.Section;
  }

  /** A whole `request` tries the shard of its resource under the registry, and if it is refused reads
      one shard for each waiter, itself included. */
  lemma {:induction false} RequestVisits(bits: Bits, s: State, run: seq<Action>) returns (call: M.Call)
    requires s.job.Requesting? && Feasible(bits, s, run) && UntilFree(bits, s, run)
    ensures [M.Lock(M.Registry)] + RegistryOps(bits, s, run) == M.Program(bits, call)
    ensures match call
            case RequestGranted(r) => r == s.job.req.res
            case RequestRefused(r, visited) =>
              r == s.job.req.res && |visited| == |s.waits[s.job.txn := s.job.req]| &&
              forall v | v in visited :: Awaited(s.waits[s.job.txn := s.job.req], v)
            case _ => false
    decreases run
  {
    hide Step, Enabled, Feasible, UntilFree, RegistryOps, OpsOf, ShardIndex, Awaited;
    hide M.Program, M.ReadSections, M.Section;
    RequestHead(bits, s, run);
    RequestStep(bits, s, run[0]);
    var s' := Step(bits, s, run[0]);
    var r := s.job.req.res;
    if !run[0].Attempt? {
      call := RequestVisits(bits, s', run[1..]);
    } else if s'.job.Free? {
      call := M.RequestGranted(r);
      GrantedProgram(bits, r);
    } else {
      var visited := BuildVisits(bits, s', run[1..]);
      call := M.RequestRefused(r, visited);
      RefusedProgram(bits, r, visited);
      assert |s'.waits.Keys| == |s'.waits|;
    }
  }

  lemma GrantedProgram(bits: Bits, r: ResourceId)
    ensures M.Program(bits, M.RequestGranted(r)) ==
            [M.Lock(M.Registry)] + (M.Section(M.ShardMutex(ShardIndex(bits, r))) + [M.Unlock(M.Registry)])
  {
    hide ShardIndex;
    assert M.ReadSections(bits, [r]) == M.Section(M.ShardMutex(ShardIndex(bits, r))) + M.ReadSections(bits, []);
  }

  lemma RefusedProgram(bits: Bits, r: ResourceId, visited: seq<ResourceId>)
    ensures M.Program(bits, M.RequestRefused(r, visited)) ==
            [M.Lock(M.Registry)] +
            (M.Section(M.ShardMutex(ShardIndex(bits, r))) + (M.ReadSections(bits, visited) + [M.Unlock(M.Registry)]))
  {
    hide ShardIndex;
    assert ([r] + visited)[1..] == visited;
  }

  lemma RequestStep(bits: Bits, s: State, a: Action)
    requires s.job.Requesting? && Enabled(s, a)
    ensures var s' := Step(bits, s, a);
            if a.Attempt? then
              s'.job.Free? ||
              (s'.waits == s.waits[s.job.txn := s.job.req] && s'.job.Building? && s'.job.todo == s'.waits.Keys)
            else !UnderRegistry(a) && s'.job == s.job && s'.waits == s.waits
  {
    hide CanGrant, CanGrantSpan, DropIn, DropSpansIn;
  }
}
