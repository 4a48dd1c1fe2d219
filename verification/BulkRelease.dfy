/** `release_all` while other threads run: what one call leaves behind, and what its sections count. */
module BulkRelease {
  import opened Ids
  import opened Modes
  import opened Routing
  import opened FlatTable
  import opened Merging
  import opened Protocol

  /** How many locks and ranges a transaction has. */
  function Holding(s: State, t: TxnId): nat {
    |LocksOf(s.held, t)| + |SpansOf(s.spans, t)|
  }

  /** Each lock and each range counts for one, whatever its mode and however it came or goes. */
  lemma EachCountsOnce(bits: Bits, s: State, a: Action, t: TxnId)
    requires Enabled(s, a)
    ensures var before := Holding(s, t); var after := Holding(Step(bits, s, a), t);
            match a
            case TryAcquire(u, r, m) =>
              after == before + if u == t && (t, r) !in s.held && CanGrant(s.held, t, r, m) then 1 else 0
            case Release(u, r) => after == before - if u == t && (t, r) in s.held then 1 else 0
            case TryAcquireRange(u, x) => after == before + if u == t && CanGrantSpan(s.spans, t, x) then 1 else 0
            case ReleaseRange(u, x) => after == before - if u == t && x in SpansOf(s.spans, t) then 1 else 0
            case _ => true
  {
    hide CanGrant, CanGrantSpan, AddSpan, RemoveSpan, SpansOf;
    match a
    case TryAcquire(u, r, m) => GrantCounts(s.held, u, r, m, t);
    case Release(u, r) => DropCounts(s.held, u, r, t);
    case TryAcquireRange(u, x) => SpansAfter(s.spans, u, x, t);
    case ReleaseRange(u, x) => SpansAfter(s.spans, u, x, t);
    case _ =>
  }

  lemma GrantCounts(held: Held, u: TxnId, r: ResourceId, m: LockMode, t: TxnId)
    ensures |LocksOf(Grant(held, u, r, m), t)| == |LocksOf(held, t)| + if u == t && (t, r) !in held then 1 else 0
  {
    hide Target;
    assert LocksOf(Grant(held, u, r, m), t) == LocksOf(held, t) + if u == t then {(t, r)} else {};
  }

  lemma DropCounts(held: Held, u: TxnId, r: ResourceId, t: TxnId)
    ensures |LocksOf(DropLock(held, u, r), t)| == |LocksOf(held, t)| - if u == t && (t, r) in held then 1 else 0
  {
    assert LocksOf(DropLock(held, u, r), t) == LocksOf(held, t) - if u == t then {(t, r)} else {};
  }

  ghost predicate HoldsNothing(s: State, t: TxnId) {
    (forall r: ResourceId :: (t, r) !in s.held) && SpansOf(s.spans, t) == multiset{}
  }

  /** After its last shard a transaction holds nothing, neither locks nor ranges. */
  lemma LastShardClears(bits: Bits, s: State, th: nat)
    requires th in s.sweeps && SweepOk(bits, s, s.sweeps[th]) && s.sweeps[th].next + 1 == Pow2(bits)
    ensures HoldsNothing(SweepOne(bits, s, th), s.sweeps[th].txn)
  {
    var Sweep(t, n) := s.sweeps[th];
    var s' := SweepOne(bits, s, th);
    SectionClears(bits, s, th);
    hide ShardIndex, SpansOf, DropIn, DropSpansIn, SweepOk;
    forall r: ResourceId ensures (t, r) !in s'.held {
      ShardInBounds(bits, r);
    }
    forall x: Span ensures x !in SpansOf(s'.spans, t) {
      ShardInBounds(bits, x.space);
    }
    assert SpansOf(s'.spans, t) == multiset{};
  }

  /** The rest of one call of `release_all` by thread `th`, amid the steps of other threads: the run
      ends with the section that ends the call. */
  ghost predicate OneCall(bits: Bits, s: State, run: seq<Action>, th: nat)
    requires Feasible(bits, s, run)
    decreases run
  {
    th in s.sweeps && run != [] &&
    var s' := Step(bits, s, run[0]);
    if th in s'.sweeps then OneCall(bits, s', run[1..], th) else run[1..] == []
  }

  /** What the sections of thread `th` take from `t`: the sum of the counts they return. */
  ghost function Returned(bits: Bits, s: State, run: seq<Action>, th: nat, t: TxnId): int
    requires Feasible(bits, s, run)
    decreases run
  {
    if run == [] then 0
    else
      var s' := Step(bits, s, run[0]);
      (if run[0] == SweepNext(th) then Holding(s, t) - Holding(s', t) else 0) + Returned(bits, s', run[1..], th, t)
  }

  /** What everybody else's steps take from `t` meanwhile. */
  ghost function TakenElsewhere(bits: Bits, s: State, run: seq<Action>, th: nat, t: TxnId): int
    requires Feasible(bits, s, run)
    decreases run
  {
    if run == [] then 0
    else
      var s' := Step(bits, s, run[0]);
      (if run[0] == SweepNext(th) then 0 else Holding(s, t) - Holding(s', t)) +
      TakenElsewhere(bits, s', run[1..], th, t)
  }

  /** No step acquires anything for `t`. */
  ghost predicate NoGain(bits: Bits, s: State, run: seq<Action>, t: TxnId)
    requires Feasible(bits, s, run)
    decreases run
  {
    run == [] || (GainsNothing(s, run[0], t) && NoGain(bits, Step(bits, s, run[0]), run[1..], t))
  }

  /** No step but those of thread `th` releases anything of `t`. */
  ghost predicate Alone(bits: Bits, s: State, run: seq<Action>, th: nat, t: TxnId)
    requires Feasible(bits, s, run)
    decreases run
  {
    run == [] || (TakesNothing(s, run[0], th, t) && Alone(bits, Step(bits, s, run[0]), run[1..], th, t))
  }

  ghost predicate TakesNothing(s: State, a: Action, th: nat, t: TxnId)
    requires Enabled(s, a)
  {
    match a
    case Release(u, _) => u != t
    case ReleaseRange(u, _) => u != t
    case SweepNext(other) => other == th || s.sweeps[other].txn != t
    case _ => true
  }

  lemma FewerHeld(s: State, s': State, t: TxnId)
    requires forall r: ResourceId | (t, r) in s'.held :: (t, r) in s.held
    requires SpansOf(s'.spans, t) <= SpansOf(s.spans, t)
    ensures Holding(s', t) <= Holding(s, t)
  {
    forall k | k in LocksOf(s'.held, t) ensures k in LocksOf(s.held, t) {
      assert k == (t, k.1);
    }
    assert LocksOf(s.held, t) == LocksOf(s'.held, t) + (LocksOf(s.held, t) - LocksOf(s'.held, t));
    assert SpansOf(s.spans, t) == SpansOf(s'.spans, t) + (SpansOf(s.spans, t) - SpansOf(s'.spans, t));
  }

  /** A step of somebody else that releases nothing of a transaction being swept leaves it alone. */
  lemma OthersTakeNothing(bits: Bits, s: State, a: Action, th: nat, t: TxnId)
    requires Enabled(s, a) && GainsNothing(s, a, t)
    requires a != SweepNext(th) && TakesNothing(s, a, th, t)
    ensures var s' := Step(bits, s, a);
            LocksOf(s'.held, t) == LocksOf(s.held, t) && SpansOf(s'.spans, t) == SpansOf(s.spans, t)
  {
    hide CanGrant, CanGrantSpan, ShardIndex;
  }

  /** If nothing is acquired for its transaction during a call of `release_all`, whatever else callers
      do, the transaction holds neither locks nor ranges when the call returns. What it held when
      the call began, or at any later point, is what the remaining sections count plus what others
      release of it; and if nobody else releases anything of it, the counts add up to exactly what
      it held. */
  lemma {:induction false} InterleavedReleaseAll(bits: Bits, s: State, run: seq<Action>, th: nat)
    requires Feasible(bits, s, run) && OneCall(bits, s, run, th)
    requires SweepOk(bits, s, s.sweeps[th]) && NoGain(bits, s, run, s.sweeps[th].txn)
    ensures var t := s.sweeps[th].txn; var end := Exec(bits, s, run);
            th !in end.sweeps && HoldsNothing(end, t) &&
            Returned(bits, s, run, th, t) + TakenElsewhere(bits, s, run, th, t) == Holding(s, t) &&
            Returned(bits, s, run, th, t) >= 0 && TakenElsewhere(bits, s, run, th, t) >= 0 &&
            (Alone(bits, s, run, th, t) ==>
               Returned(bits, s, run, th, t) == |LocksOf(s.held, t)| + |SpansOf(s.spans, t)|)
    decreases run
  {
    var a := run[0];
    var t := s.sweeps[th].txn;
    var s' := Step(bits, s, a);
    OnlyLoses(bits, s, a, t);
    FewerHeld(s, s', t);
    if Alone(bits, s, run, th, t) && a != SweepNext(th) {
      OthersTakeNothing(bits, s, a, th, t);
    }
    CallGoesOn(bits, s, a, th);
    if th in s'.sweeps {
      InterleavedReleaseAll(bits, s', run[1..], th);
    } else {
      LastShardClears(bits, s, th);
      NothingIsZero(s', t);
    }
  }

  /** Right after a call has begun nothing needs to be known of the table, so the call that opens with
      `BeginReleaseAll` in any state leaves nothing behind. */
  lemma WholeReleaseAll(bits: Bits, s: State, th: nat, t: TxnId, run: seq<Action>)
    requires Enabled(s, BeginReleaseAll(th, t))
    requires var first := Step(bits, s, BeginReleaseAll(th, t));
             Feasible(bits, first, run) && OneCall(bits, first, run, th) && NoGain(bits, first, run, t)
    ensures var first := Step(bits, s, BeginReleaseAll(th, t)); var end := Exec(bits, first, run);
            HoldsNothing(end, t) &&
            Returned(bits, first, run, th, t) + TakenElsewhere(bits, first, run, th, t) == Holding(s, t) &&
            Returned(bits, first, run, th, t) >= 0 && TakenElsewhere(bits, first, run, th, t) >= 0 &&
            (Alone(bits, first, run, th, t) ==>
               Returned(bits, first, run, th, t) == |LocksOf(s.held, t)| + |SpansOf(s.spans, t)|)
  {
    InterleavedReleaseAll(bits, Step(bits, s, BeginReleaseAll(th, t)), run, th);
  }

  /** Callers that begin no acquisition for a transaction while it is being swept acquire nothing for
      it during the call. */
  lemma {:induction false} DepartingGainsNothing(bits: Bits, s: State, run: seq<Action>, th: nat)
    requires Feasible(bits, s, run) && OneCall(bits, s, run, th) && SweepsOf(bits, s, s.sweeps[th].txn)
    requires DepartsRun(bits, s, run, s.sweeps[th].txn)
    ensures NoGain(bits, s, run, s.sweeps[th].txn)
    decreases run
  {
    var t := s.sweeps[th].txn;
    var s' := Step(bits, s, run[0]);
    assert InSweep(s, t);
    CallGoesOn(bits, s, run[0], th);
    if th in s'.sweeps {
      StepKeepsSweeps(bits, s, run[0], t);
      DepartingGainsNothing(bits, s', run[1..], th);
    }
  }

  lemma NothingIsZero(s: State, t: TxnId)
    ensures HoldsNothing(s, t) <==> Holding(s, t) == 0
  {
    if HoldsNothing(s, t) {
      assert forall k | k in LocksOf(s.held, t) :: k == (t, k.1);
      assert LocksOf(s.held, t) == {};
    }
    if Holding(s, t) == 0 {
      assert forall r: ResourceId :: (t, r) in s.held ==> (t, r) in LocksOf(s.held, t);
      assert SpansOf(s.spans, t) == multiset{};
    }
  }

  /** A call keeps its transaction and its shards done stay clear; only its own last section ends it. */
  lemma CallGoesOn(bits: Bits, s: State, a: Action, th: nat)
    requires Enabled(s, a) && th in s.sweeps && SweepOk(bits, s, s.sweeps[th])
    ensures var s' := Step(bits, s, a);
            if th in s'.sweeps then
              s'.sweeps[th].txn == s.sweeps[th].txn &&
              (GainsNothing(s, a, s.sweeps[th].txn) ==> SweepOk(bits, s', s'.sweeps[th]))
            else a == SweepNext(th) && s.sweeps[th].next + 1 == Pow2(bits)
  {
    SweepsAfter(bits, s, a);
    if a == SweepNext(th) {
      SectionKeepsSweep(bits, s, th);
    } else if GainsNothing(s, a, s.sweeps[th].txn) {
      hide SweepOk, Step;
      OtherSweepStays(bits, s, a, th);
    }
    assert s.sweeps[th].next < Pow2(bits);
    hide SweepOk, Step;
  }
}
