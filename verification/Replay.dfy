/** The sharded manager against the flat reference model: for every sequence of calls, what a
    caller observes is a function of the flat table and of which of several equal ranges each
    `release_range` drops, so no two shard counts can be told apart by anything else. */
module Replay {
  import opened Ids
  import opened Collections
  import opened Modes
  import opened Ranges
  import opened Digraph
  import opened FlatTable
  import opened Manager

  datatype Call =
    | TryAcquire(txn: TxnId, res: ResourceId, mode: LockMode)
    | Release(txn: TxnId, res: ResourceId)
    | TryAcquireRange(txn: TxnId, space: ResourceId, range: KeyRange, mode: LockMode)
    | ReleaseRange(txn: TxnId, space: ResourceId, range: KeyRange)
    | ReleaseAll(txn: TxnId)
    | ModeHeld(txn: TxnId, res: ResourceId)
    | HolderCount(res: ResourceId)
    | Ask(txn: TxnId, res: ResourceId, mode: LockMode)
    | CancelWait(txn: TxnId)
    | Scan

  datatype Tag = IsGranted | IsWaiting | IsDeadlock

  /** What a caller sees; of a deadlock only that there is one, since which cycle is found depends
      on map order. */
  datatype Observation =
    | Answer(outcome: Outcome)
    | Count(n: nat)
    | HeldMode(mode: Option<LockMode>)
    | Verdict(tag: Tag)
    | Found(deadlock: bool)
    | Nothing

  datatype Flat = Flat(held: Held, spans: Spans, waits: Waits)

  const Empty := Flat(map[], map[], map[])

  ghost predicate HasRange(f: Flat, t: TxnId, space: ResourceId, range: KeyRange) {
    exists m :: Span(space, range, m) in SpansOf(f.spans, t)
  }

  ghost function Observe(f: Flat, c: Call): Observation {
    match c
    case TryAcquire(t, r, m) => Answer(if CanGrant(f.held, t, r, m) then Ok else Err(Conflict))
    case Release(t, r) => Answer(if (t, r) in f.held then Ok else Err(NotHeld))
    case TryAcquireRange(t, s, g, m) => Answer(if CanGrantSpan(f.spans, t, Span(s, g, m)) then Ok else Err(Conflict))
    case ReleaseRange(t, s, g) => Answer(if HasRange(f, t, s, g) then Ok else Err(NotHeld))
    case ReleaseAll(t) => Count(|LocksOf(f.held, t)| + |SpansOf(f.spans, t)|)
    case ModeHeld(t, r) => HeldMode(if (t, r) in f.held then Some(f.held[(t, r)]) else None)
    case HolderCount(r) => Count(|HoldersOf(f.held, r)|)
    case Ask(t, r, m) =>
      Verdict(if CanGrant(f.held, t, r, m) then IsGranted
              else if CycleReachable(WaitFor(f.held, f.waits[t := Request(r, m)]), t) then IsDeadlock
              else IsWaiting)
    case CancelWait(t) => Nothing
    case Scan => Found(!Acyclic(WaitFor(f.held, f.waits)))
  }

  /** `gone` is the mode of the range a `release_range` drops; no other call looks at it. */
  ghost function Apply(f: Flat, c: Call, gone: LockMode): Flat {
    match c
    case TryAcquire(t, r, m) => f.(held := TryGrant(f.held, t, r, m))
    case Release(t, r) => f.(held := DropLock(f.held, t, r))
    case TryAcquireRange(t, s, g, m) =>
      if CanGrantSpan(f.spans, t, Span(s, g, m)) then f.(spans := AddSpan(f.spans, t, Span(s, g, m))) else f
    case ReleaseRange(t, s, g) =>
      if HasRange(f, t, s, g) then f.(spans := RemoveSpan(f.spans, t, Span(s, g, gone))) else f
    case ReleaseAll(t) => Flat(DropTxn(f.held, t), DropSpans(f.spans, t), f.waits - {t})
    case Ask(t, r, m) =>
      if CanGrant(f.held, t, r, m) then f.(held := Grant(f.held, t, r, m), waits := f.waits - {t})
      else f.(waits := f.waits[t := Request(r, m)])
    case CancelWait(t) => f.(waits := f.waits - {t})
    case _ => f
  }

  /** What the model's calls on point locks and waits answer and do, entry by entry. */
  lemma PointCallsMean(f: Flat, c: Call, gone: LockMode)
    requires Safe(f.held)
    ensures var o, f' := Observe(f, c), Apply(f, c, gone);
            match c
            case TryAcquire(t, r, m) =>
              f' == f.(held := f'.held) &&
              if Blocked(f.held, t, r, m) then o == Answer(Err(Conflict)) && f' == f
              else o == Answer(Ok) && LeastGrant(f.held, f'.held, t, r, m)
            case Release(t, r) =>
              f' == f.(held := f'.held) && LockGone(f.held, f'.held, t, r) &&
              o == Answer(if (t, r) in f.held then Ok else Err(NotHeld))
            case Ask(t, r, m) =>
              if Blocked(f.held, t, r, m) then
                f' == f.(waits := f.waits[t := Request(r, m)]) &&
                o == Verdict(if CycleReachable(WaitFor(f'.held, f'.waits), t) then IsDeadlock else IsWaiting)
              else
                f' == f.(held := f'.held, waits := f.waits - {t}) && o == Verdict(IsGranted) &&
                LeastGrant(f.held, f'.held, t, r, m)
            case CancelWait(t) => f' == f.(waits := f.waits - {t})
            case ModeHeld(t, r) =>
              f' == f && if (t, r) in f.held then o == HeldMode(Some(f.held[(t, r)])) else o == HeldMode(None)
            case HolderCount(r) => f' == f && o == Count(|HoldersOf(f.held, r)|)
            case Scan => f' == f && (o == Found(false) <==> Acyclic(WaitFor(f.held, f.waits))) && o.Found?
            case _ => true
  {
    match c
    case TryAcquire(t, r, m) => GrantMeans(f.held, t, r, m);
    case Release(t, r) => DropMeans(f.held, t, r);
    case Ask(t, r, m) => GrantMeans(f.held, t, r, m);
    case _ =>
    hide CanGrant, Blocked, LeastGrant, LockGone, WaitFor, CycleReachable, Acyclic;
  }

  /** And the calls on ranges. */
  lemma RangeCallsMean(f: Flat, c: Call, gone: LockMode)
    requires Had(f, c, gone)
    ensures var o, f' := Observe(f, c), Apply(f, c, gone);
            match c
            case TryAcquireRange(t, s, g, m) =>
              f' == f.(spans := f'.spans) &&
              (forall u: TxnId | u != t :: SpansOf(f'.spans, u) == SpansOf(f.spans, u)) &&
              if CanGrantSpan(f.spans, t, Span(s, g, m)) then
                o == Answer(Ok) && SpansOf(f'.spans, t) == SpansOf(f.spans, t) + multiset{Span(s, g, m)}
              else o == Answer(Err(Conflict)) && f' == f
            case ReleaseRange(t, s, g) =>
              f' == f.(spans := f'.spans) &&
              (forall u: TxnId | u != t :: SpansOf(f'.spans, u) == SpansOf(f.spans, u)) &&
              if HasRange(f, t, s, g) then
                o == Answer(Ok) && Span(s, g, gone) in SpansOf(f.spans, t) &&
                SpansOf(f'.spans, t) == SpansOf(f.spans, t) - multiset{Span(s, g, gone)}
              else o == Answer(Err(NotHeld)) && f' == f
            case _ => true
  {
    hide CanGrantSpan, AddSpan, RemoveSpan, SpansOf;
    match c
    case TryAcquireRange(t, s, g, m) =>
      forall u: TxnId { SpansAfter(f.spans, t, Span(s, g, m), u); }
    case ReleaseRange(t, s, g) =>
      forall u: TxnId { SpansAfter(f.spans, t, Span(s, g, gone), u); }
    case _ =>
  }

  /** And the bulk release. */
  lemma BulkCallMeans(f: Flat, t: TxnId, gone: LockMode)
    ensures Observe(f, ReleaseAll(t)) == Count(|LocksOf(f.held, t)| + |SpansOf(f.spans, t)|)
    ensures var f' := Apply(f, ReleaseAll(t), gone);
            f'.waits == f.waits - {t} &&
            (forall k: (TxnId, ResourceId) ::
              (k in f'.held <==> k in f.held && k.0 != t) && (k in f'.held ==> f'.held[k] == f.held[k])) &&
            (forall u: TxnId :: SpansOf(f'.spans, u) == if u == t then multiset{} else SpansOf(f.spans, u))
  {
  }

  /** The range dropped is one of those held. */
  ghost predicate Had(f: Flat, c: Call, gone: LockMode) {
    c.ReleaseRange? && HasRange(f, c.txn, c.space, c.range) ==>
      Span(c.space, c.range, gone) in SpansOf(f.spans, c.txn)
  }

  ghost predicate AllHad(f: Flat, calls: seq<Call>, gone: seq<LockMode>)
    decreases calls
  {
    |gone| == |calls| &&
    (calls == [] || (Had(f, calls[0], gone[0]) && AllHad(Apply(f, calls[0], gone[0]), calls[1..], gone[1..])))
  }

  ghost function Expected(f: Flat, calls: seq<Call>, gone: seq<LockMode>): seq<Observation>
    requires |gone| == |calls|
    decreases calls
  {
    if calls == [] then []
    else [Observe(f, calls[0])] + Expected(Apply(f, calls[0], gone[0]), calls[1..], gone[1..])
  }

  /** One call on the real manager does what the flat model says. */
  method Perform(m: LockManager, c: Call) returns (o: Observation, ghost gone: LockMode)
    requires m.Valid()
    modifies m, m.shards
    ensures m.Valid()
    ensures o == Observe(Flat(old(m.held), old(m.spans), old(m.waits)), c)
    ensures Had(Flat(old(m.held), old(m.spans), old(m.waits)), c, gone)
    ensures Flat(m.held, m.spans, m.waits) == Apply(Flat(old(m.held), old(m.spans), old(m.waits)), c, gone)
  {
    hide CanGrant, CanGrantSpan, Acyclic, CycleReachable, WaitFor, Genuine;
    hide DropTxn, DropLock, DropSpans, AddSpan, RemoveSpan, SpansOf, LocksOf, LockManager.Valid;
    gone := IS;
    match c {
      case TryAcquire(t, r, mode) =>
        var outcome := m.TryAcquire(t, r, mode);
        o := Answer(outcome);
      case Release(t, r) =>
        var outcome := m.Release(t, r);
        o := Answer(outcome);
      case TryAcquireRange(t, s, g, mode) =>
        var outcome := m.TryAcquireRange(t, s, g, mode);
        o := Answer(outcome);
      case ReleaseRange(t, s, g) =>
        var outcome;
        outcome, gone := m.ReleaseRange(t, s, g);
        o := Answer(outcome);
      case ReleaseAll(t) =>
        var n := m.ReleaseAll(t);
        o := Count(n);
      case ModeHeld(t, r) =>
        var mode := m.ModeHeld(t, r);
        o := HeldMode(mode);
      case HolderCount(r) =>
        var n := m.HolderCount(r);
        o := Count(n);
      case Ask(t, r, mode) =>
        var result := m.Request(t, r, mode);
        o := Verdict(if result.Granted? then IsGranted else if result.Deadlocked? then IsDeadlock else IsWaiting);
      case CancelWait(t) =>
        m.CancelWait(t);
        o := Nothing;
      case Scan =>
        var found := m.FindDeadlock();
        o := Found(found.Some?);
    }
  }

  /** One more call at the end of a sequence. */
  lemma {:induction false} ExpectedAppend(f: Flat, calls: seq<Call>, gone: seq<LockMode>, c: Call, g: LockMode)
    requires AllHad(f, calls, gone) && Had(FlatAfter(f, calls, gone), c, g)
    ensures AllHad(f, calls + [c], gone + [g])
    ensures Expected(f, calls + [c], gone + [g]) == Expected(f, calls, gone) + [Observe(FlatAfter(f, calls, gone), c)]
    ensures FlatAfter(f, calls + [c], gone + [g]) == Apply(FlatAfter(f, calls, gone), c, g)
    decreases calls
  {
    if calls == [] {
      assert ([] + [c])[1..] == [] && ([] + [g])[1..] == [];
    } else {
      assert (calls + [c])[0] == calls[0] && (gone + [g])[0] == gone[0];
      assert (calls + [c])[1..] == calls[1..] + [c] && (gone + [g])[1..] == gone[1..] + [g];
      ExpectedAppend(Apply(f, calls[0], gone[0]), calls[1..], gone[1..], c, g);
    }
  }

  ghost function FlatAfter(f: Flat, calls: seq<Call>, gone: seq<LockMode>): Flat
    requires |gone| == |calls|
    decreases calls
  {
    if calls == [] then f else FlatAfter(Apply(f, calls[0], gone[0]), calls[1..], gone[1..])
  }

  /** Any sequence of calls on a manager in any state gives the observations of the flat model. */
  method PerformAll(m: LockManager, calls: seq<Call>) returns (seen: seq<Observation>, ghost gone: seq<LockMode>)
    requires m.Valid()
    modifies m, m.shards
    ensures m.Valid()
    ensures AllHad(Flat(old(m.held), old(m.spans), old(m.waits)), calls, gone)
    ensures seen == Expected(Flat(old(m.held), old(m.spans), old(m.waits)), calls, gone)
    ensures Flat(m.held, m.spans, m.waits) == FlatAfter(Flat(old(m.held), old(m.spans), old(m.waits)), calls, gone)
  {
    hide Observe, Apply, Had, LockManager.Valid;
    seen, gone := [], [];
    for i := 0 to |calls|
      invariant m.Valid() && AllHad(Flat(old(m.held), old(m.spans), old(m.waits)), calls[..i], gone)
      invariant seen == Expected(Flat(old(m.held), old(m.spans), old(m.waits)), calls[..i], gone)
      invariant Flat(m.held, m.spans, m.waits) ==
                FlatAfter(Flat(old(m.held), old(m.spans), old(m.waits)), calls[..i], gone)
    {
      hide AllHad, Expected, FlatAfter;
      var o;
      ghost var g;
      o, g := Perform(m, calls[i]);
      ExpectedAppend(Flat(old(m.held), old(m.spans), old(m.waits)), calls[..i], gone, calls[i], g);
      assert calls[..i + 1] == calls[..i] + [calls[i]];
      seen := seen + [o];
      gone := gone + [g];
    }
    assert calls[..|calls|] == calls;
  }

  /** Every `release_range` finds the range in one mode only, so it does not matter which of several
      equal locks goes. */
  ghost predicate Unambiguous(f: Flat, calls: seq<Call>)
    decreases calls
  {
    calls == [] ||
    (OneMode(f, calls[0]) &&
     forall g | Had(f, calls[0], g) :: Unambiguous(Apply(f, calls[0], g), calls[1..]))
  }

  ghost predicate OneMode(f: Flat, c: Call) {
    c.ReleaseRange? ==>
      forall m, n | Span(c.space, c.range, m) in SpansOf(f.spans, c.txn) &&
                    Span(c.space, c.range, n) in SpansOf(f.spans, c.txn) ::
        m == n
  }

  lemma {:induction false} ChoiceIsForced(f: Flat, calls: seq<Call>, one: seq<LockMode>, two: seq<LockMode>)
    requires AllHad(f, calls, one) && AllHad(f, calls, two) && Unambiguous(f, calls)
    ensures Expected(f, calls, one) == Expected(f, calls, two) && FlatAfter(f, calls, one) == FlatAfter(f, calls, two)
    decreases calls
  {
    if calls != [] {
      assert Apply(f, calls[0], one[0]) == Apply(f, calls[0], two[0]);
      ChoiceIsForced(Apply(f, calls[0], one[0]), calls[1..], one[1..], two[1..]);
    }
  }

  /** The same calls on two managers in the same state, whatever their shard counts, give observations
      of the flat model, and the same ones and the same state again, unless some `release_range` had
      locks in different modes to choose from. */
  method AnyShardCounts(a: LockManager, b: LockManager, calls: seq<Call>)
    returns (one: seq<Observation>, two: seq<Observation>, ghost goneOne: seq<LockMode>, ghost goneTwo: seq<LockMode>)
    requires a.Valid() && b.Valid() && a != b && forall x | x in b.shards :: x !in a.shards
    requires a.held == b.held && a.spans == b.spans && a.waits == b.waits
    modifies a, a.shards, b, b.shards
    ensures a.Valid() && b.Valid()
    ensures var f := Flat(old(a.held), old(a.spans), old(a.waits));
            AllHad(f, calls, goneOne) && one == Expected(f, calls, goneOne) &&
            AllHad(f, calls, goneTwo) && two == Expected(f, calls, goneTwo) &&
            (Unambiguous(f, calls) ==> one == two && a.held == b.held && a.spans == b.spans && a.waits == b.waits)
  {
    hide Observe, Apply, Had, AllHad, Expected, FlatAfter, Unambiguous, LockManager.Valid;
    ghost var f := Flat(a.held, a.spans, a.waits);
    label Before:
    one, goneOne := PerformAll(a, calls);
    forall i | 0 <= i < |b.shards| ensures unchanged@Before(b.shards[i]) {
      assert b.shards[i] in b.shards;
    }
    b.Untouched@Before();
    label Between:
    two, goneTwo := PerformAll(b, calls);
    forall i | 0 <= i < |a.shards| ensures unchanged@Between(a.shards[i]) {
      assert a.shards[i] in a.shards;
    }
    a.Untouched@Between();
    if Unambiguous(f, calls) { ChoiceIsForced(f, calls, goneOne, goneTwo); }
  }

  /** In particular, on empty managers with any two shard counts. */
  method AnyTwoShardCounts(first: nat, second: nat, calls: seq<Call>)
    returns (one: seq<Observation>, two: seq<Observation>, ghost a: LockManager, ghost b: LockManager)
    requires first <= 0x8000_0000_0000_0000 && second <= 0x8000_0000_0000_0000
    ensures |a.shards| >= first && (|a.shards| > 1 ==> |a.shards| < 2 * first)
    ensures |b.shards| >= second && (|b.shards| > 1 ==> |b.shards| < 2 * second)
    ensures Unambiguous(Empty, calls) ==> one == two
    ensures exists gone :: AllHad(Empty, calls, gone) && one == Expected(Empty, calls, gone)
  {
    var x := new LockManager.WithShards(first);
    var y := new LockManager.WithShards(second);
    ghost var goneOne, goneTwo;
    one, two, goneOne, goneTwo := AnyShardCounts(x, y, calls);
    a, b := x, y;
  }
}
