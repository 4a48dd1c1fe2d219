/** The manager under concurrency, one atomic step per mutex critical section. (`Attempt` is two: the
    shard section that decides a grant and the update of the registry. `SettlingCommutes` says why.)

    `release_all` is a wait-registry section followed by one section per shard; `request` and
    `find_deadlock` hold the registry mutex while they visit shards one at a time. Between any two
    sections other threads may run theirs. */
module Protocol {
  import opened Ids
  import opened Collections
  import opened Modes
  import opened Ranges
  import opened Routing
  import opened Digraph
  import opened FlatTable
  import opened Merging

  /** A `release_all` in progress: shards below `next` are done. */
  datatype Sweep = Sweep(txn: TxnId, next: nat)

  /** Who holds the registry mutex: nobody, a `request` about to try its grant, or a graph build
      (for a refused requester, or for `find_deadlock`) with `todo` waiters still to read. */
  datatype Job =
    | Free
    | Requesting(txn: TxnId, req: Request)
    | Building(who: Option<TxnId>, todo: set<TxnId>, graph: Graph)

  datatype State = State(held: Held, spans: Spans, waits: Waits, sweeps: map<nat, Sweep>, job: Job)

  datatype Action =
    | TryAcquire(txn: TxnId, res: ResourceId, mode: LockMode)
    | Release(txn: TxnId, res: ResourceId)
    | TryAcquireRange(txn: TxnId, span: Span)
    | ReleaseRange(txn: TxnId, span: Span)
    | BeginReleaseAll(thread: nat, txn: TxnId)
    | SweepNext(thread: nat)
    | CancelWait(txn: TxnId)
    | BeginRequest(txn: TxnId, req: Request)
    | Attempt
    | BeginScan
    | ReadBlockers(waiter: TxnId)
    | Conclude

  const Start := State(map[], map[], map[], map[], Free)

  ghost predicate InSweep(s: State, t: TxnId) {
    exists th :: th in s.sweeps && s.sweeps[th].txn == t
  }

  /** What the mutexes allow: registry sections need the registry mutex. */
  ghost predicate Enabled(s: State, a: Action) {
    match a
    case TryAcquire(_, _, _) => true
    case Release(_, _) => true
    case TryAcquireRange(_, _) => true
    case ReleaseRange(_, _) => true
    case BeginReleaseAll(th, _) => s.job.Free? && th !in s.sweeps
    case SweepNext(th) => th in s.sweeps
    case CancelWait(_) => s.job.Free?
    case BeginRequest(_, _) => s.job.Free?
    case Attempt => s.job.Requesting?
    case BeginScan => s.job.Free?
    case ReadBlockers(w) => s.job.Building? && w in s.job.todo
    case Conclude => s.job.Building? && s.job.todo == {}
  }

  /** What detection asks of callers: a registered waiter is suspended, so it neither acquires nor
      releases point locks except by retrying `request` or being aborted; and no `request` is begun
      for a transaction while a `release_all` of it is in progress. */
  ghost predicate Suspended(s: State, a: Action) {
    match a
    case TryAcquire(t, _, _) => t !in s.waits
    case Release(t, _) => t !in s.waits
    case BeginRequest(t, _) => !InSweep(s, t)
    case _ => true
  }

  /** What the bulk release of one transaction asks of callers: nothing is acquired for it, and no
      `request` begun, while its `release_all` is in progress. */
  ghost predicate Departs(s: State, a: Action, t: TxnId) {
    (a.TryAcquire? || a.TryAcquireRange? || a.BeginRequest?) && a.txn == t ==> !InSweep(s, t)
  }

  /** Both, the second for every transaction. */
  ghost predicate Disciplined(s: State, a: Action) {
    Suspended(s, a) && (a.TryAcquire? || a.TryAcquireRange? ==> !InSweep(s, a.txn))
  }

  ghost function Step(bits: Bits, s: State, a: Action): State
    requires Enabled(s, a)
  {
    match a
    case TryAcquire(t, r, m) => s.(held := TryGrant(s.held, t, r, m))
    case Release(t, r) => s.(held := DropLock(s.held, t, r))
    case TryAcquireRange(t, x) => if CanGrantSpan(s.spans, t, x) then s.(spans := AddSpan(s.spans, t, x)) else s
    case ReleaseRange(t, x) => if x in SpansOf(s.spans, t) then s.(spans := RemoveSpan(s.spans, t, x)) else s
    case BeginReleaseAll(th, t) => s.(waits := s.waits - {t}, sweeps := s.sweeps[th := Sweep(t, 0)])
    case SweepNext(th) => SweepOne(bits, s, th)
    case CancelWait(t) => s.(waits := s.waits - {t})
    case BeginRequest(t, req) => s.(job := Requesting(t, req))
    case Attempt =>
      var Requesting(t, req) := s.job;
      if CanGrant(s.held, t, req.res, req.mode) then
        s.(held := Grant(s.held, t, req.res, req.mode), waits := s.waits - {t}, job := Free)
      else
        var waits := s.waits[t := req];
        s.(waits := waits, job := Building(Some(t), waits.Keys, map[]))
    case BeginScan => s.(job := Building(None, s.waits.Keys, map[]))
    case ReadBlockers(w) =>
      s.(job := Building(s.job.who, s.job.todo - {w}, s.job.graph[w := ReadEdges(s, w)]))
    case Conclude => s.(job := Free)
  }

  /** What `request` does to the registry once its grant has been decided. */
  ghost function Settle(s: State, t: TxnId, req: Request, granted: bool): State {
    if granted then s.(waits := s.waits - {t}, job := Free)
    else
      var waits := s.waits[t := req];
      s.(waits := waits, job := Building(Some(t), waits.Keys, map[]))
  }

  /** An attempt is the shard section that decides the grant, then the update of the registry. */
  lemma AttemptSettles(bits: Bits, s: State)
    requires s.job.Requesting?
    ensures var Requesting(t, req) := s.job;
            Step(bits, s, Attempt) ==
            Settle(s.(held := TryGrant(s.held, t, req.res, req.mode)), t, req, CanGrant(s.held, t, req.res, req.mode))
  {
  }

  /** One step is enough for the two: what other threads can do in between, with the registry
      mutex taken, neither sees the registry nor changes it, so it may as well come after. It is
      as disciplined there, provided it is not a call for the requester itself: the calls for one
      transaction are made one after the other. */
  lemma SettlingCommutes(bits: Bits, s: State, a: Action, t: TxnId, req: Request, granted: bool)
    requires s.job.Requesting? && Enabled(s, a) && !a.Attempt?
    ensures Enabled(Settle(s, t, req, granted), a)
    ensures Step(bits, Settle(s, t, req, granted), a) == Settle(Step(bits, s, a), t, req, granted)
    ensures Disciplined(s, a) && (a.TryAcquire? || a.Release? ==> a.txn != t) ==>
              Disciplined(Settle(s, t, req, granted), a)
  {
    hide CanGrant, CanGrantSpan, DropIn, DropSpansIn;
  }

  /** One shard's section of a bulk release; after the last shard the call is over. */
  ghost function SweepOne(bits: Bits, s: State, th: nat): State
    requires th in s.sweeps
  {
    var Sweep(t, n) := s.sweeps[th];
    s.(held := DropIn(bits, s.held, t, n),
       spans := DropSpansIn(bits, s.spans, t, n),
       sweeps := if n + 1 < Pow2(bits) then s.sweeps[th := Sweep(t, n + 1)] else s.sweeps - {th})
  }

  function ReadEdges(s: State, w: TxnId): set<TxnId> {
    if w in s.waits then Blockers(s.held, w, s.waits[w].res, s.waits[w].mode) else {}
  }

  /** The wait-for relation of this very instant. */
  function TrueGraph(s: State): Graph {
    WaitFor(s.held, s.waits)
  }

  // ---- runs ----------------------------------------------------------------------------

  /** A run the mutexes allow, whatever the callers do. */
  ghost predicate Feasible(bits: Bits, s: State, run: seq<Action>)
    decreases run
  {
    run == [] || (Enabled(s, run[0]) && Feasible(bits, Step(bits, s, run[0]), run[1..]))
  }

  /** A run whose callers keep waiters suspended. */
  ghost predicate SuspendedRun(bits: Bits, s: State, run: seq<Action>): (kept: bool)
    ensures kept ==> Feasible(bits, s, run)
    decreases run
  {
    run == [] || (Enabled(s, run[0]) && Suspended(s, run[0]) && SuspendedRun(bits, Step(bits, s, run[0]), run[1..]))
  }

  /** A run that acquires nothing for `t` while it is being released in bulk. */
  ghost predicate DepartsRun(bits: Bits, s: State, run: seq<Action>, t: TxnId)
    requires Feasible(bits, s, run)
    decreases run
  {
    run == [] || (Departs(s, run[0], t) && DepartsRun(bits, Step(bits, s, run[0]), run[1..], t))
  }

  /** A feasible run of disciplined callers. */
  ghost predicate Legal(bits: Bits, s: State, run: seq<Action>): (legal: bool)
    ensures legal ==> SuspendedRun(bits, s, run) && forall t :: DepartsRun(bits, s, run, t)
    decreases run
  {
    run == [] || (Enabled(s, run[0]) && Disciplined(s, run[0]) && Legal(bits, Step(bits, s, run[0]), run[1..]))
  }

  ghost function Exec(bits: Bits, s: State, run: seq<Action>): State
    requires Feasible(bits, s, run)
    decreases run
  {
    if run == [] then s else Exec(bits, Step(bits, s, run[0]), run[1..])
  }

  /** The state before step `i` of a run. */
  ghost function StateAt(bits: Bits, s: State, run: seq<Action>, i: nat): State
    requires Feasible(bits, s, run) && i <= |run|
    decreases run
  {
    if i == 0 then s else StateAt(bits, Step(bits, s, run[0]), run[1..], i - 1)
  }

  /** The states of a run: the first, each that a step leads to, and the last. */
  lemma {:induction false} StateAtMeans(bits: Bits, s: State, run: seq<Action>, i: nat)
    requires Feasible(bits, s, run) && i < |run|
    ensures StateAt(bits, s, run, 0) == s && StateAt(bits, s, run, |run|) == Exec(bits, s, run)
    ensures Enabled(StateAt(bits, s, run, i), run[i])
    ensures StateAt(bits, s, run, i + 1) == Step(bits, StateAt(bits, s, run, i), run[i])
    decreases run
  {
    if i > 0 {
      StateAtMeans(bits, Step(bits, s, run[0]), run[1..], i - 1);
    } else if |run| > 1 {
      StateAtMeans(bits, Step(bits, s, run[0]), run[1..], 0);
    }
  }

  lemma ExecAppend(bits: Bits, s: State, a: seq<Action>, b: seq<Action>)
    requires Feasible(bits, s, a) && Feasible(bits, Exec(bits, s, a), b)
    ensures Feasible(bits, s, a + b) && Exec(bits, s, a + b) == Exec(bits, Exec(bits, s, a), b)
    decreases a
  {
    if a == [] {
      assert a + b == b;
    } else {
      assert (a + b)[1..] == a[1..] + b;
      ExecAppend(bits, Step(bits, s, a[0]), a[1..], b);
    }
  }

  /** `s` is a state some run of disciplined callers leads to. */
  ghost predicate Reached(bits: Bits, s: State) {
    exists run :: Legal(bits, Start, run) && Exec(bits, Start, run) == s
  }

  lemma {:induction false} LegalAppend(bits: Bits, s: State, run: seq<Action>, a: Action)
    requires Legal(bits, s, run) && Enabled(Exec(bits, s, run), a) && Disciplined(Exec(bits, s, run), a)
    ensures Legal(bits, s, run + [a]) && Exec(bits, s, run + [a]) == Step(bits, Exec(bits, s, run), a)
    decreases run
  {
    if run == [] {
      assert [a][1..] == [];
    } else {
      assert (run + [a])[0] == run[0] && (run + [a])[1..] == run[1..] + [a];
      LegalAppend(bits, Step(bits, s, run[0]), run[1..], a);
    }
  }

  lemma ReachedNext(bits: Bits, s: State, a: Action)
    requires Reached(bits, s) && Enabled(s, a) && Disciplined(s, a)
    ensures Reached(bits, Step(bits, s, a))
  {
    var run :| Legal(bits, Start, run) && Exec(bits, Start, run) == s;
    LegalAppend(bits, Start, run, a);
  }

  // ---- the invariant -------------------------------------------------------------------

  /** A sweep in progress: its transaction holds neither locks nor ranges in the shards done. */
  ghost predicate SweepOk(bits: Bits, s: State, w: Sweep) {
    w.next < Pow2(bits) &&
    (forall k | k in s.held && k.0 == w.txn :: w.next <= ShardIndex(bits, k.1)) &&
    forall x: Span | x in SpansOf(s.spans, w.txn) :: w.next <= ShardIndex(bits, x.space)
  }

  /** The sweeps of `t` are sound, and no request for it is under way meanwhile. */
  ghost predicate SweepsOf(bits: Bits, s: State, t: TxnId) {
    (forall th | th in s.sweeps && s.sweeps[th].txn == t :: SweepOk(bits, s, s.sweeps[th])) &&
    (s.job.Requesting? && s.job.txn == t ==> !InSweep(s, t))
  }

  /** No transaction being swept waits or has a request under way. */
  ghost predicate Parted(s: State) {
    (forall th | th in s.sweeps :: s.sweeps[th].txn !in s.waits) &&
    (s.job.Requesting? ==> !InSweep(s, s.job.txn))
  }

  /** A build visits only waiters, and has edges only out of those it has read. */
  ghost predicate JobOk(s: State) {
    s.job.Building? ==>
      s.job.todo <= s.waits.Keys && (s.job.who.Some? ==> s.job.who.value in s.waits) &&
      forall v :: (v in s.waits && v !in s.job.todo) || Succ(s.job.graph, v) == {}
  }

  /** The part of the graph already read agrees, on edges between waiters, with this instant. */
  ghost predicate GraphOk(s: State) {
    JobOk(s) &&
    (s.job.Building? ==> forall v | v in s.waits && v !in s.job.todo ::
      Succ(s.job.graph, v) * s.waits.Keys == ReadEdges(s, v) * s.waits.Keys)
  }

  /** What detection keeps: waiters are not swept, and graphs in the making are right. */
  ghost predicate WaitInv(s: State) {
    Parted(s) && GraphOk(s)
  }

  ghost predicate Inv(bits: Bits, s: State) {
    Safe(s.held) && RangesSafe(s.spans) && (forall t :: SweepsOf(bits, s, t)) && WaitInv(s)
  }

  // ---- what holds whatever the callers do ----------------------------------------------

  /** Builds and sweeps in progress are well formed. */
  ghost predicate Shape(bits: Bits, s: State) {
    JobOk(s) && forall th | th in s.sweeps :: s.sweeps[th].next < Pow2(bits)
  }

  lemma StepKeepsShape(bits: Bits, s: State, a: Action)
    requires Shape(bits, s) && Enabled(s, a)
    ensures Shape(bits, Step(bits, s, a))
  {
  }

  lemma {:induction false} RunKeepsShape(bits: Bits, s: State, run: seq<Action>)
    requires Shape(bits, s) && Feasible(bits, s, run)
    ensures Shape(bits, Exec(bits, s, run))
    decreases run
  {
    if run != [] {
      StepKeepsShape(bits, s, run[0]);
      RunKeepsShape(bits, Step(bits, s, run[0]), run[1..]);
    }
  }

  // ---- what a step does to the table ---------------------------------------------------

  /** The locks of the transactions in `w` on `r` are the same in both tables. */
  ghost predicate SameAt(held: Held, held': Held, w: set<TxnId>, r: ResourceId) {
    forall t: TxnId | t in w ::
      ((t, r) in held <==> (t, r) in held') && ((t, r) in held ==> held[(t, r)] == held'[(t, r)])
  }

  lemma BlockersInside(held: Held, held': Held, w: set<TxnId>, t: TxnId, r: ResourceId, m: LockMode)
    requires SameAt(held, held', w, r)
    ensures Blockers(held, t, r, m) * w == Blockers(held', t, r, m) * w
  {
    BlockersMeaning(held, t, r, m);
    BlockersMeaning(held', t, r, m);
  }

  lemma DropKeepsSafe(held: Held, fewer: Held)
    requires Safe(held) && forall k | k in fewer :: k in held && held[k] == fewer[k]
    ensures Safe(fewer)
  {
  }

  lemma DropSpansKeepSafe(bits: Bits, spans: Spans, t: TxnId, n: nat)
    requires RangesSafe(spans)
    ensures RangesSafe(DropSpansIn(bits, spans, t, n))
  {
    hide ShardIndex;
    FewerSpansSafe(spans, DropSpansIn(bits, spans, t, n));
  }

  lemma StepKeepsSafe(bits: Bits, s: State, a: Action)
    requires Safe(s.held) && Enabled(s, a)
    ensures Safe(Step(bits, s, a).held)
  {
    hide CanGrant, ShardIndex, CanGrantSpan, Safe;
    var s' := Step(bits, s, a);
    match a
    case TryAcquire(t, r, m) => GrantKeepsSafe(s.held, t, r, m);
    case Release(t, r) => DropKeepsSafe(s.held, s'.held);
    case SweepNext(th) => DropKeepsSafe(s.held, s'.held);
    case Attempt => GrantKeepsSafe(s.held, s.job.txn, s.job.req.res, s.job.req.mode);
    case _ =>
  }

  lemma StepKeepsRangesSafe(bits: Bits, s: State, a: Action)
    requires RangesSafe(s.spans) && Enabled(s, a)
    ensures RangesSafe(Step(bits, s, a).spans)
  {
    hide CanGrant, ShardIndex, CanGrantSpan, RangesSafe, DropSpansIn, AddSpan, RemoveSpan;
    match a
    case TryAcquireRange(t, x) =>
      if CanGrantSpan(s.spans, t, x) { AddSpanKeepsSafe(s.spans, t, x); }
    case ReleaseRange(t, x) => RemoveSpanKeepsSafe(s.spans, t, x);
    case SweepNext(th) => DropSpansKeepSafe(bits, s.spans, s.sweeps[th].txn, s.sweeps[th].next);
    case _ =>
  }

  lemma SweepsAfter(bits: Bits, s: State, a: Action)
    requires Enabled(s, a)
    ensures Step(bits, s, a).sweeps ==
            match a
            case BeginReleaseAll(th, t) => s.sweeps[th := Sweep(t, 0)]
            case SweepNext(th) =>
              var Sweep(t, n) := s.sweeps[th];
              if n + 1 < Pow2(bits) then s.sweeps[th := Sweep(t, n + 1)] else s.sweeps - {th}
            case _ => s.sweeps
  {
    hide CanGrant, CanGrantSpan, DropIn, DropSpansIn, Pow2;
  }

  /** The step acquires nothing for `t`. */
  ghost predicate GainsNothing(s: State, a: Action, t: TxnId) {
    match a
    case TryAcquire(u, _, _) => u != t
    case TryAcquireRange(u, _) => u != t
    case Attempt => s.job.Requesting? ==> s.job.txn != t
    case _ => true
  }

  /** A step that acquires nothing for a transaction only takes from it. */
  lemma OnlyLoses(bits: Bits, s: State, a: Action, t: TxnId)
    requires Enabled(s, a) && GainsNothing(s, a, t)
    ensures var s' := Step(bits, s, a);
            (forall r: ResourceId | (t, r) in s'.held :: (t, r) in s.held) &&
            SpansOf(s'.spans, t) <= SpansOf(s.spans, t)
  {
    hide CanGrant, CanGrantSpan, ShardIndex, SpansOf, DropSpansIn;
    LosesSpans(bits, s, a, t);
  }

  lemma SpansStepped(bits: Bits, s: State, a: Action)
    requires Enabled(s, a)
    ensures Step(bits, s, a).spans ==
            match a
            case TryAcquireRange(t, x) => if CanGrantSpan(s.spans, t, x) then AddSpan(s.spans, t, x) else s.spans
            case ReleaseRange(t, x) => if x in SpansOf(s.spans, t) then RemoveSpan(s.spans, t, x) else s.spans
            case SweepNext(th) => DropSpansIn(bits, s.spans, s.sweeps[th].txn, s.sweeps[th].next)
            case _ => s.spans
  {
    hide CanGrant, CanGrantSpan, DropIn, DropSpansIn, SpansOf, AddSpan, RemoveSpan;
  }

  lemma LosesSpans(bits: Bits, s: State, a: Action, t: TxnId)
    requires Enabled(s, a) && (a.TryAcquireRange? ==> a.txn != t)
    ensures SpansOf(Step(bits, s, a).spans, t) <= SpansOf(s.spans, t)
  {
    SpansStepped(bits, s, a);
    hide Step, CanGrantSpan, ShardIndex, AddSpan, RemoveSpan;
    match a
    case TryAcquireRange(u, x) => SpansAfter(s.spans, u, x, t);
    case ReleaseRange(u, x) => SpansAfter(s.spans, u, x, t);
    case _ =>
  }

  /** A section of a sweep leaves nothing of its transaction in its shard. */
  lemma SectionClears(bits: Bits, s: State, th: nat)
    requires th in s.sweeps && SweepOk(bits, s, s.sweeps[th])
    ensures var Sweep(t, n) := s.sweeps[th]; var s' := SweepOne(bits, s, th);
            (forall r: ResourceId | (t, r) in s'.held :: n < ShardIndex(bits, r)) &&
            forall x: Span | x in SpansOf(s'.spans, t) :: n < ShardIndex(bits, x.space)
  {
    hide ShardIndex;
  }

  /** Losing more cannot spoil a sweep. */
  lemma LosingKeepsSweep(bits: Bits, s: State, s': State, w: Sweep)
    requires SweepOk(bits, s, w)
    requires forall r: ResourceId | (w.txn, r) in s'.held :: (w.txn, r) in s.held
    requires SpansOf(s'.spans, w.txn) <= SpansOf(s.spans, w.txn)
    ensures SweepOk(bits, s', w)
  {
    hide ShardIndex, SpansOf;
    forall k | k in s'.held && k.0 == w.txn ensures w.next <= ShardIndex(bits, k.1) {
      assert k == (w.txn, k.1);
    }
  }

  lemma SectionKeepsSweep(bits: Bits, s: State, th: nat)
    requires th in s.sweeps && SweepOk(bits, s, s.sweeps[th])
    ensures var s' := SweepOne(bits, s, th); th in s'.sweeps ==> SweepOk(bits, s', s'.sweeps[th])
  {
    SectionClears(bits, s, th);
    hide ShardIndex, SpansOf, DropSpansIn, DropIn;
    var Sweep(t, n) := s.sweeps[th];
    forall k | k in SweepOne(bits, s, th).held && k.0 == t ensures n < ShardIndex(bits, k.1) {
      assert k == (t, k.1);
    }
  }

  lemma OtherSweepStays(bits: Bits, s: State, a: Action, th: nat)
    requires Enabled(s, a) && th in s.sweeps && a != SweepNext(th) && SweepOk(bits, s, s.sweeps[th])
    requires GainsNothing(s, a, s.sweeps[th].txn)
    ensures var s' := Step(bits, s, a);
            th in s'.sweeps && s'.sweeps[th] == s.sweeps[th] && SweepOk(bits, s', s'.sweeps[th])
  {
    hide Step, SweepOk;
    OnlyLoses(bits, s, a, s.sweeps[th].txn);
    LosingKeepsSweep(bits, s, Step(bits, s, a), s.sweeps[th]);
    SweepsAfter(bits, s, a);
  }

  lemma StepKeepsRequester(bits: Bits, s: State, a: Action, t: TxnId)
    requires Enabled(s, a) && (a.BeginRequest? && a.txn == t ==> !InSweep(s, t))
    requires s.job.Requesting? && s.job.txn == t ==> !InSweep(s, t)
    ensures var s' := Step(bits, s, a); s'.job.Requesting? && s'.job.txn == t ==> !InSweep(s', t)
  {
    hide CanGrant, CanGrantSpan, DropIn, DropSpansIn;
  }

  /** The bulk releases of a transaction stay sound if nothing is acquired for it meanwhile,
      whatever is done for others. */
  lemma StepKeepsSweeps(bits: Bits, s: State, a: Action, t: TxnId)
    requires SweepsOf(bits, s, t) && Enabled(s, a) && Departs(s, a, t)
    ensures SweepsOf(bits, Step(bits, s, a), t)
  {
    var s' := Step(bits, s, a);
    StepKeepsRequester(bits, s, a, t);
    SweepsAfter(bits, s, a);
    forall th | th in s'.sweeps && s'.sweeps[th].txn == t ensures SweepOk(bits, s', s'.sweeps[th]) {
      if a == SweepNext(th) {
        SectionKeepsSweep(bits, s, th);
      } else if th in s.sweeps {
        hide Step, SweepOk;
        OtherSweepStays(bits, s, a, th);
      } else {
        hide ShardIndex;
        assert Pow2(bits) >= 1;
      }
    }
  }

  lemma StepKeepsParted(bits: Bits, s: State, a: Action)
    requires Parted(s) && Enabled(s, a) && Suspended(s, a)
    ensures Parted(Step(bits, s, a))
  {
    hide CanGrant, CanGrantSpan, DropIn, DropSpansIn, Pow2;
  }

  /** What a step can do to a build under way. */
  lemma BuildStep(bits: Bits, s: State, a: Action)
    requires s.job.Building? && Enabled(s, a)
    ensures var s' := Step(bits, s, a);
            !a.BeginRequest? && !a.BeginScan? && !a.Attempt? && s'.waits == s.waits &&
            if a.Conclude? then s'.job.Free? && s.job.todo == {}
            else
              s'.job.Building? &&
              (if a.ReadBlockers? then a.waiter in s.job.todo && s'.job.todo == s.job.todo - {a.waiter}
               else s'.job.todo == s.job.todo)
  {
    hide CanGrant, CanGrantSpan, DropIn, DropSpansIn;
  }

  /** The step changes no edge between registered waiters. */
  ghost predicate LeavesEdges(bits: Bits, s: State, a: Action)
    requires Enabled(s, a)
  {
    forall v | v in s.waits ::
      Blockers(Step(bits, s, a).held, v, s.waits[v].res, s.waits[v].mode) * s.waits.Keys ==
      ReadEdges(s, v) * s.waits.Keys
  }

  ghost predicate Awaited(waits: Waits, r: ResourceId) {
    exists w :: w in waits && waits[w].res == r
  }

  /** No acquisition or release changes one, unless a waiter takes or gives up a lock on a resource
      that some waiter waits for, and no section of the bulk release of somebody else does. */
  lemma OthersLeaveEdges(bits: Bits, s: State, a: Action)
    requires Enabled(s, a) && !a.Attempt?
    requires a.TryAcquire? || a.Release? ==> a.txn !in s.waits || !Awaited(s.waits, a.res)
    requires a.SweepNext? ==> s.sweeps[a.thread].txn !in s.waits
    ensures LeavesEdges(bits, s, a)
  {
    hide CanGrant, ShardIndex, CanGrantSpan, Blockers;
    forall v | v in s.waits
      ensures Blockers(Step(bits, s, a).held, v, s.waits[v].res, s.waits[v].mode) * s.waits.Keys ==
              ReadEdges(s, v) * s.waits.Keys
    {
      BlockersInside(s.held, Step(bits, s, a).held, s.waits.Keys, v, s.waits[v].res, s.waits[v].mode);
    }
  }

  /** While no grant is being decided, suspended waiters keep the edges between them. */
  lemma SuspendedLeavesEdges(bits: Bits, s: State, a: Action)
    requires Parted(s) && Enabled(s, a) && Suspended(s, a) && !a.Attempt?
    ensures LeavesEdges(bits, s, a)
  {
    OthersLeaveEdges(bits, s, a);
  }

  /** A graph in the making stays right as long as no step changes an edge between waiters. */
  lemma StepKeepsGraph(bits: Bits, s: State, a: Action)
    requires GraphOk(s) && Enabled(s, a) && (s.job.Building? ==> LeavesEdges(bits, s, a))
    ensures GraphOk(Step(bits, s, a))
  {
    hide CanGrant, ShardIndex, CanGrantSpan, Outside, Blockers;
  }

  /** Whatever callers do with bulk releases, suspended waiters keep detection right. */
  lemma StepKeepsWaitInv(bits: Bits, s: State, a: Action)
    requires WaitInv(s) && Enabled(s, a) && Suspended(s, a)
    ensures WaitInv(Step(bits, s, a))
  {
    StepKeepsParted(bits, s, a);
    if s.job.Building? { SuspendedLeavesEdges(bits, s, a); }
    StepKeepsGraph(bits, s, a);
  }

  lemma {:induction false} RunKeepsWaitInv(bits: Bits, s: State, run: seq<Action>)
    requires WaitInv(s) && SuspendedRun(bits, s, run)
    ensures WaitInv(Exec(bits, s, run))
    decreases run
  {
    if run != [] {
      StepKeepsWaitInv(bits, s, run[0]);
      RunKeepsWaitInv(bits, Step(bits, s, run[0]), run[1..]);
    }
  }

  /** Every step of every disciplined thread keeps the invariant. */
  lemma StepKeepsInv(bits: Bits, s: State, a: Action)
    requires Inv(bits, s) && Enabled(s, a) && Disciplined(s, a)
    ensures Inv(bits, Step(bits, s, a))
  {
    StepKeepsSafe(bits, s, a);
    StepKeepsRangesSafe(bits, s, a);
    StepKeepsWaitInv(bits, s, a);
    forall t ensures SweepsOf(bits, Step(bits, s, a), t) {
      StepKeepsSweeps(bits, s, a, t);
    }
  }

  /** In every run, whatever the interleaving, the invariant holds throughout. */
  lemma {:induction false} RunKeepsInv(bits: Bits, s: State, run: seq<Action>)
    requires Inv(bits, s) && Legal(bits, s, run)
    ensures Inv(bits, Exec(bits, s, run))
    decreases run
  {
    if run != [] {
      StepKeepsInv(bits, s, run[0]);
      RunKeepsInv(bits, Step(bits, s, run[0]), run[1..]);
    }
  }

  lemma {:induction false} RunKeepsSafe(bits: Bits, s: State, run: seq<Action>)
    requires Safe(s.held) && RangesSafe(s.spans) && Feasible(bits, s, run)
    ensures var end := Exec(bits, s, run); Safe(end.held) && RangesSafe(end.spans)
    decreases run
  {
    if run != [] {
      StepKeepsSafe(bits, s, run[0]);
      StepKeepsRangesSafe(bits, s, run[0]);
      RunKeepsSafe(bits, Step(bits, s, run[0]), run[1..]);
    }
  }

  /** Safety over all runs and interleavings, disciplined or not: different holders of a resource
      hold compatible modes, and so do different holders of ranges that both contain some key. */
  lemma NeverConflicting(bits: Bits, run: seq<Action>, t: TxnId, u: TxnId)
    requires Feasible(bits, Start, run) && t != u
    ensures var s := Exec(bits, Start, run);
            (forall r | (t, r) in s.held && (u, r) in s.held :: Compatible(s.held[(t, r)], s.held[(u, r)])) &&
            (forall a: Span, b: Span, key: U64 |
              a in SpansOf(s.spans, t) && b in SpansOf(s.spans, u) && a.space == b.space &&
              Contains(a.range, key) && Contains(b.range, key) ::
                Compatible(a.mode, b.mode))
  {
    RunKeepsSafe(bits, Start, run);
    var s := Exec(bits, Start, run);
    forall a: Span, b: Span, key: U64 | a in SpansOf(s.spans, t) && b in SpansOf(s.spans, u) && a.space == b.space &&
                                         Contains(a.range, key) && Contains(b.range, key)
      ensures Compatible(a.mode, b.mode)
    {
      NoPhantom(s.spans, t, u, a, b, key);
    }
  }
}
