/** What each step of the protocol does to the table and the registry, entry by entry, and what becomes
    of a request from its call to its decision. */
module Effects {
  import opened Ids
  import opened Modes
  import opened Routing
  import opened FlatTable
  import opened Merging
  import opened Protocol
  import opened Collections

  lemma AcquireEffect(bits: Bits, s: State, t: TxnId, r: ResourceId, m: LockMode)
    requires Safe(s.held)
    ensures var s' := Step(bits, s, TryAcquire(t, r, m));
            s' == s.(held := s'.held) &&
            if Blocked(s.held, t, r, m) then s'.held == s.held else LeastGrant(s.held, s'.held, t, r, m)
  {
    GrantMeans(s.held, t, r, m);
    hide CanGrant, LeastGrant, Blocked, TryGrant;
  }

  /** A released lock is gone, and nothing else. */
  lemma ReleaseEffect(bits: Bits, s: State, t: TxnId, r: ResourceId)
    ensures var s' := Step(bits, s, Release(t, r));
            s' == s.(held := s'.held) && LockGone(s.held, s'.held, t, r)
  {
    DropMeans(s.held, t, r);
  }

  /** A granted range lock is one more of its kind, and nothing else changes. */
  lemma AcquireRangeEffect(bits: Bits, s: State, t: TxnId, x: Span)
    ensures var s' := Step(bits, s, TryAcquireRange(t, x));
            s' == s.(spans := s'.spans) &&
            (forall u: TxnId | u != t :: SpansOf(s'.spans, u) == SpansOf(s.spans, u)) &&
            SpansOf(s'.spans, t) ==
            SpansOf(s.spans, t) + if CanGrantSpan(s.spans, t, x) then multiset{x} else multiset{}
  {
    hide CanGrantSpan, AddSpan, SpansOf;
    forall u: TxnId { SpansAfter(s.spans, t, x, u); }
  }

  lemma ReleaseRangeEffect(bits: Bits, s: State, t: TxnId, x: Span)
    ensures var s' := Step(bits, s, ReleaseRange(t, x));
            s' == s.(spans := s'.spans) &&
            (forall u: TxnId | u != t :: SpansOf(s'.spans, u) == SpansOf(s.spans, u)) &&
            SpansOf(s'.spans, t) == SpansOf(s.spans, t) - multiset{x}
  {
    hide AddSpan, RemoveSpan, SpansOf;
    assert x !in SpansOf(s.spans, t) ==> SpansOf(s.spans, t) - multiset{x} == SpansOf(s.spans, t);
    forall u: TxnId { SpansAfter(s.spans, t, x, u); }
  }

  /** A wait that is cancelled, or whose transaction begins its bulk release, is gone at once. */
  lemma WithdrawEffect(bits: Bits, s: State, a: Action, t: TxnId)
    requires Enabled(s, a) && (a == CancelWait(t) || (a.BeginReleaseAll? && a.txn == t))
    ensures var s' := Step(bits, s, a);
            s' == s.(waits := s'.waits, sweeps := s'.sweeps) && t !in s'.waits &&
            (forall u | u != t :: (u in s'.waits <==> u in s.waits) && (u in s.waits ==> s'.waits[u] == s.waits[u])) &&
            s'.sweeps == if a.BeginReleaseAll? then s.sweeps[a.thread := Sweep(t, 0)] else s.sweeps
  {
  }

  /** One section of a bulk release takes what its transaction has in one shard and moves on. */
  lemma SweepEffect(bits: Bits, s: State, th: nat)
    requires th in s.sweeps
    ensures var Sweep(t, n) := s.sweeps[th]; var s' := Step(bits, s, SweepNext(th));
            s' == s.(held := s'.held, spans := s'.spans, sweeps := s'.sweeps) &&
            SweptIn(bits, s.held, s'.held, t, n) && SpansSweptIn(bits, s.spans, s'.spans, t, n) &&
            s'.sweeps == if n + 1 < Pow2(bits) then s.sweeps[th := Sweep(t, n + 1)] else s.sweeps - {th}
  {
    var Sweep(t, n) := s.sweeps[th];
    DropInMeans(bits, s.held, s.spans, t, n);
    hide SweptIn, SpansSweptIn, DropIn, DropSpansIn, Pow2;
  }

  // ---- from a request to its decision --------------------------------------------------

  /** While a request holds the registry, nobody changes what it asks for, nor any wait. */
  lemma {:induction false} RequestStands(bits: Bits, s: State, run: seq<Action>)
    requires s.job.Requesting? && Feasible(bits, s, run) && forall i | 0 <= i < |run| :: !run[i].Attempt?
    ensures var end := Exec(bits, s, run); end.job == s.job && end.waits == s.waits
    decreases run
  {
    if run != [] {
      assert !run[0].Attempt?;
      hide CanGrant, CanGrantSpan, DropIn, DropSpansIn;
      RequestStands(bits, Step(bits, s, run[0]), run[1..]);
    }
  }

  /** A request is decided for the resource and the mode its caller gave, whatever others do before
      the decision. If somebody is in the way, the table stays and the caller waits for exactly what
      it asked; otherwise it holds the least mode that covers it and waits for nothing. */
  lemma RequestIsDecidedAsAsked(bits: Bits, s: State, t: TxnId, req: Request, others: seq<Action>)
    requires Safe(s.held) && RangesSafe(s.spans) && Enabled(s, BeginRequest(t, req))
    requires Feasible(bits, Step(bits, s, BeginRequest(t, req)), others)
    requires forall i | 0 <= i < |others| :: !others[i].Attempt?
    ensures var mid := Exec(bits, Step(bits, s, BeginRequest(t, req)), others);
            Enabled(mid, Attempt) && mid.waits == s.waits &&
            var end := Step(bits, mid, Attempt);
            if Blocked(mid.held, t, req.res, req.mode) then
              end == mid.(waits := s.waits[t := req], job := Building(Some(t), s.waits[t := req].Keys, map[]))
            else
              end == mid.(held := end.held, waits := s.waits - {t}, job := Free) &&
              LeastGrant(mid.held, end.held, t, req.res, req.mode)
  {
    var first := Step(bits, s, BeginRequest(t, req));
    RequestStands(bits, first, others);
    RunKeepsSafe(bits, first, others);
    var mid := Exec(bits, first, others);
    GrantMeans(mid.held, t, req.res, req.mode);
    hide CanGrant, LeastGrant, Blocked, Feasible, Exec;
    assert mid.job == Requesting(t, req);
  }
}
