/** The flat table the sharded manager refines: who holds what, as plain maps, with the grant
    rule, the wait edges and bulk release stated on them. */
module FlatTable {
  import opened Ids
  import opened Modes
  import opened Ranges
  import opened Digraph

  /** The mode each transaction holds on each resource. */
  type Held = map<(TxnId, ResourceId), LockMode>

  datatype Request = Request(res: ResourceId, mode: LockMode)

  /** The single request each registered waiter is blocked on. */
  type Waits = map<TxnId, Request>

  datatype Span = Span(space: ResourceId, range: KeyRange, mode: LockMode)

  /** The range locks of each transaction; equal ones may be held several times. */
  type Spans = map<TxnId, multiset<Span>>

  function SpansOf(spans: Spans, t: TxnId): multiset<Span> {
    if t in spans then spans[t] else multiset{}
  }

  datatype LockError = Conflict | NotHeld

  datatype Outcome = Ok | Err(error: LockError)

  // ---- point locks ---------------------------------------------------------------------

  /** Different holders of one resource hold compatible modes. */
  ghost predicate Safe(held: Held) {
    forall t, u, r | (t, r) in held && (u, r) in held && t != u :: Compatible(held[(t, r)], held[(u, r)])
  }

  /** What `t` would hold on `r` after being granted `m`. */
  function Target(held: Held, t: TxnId, r: ResourceId, m: LockMode): LockMode {
    if (t, r) in held then Join(held[(t, r)], m) else m
  }

  ghost predicate OthersAllow(held: Held, t: TxnId, r: ResourceId, m: LockMode) {
    forall u | u != t && (u, r) in held :: Compatible(held[(u, r)], m)
  }

  /** The grant rule: a covered request is granted outright, any other needs its target mode to
      be compatible with every other holder. */
  ghost predicate CanGrant(held: Held, t: TxnId, r: ResourceId, m: LockMode) {
    ((t, r) in held && Covers(held[(t, r)], m)) || OthersAllow(held, t, r, Target(held, t, r, m))
  }

  function Grant(held: Held, t: TxnId, r: ResourceId, m: LockMode): Held {
    held[(t, r) := Target(held, t, r, m)]
  }

  ghost function TryGrant(held: Held, t: TxnId, r: ResourceId, m: LockMode): Held {
    if CanGrant(held, t, r, m) then Grant(held, t, r, m) else held
  }

  function DropLock(held: Held, t: TxnId, r: ResourceId): Held {
    held - {(t, r)}
  }

  function DropTxn(held: Held, t: TxnId): Held {
    map k | k in held && k.0 != t :: held[k]
  }

  function LocksOf(held: Held, t: TxnId): set<(TxnId, ResourceId)> {
    set k | k in held && k.0 == t
  }

  function HoldersOf(held: Held, r: ResourceId): set<(TxnId, ResourceId)> {
    set k | k in held && k.1 == r
  }

  // ---- wait edges ----------------------------------------------------------------------

  /** The other holders of `r` whose mode is incompatible with the requested mode itself. */
  function Blockers(held: Held, t: TxnId, r: ResourceId, m: LockMode): set<TxnId> {
    set k | k in held && k.1 == r && k.0 != t && !Compatible(held[k], m) :: k.0
  }

  lemma BlockersMeaning(held: Held, t: TxnId, r: ResourceId, m: LockMode)
    ensures forall b :: b in Blockers(held, t, r, m) <==> b != t && (b, r) in held && !Compatible(held[(b, r)], m)
  {
  }

  /** The true wait-for relation of a table and a wait set. */
  function WaitFor(held: Held, waits: Waits): Graph {
    map w | w in waits :: Blockers(held, w, waits[w].res, waits[w].mode)
  }

  /** Grants keep holders compatible. */
  lemma GrantKeepsSafe(held: Held, t: TxnId, r: ResourceId, m: LockMode)
    requires Safe(held)
    ensures Safe(TryGrant(held, t, r, m))
  {
  }

  /** Wait edges are exact: a request is refused exactly when it has a blocker, for fresh, covered
      and upgrade requests alike, although the grant tests the join and the edge the raw mode. */
  lemma WaitEdgesExact(held: Held, t: TxnId, r: ResourceId, m: LockMode)
    requires Safe(held)
    ensures CanGrant(held, t, r, m) <==> Blockers(held, t, r, m) == {}
  {
    BlockersMeaning(held, t, r, m);
    forall u | u != t && (u, r) in held
      ensures Compatible(held[(u, r)], Target(held, t, r, m)) <==> Compatible(held[(u, r)], m)
    {
      if (t, r) in held {
        CompatibleWithJoin(held[(u, r)], held[(t, r)], m);
      }
    }
    if (t, r) in held && Covers(held[(t, r)], m) {
      assert Target(held, t, r, m) == held[(t, r)];
      assert OthersAllow(held, t, r, held[(t, r)]) by {
        forall u | u != t && (u, r) in held ensures Compatible(held[(u, r)], held[(t, r)]) {
          CompatibleWithJoin(held[(u, r)], held[(t, r)], m);
        }
      }
    }
    if Blockers(held, t, r, m) == {} {
      assert forall u | u != t && (u, r) in held :: u !in Blockers(held, t, r, m);
    }
  }

  // ---- what the operations mean, entry by entry ----------------------------------------

  /** Somebody else holds `r` in a mode that conflicts with the one asked for. */
  ghost predicate Blocked(held: Held, t: TxnId, r: ResourceId, m: LockMode) {
    exists u: TxnId :: u != t && (u, r) in held && !Compatible(held[(u, r)], m)
  }

  ghost predicate SameExcept(held: Held, held': Held, k: (TxnId, ResourceId)) {
    forall x: (TxnId, ResourceId) | x != k :: (x in held <==> x in held') && (x in held ==> held[x] == held'[x])
  }

  /** `t` now holds `r` in the least mode that covers `m` and what it held; nothing else changed. */
  ghost predicate LeastGrant(held: Held, held': Held, t: TxnId, r: ResourceId, m: LockMode) {
    SameExcept(held, held', (t, r)) && (t, r) in held' &&
    Covers(held'[(t, r)], m) && ((t, r) in held ==> Covers(held'[(t, r)], held[(t, r)])) &&
    forall n: LockMode | Covers(n, m) && ((t, r) in held ==> Covers(n, held[(t, r)])) :: Covers(n, held'[(t, r)])
  }

  ghost predicate LockGone(held: Held, held': Held, t: TxnId, r: ResourceId) {
    SameExcept(held, held', (t, r)) && (t, r) !in held'
  }

  lemma BlockedMeans(held: Held, t: TxnId, r: ResourceId, m: LockMode)
    ensures Blocked(held, t, r, m) <==> Blockers(held, t, r, m) != {}
  {
    BlockersMeaning(held, t, r, m);
    hide Blockers;
    if Blockers(held, t, r, m) != {} {
      var u :| u in Blockers(held, t, r, m);
    } else {
      assert forall u: TxnId :: u !in Blockers(held, t, r, m);
    }
  }

  lemma GrantIsLeast(held: Held, t: TxnId, r: ResourceId, m: LockMode)
    ensures LeastGrant(held, Grant(held, t, r, m), t, r, m)
  {
    CoversIsPartialOrder(m, m, m);
    if (t, r) in held {
      forall n: LockMode
        ensures Covers(Target(held, t, r, m), held[(t, r)]) && Covers(Target(held, t, r, m), m)
        ensures Covers(n, held[(t, r)]) && Covers(n, m) ==> Covers(n, Target(held, t, r, m))
      {
        JoinIsLeastUpperBound(held[(t, r)], m, n);
      }
    }
    hide Join, Covers;
  }

  /** A grant is refused exactly when somebody else is in the way, and otherwise gives the least
      mode that will do. */
  lemma GrantMeans(held: Held, t: TxnId, r: ResourceId, m: LockMode)
    requires Safe(held)
    ensures CanGrant(held, t, r, m) <==> !Blocked(held, t, r, m)
    ensures CanGrant(held, t, r, m) ==> LeastGrant(held, TryGrant(held, t, r, m), t, r, m)
    ensures !CanGrant(held, t, r, m) ==> TryGrant(held, t, r, m) == held
  {
    hide CanGrant, Blocked, Blockers, LeastGrant, Grant, Safe;
    WaitEdgesExact(held, t, r, m);
    BlockedMeans(held, t, r, m);
    GrantIsLeast(held, t, r, m);
  }

  lemma DropMeans(held: Held, t: TxnId, r: ResourceId)
    ensures LockGone(held, DropLock(held, t, r), t, r)
  {
  }

  // ---- range locks ---------------------------------------------------------------------

  /** Range locks of different transactions that overlap have compatible modes. */
  ghost predicate RangesSafe(spans: Spans) {
    forall t, u, a: Span, b: Span | t in spans && u in spans && t != u && a in spans[t] && b in spans[u] &&
                        a.space == b.space && Overlaps(a.range, b.range) ::
      Compatible(a.mode, b.mode)
  }

  ghost predicate CanGrantSpan(spans: Spans, t: TxnId, s: Span) {
    forall u, a: Span | u in spans && u != t && a in spans[u] && a.space == s.space && Overlaps(a.range, s.range) ::
      Compatible(a.mode, s.mode)
  }

  function AddSpan(spans: Spans, t: TxnId, s: Span): Spans {
    spans[t := SpansOf(spans, t) + multiset{s}]
  }

  function RemoveSpan(spans: Spans, t: TxnId, s: Span): Spans {
    spans[t := SpansOf(spans, t) - multiset{s}]
  }

  function DropSpans(spans: Spans, t: TxnId): Spans {
    spans - {t}
  }

  lemma SpansAfter(spans: Spans, t: TxnId, s: Span, u: TxnId)
    ensures SpansOf(AddSpan(spans, t, s), u) == if u == t then SpansOf(spans, t) + multiset{s} else SpansOf(spans, u)
    ensures SpansOf(RemoveSpan(spans, t, s), u) == if u == t then SpansOf(spans, t) - multiset{s} else SpansOf(spans, u)
  {
  }

  lemma AddSpanKeepsSafe(spans: Spans, t: TxnId, s: Span)
    requires RangesSafe(spans) && CanGrantSpan(spans, t, s)
    ensures RangesSafe(AddSpan(spans, t, s))
  {
    var after := AddSpan(spans, t, s);
    forall x, u, a: Span, b: Span | x in after && u in after && x != u && a in after[x] && b in after[u] &&
                        a.space == b.space && Overlaps(a.range, b.range)
      ensures Compatible(a.mode, b.mode)
    {
      hide *;
      AddedPair(spans, t, s, x, u, a, b);
    }
  }

  lemma AddedPair(spans: Spans, t: TxnId, s: Span, x: TxnId, u: TxnId, a: Span, b: Span)
    requires RangesSafe(spans) && CanGrantSpan(spans, t, s)
    requires x in AddSpan(spans, t, s) && u in AddSpan(spans, t, s) && x != u
    requires a in AddSpan(spans, t, s)[x] && b in AddSpan(spans, t, s)[u]
    requires a.space == b.space && Overlaps(a.range, b.range)
    ensures Compatible(a.mode, b.mode)
  {
    hide Join;
    CompatibleWithJoin(a.mode, b.mode, a.mode);
    assert Overlaps(b.range, a.range);
    hide Compatible, Overlaps;
  }

  /** Fewer spans stay safe. */
  lemma FewerSpansSafe(spans: Spans, fewer: Spans)
    requires RangesSafe(spans)
    requires forall t | t in fewer :: fewer[t] <= SpansOf(spans, t)
    ensures RangesSafe(fewer)
  {
  }

  lemma RemoveSpanKeepsSafe(spans: Spans, t: TxnId, s: Span)
    requires RangesSafe(spans)
    ensures RangesSafe(RemoveSpan(spans, t, s))
  {
    hide RangesSafe;
    FewerSpansSafe(spans, RemoveSpan(spans, t, s));
  }

  lemma DropSpansKeepsSafe(spans: Spans, t: TxnId)
    requires RangesSafe(spans)
    ensures RangesSafe(DropSpans(spans, t))
  {
    hide RangesSafe;
    FewerSpansSafe(spans, DropSpans(spans, t));
  }

  /** Phantom protection: two range locks of different transactions that both contain some key
      have compatible modes. */
  lemma NoPhantom(spans: Spans, t: TxnId, u: TxnId, a: Span, b: Span, key: U64)
    requires RangesSafe(spans) && t != u && a in SpansOf(spans, t) && b in SpansOf(spans, u)
    requires a.space == b.space && Contains(a.range, key) && Contains(b.range, key)
    ensures Compatible(a.mode, b.mode)
  {
  }
}
