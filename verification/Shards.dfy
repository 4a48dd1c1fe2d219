/** One partition of the lock table: the four maps behind one mutex, updated in place, and the
    flat view they stand for. Each method is the body of one critical section. */
module Shards {
  import opened Ids
  import opened Collections
  import opened Modes
  import opened Ranges
  import opened FlatTable

  datatype Holder = Holder(txn: TxnId, mode: LockMode)
  datatype RangeHolder = RangeHolder(txn: TxnId, range: KeyRange, mode: LockMode)

  type Locks = map<ResourceId, seq<Holder>>
  type ByTxn = map<TxnId, seq<ResourceId>>
  type RangeLocks = map<ResourceId, seq<RangeHolder>>
  type RangeByTxn = map<TxnId, seq<(ResourceId, KeyRange)>>

  // ---- vectors of holders --------------------------------------------------------------

  /** `holders.iter().position(|h| h.txn == txn)`, the length when absent. */
  function HolderPos(hs: seq<Holder>, t: TxnId): (p: nat)
    ensures p <= |hs|
    ensures p < |hs| ==> hs[p].txn == t
    ensures forall i | 0 <= i < p :: hs[i].txn != t
  {
    if hs == [] || hs[0].txn == t then 0 else 1 + HolderPos(hs[1..], t)
  }

  function RangePos(hs: seq<RangeHolder>, t: TxnId, g: KeyRange): (p: nat)
    ensures p <= |hs|
    ensures p < |hs| ==> hs[p].txn == t && hs[p].range == g
    ensures forall i | 0 <= i < p :: hs[i].txn != t || hs[i].range != g
  {
    if hs == [] || (hs[0].txn == t && hs[0].range == g) then 0 else 1 + RangePos(hs[1..], t, g)
  }

  function HoldersAt(locks: Locks, r: ResourceId): seq<Holder> {
    if r in locks then locks[r] else []
  }

  function ListOf(byTxn: ByTxn, t: TxnId): seq<ResourceId> {
    if t in byTxn then byTxn[t] else []
  }

  function SpansAt(ranges: RangeLocks, s: ResourceId): seq<RangeHolder> {
    if s in ranges then ranges[s] else []
  }

  /** The mode of the first lock of `t` on exactly that range, in vector order. */
  function FirstMode(ranges: RangeLocks, s: ResourceId, t: TxnId, g: KeyRange): Option<LockMode> {
    var hs := SpansAt(ranges, s);
    var p := RangePos(hs, t, g);
    if p < |hs| then Some(hs[p].mode) else None
  }

  function PairsOf(index: RangeByTxn, t: TxnId): seq<(ResourceId, KeyRange)> {
    if t in index then index[t] else []
  }

  // ---- what the maps stand for ---------------------------------------------------------

  /** A vector holds exactly the flat entries of its resource, each transaction once. */
  ghost predicate VectorOk(hs: seq<Holder>, r: ResourceId, held: Held) {
    (forall i, j | 0 <= i < j < |hs| :: hs[i].txn != hs[j].txn) &&
    (forall i | 0 <= i < |hs| :: (hs[i].txn, r) in held && held[(hs[i].txn, r)] == hs[i].mode) &&
    (forall t: TxnId | (t, r) in held :: HolderPos(hs, t) < |hs|)
  }

  /** No entry is left behind empty. */
  ghost predicate LocksOk(locks: Locks, held: Held) {
    (forall r | r in locks :: locks[r] != []) &&
    (forall r :: VectorOk(HoldersAt(locks, r), r, held))
  }

  ghost predicate IndexOk(byTxn: ByTxn, held: Held) {
    (forall t | t in byTxn :: byTxn[t] != []) &&
    (forall t :: NoDup(ListOf(byTxn, t))) &&
    (forall t: TxnId, r: ResourceId :: (t, r) in held <==> r in ListOf(byTxn, t))
  }

  /** How many of `spans` sit on `range` in `space`, in any mode. */
  function CountAt(spans: multiset<Span>, s: ResourceId, g: KeyRange): nat {
    spans[Span(s, g, IS)] + spans[Span(s, g, IX)] + spans[Span(s, g, S)] + spans[Span(s, g, SIX)] + spans[Span(s, g, X)]
  }

  /** A vector of range holders holds exactly the flat spans of its space. */
  ghost predicate SpaceOk(hs: seq<RangeHolder>, s: ResourceId, spans: Spans) {
    forall h: RangeHolder :: multiset(hs)[h] == SpansOf(spans, h.txn)[Span(s, h.range, h.mode)]
  }

  ghost predicate RangesOk(ranges: RangeLocks, spans: Spans) {
    (forall s | s in ranges :: ranges[s] != []) &&
    (forall s: ResourceId :: SpaceOk(SpansAt(ranges, s), s, spans))
  }

  /** A list names each (space, range) pair as often as the transaction holds it. */
  ghost predicate ListMatches(list: seq<(ResourceId, KeyRange)>, spans: multiset<Span>) {
    forall s: ResourceId, g: KeyRange :: multiset(list)[(s, g)] == CountAt(spans, s, g)
  }

  ghost predicate RangeIndexOk(index: RangeByTxn, spans: Spans) {
    (forall t | t in index :: index[t] != []) &&
    (forall t: TxnId :: ListMatches(PairsOf(index, t), SpansOf(spans, t)))
  }

  /** The point half of a shard: maps agree with the flat view, which is conflict free. */
  ghost predicate PointsValid(locks: Locks, byTxn: ByTxn, held: Held) {
    LocksOk(locks, held) && IndexOk(byTxn, held) && Safe(held)
  }

  /** The range half. */
  ghost predicate SpansValid(ranges: RangeLocks, index: RangeByTxn, spans: Spans) {
    RangesOk(ranges, spans) && RangeIndexOk(index, spans) && RangesSafe(spans)
  }

  // ---- lemmas about single updates -----------------------------------------------------

  lemma HolderFound(hs: seq<Holder>, r: ResourceId, held: Held, t: TxnId)
    requires VectorOk(hs, r, held)
    ensures HolderPos(hs, t) < |hs| <==> (t, r) in held
    ensures HolderPos(hs, t) < |hs| ==> hs[HolderPos(hs, t)].mode == held[(t, r)]
  {
  }

  lemma VectorUpgrade(hs: seq<Holder>, r: ResourceId, held: Held, pos: nat, m: LockMode)
    requires VectorOk(hs, r, held) && pos < |hs|
    ensures VectorOk(hs[pos := Holder(hs[pos].txn, m)], r, held[(hs[pos].txn, r) := m])
  {
    var hs' := hs[pos := Holder(hs[pos].txn, m)];
    var held' := held[(hs[pos].txn, r) := m];
    forall t | (t, r) in held' ensures HolderPos(hs', t) < |hs'| {
      var p := HolderPos(hs, t);
      assert hs'[p].txn == t;
    }
  }

  lemma VectorPush(hs: seq<Holder>, r: ResourceId, held: Held, t: TxnId, m: LockMode)
    requires VectorOk(hs, r, held) && (t, r) !in held
    ensures VectorOk(hs + [Holder(t, m)], r, held[(t, r) := m])
  {
    var hs' := hs + [Holder(t, m)];
    var held' := held[(t, r) := m];
    forall u | (u, r) in held' ensures HolderPos(hs', u) < |hs'| {
      if u == t {
        assert hs'[|hs|].txn == t;
      } else {
        assert hs'[HolderPos(hs, u)].txn == u;
      }
    }
  }

  lemma VectorRemove(hs: seq<Holder>, r: ResourceId, held: Held, pos: nat)
    requires VectorOk(hs, r, held) && pos < |hs|
    ensures VectorOk(SwapRemove(hs, pos), r, DropLock(held, hs[pos].txn, r))
  {
    var hs' := SwapRemove(hs, pos);
    var t := hs[pos].txn;
    forall u | (u, r) in DropLock(held, t, r) ensures HolderPos(hs', u) < |hs'| {
      var p := HolderPos(hs, u);
      assert p != pos;
      assert hs'[if p == |hs| - 1 then pos else p].txn == u;
    }
  }

  /** Vectors of other resources do not see a change at one resource. */
  lemma VectorFrame(hs: seq<Holder>, r: ResourceId, held: Held, held': Held)
    requires VectorOk(hs, r, held)
    requires forall t: TxnId :: (t, r) in held <==> (t, r) in held'
    requires forall t: TxnId | (t, r) in held :: held[(t, r)] == held'[(t, r)]
    ensures VectorOk(hs, r, held')
  {
  }

  lemma LocksUpdate(locks: Locks, held: Held, r: ResourceId, hs: seq<Holder>, held': Held)
    requires LocksOk(locks, held) && VectorOk(hs, r, held')
    requires forall k | k in held || k in held' :: k.1 != r ==> k in held && k in held' && held[k] == held'[k]
    ensures hs != [] ==> LocksOk(locks[r := hs], held')
    ensures hs == [] ==> LocksOk(locks - {r}, held')
  {
    var locks' := if hs == [] then locks - {r} else locks[r := hs];
    forall s ensures VectorOk(HoldersAt(locks', s), s, held') {
      if s != r {
        assert HoldersAt(locks', s) == HoldersAt(locks, s);
        assert forall t: TxnId :: (t, s) in held <==> (t, s) in held';
        VectorFrame(HoldersAt(locks, s), s, held, held');
      } else {
        assert HoldersAt(locks', s) == hs;
      }
    }
  }

  lemma IndexPush(byTxn: ByTxn, held: Held, t: TxnId, r: ResourceId, m: LockMode)
    requires IndexOk(byTxn, held) && (t, r) !in held
    ensures IndexOk(byTxn[t := ListOf(byTxn, t) + [r]], held[(t, r) := m])
  {
    var byTxn' := byTxn[t := ListOf(byTxn, t) + [r]];
    forall u: TxnId ensures NoDup(ListOf(byTxn', u)) {
      if u != t {
        assert ListOf(byTxn', u) == ListOf(byTxn, u);
      } else {
        assert r !in ListOf(byTxn, t);
      }
    }
    forall u: TxnId, q: ResourceId ensures (u, q) in held[(t, r) := m] <==> q in ListOf(byTxn', u) {
      assert (u, q) in held <==> q in ListOf(byTxn, u);
    }
  }

  lemma IndexKeep(byTxn: ByTxn, held: Held, held': Held)
    requires IndexOk(byTxn, held) && held.Keys == held'.Keys
    ensures IndexOk(byTxn, held')
  {
  }

  // ---- the cases of a grant ------------------------------------------------------------

  lemma CoveredGrant(locks: Locks, held: Held, t: TxnId, r: ResourceId, m: LockMode)
    requires LocksOk(locks, held)
    requires var hs := HoldersAt(locks, r); var p := HolderPos(hs, t); p < |hs| && Covers(hs[p].mode, m)
    ensures CanGrant(held, t, r, m) && TryGrant(held, t, r, m) == held
  {
  }

  lemma UpgradeDecision(locks: Locks, held: Held, t: TxnId, r: ResourceId, m: LockMode, p: nat)
    requires LocksOk(locks, held) && p == HolderPos(HoldersAt(locks, r), t)
    requires var hs := HoldersAt(locks, r); p < |hs| && !Covers(hs[p].mode, m)
    ensures var hs := HoldersAt(locks, r); var target := Join(hs[p].mode, m);
            Grant(held, t, r, m) == held[(t, r) := target] && r in locks && locks[r] == hs &&
            (CanGrant(held, t, r, m) <==> !exists i | 0 <= i < |hs| :: i != p && !Compatible(hs[i].mode, target))
  {
  }

  lemma UpgradeKeepsMaps(locks: Locks, byTxn: ByTxn, held: Held, t: TxnId, r: ResourceId, p: nat, m: LockMode)
    requires LocksOk(locks, held) && IndexOk(byTxn, held) && r in locks && p == HolderPos(locks[r], t) < |locks[r]|
    ensures LocksOk(locks[r := locks[r][p := Holder(t, m)]], held[(t, r) := m]) && IndexOk(byTxn, held[(t, r) := m])
  {
    assert HoldersAt(locks, r) == locks[r];
    HolderFound(locks[r], r, held, t);
    VectorUpgrade(locks[r], r, held, p, m);
    LocksUpdate(locks, held, r, locks[r][p := Holder(t, m)], held[(t, r) := m]);
    IndexKeep(byTxn, held, held[(t, r) := m]);
  }

  lemma FreshDecision(locks: Locks, held: Held, t: TxnId, r: ResourceId, m: LockMode)
    requires LocksOk(locks, held) && HolderPos(HoldersAt(locks, r), t) == |HoldersAt(locks, r)|
    ensures Grant(held, t, r, m) == held[(t, r) := m]
    ensures var hs := HoldersAt(locks, r);
            CanGrant(held, t, r, m) <==> forall i | 0 <= i < |hs| :: Compatible(hs[i].mode, m)
    ensures !CanGrant(held, t, r, m) ==> r in locks
  {
  }

  lemma FreshKeepsMaps(locks: Locks, byTxn: ByTxn, held: Held, t: TxnId, r: ResourceId, m: LockMode)
    requires LocksOk(locks, held) && IndexOk(byTxn, held)
    requires HolderPos(HoldersAt(locks, r), t) == |HoldersAt(locks, r)|
    ensures LocksOk(locks[r := HoldersAt(locks, r) + [Holder(t, m)]], held[(t, r) := m])
    ensures IndexOk(byTxn[t := ListOf(byTxn, t) + [r]], held[(t, r) := m])
  {
    var hs := HoldersAt(locks, r);
    HolderFound(hs, r, held, t);
    VectorPush(hs, r, held, t, m);
    LocksUpdate(locks, held, r, hs + [Holder(t, m)], held[(t, r) := m]);
    IndexPush(byTxn, held, t, r, m);
  }

  lemma VectorAt(locks: Locks, held: Held, r: ResourceId)
    requires LocksOk(locks, held)
    ensures VectorOk(HoldersAt(locks, r), r, held)
    ensures r in locks ==> HoldersAt(locks, r) == locks[r]
  {
  }

  lemma LockListed(locks: Locks, held: Held, t: TxnId, r: ResourceId)
    requires LocksOk(locks, held)
    ensures (t, r) in held <==> r in locks && HolderPos(locks[r], t) < |locks[r]|
    ensures (t, r) !in held ==> DropLock(held, t, r) == held
  {
    HolderFound(HoldersAt(locks, r), r, held, t);
  }

  // ---- releasing point locks -----------------------------------------------------------

  /** What is left of a resource after one holder goes: no entry when it was the last. */
  function WithoutHolder(locks: Locks, r: ResourceId, p: nat): Locks
    requires r in locks && p < |locks[r]|
  {
    var rest := SwapRemove(locks[r], p);
    if rest == [] then locks - {r} else locks[r := rest]
  }

  lemma RemoveKeepsLocks(locks: Locks, held: Held, t: TxnId, r: ResourceId)
    requires LocksOk(locks, held) && r in locks && HolderPos(locks[r], t) < |locks[r]|
    ensures LocksOk(WithoutHolder(locks, r, HolderPos(locks[r], t)), DropLock(held, t, r))
    ensures (t, r) in held
  {
    hide LocksOk, VectorOk;
    var p := HolderPos(locks[r], t);
    VectorAt(locks, held, r);
    HolderFound(locks[r], r, held, t);
    VectorRemove(locks[r], r, held, p);
    LocksUpdate(locks, held, r, SwapRemove(locks[r], p), DropLock(held, t, r));
  }

  /** While `release_all` drains `t`: its index entry is gone and `rest` is what is still held. */
  ghost predicate IndexDraining(byTxn: ByTxn, held: Held, t: TxnId, rest: seq<ResourceId>) {
    t !in byTxn && NoDup(rest) &&
    (forall u | u in byTxn :: byTxn[u] != []) &&
    (forall u: TxnId :: NoDup(ListOf(byTxn, u))) &&
    (forall u: TxnId, r: ResourceId | u != t :: (u, r) in held <==> r in ListOf(byTxn, u)) &&
    (forall r: ResourceId :: (t, r) in held <==> r in rest)
  }

  lemma DrainStarts(byTxn: ByTxn, held: Held, t: TxnId)
    requires IndexOk(byTxn, held)
    ensures IndexDraining(byTxn - {t}, held, t, ListOf(byTxn, t))
  {
    var byTxn' := byTxn - {t};
    assert forall u: TxnId | u != t :: ListOf(byTxn', u) == ListOf(byTxn, u);
  }

  lemma DrainStep(byTxn: ByTxn, held: Held, t: TxnId, rest: seq<ResourceId>)
    requires IndexDraining(byTxn, held, t, rest) && rest != []
    ensures IndexDraining(byTxn, DropLock(held, t, rest[0]), t, rest[1..])
    ensures (t, rest[0]) in held
    ensures |LocksOf(DropLock(held, t, rest[0]), t)| == |LocksOf(held, t)| - 1
  {
    assert rest == [rest[0]] + rest[1..];
    assert rest[0] in rest;
    var held' := DropLock(held, t, rest[0]);
    assert LocksOf(held', t) == LocksOf(held, t) - {(t, rest[0])};
    assert (t, rest[0]) in LocksOf(held, t);
    forall u: TxnId, r: ResourceId | u != t ensures (u, r) in held' <==> r in ListOf(byTxn, u) {
      assert (u, r) in held' <==> (u, r) in held;
    }
    forall r: ResourceId ensures (t, r) in held' <==> r in rest[1..] {
      assert (t, r) in held <==> r in rest;
    }
  }

  /** Between iterations of the drain that started in `before`: `rest` is left to release. */
  ghost predicate Draining(before: Held, locks: Locks, byTxn: ByTxn, held: Held, t: TxnId,
                           rest: seq<ResourceId>, released: nat) {
    LocksOk(locks, held) && IndexDraining(byTxn, held, t, rest) &&
    (forall k | k in held :: k in before && held[k] == before[k]) &&
    (forall k | k in before && k.0 != t :: k in held) &&
    released + |LocksOf(held, t)| == |LocksOf(before, t)|
  }

  lemma SafeView(locks: Locks, byTxn: ByTxn, held: Held)
    requires PointsValid(locks, byTxn, held)
    ensures Safe(held)
  {
  }

  lemma DrainingStarts(locks: Locks, byTxn: ByTxn, held: Held, t: TxnId)
    requires PointsValid(locks, byTxn, held)
    ensures Draining(held, locks, byTxn - {t}, held, t, ListOf(byTxn, t), 0)
  {
    DrainStarts(byTxn, held, t);
  }

  lemma DrainingStep(before: Held, locks: Locks, byTxn: ByTxn, held: Held, t: TxnId, rest: seq<ResourceId>,
                     released: nat)
    requires Draining(before, locks, byTxn, held, t, rest, released) && rest != []
    ensures rest[0] in locks && HolderPos(locks[rest[0]], t) < |locks[rest[0]]|
    ensures Draining(before, WithoutHolder(locks, rest[0], HolderPos(locks[rest[0]], t)), byTxn,
                     DropLock(held, t, rest[0]), t, rest[1..], released + 1)
  {
    hide LocksOk, IndexDraining, LocksOf;
    DrainStep(byTxn, held, t, rest);
    LockListed(locks, held, t, rest[0]);
    RemoveKeepsLocks(locks, held, t, rest[0]);
  }

  lemma DrainingEnds(before: Held, locks: Locks, byTxn: ByTxn, held: Held, t: TxnId, released: nat)
    requires Draining(before, locks, byTxn, held, t, [], released) && Safe(before)
    ensures PointsValid(locks, byTxn, held)
    ensures held == DropTxn(before, t) && released == |LocksOf(before, t)|
  {
  }

  /** Forgetting one resource keeps the index exact for the table without that lock. */
  lemma ForgetKeepsIndex(byTxn: ByTxn, held: Held, t: TxnId, r: ResourceId)
    requires IndexOk(byTxn, held) && (t, r) in held
    ensures var list := ListOf(byTxn, t); var p := Position(list, r);
            p < |list| && t in byTxn &&
            IndexOk(if |list| == 1 then byTxn - {t} else byTxn[t := SwapRemove(list, p)], DropLock(held, t, r))
  {
    var list := ListOf(byTxn, t);
    assert r in list;
    var p := Position(list, r);
    var rest := SwapRemove(list, p);
    SwapRemoveNoDup(list, p);
    var byTxn' := if |list| == 1 then byTxn - {t} else byTxn[t := rest];
    assert ListOf(byTxn', t) == rest;
    var held' := DropLock(held, t, r);
    forall u: TxnId ensures NoDup(ListOf(byTxn', u)) {
      if u != t { assert ListOf(byTxn', u) == ListOf(byTxn, u); }
    }
    forall u: TxnId, q: ResourceId ensures (u, q) in held' <==> q in ListOf(byTxn', u) {
      assert (u, q) in held <==> q in ListOf(byTxn, u);
      if u != t { assert ListOf(byTxn', u) == ListOf(byTxn, u); }
    }
  }

  lemma DropLockSafe(held: Held, t: TxnId, r: ResourceId)
    requires Safe(held)
    ensures Safe(DropLock(held, t, r))
  {
  }

  // ---- readers -------------------------------------------------------------------------

  /** The other transactions in the vector whose mode is incompatible with `m`. */
  function Blocking(hs: seq<Holder>, t: TxnId, m: LockMode): (bs: seq<TxnId>)
    ensures forall b :: b in bs <==> exists i | 0 <= i < |hs| :: hs[i].txn == b && b != t && !Compatible(hs[i].mode, m)
  {
    if hs == [] then []
    else
      assert hs == [hs[0]] + hs[1..];
      var rest := Blocking(hs[1..], t, m);
      if hs[0].txn != t && !Compatible(hs[0].mode, m) then
        assert hs[0].txn != t && !Compatible(hs[0].mode, m);
        [hs[0].txn] + rest
      else rest
  }

  lemma BlockingIsExact(hs: seq<Holder>, r: ResourceId, held: Held, t: TxnId, m: LockMode)
    requires VectorOk(hs, r, held)
    ensures (set b | b in Blocking(hs, t, m)) == Blockers(held, t, r, m)
  {
  }

  lemma VectorCount(hs: seq<Holder>, r: ResourceId, held: Held)
    requires VectorOk(hs, r, held)
    ensures |hs| == |HoldersOf(held, r)|
  {
    var ks := seq(|hs|, i requires 0 <= i < |hs| => (hs[i].txn, r));
    forall k ensures k in ks <==> k in HoldersOf(held, r) {
      if k in HoldersOf(held, r) {
        assert k == (k.0, r);
        assert ks[HolderPos(hs, k.0)] == k;
      }
    }
    NoDupCard(ks, HoldersOf(held, r));
  }

  // ---- range locks ---------------------------------------------------------------------

  lemma CountAdd(spans: multiset<Span>, x: Span, s: ResourceId, g: KeyRange)
    ensures CountAt(spans + multiset{x}, s, g) == CountAt(spans, s, g) + if x.space == s && x.range == g then 1 else 0
  {
    forall m: LockMode
      ensures (spans + multiset{x})[Span(s, g, m)] ==
              spans[Span(s, g, m)] + if x.space == s && x.range == g && x.mode == m then 1 else 0
    {
      assert Span(s, g, m) == x <==> x.space == s && x.range == g && x.mode == m;
    }
    match x.mode
    case IS => case IX => case S => case SIX => case X =>
  }

  lemma ListPush(list: seq<(ResourceId, KeyRange)>, spans: multiset<Span>, x: Span)
    requires ListMatches(list, spans)
    ensures ListMatches(list + [(x.space, x.range)], spans + multiset{x})
  {
    hide CountAt;
    forall s: ResourceId, g: KeyRange
      ensures multiset(list + [(x.space, x.range)])[(s, g)] == CountAt(spans + multiset{x}, s, g)
    {
      CountAdd(spans, x, s, g);
      assert multiset(list)[(s, g)] == CountAt(spans, s, g);
    }
  }

  lemma ListRemove(list: seq<(ResourceId, KeyRange)>, list': seq<(ResourceId, KeyRange)>,
                   spans: multiset<Span>, x: Span)
    requires ListMatches(list, spans) && x in spans
    requires multiset(list') == multiset(list) - multiset{(x.space, x.range)}
    requires (x.space, x.range) in list
    ensures ListMatches(list', spans - multiset{x})
  {
    hide CountAt;
    forall s: ResourceId, g: KeyRange ensures multiset(list')[(s, g)] == CountAt(spans - multiset{x}, s, g) {
      CountAdd(spans - multiset{x}, x, s, g);
      assert spans - multiset{x} + multiset{x} == spans;
      assert multiset(list)[(s, g)] == CountAt(spans, s, g);
      assert (x.space, x.range) in multiset(list);
    }
  }

  lemma ListHead(list: seq<(ResourceId, KeyRange)>, spans: multiset<Span>)
    requires ListMatches(list, spans) && list != []
    ensures CountAt(spans, list[0].0, list[0].1) > 0
    ensures multiset(list[1..]) == multiset(list) - multiset{list[0]}
  {
    assert list == [list[0]] + list[1..];
    assert multiset(list)[(list[0].0, list[0].1)] == CountAt(spans, list[0].0, list[0].1);
    assert list[0] in multiset(list);
  }

  lemma ListHas(list: seq<(ResourceId, KeyRange)>, spans: multiset<Span>, x: Span)
    requires ListMatches(list, spans) && x in spans
    ensures (x.space, x.range) in list
  {
    assert multiset(list)[(x.space, x.range)] == CountAt(spans, x.space, x.range);
    assert x == Span(x.space, x.range, x.mode);
    assert CountAt(spans, x.space, x.range) > 0 by {
      match x.mode
      case IS => case IX => case S => case SIX => case X =>
    }
    assert (x.space, x.range) in multiset(list);
  }

  /** The scan for conflicting overlaps decides the flat rule. */
  lemma ScanDecidesSpan(ranges: RangeLocks, index: RangeByTxn, spans: Spans, t: TxnId, x: Span)
    requires SpansValid(ranges, index, spans)
    ensures CanGrantSpan(spans, t, x) <==>
            !exists i | 0 <= i < |SpansAt(ranges, x.space)| ::
              var h := SpansAt(ranges, x.space)[i];
              h.txn != t && Overlaps(h.range, x.range) && !Compatible(h.mode, x.mode)
  {
    hide RangeIndexOk, RangesSafe, Compatible, Overlaps;
    var hs := SpansAt(ranges, x.space);
    assert SpaceOk(hs, x.space, spans);
    forall i | 0 <= i < |hs| ensures hs[i].txn in spans && Span(x.space, hs[i].range, hs[i].mode) in spans[hs[i].txn] {
      var h := hs[i];
      assert multiset(hs)[h] > 0;
      assert SpansOf(spans, h.txn)[Span(x.space, h.range, h.mode)] > 0;
    }
    if !CanGrantSpan(spans, t, x) {
      var u, a: Span :| u in spans && u != t && a in spans[u] && a.space == x.space &&
                        Overlaps(a.range, x.range) && !Compatible(a.mode, x.mode);
      var h := RangeHolder(u, a.range, a.mode);
      assert a == Span(x.space, h.range, h.mode);
      assert multiset(hs)[h] > 0;
      assert h in hs;
    }
  }

  ghost predicate SameInSpace(spans: Spans, spans': Spans, s: ResourceId) {
    forall u: TxnId, y: Span | y.space == s :: SpansOf(spans', u)[y] == SpansOf(spans, u)[y]
  }

  lemma SpaceFrame(hs: seq<RangeHolder>, s: ResourceId, spans: Spans, spans': Spans)
    requires SpaceOk(hs, s, spans) && SameInSpace(spans, spans', s)
    ensures SpaceOk(hs, s, spans')
  {
  }

  lemma RangesUpdate(ranges: RangeLocks, spans: Spans, s: ResourceId, hs: seq<RangeHolder>, spans': Spans)
    requires RangesOk(ranges, spans) && SpaceOk(hs, s, spans')
    requires forall q: ResourceId | q != s :: SameInSpace(spans, spans', q)
    ensures RangesOk(if hs == [] then ranges - {s} else ranges[s := hs], spans')
  {
    hide SpaceOk, SameInSpace;
    var ranges' := if hs == [] then ranges - {s} else ranges[s := hs];
    forall q: ResourceId ensures SpaceOk(SpansAt(ranges', q), q, spans') {
      if q == s {
        assert SpansAt(ranges', s) == hs;
      } else {
        assert SpansAt(ranges', q) == SpansAt(ranges, q);
        assert SpaceOk(SpansAt(ranges, q), q, spans) && SameInSpace(spans, spans', q);
        SpaceFrame(SpansAt(ranges, q), q, spans, spans');
      }
    }
  }

  lemma OtherSpacesSame(spans: Spans, t: TxnId, x: Span)
    ensures forall q: ResourceId | q != x.space :: SameInSpace(spans, AddSpan(spans, t, x), q)
    ensures forall q: ResourceId | q != x.space :: SameInSpace(spans, RemoveSpan(spans, t, x), q)
  {
    hide SpansOf, AddSpan, RemoveSpan;
    forall u: TxnId, y: Span | y.space != x.space
      ensures SpansOf(AddSpan(spans, t, x), u)[y] == SpansOf(spans, u)[y]
      ensures SpansOf(RemoveSpan(spans, t, x), u)[y] == SpansOf(spans, u)[y]
    {
      SpansAfter(spans, t, x, u);
    }
  }

  lemma RangePush(ranges: RangeLocks, spans: Spans, t: TxnId, x: Span)
    requires RangesOk(ranges, spans)
    ensures RangesOk(ranges[x.space := SpansAt(ranges, x.space) + [RangeHolder(t, x.range, x.mode)]],
                     AddSpan(spans, t, x))
  {
    hide SpaceOk, SameInSpace, AddSpan;
    var hs := SpansAt(ranges, x.space);
    assert SpaceOk(hs, x.space, spans);
    SpacePush(hs, spans, t, x);
    OtherSpacesSame(spans, t, x);
    RangesUpdate(ranges, spans, x.space, hs + [RangeHolder(t, x.range, x.mode)], AddSpan(spans, t, x));
  }

  lemma SpacePush(hs: seq<RangeHolder>, spans: Spans, t: TxnId, x: Span)
    requires SpaceOk(hs, x.space, spans)
    ensures SpaceOk(hs + [RangeHolder(t, x.range, x.mode)], x.space, AddSpan(spans, t, x))
  {
  }

  lemma RangeAcquired(ranges: RangeLocks, index: RangeByTxn, spans: Spans, t: TxnId, x: Span)
    requires SpansValid(ranges, index, spans) && CanGrantSpan(spans, t, x)
    ensures SpansValid(ranges[x.space := SpansAt(ranges, x.space) + [RangeHolder(t, x.range, x.mode)]],
                       index[t := PairsOf(index, t) + [(x.space, x.range)]], AddSpan(spans, t, x))
  {
    hide RangesOk, RangeIndexOk, RangesSafe, CanGrantSpan;
    RangePush(ranges, spans, t, x);
    RangeIndexPush(index, spans, t, x);
    AddSpanKeepsSafe(spans, t, x);
  }

  lemma RangeIndexPush(index: RangeByTxn, spans: Spans, t: TxnId, x: Span)
    requires RangeIndexOk(index, spans)
    ensures RangeIndexOk(index[t := PairsOf(index, t) + [(x.space, x.range)]], AddSpan(spans, t, x))
  {
    hide ListMatches;
    assert ListMatches(PairsOf(index, t), SpansOf(spans, t));
    ListPush(PairsOf(index, t), SpansOf(spans, t), x);
    IndexUpdate(index, spans, t, PairsOf(index, t) + [(x.space, x.range)], AddSpan(spans, t, x));
  }

  /** A matching holder is found exactly when the transaction holds that exact range. */
  lemma RangeFound(ranges: RangeLocks, spans: Spans, t: TxnId, s: ResourceId, g: KeyRange)
    requires RangesOk(ranges, spans)
    ensures var hs := SpansAt(ranges, s); var p := RangePos(hs, t, g);
            (p < |hs| <==> CountAt(SpansOf(spans, t), s, g) > 0) &&
            (p < |hs| ==> Span(s, g, hs[p].mode) in SpansOf(spans, t))
  {
    var hs := SpansAt(ranges, s);
    var p := RangePos(hs, t, g);
    assert SpaceOk(hs, s, spans);
    if p < |hs| {
      assert multiset(hs)[hs[p]] == SpansOf(spans, t)[Span(s, g, hs[p].mode)];
      assert hs[p] in multiset(hs);
      match hs[p].mode
      case IS => case IX => case S => case SIX => case X =>
    } else {
      forall m: LockMode ensures SpansOf(spans, t)[Span(s, g, m)] == 0 {
        var h := RangeHolder(t, g, m);
        assert h !in hs;
        assert multiset(hs)[h] == 0;
      }
    }
  }

  function WithoutRange(ranges: RangeLocks, s: ResourceId, p: nat): RangeLocks
    requires s in ranges && p < |ranges[s]|
  {
    var rest := SwapRemove(ranges[s], p);
    if rest == [] then ranges - {s} else ranges[s := rest]
  }

  lemma RangeRemove(ranges: RangeLocks, spans: Spans, s: ResourceId, p: nat)
    requires RangesOk(ranges, spans) && s in ranges && p < |ranges[s]|
    ensures var h := ranges[s][p]; var x := Span(s, h.range, h.mode);
            x in SpansOf(spans, h.txn) && RangesOk(WithoutRange(ranges, s, p), RemoveSpan(spans, h.txn, x))
  {
    hide SpaceOk, SameInSpace, RemoveSpan;
    var hs := ranges[s];
    var x := Span(s, hs[p].range, hs[p].mode);
    assert SpansAt(ranges, s) == hs;
    assert SpaceOk(hs, s, spans);
    SpaceRemove(hs, spans, s, p);
    OtherSpacesSame(spans, hs[p].txn, x);
    RangesUpdate(ranges, spans, s, SwapRemove(hs, p), RemoveSpan(spans, hs[p].txn, x));
  }

  lemma SpaceRemove(hs: seq<RangeHolder>, spans: Spans, s: ResourceId, p: nat)
    requires SpaceOk(hs, s, spans) && p < |hs|
    ensures var x := Span(s, hs[p].range, hs[p].mode);
            x in SpansOf(spans, hs[p].txn) && SpaceOk(SwapRemove(hs, p), s, RemoveSpan(spans, hs[p].txn, x))
  {
  }

  lemma ForgetKeepsRangeIndex(index: RangeByTxn, spans: Spans, t: TxnId, x: Span)
    requires RangeIndexOk(index, spans) && x in SpansOf(spans, t)
    ensures var list := PairsOf(index, t); var p := Position(list, (x.space, x.range));
            p < |list| && t in index &&
            RangeIndexOk(if |list| == 1 then index - {t} else index[t := SwapRemove(list, p)], RemoveSpan(spans, t, x))
  {
    hide ListMatches;
    var list := PairsOf(index, t);
    assert ListMatches(list, SpansOf(spans, t));
    ListHas(list, SpansOf(spans, t), x);
    var rest := SwapRemove(list, Position(list, (x.space, x.range)));
    ListRemove(list, rest, SpansOf(spans, t), x);
    IndexUpdate(index, spans, t, rest, RemoveSpan(spans, t, x));
  }

  lemma IndexUpdate(index: RangeByTxn, spans: Spans, t: TxnId, list: seq<(ResourceId, KeyRange)>, spans': Spans)
    requires RangeIndexOk(index, spans) && ListMatches(list, SpansOf(spans', t))
    requires forall u: TxnId | u != t :: SpansOf(spans', u) == SpansOf(spans, u)
    ensures RangeIndexOk(if list == [] then index - {t} else index[t := list], spans')
  {
    hide ListMatches;
    var index' := if list == [] then index - {t} else index[t := list];
    forall u: TxnId ensures ListMatches(PairsOf(index', u), SpansOf(spans', u)) {
      if u == t {
        assert PairsOf(index', t) == list;
      } else {
        assert PairsOf(index', u) == PairsOf(index, u);
        assert ListMatches(PairsOf(index, u), SpansOf(spans, u));
      }
    }
  }

  /** Between iterations of the range drain: `rest` lists exactly what `t` still holds. */
  ghost predicate RangeDraining(before: Spans, ranges: RangeLocks, index: RangeByTxn, spans: Spans, t: TxnId,
                                rest: seq<(ResourceId, KeyRange)>, released: nat) {
    RangesOk(ranges, spans) && t !in index &&
    (forall u | u in index :: index[u] != []) &&
    (forall u: TxnId | u != t :: SpansOf(spans, u) == SpansOf(before, u)) &&
    (forall u: TxnId | u != t :: ListMatches(PairsOf(index, u), SpansOf(spans, u))) &&
    ListMatches(rest, SpansOf(spans, t)) &&
    released + |SpansOf(spans, t)| == |SpansOf(before, t)|
  }

  lemma RangeDrainingStarts(ranges: RangeLocks, index: RangeByTxn, spans: Spans, t: TxnId)
    requires SpansValid(ranges, index, spans)
    ensures RangesSafe(spans)
    ensures RangeDraining(spans, ranges, index - {t}, spans, t, PairsOf(index, t), 0)
  {
    hide RangesOk, ListMatches;
    assert forall u: TxnId | u != t :: PairsOf(index - {t}, u) == PairsOf(index, u);
  }

  lemma RangeDrainingStep(before: Spans, ranges: RangeLocks, index: RangeByTxn, spans: Spans, t: TxnId,
                          rest: seq<(ResourceId, KeyRange)>, released: nat)
    requires RangeDraining(before, ranges, index, spans, t, rest, released) && rest != []
    ensures var (s, g) := rest[0];
            s in ranges && var p := RangePos(ranges[s], t, g);
            p < |ranges[s]| &&
            RangeDraining(before, WithoutRange(ranges, s, p), index,
                          RemoveSpan(spans, t, Span(s, g, ranges[s][p].mode)), t, rest[1..], released + 1)
  {
    hide RangesOk, CountAt, ListMatches;
    var (s, g) := rest[0];
    ListHead(rest, SpansOf(spans, t));
    RangeFound(ranges, spans, t, s, g);
    var p := RangePos(ranges[s], t, g);
    var x := Span(s, g, ranges[s][p].mode);
    RangeRemove(ranges, spans, s, p);
    ListRemove(rest, rest[1..], SpansOf(spans, t), x);
    assert forall u: TxnId | u != t :: SpansOf(RemoveSpan(spans, t, x), u) == SpansOf(spans, u);
  }

  lemma RangeDrainingEnds(before: Spans, ranges: RangeLocks, index: RangeByTxn, spans: Spans, t: TxnId, released: nat)
    requires RangeDraining(before, ranges, index, spans, t, [], released) && RangesSafe(before)
    ensures SpansValid(ranges, index, DropSpans(before, t)) && released == |SpansOf(before, t)|
  {
    hide RangesSafe;
    var after := DropSpans(before, t);
    forall x: Span ensures x !in SpansOf(spans, t) {
      if x in SpansOf(spans, t) {
        ListHas([], SpansOf(spans, t), x);
      }
    }
    assert SpansOf(spans, t) == multiset{};
    hide ListMatches;
    forall u: TxnId ensures SpansOf(after, u) == SpansOf(spans, u) {
    }
    RangesFrame(ranges, spans, after);
    assert PairsOf(index, t) == [];
    forall u: TxnId ensures ListMatches(PairsOf(index, u), SpansOf(after, u)) {
    }
    DropSpansKeepsSafe(before, t);
  }

  lemma RangesFrame(ranges: RangeLocks, spans: Spans, spans': Spans)
    requires RangesOk(ranges, spans) && forall u: TxnId :: SpansOf(spans', u) == SpansOf(spans, u)
    ensures RangesOk(ranges, spans')
  {
  }

  class Shard {
    var locks: Locks
    var byTxn: ByTxn
    var ranges: RangeLocks
    var rangeByTxn: RangeByTxn
    ghost var held: Held
    ghost var spans: Spans

    /** The maps agree with the flat view and the flat view is conflict free. */
    ghost predicate Valid()
      reads this
    {
      PointsValid(locks, byTxn, held) && SpansValid(ranges, rangeByTxn, spans)
    }

    constructor ()
      ensures Valid() && held == map[] && spans == map[]
    {
      locks, byTxn, ranges, rangeByTxn := map[], map[], map[], map[];
      held, spans := map[], map[];
    }

    /** Grants exactly when the flat rule does; a refusal changes nothing at all. */
    method TryGrantLocked(txn: TxnId, res: ResourceId, mode: LockMode) returns (granted: bool)
      requires Valid()
      modifies this`locks, this`byTxn, this`held
      ensures Valid()
      ensures granted <==> CanGrant(old(held), txn, res, mode)
      ensures held == TryGrant(old(held), txn, res, mode)
      ensures !granted ==> locks == old(locks) && byTxn == old(byTxn)
    {
      hide LocksOk, IndexOk, Safe, SpansValid, CanGrant, Grant;
      GrantKeepsSafe(held, txn, res, mode);
      ghost var before := locks;
      if res !in locks {
        locks := locks[res := []];
      }
      var holders := locks[res];
      assert holders == HoldersAt(before, res);
      var pos := HolderPos(holders, txn);
      if pos < |holders| {
        assert locks == before;
        var current := holders[pos].mode;
        if Covers(current, mode) {
          CoveredGrant(locks, held, txn, res, mode);
          return true;
        }
        var target := Join(current, mode);
        UpgradeDecision(locks, held, txn, res, mode, pos);
        var blocked := exists i | 0 <= i < |holders| :: i != pos && !Compatible(holders[i].mode, target);
        if blocked {
          return false;
        }
        UpgradeKeepsMaps(locks, byTxn, held, txn, res, pos, target);
        locks := locks[res := holders[pos := Holder(txn, target)]];
        held := held[(txn, res) := target];
        return true;
      }
      FreshDecision(before, held, txn, res, mode);
      if forall i | 0 <= i < |holders| :: Compatible(holders[i].mode, mode) {
        FreshKeepsMaps(before, byTxn, held, txn, res, mode);
        locks := locks[res := holders + [Holder(txn, mode)]];
        assert locks == before[res := holders + [Holder(txn, mode)]];
        byTxn := byTxn[txn := ListOf(byTxn, txn) + [res]];
        held := held[(txn, res) := mode];
        granted := true;
      } else {
        granted := false;
      }
    }

    /** Succeeds exactly when the lock is held, and then drops that lock only. */
    method Release(txn: TxnId, res: ResourceId) returns (outcome: Outcome)
      requires Valid()
      modifies this`locks, this`byTxn, this`held
      ensures Valid()
      ensures outcome == if (txn, res) in old(held) then Ok else Err(NotHeld)
      ensures held == DropLock(old(held), txn, res)
      ensures outcome.Err? ==> locks == old(locks) && byTxn == old(byTxn)
    {
      hide LocksOk, IndexOk, Safe, SpansValid, DropLock;
      LockListed(locks, held, txn, res);
      if res !in locks {
        return Err(NotHeld);
      }
      var pos := HolderPos(locks[res], txn);
      if pos == |locks[res]| {
        return Err(NotHeld);
      }
      RemoveKeepsLocks(locks, held, txn, res);
      DropLockSafe(held, txn, res);
      ghost var after := WithoutHolder(locks, res, pos);
      OverwriteThenRemove(locks, res, []);
      var rest := SwapRemove(locks[res], pos);
      locks := locks[res := rest];
      if rest == [] {
        locks := locks - {res};
      }
      assert locks == after;
      ForgetResource(txn, res);
      held := DropLock(held, txn, res);
      return Ok;
    }

    /** Drops `res` from the reverse index, and the whole entry once it is empty. */
    method ForgetResource(txn: TxnId, res: ResourceId)
      requires IndexOk(byTxn, held) && (txn, res) in held
      modifies this`byTxn
      ensures IndexOk(byTxn, DropLock(held, txn, res))
    {
      hide IndexOk;
      ForgetKeepsIndex(byTxn, held, txn, res);
      if txn in byTxn {
        var list := byTxn[txn];
        var pos := Position(list, res);
        if pos < |list| {
          byTxn := byTxn[txn := SwapRemove(list, pos)];
        }
        if byTxn[txn] == [] {
          byTxn := byTxn - {txn};
        }
      }
      ghost var list := ListOf(old(byTxn), txn);
      assert byTxn == if |list| == 1 then old(byTxn) - {txn}
                      else old(byTxn)[txn := SwapRemove(list, Position(list, res))];
    }

    /** The point-lock half of `release_all` on this shard. The reverse index has no entry for
        `txn` while the loop runs; it is exact again at the end. */
    method ReleaseAllPoints(txn: TxnId) returns (released: nat)
      requires Valid()
      modifies this`locks, this`byTxn, this`held
      ensures Valid()
      ensures held == DropTxn(old(held), txn)
      ensures released == |LocksOf(old(held), txn)|
    {
      hide PointsValid, SpansValid, Draining, LocksOf, DropTxn;
      released := 0;
      SafeView(locks, byTxn, held);
      DrainingStarts(locks, byTxn, held, txn);
      var resources := ListOf(byTxn, txn);
      byTxn := byTxn - {txn};
      assert resources[0..] == resources;
      for i := 0 to |resources|
        invariant Draining(old(held), locks, byTxn, held, txn, resources[i..], released)
      {
        var res := resources[i];
        assert resources[i..][0] == res && resources[i..][1..] == resources[i + 1..];
        DrainingStep(old(held), locks, byTxn, held, txn, resources[i..], released);
        if res in locks {
          var pos := HolderPos(locks[res], txn);
          if pos < |locks[res]| {
            ghost var after := WithoutHolder(locks, res, pos);
            OverwriteThenRemove(locks, res, []);
            var rest := SwapRemove(locks[res], pos);
            locks := locks[res := rest];
            released := released + 1;
            if rest == [] {
              locks := locks - {res};
            }
            assert locks == after;
            held := DropLock(held, txn, res);
          }
        }
      }
      assert resources[|resources|..] == [];
      DrainingEnds(old(held), locks, byTxn, held, txn, released);
    }

    method HoldersBlocking(waiter: TxnId, res: ResourceId, mode: LockMode) returns (blockers: seq<TxnId>)
      requires Valid()
      ensures (set b | b in blockers) == Blockers(held, waiter, res, mode)
    {
      BlockingIsExact(HoldersAt(locks, res), res, held, waiter, mode);
      blockers := Blocking(HoldersAt(locks, res), waiter, mode);
    }

    method HolderCount(res: ResourceId) returns (n: nat)
      requires Valid()
      ensures n == |HoldersOf(held, res)|
    {
      VectorCount(HoldersAt(locks, res), res, held);
      n := |HoldersAt(locks, res)|;
    }

    method ModeHeld(txn: TxnId, res: ResourceId) returns (mode: Option<LockMode>)
      requires Valid()
      ensures mode == if (txn, res) in held then Some(held[(txn, res)]) else None
    {
      var holders := HoldersAt(locks, res);
      HolderFound(holders, res, held, txn);
      var pos := HolderPos(holders, txn);
      mode := if pos < |holders| then Some(holders[pos].mode) else None;
    }

    /** Succeeds exactly when no other transaction holds an overlapping span in an incompatible
        mode; a refusal changes nothing. */
    method TryAcquireRange(txn: TxnId, space: ResourceId, range: KeyRange, mode: LockMode) returns (outcome: Outcome)
      requires Valid()
      modifies this`ranges, this`rangeByTxn, this`spans
      ensures Valid()
      ensures outcome == if CanGrantSpan(old(spans), txn, Span(space, range, mode)) then Ok else Err(Conflict)
      ensures spans == if outcome.Ok? then AddSpan(old(spans), txn, Span(space, range, mode)) else old(spans)
      ensures outcome.Err? ==> ranges == old(ranges) && rangeByTxn == old(rangeByTxn)
    {
      hide PointsValid, SpansValid, CanGrantSpan, AddSpan, Compatible, Overlaps;
      var x := Span(space, range, mode);
      ScanDecidesSpan(ranges, rangeByTxn, spans, txn, x);
      ghost var before := ranges;
      if space !in ranges {
        ranges := ranges[space := []];
      }
      var holders := ranges[space];
      assert holders == SpansAt(before, space);
      var conflict := exists i | 0 <= i < |holders| ::
        var h := holders[i]; h.txn != txn && Overlaps(h.range, range) && !Compatible(h.mode, mode);
      if conflict {
        assert ranges == before;
        return Err(Conflict);
      }
      RangeAcquired(before, rangeByTxn, spans, txn, x);
      ranges := ranges[space := holders + [RangeHolder(txn, range, mode)]];
      assert ranges == before[space := holders + [RangeHolder(txn, range, mode)]];
      rangeByTxn := rangeByTxn[txn := PairsOf(rangeByTxn, txn) + [(space, range)]];
      spans := AddSpan(spans, txn, x);
      return Ok;
    }

    /** Succeeds exactly when the transaction holds that exact range, and then drops the first lock
        on it in vector order and no other. */
    method ReleaseRange(txn: TxnId, space: ResourceId, range: KeyRange) returns (outcome: Outcome, ghost mode: LockMode)
      requires Valid()
      modifies this`ranges, this`rangeByTxn, this`spans
      ensures Valid()
      ensures outcome == if CountAt(SpansOf(old(spans), txn), space, range) > 0 then Ok else Err(NotHeld)
      ensures outcome.Ok? ==> FirstMode(old(ranges), space, txn, range) == Some(mode)
      ensures outcome.Ok? ==> Span(space, range, mode) in SpansOf(old(spans), txn) &&
                              spans == RemoveSpan(old(spans), txn, Span(space, range, mode))
      ensures outcome.Err? ==> spans == old(spans) && ranges == old(ranges) && rangeByTxn == old(rangeByTxn)
    {
      hide PointsValid, RangesOk, RangeIndexOk, RangesSafe, RemoveSpan, CountAt;
      mode := IS;
      RangeFound(ranges, spans, txn, space, range);
      if space !in ranges {
        return Err(NotHeld), mode;
      }
      var pos := RangePos(ranges[space], txn, range);
      if pos == |ranges[space]| {
        return Err(NotHeld), mode;
      }
      mode := ranges[space][pos].mode;
      RangeRemove(ranges, spans, space, pos);
      RemoveSpanKeepsSafe(spans, txn, Span(space, range, mode));
      ghost var after := WithoutRange(ranges, space, pos);
      OverwriteThenRemove(ranges, space, []);
      var rest := SwapRemove(ranges[space], pos);
      ranges := ranges[space := rest];
      if rest == [] {
        ranges := ranges - {space};
      }
      assert ranges == after;
      ForgetRange(txn, space, range, mode);
      spans := RemoveSpan(spans, txn, Span(space, range, mode));
      return Ok, mode;
    }

    method ForgetRange(txn: TxnId, space: ResourceId, range: KeyRange, ghost mode: LockMode)
      requires RangeIndexOk(rangeByTxn, spans) && Span(space, range, mode) in SpansOf(spans, txn)
      modifies this`rangeByTxn
      ensures RangeIndexOk(rangeByTxn, RemoveSpan(spans, txn, Span(space, range, mode)))
    {
      hide RangeIndexOk;
      ForgetKeepsRangeIndex(rangeByTxn, spans, txn, Span(space, range, mode));
      if txn in rangeByTxn {
        var list := rangeByTxn[txn];
        var pos := Position(list, (space, range));
        if pos < |list| {
          rangeByTxn := rangeByTxn[txn := SwapRemove(list, pos)];
        }
        if rangeByTxn[txn] == [] {
          rangeByTxn := rangeByTxn - {txn};
        }
      }
      ghost var list := PairsOf(old(rangeByTxn), txn);
      assert rangeByTxn == if |list| == 1 then old(rangeByTxn) - {txn}
                           else old(rangeByTxn)[txn := SwapRemove(list, Position(list, (space, range)))];
    }

    /** The range-lock half of `release_all` on this shard. */
    method ReleaseAllRanges(txn: TxnId) returns (released: nat)
      requires Valid()
      modifies this`ranges, this`rangeByTxn, this`spans
      ensures Valid()
      ensures spans == DropSpans(old(spans), txn)
      ensures released == |SpansOf(old(spans), txn)|
    {
      hide PointsValid, SpansValid, RangesSafe, RangeDraining, RemoveSpan, DropSpans;
      released := 0;
      RangeDrainingStarts(ranges, rangeByTxn, spans, txn);
      var pairs := PairsOf(rangeByTxn, txn);
      rangeByTxn := rangeByTxn - {txn};
      assert pairs[0..] == pairs;
      for i := 0 to |pairs|
        invariant RangeDraining(old(spans), ranges, rangeByTxn, spans, txn, pairs[i..], released)
      {
        var (space, range) := pairs[i];
        assert pairs[i..][0] == pairs[i] && pairs[i..][1..] == pairs[i + 1..];
        RangeDrainingStep(old(spans), ranges, rangeByTxn, spans, txn, pairs[i..], released);
        if space in ranges {
          var pos := RangePos(ranges[space], txn, range);
          if pos < |ranges[space]| {
            ghost var after := WithoutRange(ranges, space, pos);
            OverwriteThenRemove(ranges, space, []);
            spans := RemoveSpan(spans, txn, Span(space, range, ranges[space][pos].mode));
            var rest := SwapRemove(ranges[space], pos);
            ranges := ranges[space := rest];
            released := released + 1;
            if rest == [] {
              ranges := ranges - {space};
            }
            assert ranges == after;
          }
        }
      }
      assert pairs[|pairs|..] == [];
      RangeDrainingEnds(old(spans), ranges, rangeByTxn, spans, txn, released);
      spans := DropSpans(old(spans), txn);
    }
  }
}
