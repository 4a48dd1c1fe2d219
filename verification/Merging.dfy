/** The flat table as the disjoint union of the shards' tables, and what one shard's critical
    section does to the whole. */
module Merging {
  import opened Ids
  import opened Modes
  import opened Ranges
  import opened Routing
  import opened FlatTable

  /** Each key sits in the shard its resource hashes to, and nowhere else. */
  ghost predicate Merges(bits: Bits, parts: seq<Held>, held: Held) {
    |parts| == Pow2(bits) &&
    (forall i, k | 0 <= i < |parts| && k in parts[i] ::
      ShardIndex(bits, k.1) == i && k in held && held[k] == parts[i][k]) &&
    (forall k | k in held :: ShardIndex(bits, k.1) < |parts| && k in parts[ShardIndex(bits, k.1)])
  }

  /** `a` is what `b` has in the spaces that hash to shard `i`. */
  ghost predicate Slice(bits: Bits, a: multiset<Span>, b: multiset<Span>, i: nat) {
    forall x: Span :: a[x] == if ShardIndex(bits, x.space) == i then b[x] else 0
  }

  /** Shard `i` holds exactly the spans whose space hashes to it. */
  ghost predicate PartOf(bits: Bits, part: Spans, spans: Spans, i: nat) {
    forall t: TxnId :: Slice(bits, SpansOf(part, t), SpansOf(spans, t), i)
  }

  ghost predicate SpansMerge(bits: Bits, parts: seq<Spans>, spans: Spans) {
    |parts| == Pow2(bits) && forall i | 0 <= i < |parts| :: PartOf(bits, parts[i], spans, i)
  }

  /** The locks of `t` in shard `k` are dropped. */
  function DropIn(bits: Bits, held: Held, t: TxnId, k: nat): Held
  {
    map key | key in held && !(key.0 == t && ShardIndex(bits, key.1) == k) :: held[key]
  }

  /** The locks of `t` in the first `n` shards are dropped. */
  function DropBelow(bits: Bits, held: Held, t: TxnId, n: nat): Held
  {
    map key | key in held && !(key.0 == t && ShardIndex(bits, key.1) < n) :: held[key]
  }

  lemma DropBelowNext(bits: Bits, held: Held, t: TxnId, n: nat)
    ensures DropIn(bits, DropBelow(bits, held, t, n), t, n) == DropBelow(bits, held, t, n + 1)
    ensures DropBelow(bits, held, t, 0) == held
  {
  }

  /** Sweeping every shard drops everything. */
  lemma DropBelowAll(bits: Bits, held: Held, t: TxnId)
    ensures DropBelow(bits, held, t, Pow2(bits)) == DropTxn(held, t)
  {
    forall key | key in held ensures ShardIndex(bits, key.1) < Pow2(bits) {
      ShardInBounds(bits, key.1);
    }
  }

  /** The spans that do not belong to shard `k`. */
  ghost function Outside(bits: Bits, spans: multiset<Span>, k: nat): (rest: multiset<Span>)
    ensures forall x: Span :: rest[x] == if ShardIndex(bits, x.space) == k then 0 else spans[x]
    decreases |spans|
  {
    if spans == multiset{} then multiset{}
    else
      var x: Span :| x in spans;
      var rest := Outside(bits, spans[x := 0], k);
      if ShardIndex(bits, x.space) == k then rest else rest[x := spans[x]]
  }

  /** `t` has nothing left in shard `n`; every other lock is as it was. */
  ghost predicate SweptIn(bits: Bits, held: Held, held': Held, t: TxnId, n: nat) {
    forall k: (TxnId, ResourceId) ::
      (k in held' <==> k in held && !(k.0 == t && ShardIndex(bits, k.1) == n)) && (k in held' ==> held[k] == held'[k])
  }

  ghost predicate SpansSweptIn(bits: Bits, spans: Spans, spans': Spans, t: TxnId, n: nat) {
    (forall u: TxnId | u != t :: SpansOf(spans', u) == SpansOf(spans, u)) &&
    forall x: Span :: SpansOf(spans', t)[x] == if ShardIndex(bits, x.space) == n then 0 else SpansOf(spans, t)[x]
  }

  lemma DropInMeans(bits: Bits, held: Held, spans: Spans, t: TxnId, n: nat)
    ensures SweptIn(bits, held, DropIn(bits, held, t, n), t, n)
    ensures SpansSweptIn(bits, spans, DropSpansIn(bits, spans, t, n), t, n)
  {
    hide ShardIndex;
  }

  // ---- one shard's step seen from the whole --------------------------------------------

  lemma MergedSafe(bits: Bits, parts: seq<Held>, held: Held)
    requires Merges(bits, parts, held) && forall i | 0 <= i < |parts| :: Safe(parts[i])
    ensures Safe(held)
  {
  }

  /** The owning shard sees exactly the holders of the resource. */
  lemma PartSeesResource(bits: Bits, parts: seq<Held>, held: Held, r: ResourceId)
    requires Merges(bits, parts, held)
    ensures var i := ShardIndex(bits, r);
            i < |parts| &&
            forall t: TxnId ::
              ((t, r) in parts[i] <==> (t, r) in held) && ((t, r) in held ==> parts[i][(t, r)] == held[(t, r)])
  {
    hide ShardIndex;
    ShardInBounds(bits, r);
    forall t: TxnId ensures (t, r) in parts[ShardIndex(bits, r)] <==> (t, r) in held {
      assert (t, r).1 == r;
    }
  }

  lemma PartDecides(bits: Bits, parts: seq<Held>, held: Held, t: TxnId, r: ResourceId, m: LockMode)
    requires Merges(bits, parts, held)
    ensures var i := ShardIndex(bits, r);
            i < |parts| &&
            (CanGrant(parts[i], t, r, m) <==> CanGrant(held, t, r, m)) &&
            Target(parts[i], t, r, m) == Target(held, t, r, m) &&
            Blockers(parts[i], t, r, m) == Blockers(held, t, r, m)
  {
    hide Merges, ShardIndex;
    PartSeesResource(bits, parts, held, r);
    var p := parts[ShardIndex(bits, r)];
    BlockersMeaning(p, t, r, m);
    BlockersMeaning(held, t, r, m);
    assert forall b: TxnId :: b in Blockers(p, t, r, m) <==> b in Blockers(held, t, r, m);
    assert OthersAllow(p, t, r, Target(held, t, r, m)) <==> OthersAllow(held, t, r, Target(held, t, r, m));
  }

  lemma MergeGrant(bits: Bits, parts: seq<Held>, held: Held, t: TxnId, r: ResourceId, m: LockMode)
    requires Merges(bits, parts, held)
    ensures var i := ShardIndex(bits, r);
            i < |parts| &&
            Merges(bits, parts[i := TryGrant(parts[i], t, r, m)], TryGrant(held, t, r, m))
  {
    hide ShardIndex;
    hide CanGrant;
    PartDecides(bits, parts, held, t, r, m);
  }

  lemma MergeDropLock(bits: Bits, parts: seq<Held>, held: Held, t: TxnId, r: ResourceId)
    requires Merges(bits, parts, held)
    ensures var i := ShardIndex(bits, r);
            i < |parts| &&
            ((t, r) in parts[i] <==> (t, r) in held) &&
            Merges(bits, parts[i := DropLock(parts[i], t, r)], DropLock(held, t, r))
  {
    hide ShardIndex;
    ShardInBounds(bits, r);
    assert (t, r).1 == r;
  }

  lemma MergeDropIn(bits: Bits, parts: seq<Held>, held: Held, t: TxnId, k: nat)
    requires Merges(bits, parts, held) && k < |parts|
    ensures Merges(bits, parts[k := DropTxn(parts[k], t)], DropIn(bits, held, t, k))
  {
    hide ShardIndex;
    var parts' := parts[k := DropTxn(parts[k], t)];
    var held' := DropIn(bits, held, t, k);
    forall i, key: (TxnId, ResourceId) | 0 <= i < |parts'| && key in parts'[i]
      ensures ShardIndex(bits, key.1) == i && key in held' && held'[key] == parts'[i][key]
    {
      assert key in parts[i];
    }
    forall key: (TxnId, ResourceId) | key in held'
      ensures ShardIndex(bits, key.1) < |parts'| && key in parts'[ShardIndex(bits, key.1)]
    {
      assert key in held;
    }
  }

  lemma CountDropIn(bits: Bits, parts: seq<Held>, held: Held, t: TxnId, k: nat)
    requires Merges(bits, parts, held) && k < |parts|
    ensures |LocksOf(held, t)| == |LocksOf(DropIn(bits, held, t, k), t)| + |LocksOf(parts[k], t)|
  {
    hide ShardIndex;
    var rest := LocksOf(DropIn(bits, held, t, k), t);
    var gone := LocksOf(parts[k], t);
    forall key ensures key in LocksOf(held, t) <==> key in rest || key in gone {
    }
    assert LocksOf(held, t) == rest + gone && rest !! gone;
  }

  // ---- ranges --------------------------------------------------------------------------

  lemma PartDecidesSpan(bits: Bits, parts: seq<Spans>, spans: Spans, t: TxnId, s: Span)
    requires SpansMerge(bits, parts, spans)
    ensures var i := ShardIndex(bits, s.space);
            i < |parts| &&
            (CanGrantSpan(parts[i], t, s) <==> CanGrantSpan(spans, t, s)) &&
            forall x: Span | x.space == s.space :: SpansOf(parts[i], t)[x] == SpansOf(spans, t)[x]
  {
    ShardInBounds(bits, s.space);
    hide ShardIndex;
    var i := ShardIndex(bits, s.space);
    assert PartOf(bits, parts[i], spans, i);
    forall u: TxnId, x: Span | x.space == s.space ensures SpansOf(parts[i], u)[x] == SpansOf(spans, u)[x] {
      assert Slice(bits, SpansOf(parts[i], u), SpansOf(spans, u), i);
    }
    forall u: TxnId, a: Span | a.space == s.space
      ensures u in parts[i] && a in parts[i][u] <==> u in spans && a in spans[u]
    {
      assert SpansOf(parts[i], u)[a] == SpansOf(spans, u)[a];
    }
  }

  ghost predicate SameOutside(bits: Bits, spans: Spans, spans': Spans, k: nat) {
    forall t: TxnId, x: Span | ShardIndex(bits, x.space) != k :: SpansOf(spans', t)[x] == SpansOf(spans, t)[x]
  }

  /** Only one shard's part and only its own spans change. */
  lemma MergeUpdate(bits: Bits, parts: seq<Spans>, spans: Spans, k: nat, part: Spans, spans': Spans)
    requires SpansMerge(bits, parts, spans) && k < |parts|
    requires PartOf(bits, part, spans', k) && SameOutside(bits, spans, spans', k)
    ensures SpansMerge(bits, parts[k := part], spans')
  {
  }

  lemma SliceChange(bits: Bits, a: multiset<Span>, b: multiset<Span>, s: Span)
    requires Slice(bits, a, b, ShardIndex(bits, s.space))
    ensures Slice(bits, a + multiset{s}, b + multiset{s}, ShardIndex(bits, s.space))
    ensures Slice(bits, a - multiset{s}, b - multiset{s}, ShardIndex(bits, s.space))
  {
  }

  lemma PartChange(bits: Bits, part: Spans, spans: Spans, t: TxnId, s: Span, i: nat)
    requires PartOf(bits, part, spans, i) && ShardIndex(bits, s.space) == i
    ensures PartOf(bits, AddSpan(part, t, s), AddSpan(spans, t, s), i)
    ensures PartOf(bits, RemoveSpan(part, t, s), RemoveSpan(spans, t, s), i)
  {
    hide ShardIndex, Slice, SpansOf, AddSpan, RemoveSpan;
    forall u: TxnId
      ensures Slice(bits, SpansOf(AddSpan(part, t, s), u), SpansOf(AddSpan(spans, t, s), u), i)
      ensures Slice(bits, SpansOf(RemoveSpan(part, t, s), u), SpansOf(RemoveSpan(spans, t, s), u), i)
    {
      SpansAfter(part, t, s, u);
      SpansAfter(spans, t, s, u);
      assert Slice(bits, SpansOf(part, u), SpansOf(spans, u), i);
      if u == t {
        SliceChange(bits, SpansOf(part, t), SpansOf(spans, t), s);
      }
    }
  }

  lemma ChangeStaysInside(bits: Bits, spans: Spans, t: TxnId, s: Span)
    ensures SameOutside(bits, spans, AddSpan(spans, t, s), ShardIndex(bits, s.space))
    ensures SameOutside(bits, spans, RemoveSpan(spans, t, s), ShardIndex(bits, s.space))
  {
    hide ShardIndex;
  }

  lemma MergeSpan(bits: Bits, parts: seq<Spans>, spans: Spans, t: TxnId, s: Span)
    requires SpansMerge(bits, parts, spans)
    ensures var i := ShardIndex(bits, s.space);
            i < |parts| &&
            SpansMerge(bits, parts[i := AddSpan(parts[i], t, s)], AddSpan(spans, t, s)) &&
            SpansMerge(bits, parts[i := RemoveSpan(parts[i], t, s)], RemoveSpan(spans, t, s))
  {
    ShardInBounds(bits, s.space);
    hide ShardIndex, PartOf, SameOutside, AddSpan, RemoveSpan;
    var i := ShardIndex(bits, s.space);
    PartChange(bits, parts[i], spans, t, s, i);
    ChangeStaysInside(bits, spans, t, s);
    MergeUpdate(bits, parts, spans, i, AddSpan(parts[i], t, s), AddSpan(spans, t, s));
    MergeUpdate(bits, parts, spans, i, RemoveSpan(parts[i], t, s), RemoveSpan(spans, t, s));
  }

  /** The spans of `t` in shard `k` are dropped. */
  ghost function DropSpansIn(bits: Bits, spans: Spans, t: TxnId, k: nat): Spans {
    spans[t := Outside(bits, SpansOf(spans, t), k)]
  }

  lemma MergeDropSpans(bits: Bits, parts: seq<Spans>, spans: Spans, t: TxnId, k: nat)
    requires SpansMerge(bits, parts, spans) && k < |parts|
    ensures SpansMerge(bits, parts[k := DropSpans(parts[k], t)], DropSpansIn(bits, spans, t, k))
    ensures |SpansOf(spans, t)| == |SpansOf(DropSpansIn(bits, spans, t, k), t)| + |SpansOf(parts[k], t)|
  {
    hide ShardIndex, PartOf, SameOutside, Outside;
    PartDrop(bits, parts[k], spans, t, k);
    MergeUpdate(bits, parts, spans, k, DropSpans(parts[k], t), DropSpansIn(bits, spans, t, k));
  }

  lemma PartDrop(bits: Bits, part: Spans, spans: Spans, t: TxnId, k: nat)
    requires PartOf(bits, part, spans, k)
    ensures PartOf(bits, DropSpans(part, t), DropSpansIn(bits, spans, t, k), k)
    ensures SameOutside(bits, spans, DropSpansIn(bits, spans, t, k), k)
    ensures |SpansOf(spans, t)| == |Outside(bits, SpansOf(spans, t), k)| + |SpansOf(part, t)|
  {
    hide ShardIndex, Slice;
    assert Slice(bits, SpansOf(part, t), SpansOf(spans, t), k);
    SliceSplits(bits, SpansOf(part, t), SpansOf(spans, t), k);
    forall u: TxnId ensures Slice(bits, SpansOf(DropSpans(part, t), u), SpansOf(DropSpansIn(bits, spans, t, k), u), k) {
      assert Slice(bits, SpansOf(part, u), SpansOf(spans, u), k);
    }
    DropStaysInside(bits, spans, t, k);
  }

  lemma SliceSplits(bits: Bits, a: multiset<Span>, b: multiset<Span>, k: nat)
    requires Slice(bits, a, b, k)
    ensures b == Outside(bits, b, k) + a && Slice(bits, multiset{}, Outside(bits, b, k), k)
  {
  }

  lemma DropStaysInside(bits: Bits, spans: Spans, t: TxnId, k: nat)
    ensures SameOutside(bits, spans, DropSpansIn(bits, spans, t, k), k)
  {
  }

  /** What is left of a transaction's spans once the first `n` shards are swept. */
  ghost predicate SweptBelow(bits: Bits, before: Spans, spans: Spans, t: TxnId, n: nat) {
    (forall u: TxnId | u != t :: SpansOf(spans, u) == SpansOf(before, u)) &&
    forall x: Span :: SpansOf(spans, t)[x] == if ShardIndex(bits, x.space) < n then 0 else SpansOf(before, t)[x]
  }

  lemma SweptNext(bits: Bits, before: Spans, spans: Spans, t: TxnId, n: nat)
    requires SweptBelow(bits, before, spans, t, n)
    ensures SweptBelow(bits, before, DropSpansIn(bits, spans, t, n), t, n + 1)
  {
  }

  lemma SweptAll(bits: Bits, before: Spans, spans: Spans, t: TxnId)
    requires SweptBelow(bits, before, spans, t, Pow2(bits))
    ensures forall u: TxnId :: SpansOf(spans, u) == SpansOf(DropSpans(before, t), u)
  {
    forall x: Span ensures SpansOf(spans, t)[x] == 0 {
      ShardInBounds(bits, x.space);
    }
    hide ShardIndex;
    assert SpansOf(spans, t) == multiset{};
  }

  lemma MergeFrame(bits: Bits, parts: seq<Spans>, spans: Spans, spans': Spans)
    requires SpansMerge(bits, parts, spans) && forall u: TxnId :: SpansOf(spans, u) == SpansOf(spans', u)
    ensures SpansMerge(bits, parts, spans')
  {
  }

  lemma MergedRangesSafe(bits: Bits, parts: seq<Spans>, spans: Spans)
    requires SpansMerge(bits, parts, spans) && forall i | 0 <= i < |parts| :: RangesSafe(parts[i])
    ensures RangesSafe(spans)
  {
    forall t, u, a: Span, b: Span | t in spans && u in spans && t != u && a in spans[t] && b in spans[u] &&
                                    a.space == b.space && Overlaps(a.range, b.range)
      ensures Compatible(a.mode, b.mode)
    {
      ShardInBounds(bits, a.space);
      hide ShardIndex, Compatible, Overlaps;
      var i := ShardIndex(bits, a.space);
      assert PartOf(bits, parts[i], spans, i);
      assert Slice(bits, SpansOf(parts[i], t), SpansOf(spans, t), i);
      assert Slice(bits, SpansOf(parts[i], u), SpansOf(spans, u), i);
      assert SpansOf(parts[i], t)[a] == SpansOf(spans, t)[a];
      assert SpansOf(parts[i], u)[b] == SpansOf(spans, u)[b];
      assert RangesSafe(parts[i]);
    }
  }
}
