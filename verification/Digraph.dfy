/** Finite directed graphs over transactions: paths, cycles and the lemmas deadlock detection
    needs. An edge `a -> b` reads "a waits for b". */
module Digraph {
  import opened Ids
  import opened Collections

  type Graph = map<TxnId, set<TxnId>>

  function Succ(g: Graph, v: TxnId): set<TxnId> {
    if v in g then g[v] else {}
  }

  ghost predicate IsPath(g: Graph, p: seq<TxnId>) {
    |p| > 0 && forall i | 0 <= i < |p| - 1 :: p[i + 1] in Succ(g, p[i])
  }

  /** Each vertex waits for the next and the last waits for the first. */
  ghost predicate IsCycle(g: Graph, c: seq<TxnId>) {
    IsPath(g, c) && c[0] in Succ(g, c[|c| - 1])
  }

  ghost predicate Connects(g: Graph, p: seq<TxnId>, a: TxnId, b: TxnId) {
    IsPath(g, p) && p[0] == a && p[|p| - 1] == b
  }

  ghost predicate Reaches(g: Graph, a: TxnId, b: TxnId) {
    exists p :: Connects(g, p, a, b)
  }

  ghost predicate CycleReachable(g: Graph, a: TxnId) {
    exists c :: IsCycle(g, c) && Reaches(g, a, c[0])
  }

  ghost predicate Acyclic(g: Graph) {
    forall c :: !IsCycle(g, c)
  }

  /** Every cycle passes through `t`. */
  ghost predicate CyclesMeet(g: Graph, t: TxnId) {
    forall c | IsCycle(g, c) :: t in c
  }

  ghost predicate SameGraph(g: Graph, h: Graph) {
    forall v :: Succ(g, v) == Succ(h, v)
  }

  ghost predicate Subgraph(g: Graph, h: Graph) {
    forall v :: Succ(g, v) <= Succ(h, v)
  }

  /** Both graphs have edges only out of `w`, and agree on the edges inside `w`. */
  ghost predicate AgreeInside(g: Graph, h: Graph, w: set<TxnId>) {
    forall v ::
      Succ(g, v) * w == Succ(h, v) * w &&
      (v !in w ==> Succ(g, v) == {} && Succ(h, v) == {})
  }

  lemma ReachesSelf(g: Graph, a: TxnId)
    ensures Reaches(g, a, a)
  {
    assert Connects(g, [a], a, a);
  }

  lemma ReachesNext(g: Graph, a: TxnId, b: TxnId, c: TxnId)
    requires Reaches(g, a, b) && c in Succ(g, b)
    ensures Reaches(g, a, c)
  {
    var p :| Connects(g, p, a, b);
    assert Connects(g, p + [c], a, c);
  }

  lemma SubgraphCycle(g: Graph, h: Graph, c: seq<TxnId>)
    requires Subgraph(g, h) && IsCycle(g, c)
    ensures IsCycle(h, c)
  {
  }

  lemma SubgraphAcyclic(g: Graph, h: Graph)
    requires Subgraph(g, h) && Acyclic(h)
    ensures Acyclic(g)
  {
    forall c ensures !IsCycle(g, c) {
      if IsCycle(g, c) {
        SubgraphCycle(g, h, c);
      }
    }
  }

  lemma CycleInside(g: Graph, h: Graph, w: set<TxnId>, c: seq<TxnId>)
    requires AgreeInside(g, h, w) && IsCycle(g, c)
    ensures IsCycle(h, c) && forall v | v in c :: v in w
  {
    forall i | 0 <= i < |c| ensures c[i] in w {
      if i < |c| - 1 {
        assert c[i + 1] in Succ(g, c[i]);
      }
    }
    forall i | 0 <= i < |c| - 1 ensures c[i + 1] in Succ(h, c[i]) {
      assert c[i + 1] in Succ(g, c[i]) * w;
    }
    assert c[0] in Succ(g, c[|c| - 1]) * w;
  }

  lemma ReachableInside(g: Graph, h: Graph, w: set<TxnId>, a: TxnId)
    requires AgreeInside(g, h, w) && CycleReachable(g, a)
    ensures CycleReachable(h, a)
  {
    var c :| IsCycle(g, c) && Reaches(g, a, c[0]);
    CycleInside(g, h, w, c);
    var p :| Connects(g, p, a, c[0]);
    forall i | 0 <= i < |p| - 1 ensures p[i + 1] in Succ(h, p[i]) {
      assert p[i + 1] in Succ(g, p[i]);
      if i + 1 < |p| - 1 {
        assert p[i + 2] in Succ(g, p[i + 1]);
      } else {
        assert p[i + 1] == c[0] && c[0] in c;
      }
      assert p[i + 1] in Succ(g, p[i]) * w;
    }
    assert Connects(h, p, a, c[0]);
  }

  /** Edges that leave `w` never matter: agreeing inside `w` fixes all cycles and who reaches one. */
  lemma InsideDecidesCycles(g: Graph, h: Graph, w: set<TxnId>)
    requires AgreeInside(g, h, w)
    ensures forall c :: IsCycle(g, c) <==> IsCycle(h, c)
    ensures forall a :: CycleReachable(g, a) <==> CycleReachable(h, a)
  {
    forall c ensures IsCycle(g, c) <==> IsCycle(h, c) {
      if IsCycle(g, c) { CycleInside(g, h, w, c); }
      if IsCycle(h, c) { CycleInside(h, g, w, c); }
    }
    forall a ensures CycleReachable(g, a) <==> CycleReachable(h, a) {
      if CycleReachable(g, a) { ReachableInside(g, h, w, a); }
      if CycleReachable(h, a) { ReachableInside(h, g, w, a); }
    }
  }

  /** `g` has edges only out of `w`, and inside `w` no edge that `h` lacks. */
  ghost predicate InsideOf(g: Graph, h: Graph, w: set<TxnId>) {
    forall v :: if v in w then Succ(g, v) * w <= Succ(h, v) else Succ(g, v) == {}
  }

  /** Then every cycle of `g` is one of `h`. */
  lemma CyclesInherited(g: Graph, h: Graph, w: set<TxnId>)
    requires InsideOf(g, h, w)
    ensures forall c | IsCycle(g, c) :: IsCycle(h, c) && forall v | v in c :: v in w
  {
    forall c | IsCycle(g, c) ensures IsCycle(h, c) && forall v | v in c :: v in w {
      forall i | 0 <= i < |c| ensures c[i] in w {
        if i < |c| - 1 {
          assert c[i + 1] in Succ(g, c[i]);
        }
      }
      forall i | 0 <= i < |c| - 1 ensures c[i + 1] in Succ(h, c[i]) {
        assert c[i + 1] in Succ(g, c[i]) * w;
      }
      assert c[0] in Succ(g, c[|c| - 1]) * w;
    }
  }

  /** A cycle survives in any graph that keeps the edges between its members. */
  lemma CycleKept(g: Graph, h: Graph, c: seq<TxnId>)
    requires IsCycle(g, c)
    requires forall a, b | a in c && b in c && b in Succ(g, a) :: b in Succ(h, a)
    ensures IsCycle(h, c)
  {
    forall i | 0 <= i < |c| - 1 ensures c[i + 1] in Succ(h, c[i]) {
      assert c[i + 1] in Succ(g, c[i]) && c[i] in c && c[i + 1] in c;
    }
    assert c[0] in c && c[|c| - 1] in c;
  }

  /** Each member of a cycle waits for some member. */
  lemma MemberWaits(g: Graph, c: seq<TxnId>, t: TxnId) returns (b: TxnId)
    requires IsCycle(g, c) && t in c
    ensures b in c && b in Succ(g, t)
  {
    var k :| 0 <= k < |c| && c[k] == t;
    if k < |c| - 1 {
      b := c[k + 1];
    } else {
      b := c[0];
    }
  }

  /** A cycle may be entered at any of its members. */
  lemma Rotate(g: Graph, c: seq<TxnId>, k: nat)
    requires IsCycle(g, c) && k < |c|
    ensures IsCycle(g, c[k..] + c[..k]) && (c[k..] + c[..k])[0] == c[k]
  {
  }

  lemma MemberReachesCycle(g: Graph, c: seq<TxnId>, t: TxnId)
    requires IsCycle(g, c) && t in c
    ensures CycleReachable(g, t)
  {
    var k :| 0 <= k < |c| && c[k] == t;
    Rotate(g, c, k);
    ReachesSelf(g, t);
  }

  /** If all cycles pass through `t`, looking only from `t` decides whether there is any. */
  lemma MeetingPointDecides(g: Graph, t: TxnId)
    requires CyclesMeet(g, t)
    ensures CycleReachable(g, t) <==> !Acyclic(g)
  {
    if !Acyclic(g) {
      var c :| IsCycle(g, c);
      MemberReachesCycle(g, c, t);
    }
  }

  /** `done` lists vertices so that every edge leads to an earlier one. */
  ghost predicate Ordered(g: Graph, done: seq<TxnId>) {
    forall i | 0 <= i < |done| :: forall v | v in Succ(g, done[i]) :: v in done[..i]
  }

  lemma OrderedCycleDescends(g: Graph, done: seq<TxnId>, c: seq<TxnId>, k: nat) returns (i: nat)
    requires NoDup(done) && Ordered(g, done) && IsCycle(g, c) && c[0] in done && k < |c|
    ensures i < |done| && done[i] == c[k]
    ensures forall j | 0 <= j < |done| && done[j] == c[0] :: i + k <= j
  {
    if k == 0 {
      i :| 0 <= i < |done| && done[i] == c[0];
    } else {
      var h := OrderedCycleDescends(g, done, c, k - 1);
      assert c[k - 1 + 1] in Succ(g, c[k - 1]);
      assert c[k] in done[..h];
      i :| 0 <= i < h && done[i] == c[k];
    }
  }

  /** No cycle enters an ordered list, so none can be reached from one of its members. */
  lemma OrderedHasNoCycle(g: Graph, done: seq<TxnId>, a: TxnId)
    requires NoDup(done) && Ordered(g, done) && a in done
    ensures !CycleReachable(g, a)
  {
    if CycleReachable(g, a) {
      var c :| IsCycle(g, c) && Reaches(g, a, c[0]);
      var p :| Connects(g, p, a, c[0]);
      OrderedPathStays(g, done, p);
      var i := OrderedCycleDescends(g, done, c, |c| - 1);
      assert false;
    }
  }

  lemma OrderedPathStays(g: Graph, done: seq<TxnId>, p: seq<TxnId>)
    requires Ordered(g, done) && IsPath(g, p) && p[0] in done
    ensures p[|p| - 1] in done
  {
    if |p| > 1 {
      var n := |p| - 1;
      assert IsPath(g, p[..n]);
      OrderedPathStays(g, done, p[..n]);
      assert p[n - 1 + 1] in Succ(g, p[n - 1]);
      var i :| 0 <= i < |done| && done[i] == p[n - 1];
      assert p[n] in done[..i];
    }
  }

  /** A path that revisits a vertex closes a cycle. */
  lemma PathClosesCycle(g: Graph, p: seq<TxnId>, pos: nat)
    requires IsPath(g, p) && pos < |p| && p[pos] in Succ(g, p[|p| - 1])
    ensures IsCycle(g, p[pos..])
  {
  }

  lemma ExtendUntilCycle(g: Graph, w: set<TxnId>, p: seq<TxnId>)
    requires forall v | v in w :: Succ(g, v) * w != {}
    requires IsPath(g, p) && NoDup(p) && forall v | v in p :: v in w
    ensures !Acyclic(g)
    decreases |w| - |p|
  {
    var v :| v in Succ(g, p[|p| - 1]) * w;
    if v in p {
      var pos :| 0 <= pos < |p| && p[pos] == v;
      PathClosesCycle(g, p, pos);
    } else {
      NoDupWithin(p + [v], w);
      ExtendUntilCycle(g, w, p + [v]);
    }
  }

  /** In an acyclic graph every non-empty finite set of vertices has a member that waits for none
      of the others. */
  lemma SinkExists(g: Graph, w: set<TxnId>) returns (v: TxnId)
    requires Acyclic(g) && w != {}
    ensures v in w && Succ(g, v) * w == {}
  {
    if forall v | v in w :: Succ(g, v) * w != {} {
      var a :| a in w;
      ExtendUntilCycle(g, w, [a]);
    }
    v :| v in w && Succ(g, v) * w == {};
  }
}
