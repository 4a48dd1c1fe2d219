/** The wait-for graph, its iterative cycle detector and victim selection. */
module WaitGraphs {
  import opened Ids
  import opened Collections
  import opened Digraph

  type Edges = map<TxnId, seq<TxnId>>

  function Neighbors(edges: Edges, v: TxnId): seq<TxnId> {
    if v in edges then edges[v] else []
  }

  /** The graph an adjacency map stands for: repeated entries are one edge. */
  ghost function AsGraph(edges: Edges): Graph {
    map v | v in edges :: (set u | u in edges[v])
  }

  lemma GraphEdges(edges: Edges, v: TxnId)
    ensures forall u :: u in Succ(AsGraph(edges), v) <==> u in Neighbors(edges, v)
  {
  }

  // ---- the cost of a search ------------------------------------------------------------

  /** Each vertex is pushed and popped once and each of its list entries is examined once. */
  ghost function VertexCost(edges: Edges, v: TxnId): nat {
    |Neighbors(edges, v)| + 1
  }

  ghost function SearchCost(edges: Edges, vs: set<TxnId>): nat {
    if vs == {} then 0
    else
      var v :| v in vs;
      VertexCost(edges, v) + SearchCost(edges, vs - {v})
  }

  lemma CostOfMember(edges: Edges, vs: set<TxnId>, u: TxnId)
    requires u in vs
    ensures SearchCost(edges, vs) == VertexCost(edges, u) + SearchCost(edges, vs - {u})
    decreases vs
  {
    var v :| v in vs && SearchCost(edges, vs) == VertexCost(edges, v) + SearchCost(edges, vs - {v});
    if u != v {
      CostOfMember(edges, vs - {v}, u);
      CostOfMember(edges, vs - {u}, v);
      assert vs - {v} - {u} == vs - {u} - {v};
    }
  }

  /** All list entries of the vertices in `vs`, one list after the other. */
  ghost function Entries(edges: Edges, vs: seq<TxnId>): seq<TxnId> {
    if vs == [] then [] else Neighbors(edges, vs[0]) + Entries(edges, vs[1..])
  }

  /** The cost of a set of vertices is their number and that of all their list entries. */
  lemma {:induction false} SearchCostMeans(edges: Edges, vs: seq<TxnId>, members: set<TxnId>)
    requires NoDup(vs) && forall v :: v in vs <==> v in members
    ensures SearchCost(edges, members) == |vs| + |Entries(edges, vs)|
    decreases vs
  {
    if vs == [] {
      assert members == {} by {
        assert forall v :: v in members ==> v in vs;
      }
    } else {
      assert vs == [vs[0]] + vs[1..];
      assert forall v :: v in vs[1..] <==> v in members - {vs[0]};
      CostOfMember(edges, members, vs[0]);
      SearchCostMeans(edges, vs[1..], members - {vs[0]});
    }
  }

  /** Total cost of a list of finished vertices. */
  ghost function ListCost(edges: Edges, vs: seq<TxnId>): nat {
    if vs == [] then 0 else ListCost(edges, vs[..|vs| - 1]) + VertexCost(edges, vs[|vs| - 1])
  }

  lemma ListCostWithin(edges: Edges, s: seq<TxnId>, vs: set<TxnId>)
    requires NoDup(s) && forall v | v in s :: v in vs
    ensures ListCost(edges, s) <= SearchCost(edges, vs)
  {
    if s != [] {
      var n := |s| - 1;
      assert s == s[..n] + [s[n]];
      CostOfMember(edges, vs, s[n]);
      ListCostWithin(edges, s[..n], vs - {s[n]});
    }
  }

  lemma ListCostAppend(edges: Edges, a: seq<TxnId>, b: seq<TxnId>)
    ensures ListCost(edges, a + b) == ListCost(edges, a) + ListCost(edges, b)
  {
    if b == [] {
      assert a + b == a;
    } else {
      var n := |b| - 1;
      assert (a + b)[..|a + b| - 1] == a + b[..n];
      ListCostAppend(edges, a, b[..n]);
    }
  }

  /** Entries already examined by the vertices still on the stack. */
  ghost function Examined(stack: seq<(TxnId, nat)>): nat {
    if stack == [] then 0 else Examined(stack[..|stack| - 1]) + stack[|stack| - 1].1
  }

  lemma ExaminedTop(stack: seq<(TxnId, nat)>, entry: (TxnId, nat))
    ensures Examined(stack + [entry]) == Examined(stack) + entry.1
  {
  }

  lemma ExaminedAdvance(stack: seq<(TxnId, nat)>, node: TxnId, idx: nat)
    requires stack != [] && stack[|stack| - 1] == (node, idx)
    ensures Examined(stack[|stack| - 1 := (node, idx + 1)]) == Examined(stack) + 1
  {
  }

  lemma ExaminedBelowCost(edges: Edges, stack: seq<(TxnId, nat)>, path: seq<TxnId>)
    requires |stack| == |path|
    requires forall i | 0 <= i < |path| :: stack[i].0 == path[i] && stack[i].1 <= |Neighbors(edges, path[i])|
    ensures Examined(stack) + |stack| <= ListCost(edges, path)
  {
  }

  /** The vertices a search from `start` can meet. */
  ghost function ReachableFrom(edges: Edges, start: TxnId): (r: set<TxnId>)
    ensures forall v :: v in r <==> Reaches(AsGraph(edges), start, v)
  {
    var g := AsGraph(edges);
    var all := {start} + edges.Keys + (set v, u | v in edges && u in edges[v] :: u);
    forall v | Reaches(g, start, v) ensures v in all {
      var p :| Connects(g, p, start, v);
      if |p| > 1 {
        assert p[|p| - 2 + 1] in Succ(g, p[|p| - 2]);
        GraphEdges(edges, p[|p| - 2]);
      }
    }
    set v | v in all && Reaches(g, start, v)
  }

  // ---- the invariant of the search -----------------------------------------------------

  /** `state` marks path members 1, finished vertices 2 and nothing else. */
  ghost predicate Marked(state: map<TxnId, nat>, path: seq<TxnId>, done: seq<TxnId>) {
    (forall v | v in path :: v in state && state[v] == 1) &&
    (forall v | v in done :: v in state && state[v] == 2) &&
    (forall v | v in state :: v in path || v in done)
  }

  ghost predicate Explored(neighbors: seq<TxnId>, k: nat, done: seq<TxnId>) {
    k <= |neighbors| && forall j | 0 <= j < k :: neighbors[j] in done
  }

  /** An inner path member: its last examined entry leads on along the path, the others are
      finished. */
  ghost predicate Linked(neighbors: seq<TxnId>, k: nat, next: TxnId, done: seq<TxnId>) {
    0 < k <= |neighbors| && neighbors[k - 1] == next && Explored(neighbors, k - 1, done)
  }

  /** The stack mirrors the path. */
  ghost predicate StackOk(edges: Edges, stack: seq<(TxnId, nat)>, path: seq<TxnId>, done: seq<TxnId>) {
    |stack| == |path| &&
    (forall i | 0 <= i < |path| :: stack[i].0 == path[i]) &&
    (forall i | 0 <= i < |path| - 1 :: Linked(Neighbors(edges, path[i]), stack[i].1, path[i + 1], done)) &&
    (path != [] ==> Explored(Neighbors(edges, path[|path| - 1]), stack[|path| - 1].1, done))
  }

  ghost predicate Closed(edges: Edges, r: set<TxnId>) {
    forall v, u | v in r && u in Neighbors(edges, v) :: u in r
  }

  /** `r` bounds what the search can meet. */
  ghost predicate VisitOk(edges: Edges, r: set<TxnId>, state: map<TxnId, nat>, path: seq<TxnId>, done: seq<TxnId>) {
    Marked(state, path, done) && NoDup(path) && NoDup(done) &&
    Ordered(AsGraph(edges), done) && state.Keys <= r
  }

  lemma ReachableIsClosed(edges: Edges, start: TxnId)
    ensures Closed(edges, ReachableFrom(edges, start)) && start in ReachableFrom(edges, start)
  {
    var g := AsGraph(edges);
    ReachesSelf(g, start);
    forall v, u | Reaches(g, start, v) && u in Neighbors(edges, v) ensures Reaches(g, start, u) {
      GraphEdges(edges, v);
      ReachesNext(g, start, v, u);
    }
  }

  lemma VisitedCost(edges: Edges, r: set<TxnId>, state: map<TxnId, nat>, path: seq<TxnId>, done: seq<TxnId>)
    requires VisitOk(edges, r, state, path, done)
    ensures ListCost(edges, path) + ListCost(edges, done) <= SearchCost(edges, r)
  {
    NoDupConcat(path, done);
    assert forall v | v in path + done :: v in r;
    ListCostAppend(edges, path, done);
    ListCostWithin(edges, path + done, r);
  }

  lemma StackCost(edges: Edges, stack: seq<(TxnId, nat)>, path: seq<TxnId>, done: seq<TxnId>)
    requires StackOk(edges, stack, path, done)
    ensures Examined(stack) + |stack| <= ListCost(edges, path)
  {
    forall i | 0 <= i < |path| ensures stack[i].1 <= |Neighbors(edges, path[i])| {
      if i < |path| - 1 {
        assert Linked(Neighbors(edges, path[i]), stack[i].1, path[i + 1], done);
      }
    }
    ExaminedBelowCost(edges, stack, path);
  }

  lemma BackEdgeClosesCycle(edges: Edges, stack: seq<(TxnId, nat)>, path: seq<TxnId>, done: seq<TxnId>, pos: nat)
    requires StackOk(edges, stack, path, done) && NoDup(path)
    requires pos < |path| && path[pos] in Neighbors(edges, path[|path| - 1])
    ensures IsCycle(AsGraph(edges), path[pos..]) && NoDup(path[pos..])
  {
  }

  lemma PushKeepsVisit(edges: Edges, r: set<TxnId>, state: map<TxnId, nat>, path: seq<TxnId>, done: seq<TxnId>,
                       node: TxnId, next: TxnId)
    requires VisitOk(edges, r, state, path, done) && Closed(edges, r)
    requires node in state && next in Neighbors(edges, node) && next !in state
    ensures VisitOk(edges, r, state[next := 1], path + [next], done)
  {
  }

  lemma PushKeepsStack(edges: Edges, stack: seq<(TxnId, nat)>, path: seq<TxnId>, done: seq<TxnId>,
                       node: TxnId, idx: nat, next: TxnId)
    requires StackOk(edges, stack, path, done)
    requires stack != [] && stack[|stack| - 1] == (node, idx) && idx < |Neighbors(edges, node)|
    requires next == Neighbors(edges, node)[idx]
    ensures StackOk(edges, stack[|stack| - 1 := (node, idx + 1)] + [(next, 0)], path + [next], done)
  {
  }

  lemma AdvanceKeepsStack(edges: Edges, stack: seq<(TxnId, nat)>, path: seq<TxnId>, done: seq<TxnId>,
                          node: TxnId, idx: nat)
    requires StackOk(edges, stack, path, done)
    requires stack != [] && stack[|stack| - 1] == (node, idx) && idx < |Neighbors(edges, node)|
    requires Neighbors(edges, node)[idx] in done
    ensures StackOk(edges, stack[|stack| - 1 := (node, idx + 1)], path, done)
  {
  }

  lemma PopKeepsStack(edges: Edges, stack: seq<(TxnId, nat)>, path: seq<TxnId>, done: seq<TxnId>, node: TxnId)
    requires StackOk(edges, stack, path, done)
    requires stack != [] && stack[|stack| - 1].0 == node
    ensures StackOk(edges, stack[..|stack| - 1], path[..|path| - 1], done + [node])
  {
  }

  lemma PopKeepsVisit(edges: Edges, r: set<TxnId>, state: map<TxnId, nat>, path: seq<TxnId>, done: seq<TxnId>,
                      node: TxnId)
    requires VisitOk(edges, r, state, path, done)
    requires path != [] && path[|path| - 1] == node
    requires Explored(Neighbors(edges, node), |Neighbors(edges, node)|, done)
    ensures VisitOk(edges, r, state[node := 2], path[..|path| - 1], done + [node])
  {
    var n := |path| - 1;
    var g := AsGraph(edges);
    GraphEdges(edges, node);
    assert path == path[..n] + [node];
    assert node !in done && node !in path[..n];
    forall i | 0 <= i < |done + [node]|
      ensures forall v | v in Succ(g, (done + [node])[i]) :: v in (done + [node])[..i]
    {
      assert (done + [node])[..i] == done[..i];
      if i == |done| {
        assert done[..i] == done;
      }
    }
  }

  // ---- one iteration of the search ------------------------------------------------------

  datatype Search = Search(state: map<TxnId, nat>, path: seq<TxnId>, stack: seq<(TxnId, nat)>)

  /** Between iterations: `steps` have been taken, and `done` lists the finished vertices. */
  ghost predicate SearchInv(edges: Edges, start: TxnId, s: Search, done: seq<TxnId>, steps: nat) {
    StackOk(edges, s.stack, s.path, done) &&
    VisitOk(edges, ReachableFrom(edges, start), s.state, s.path, done) &&
    start in s.state &&
    steps == Examined(s.stack) + ListCost(edges, done)
  }

  ghost function Bound(edges: Edges, start: TxnId): nat {
    SearchCost(edges, ReachableFrom(edges, start))
  }

  /** A search may take as many steps as there are reachable vertices and list entries of these,
      repeated entries included. */
  lemma BoundMeans(edges: Edges, start: TxnId, vs: seq<TxnId>)
    requires NoDup(vs) && forall v :: v in vs <==> Reaches(AsGraph(edges), start, v)
    ensures Bound(edges, start) == |vs| + |Entries(edges, vs)|
  {
    SearchCostMeans(edges, vs, ReachableFrom(edges, start));
  }

  lemma SearchStarts(edges: Edges, start: TxnId)
    ensures SearchInv(edges, start, Search(map[start := 1], [start], [(start, 0)]), [], 0)
  {
    ReachableIsClosed(edges, start);
  }

  /** What the top of the stack and the marks tell the loop. */
  lemma TopOfStack(edges: Edges, start: TxnId, s: Search, done: seq<TxnId>, steps: nat)
    requires SearchInv(edges, start, s, done, steps)
    ensures steps + |s.stack| <= Bound(edges, start)
    ensures |s.path| == |s.stack|
    ensures s.stack != [] ==> s.path[|s.path| - 1] == s.stack[|s.stack| - 1].0
    ensures forall v | v in s.state && s.state[v] == 1 :: v in s.path
  {
    StackCost(edges, s.stack, s.path, done);
    VisitedCost(edges, ReachableFrom(edges, start), s.state, s.path, done);
  }

  lemma PushStep(edges: Edges, start: TxnId, s: Search, done: seq<TxnId>, steps: nat, node: TxnId, idx: nat)
    requires SearchInv(edges, start, s, done, steps)
    requires s.stack != [] && s.stack[|s.stack| - 1] == (node, idx) && idx < |Neighbors(edges, node)|
    requires Neighbors(edges, node)[idx] !in s.state
    ensures var next := Neighbors(edges, node)[idx];
            SearchInv(edges, start,
                      Search(s.state[next := 1], s.path + [next],
                             s.stack[|s.stack| - 1 := (node, idx + 1)] + [(next, 0)]),
                      done, steps + 1)
  {
    var next := Neighbors(edges, node)[idx];
    ReachableIsClosed(edges, start);
    PushKeepsStack(edges, s.stack, s.path, done, node, idx, next);
    PushKeepsVisit(edges, ReachableFrom(edges, start), s.state, s.path, done, node, next);
    ExaminedAdvance(s.stack, node, idx);
    ExaminedTop(s.stack[|s.stack| - 1 := (node, idx + 1)], (next, 0));
  }

  lemma AdvanceStep(edges: Edges, start: TxnId, s: Search, done: seq<TxnId>, steps: nat, node: TxnId, idx: nat)
    requires SearchInv(edges, start, s, done, steps)
    requires s.stack != [] && s.stack[|s.stack| - 1] == (node, idx) && idx < |Neighbors(edges, node)|
    requires Neighbors(edges, node)[idx] in s.state && s.state[Neighbors(edges, node)[idx]] != 1
    ensures SearchInv(edges, start, s.(stack := s.stack[|s.stack| - 1 := (node, idx + 1)]), done, steps + 1)
  {
    AdvanceKeepsStack(edges, s.stack, s.path, done, node, idx);
    ExaminedAdvance(s.stack, node, idx);
  }

  lemma PopStep(edges: Edges, start: TxnId, s: Search, done: seq<TxnId>, steps: nat, node: TxnId, idx: nat)
    requires SearchInv(edges, start, s, done, steps)
    requires s.stack != [] && s.stack[|s.stack| - 1] == (node, idx) && idx >= |Neighbors(edges, node)|
    ensures |s.path| == |s.stack|
    ensures SearchInv(edges, start, Search(s.state[node := 2], s.path[..|s.path| - 1], s.stack[..|s.stack| - 1]),
                      done + [node], steps + 1)
  {
    PopKeepsStack(edges, s.stack, s.path, done, node);
    PopKeepsVisit(edges, ReachableFrom(edges, start), s.state, s.path, done, node);
    ListCostAppend(edges, done, [node]);
  }

  /** Meeting a vertex of the current path: its suffix from there is a cycle `start` reaches. */
  lemma BackEdgeStep(edges: Edges, start: TxnId, s: Search, done: seq<TxnId>, steps: nat, node: TxnId, idx: nat,
                     pos: nat)
    requires SearchInv(edges, start, s, done, steps)
    requires s.stack != [] && s.stack[|s.stack| - 1] == (node, idx) && idx < |Neighbors(edges, node)|
    requires pos < |s.path| && s.path[pos] == Neighbors(edges, node)[idx]
    ensures IsCycle(AsGraph(edges), s.path[pos..]) && NoDup(s.path[pos..])
    ensures Reaches(AsGraph(edges), start, s.path[pos..][0])
    ensures CycleReachable(AsGraph(edges), start)
  {
    MarkedIsReachable(edges, start, s, done, pos);
    hide Reaches, Marked, Ordered, Linked, Explored, IsPath;
    BackEdgeClosesCycle(edges, s.stack, s.path, done, pos);
  }

  lemma MarkedIsReachable(edges: Edges, start: TxnId, s: Search, done: seq<TxnId>, pos: nat)
    requires VisitOk(edges, ReachableFrom(edges, start), s.state, s.path, done) && pos < |s.path|
    ensures Reaches(AsGraph(edges), start, s.path[pos])
  {
  }

  lemma Exhausted(edges: Edges, start: TxnId, s: Search, done: seq<TxnId>, steps: nat)
    requires SearchInv(edges, start, s, done, steps) && s.stack == []
    ensures !CycleReachable(AsGraph(edges), start)
  {
    OrderedHasNoCycle(AsGraph(edges), done, start);
  }

  // ---- the graph -----------------------------------------------------------------------

  datatype VictimPolicy = Youngest | Oldest

  /** Which member of a cycle to abort: ids stand for age. */
  function PickVictim(cycle: seq<TxnId>, policy: VictimPolicy): (v: Option<TxnId>)
    ensures v.None? <==> cycle == []
    ensures v.Some? ==> v.value in cycle
    ensures v.Some? && policy.Youngest? ==> forall t | t in cycle :: t <= v.value
    ensures v.Some? && policy.Oldest? ==> forall t | t in cycle :: v.value <= t
  {
    if cycle == [] then None
    else
      assert cycle == [cycle[0]] + cycle[1..];
      match PickVictim(cycle[1..], policy)
      case None => Some(cycle[0])
      case Some(w) =>
        if (policy.Youngest? && w <= cycle[0]) || (policy.Oldest? && cycle[0] < w) then Some(cycle[0]) else Some(w)
  }

  ghost function Others(s: seq<TxnId>, v: TxnId): set<TxnId> {
    set h | h in s && h != v
  }

  class WaitForGraph {
    var edges: Edges

    constructor ()
      ensures edges == map[]
    {
      edges := map[];
    }

    /** Self-edges are ignored; any other edge is added and nothing else changes. */
    method AddWait(waiter: TxnId, holder: TxnId)
      modifies this
      ensures forall v ::
        Succ(AsGraph(edges), v) ==
        if v == waiter && waiter != holder then Succ(AsGraph(old(edges)), v) + {holder}
        else Succ(AsGraph(old(edges)), v)
      ensures edges.Keys == old(edges.Keys) + (if waiter != holder then {waiter} else {})
    {
      if waiter == holder {
        return;
      }
      edges := edges[waiter := Neighbors(edges, waiter) + [holder]];
    }

    method AddWaits(waiter: TxnId, holders: seq<TxnId>)
      modifies this
      ensures forall v ::
        Succ(AsGraph(edges), v) ==
        if v == waiter then Succ(AsGraph(old(edges)), v) + Others(holders, waiter)
        else Succ(AsGraph(old(edges)), v)
    {
      for i := 0 to |holders|
        invariant forall v ::
          Succ(AsGraph(edges), v) ==
          if v == waiter then Succ(AsGraph(old(edges)), v) + Others(holders[..i], waiter)
          else Succ(AsGraph(old(edges)), v)
      {
        assert holders[..i + 1] == holders[..i] + [holders[i]];
        AddWait(waiter, holders[i]);
      }
      assert holders[..|holders|] == holders;
    }

    method ClearWaiter(waiter: TxnId)
      modifies this
      ensures forall v :: Succ(AsGraph(edges), v) == if v == waiter then {} else Succ(AsGraph(old(edges)), v)
    {
      edges := edges - {waiter};
    }

    /** Every edge into or out of `txn` goes; every other edge stays. */
    method RemoveTxn(txn: TxnId)
      modifies this
      ensures forall v :: Succ(AsGraph(edges), v) == if v == txn then {} else Succ(AsGraph(old(edges)), v) - {txn}
    {
      edges := edges - {txn};
      var todo := edges.Keys;
      while todo != {}
        invariant todo <= edges.Keys
        invariant edges.Keys == old(edges.Keys) - {txn}
        invariant forall v | v in edges :: v in todo ==> edges[v] == old(edges[v])
        invariant forall v | v in edges && v !in todo :: (set u | u in edges[v]) == (set u | u in old(edges[v])) - {txn}
        decreases todo
      {
        var v :| v in todo;
        edges := edges[v := Retain(edges[v], txn)];
        todo := todo - {v};
      }
    }

    /** Iterative three-colour depth-first search. It answers `Some` exactly when a cycle can be
        reached from `start`; what it returns is a simple cycle of real edges, reachable from
        `start`; and it takes at most one step for each reachable vertex and each list entry of a
        reachable vertex. */
    method CycleFrom(start: TxnId) returns (cycle: Option<seq<TxnId>>, ghost steps: nat)
      ensures cycle.Some? <==> CycleReachable(AsGraph(edges), start)
      ensures cycle.Some? ==> IsCycle(AsGraph(edges), cycle.value) && NoDup(cycle.value)
      ensures cycle.Some? ==> Reaches(AsGraph(edges), start, cycle.value[0])
      ensures steps <= Bound(edges, start)
    {
      hide *;
      var state: map<TxnId, nat> := map[start := 1];
      var path: seq<TxnId> := [start];
      var stack: seq<(TxnId, nat)> := [(start, 0)];
      ghost var done: seq<TxnId> := [];
      steps := 0;
      SearchStarts(edges, start);
      while stack != []
        invariant SearchInv(edges, start, Search(state, path, stack), done, steps)
        decreases Bound(edges, start) - steps
      {
        ghost var here := Search(state, path, stack);
        TopOfStack(edges, start, here, done, steps);
        var (node, idx) := stack[|stack| - 1];
        var neighbors := Neighbors(edges, node);
        if idx < |neighbors| {
          stack := stack[|stack| - 1 := (node, idx + 1)];
          var next := neighbors[idx];
          if next in state && state[next] == 1 {
            var pos := Position(path, next);
            if pos < |path| {
              BackEdgeStep(edges, start, here, done, steps, node, idx, pos);
              return Some(path[pos..]), steps + 1;
            }
          } else if next !in state {
            PushStep(edges, start, here, done, steps, node, idx);
            state := state[next := 1];
            path := path + [next];
            stack := stack + [(next, 0)];
          } else {
            AdvanceStep(edges, start, here, done, steps, node, idx);
          }
        } else {
          PopStep(edges, start, here, done, steps, node, idx);
          state := state[node := 2];
          path := path[..|path| - 1];
          stack := stack[..|stack| - 1];
          done := done + [node];
        }
        steps := steps + 1;
      }
      TopOfStack(edges, start, Search(state, path, stack), done, steps);
      Exhausted(edges, start, Search(state, path, stack), done, steps);
      return None, steps;
    }

    /** Tries every waiter in some order: `None` exactly when the whole graph is acyclic. */
    method DetectCycle() returns (cycle: Option<seq<TxnId>>)
      ensures cycle.None? <==> Acyclic(AsGraph(edges))
      ensures cycle.Some? ==> IsCycle(AsGraph(edges), cycle.value) && NoDup(cycle.value)
    {
      var todo := edges.Keys;
      while todo != {}
        invariant forall v | v in edges && v !in todo :: !CycleReachable(AsGraph(edges), v)
        decreases todo
      {
        var start :| start in todo;
        ghost var steps;
        cycle, steps := CycleFrom(start);
        if cycle.Some? {
          return;
        }
        todo := todo - {start};
      }
      forall c ensures !IsCycle(AsGraph(edges), c) {
        if IsCycle(AsGraph(edges), c) {
          if |c| > 1 {
            assert c[0 + 1] in Succ(AsGraph(edges), c[0]);
          }
          MemberReachesCycle(AsGraph(edges), c, c[0]);
        }
      }
      return None;
    }
  }

  /** `Vec::retain(|h| *h != txn)`. */
  function Retain(s: seq<TxnId>, txn: TxnId): (r: seq<TxnId>)
    ensures forall u :: u in r <==> u in s && u != txn
  {
    if s == [] then []
    else
      assert s == [s[0]] + s[1..];
      if s[0] == txn then Retain(s[1..], txn) else [s[0]] + Retain(s[1..], txn)
  }
}
