/** Multi-granularity safety: callers that take intention locks coarse to fine never hold
    conflicting access, explicit or implied, to any node of the resource tree. */
module Hierarchy {
  import opened Ids
  import opened Modes
  import opened Routing
  import opened FlatTable
  import opened Merging
  import opened Protocol
  import opened BulkRelease

  /** The parent of every node but the roots, with a depth that shows there are no loops. */
  datatype Tree = Tree(parent: map<ResourceId, ResourceId>, depth: map<ResourceId, nat>)

  ghost predicate TreeOk(tree: Tree) {
    forall n | n in tree.parent ::
      n in tree.depth && tree.parent[n] in tree.depth && tree.depth[tree.parent[n]] < tree.depth[n]
  }

  function DepthOf(tree: Tree, n: ResourceId): nat {
    if n in tree.depth then tree.depth[n] else 0
  }

  /** `a` is `n` or lies above it. */
  ghost predicate Above(tree: Tree, a: ResourceId, n: ResourceId)
    requires TreeOk(tree)
    decreases DepthOf(tree, n)
  {
    a == n || (n in tree.parent && Above(tree, a, tree.parent[n]))
  }

  /** The mode a lock on a node asks of the node above it. */
  function Intent(m: LockMode): LockMode {
    if m == IS || m == S then IS else IX
  }

  predicate ReadMode(m: LockMode) {
    m == S || m == SIX || m == X
  }

  /** A lock on a node covers its whole subtree. */
  ghost predicate Reads(tree: Tree, held: Held, t: TxnId, n: ResourceId)
    requires TreeOk(tree)
  {
    exists a: ResourceId :: Above(tree, a, n) && (t, a) in held && ReadMode(held[(t, a)])
  }

  ghost predicate Writes(tree: Tree, held: Held, t: TxnId, n: ResourceId)
    requires TreeOk(tree)
  {
    exists a: ResourceId :: Above(tree, a, n) && (t, a) in held && held[(t, a)] == X
  }

  /** `t` holds the intention above every node it has locked. */
  ghost predicate Intends(tree: Tree, held: Held, t: TxnId) {
    forall n | (t, n) in held && n in tree.parent ::
      (t, tree.parent[n]) in held && Covers(held[(t, tree.parent[n])], Intent(held[(t, n)]))
  }

  lemma {:induction false} IntentReachesUp(tree: Tree, held: Held, t: TxnId, a: ResourceId, n: ResourceId)
    requires TreeOk(tree) && Intends(tree, held, t) && (t, n) in held && Above(tree, a, n)
    ensures (t, a) in held && (a == n || Covers(held[(t, a)], Intent(held[(t, n)])))
    decreases DepthOf(tree, n)
  {
    if a != n {
      IntentReachesUp(tree, held, t, a, tree.parent[n]);
    }
  }

  /** Two ancestors of one node lie on one line. */
  lemma {:induction false} AncestorsOnLine(tree: Tree, a: ResourceId, b: ResourceId, n: ResourceId)
    requires TreeOk(tree) && Above(tree, a, n) && Above(tree, b, n)
    ensures Above(tree, a, b) || Above(tree, b, a)
    decreases DepthOf(tree, n)
  {
    if a != n && b != n {
      AncestorsOnLine(tree, a, b, tree.parent[n]);
    }
  }

  /** Where one transaction may write, explicitly or through an ancestor, no other may read or
      write. */
  lemma NoConflictingAccess(tree: Tree, held: Held, t: TxnId, u: TxnId, n: ResourceId)
    requires TreeOk(tree) && Safe(held) && Intends(tree, held, t) && Intends(tree, held, u) && t != u
    ensures Writes(tree, held, t, n) ==> !Reads(tree, held, u, n) && !Writes(tree, held, u, n)
  {
    if Writes(tree, held, t, n) && (Reads(tree, held, u, n) || Writes(tree, held, u, n)) {
      var a: ResourceId :| Above(tree, a, n) && (t, a) in held && held[(t, a)] == X;
      var b: ResourceId :| Above(tree, b, n) && (u, b) in held && ReadMode(held[(u, b)]);
      AncestorsOnLine(tree, a, b, n);
      if Above(tree, a, b) {
        IntentReachesUp(tree, held, u, a, b);
      } else {
        IntentReachesUp(tree, held, t, b, a);
      }
      assert false;
    }
  }

  // ---- every run that obeys the protocol -----------------------------------------------

  ghost predicate HoldsIntent(tree: Tree, held: Held, t: TxnId, n: ResourceId, m: LockMode) {
    n in tree.parent ==> (t, tree.parent[n]) in held && Covers(held[(t, tree.parent[n])], Intent(m))
  }

  /** What the protocol asks of one transaction: its locks are taken coarse to fine, its single locks
      released fine to coarse, and nothing is acquired for it while it is being released in bulk. */
  ghost predicate Obeys(tree: Tree, s: State, a: Action, t: TxnId) {
    Departs(s, a, t) &&
    match a
    case TryAcquire(u, r, m) => u == t ==> HoldsIntent(tree, s.held, t, r, m)
    case Attempt =>
      s.job.Requesting? && s.job.txn == t ==> HoldsIntent(tree, s.held, t, s.job.req.res, s.job.req.mode)
    case Release(u, r) => u == t ==> forall n | (t, n) in s.held && n in tree.parent :: tree.parent[n] != r
    case _ => true
  }

  ghost predicate ObeysRun(tree: Tree, bits: Bits, s: State, run: seq<Action>, t: TxnId)
    requires Feasible(bits, s, run)
    decreases run
  {
    run == [] || (Obeys(tree, s, run[0], t) && ObeysRun(tree, bits, Step(bits, s, run[0]), run[1..], t))
  }

  /** Until its bulk release has begun, and after it, a transaction holds all the intentions it needs. */
  ghost predicate IntendsUntilSwept(tree: Tree, s: State, t: TxnId) {
    !InSweep(s, t) ==> Intends(tree, s.held, t)
  }

  lemma GrantKeepsIntent(tree: Tree, held: Held, t: TxnId, r: ResourceId, m: LockMode, u: TxnId)
    requires TreeOk(tree) && Intends(tree, held, u) && (t == u ==> HoldsIntent(tree, held, t, r, m))
    ensures Intends(tree, TryGrant(held, t, r, m), u)
  {
  }

  lemma ReleaseKeepsIntent(tree: Tree, held: Held, t: TxnId, r: ResourceId, u: TxnId)
    requires Intends(tree, held, u)
    requires t == u ==> forall n | (t, n) in held && n in tree.parent :: tree.parent[n] != r
    ensures Intends(tree, DropLock(held, t, r), u)
  {
  }

  /** After the last shard of a sweep nothing is left; before, the transaction still sweeps. */
  lemma SweepKeepsIntent(tree: Tree, bits: Bits, s: State, th: nat, u: TxnId)
    requires SweepsOf(bits, s, u) && th in s.sweeps && IntendsUntilSwept(tree, s, u)
    requires !InSweep(SweepOne(bits, s, th), u)
    ensures Intends(tree, SweepOne(bits, s, th).held, u)
  {
    var Sweep(t, n) := s.sweeps[th];
    var s' := SweepOne(bits, s, th);
    if u == t {
      assert n + 1 == Pow2(bits) by {
        assert SweepOk(bits, s, s.sweeps[th]);
        assert n + 1 < Pow2(bits) ==> th in s'.sweeps;
      }
      LastShardClears(bits, s, th);
    } else {
      hide SweepsOf, DropIn, Intends;
      forall x | x in s.sweeps ensures s.sweeps[x].txn != u {
        if x != th { assert x in s'.sweeps && s'.sweeps[x] == s.sweeps[x]; }
      }
      OthersKeepIntent(tree, bits, s.held, t, n, u);
    }
  }

  lemma OthersKeepIntent(tree: Tree, bits: Bits, held: Held, t: TxnId, n: nat, u: TxnId)
    requires Intends(tree, held, u) && u != t
    ensures Intends(tree, DropIn(bits, held, t, n), u)
  {
  }

  lemma StepKeepsIntent(tree: Tree, bits: Bits, s: State, a: Action, u: TxnId)
    requires TreeOk(tree) && SweepsOf(bits, s, u) && IntendsUntilSwept(tree, s, u)
    requires Enabled(s, a) && Obeys(tree, s, a, u)
    ensures IntendsUntilSwept(tree, Step(bits, s, a), u)
  {
    hide Intends, CanGrant, CanGrantSpan, HoldsIntent, SweepOne;
    var s' := Step(bits, s, a);
    if !InSweep(s', u) {
      match a
      case SweepNext(th) => SweepKeepsIntent(tree, bits, s, th, u);
      case BeginReleaseAll(th, t) =>
        forall x | x in s.sweeps ensures s.sweeps[x].txn != u {
          assert x in s'.sweeps && s'.sweeps[x] == s.sweeps[x];
        }
      case TryAcquire(t, r, m) => assert s'.sweeps == s.sweeps; GrantKeepsIntent(tree, s.held, t, r, m, u);
      case Release(t, r) => assert s'.sweeps == s.sweeps; ReleaseKeepsIntent(tree, s.held, t, r, u);
      case Attempt =>
        assert s'.sweeps == s.sweeps;
        GrantKeepsIntent(tree, s.held, s.job.txn, s.job.req.res, s.job.req.mode, u);
      case _ => assert s'.sweeps == s.sweeps;
    }
  }

  /** A transaction that obeys keeps its intentions, whatever others do. */
  lemma {:induction false} RunKeepsIntent(tree: Tree, bits: Bits, s: State, run: seq<Action>, t: TxnId)
    requires TreeOk(tree) && SweepsOf(bits, s, t) && IntendsUntilSwept(tree, s, t)
    requires Feasible(bits, s, run) && ObeysRun(tree, bits, s, run, t)
    ensures IntendsUntilSwept(tree, Exec(bits, s, run), t)
    decreases run
  {
    if run != [] {
      StepKeepsIntent(tree, bits, s, run[0], t);
      StepKeepsSweeps(bits, s, run[0], t);
      RunKeepsIntent(tree, bits, Step(bits, s, run[0]), run[1..], t);
    }
  }

  /** On resource trees of any depth, in every run and under every interleaving, two transactions
      that obey the protocol exclude each other, whatever others do: where one may write a node, the
      other may neither read nor write it. */
  lemma HierarchyIsSafe(tree: Tree, bits: Bits, run: seq<Action>, t: TxnId, u: TxnId, n: ResourceId)
    requires TreeOk(tree) && Feasible(bits, Start, run) && t != u
    requires ObeysRun(tree, bits, Start, run, t) && ObeysRun(tree, bits, Start, run, u)
    requires !InSweep(Exec(bits, Start, run), t) && !InSweep(Exec(bits, Start, run), u)
    ensures var held := Exec(bits, Start, run).held;
            Writes(tree, held, t, n) ==> !Reads(tree, held, u, n) && !Writes(tree, held, u, n)
  {
    RunKeepsSafe(bits, Start, run);
    RunKeepsIntent(tree, bits, Start, run, t);
    RunKeepsIntent(tree, bits, Start, run, u);
    NoConflictingAccess(tree, Exec(bits, Start, run).held, t, u, n);
  }
}
