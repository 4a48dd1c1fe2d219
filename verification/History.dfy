/** Upgrades are history-exact: what a transaction holds is the join of everything granted to it
    since it last let go, in whatever order. */
module History {
  import opened Ids
  import opened Collections
  import opened Modes
  import opened Routing
  import opened FlatTable
  import opened Protocol

  function JoinAll(ms: seq<LockMode>): LockMode
    requires ms != []
  {
    if |ms| == 1 then ms[0] else Join(JoinAll(ms[..|ms| - 1]), ms[|ms| - 1])
  }

  /** The fold of `Join` is the least mode covering every element. */
  lemma {:induction false} JoinAllIsLeast(ms: seq<LockMode>, u: LockMode)
    requires ms != []
    ensures forall m | m in ms :: Covers(JoinAll(ms), m)
    ensures (forall m | m in ms :: Covers(u, m)) ==> Covers(u, JoinAll(ms))
  {
    var n := |ms| - 1;
    assert ms == ms[..n] + [ms[n]];
    if n > 0 {
      JoinAllIsLeast(ms[..n], u);
      JoinIsLeastUpperBound(JoinAll(ms[..n]), ms[n], u);
      forall m | m in ms ensures Covers(JoinAll(ms), m) {
        CoversIsPartialOrder(JoinAll(ms), JoinAll(ms[..n]), m);
      }
    }
  }

  /** So neither order nor repetition matters. */
  lemma JoinAllIgnoresOrder(a: seq<LockMode>, b: seq<LockMode>)
    requires a != [] && b != [] && forall m :: m in a <==> m in b
    ensures JoinAll(a) == JoinAll(b)
  {
    JoinAllIsLeast(a, JoinAll(b));
    JoinAllIsLeast(b, JoinAll(a));
    CoversIsPartialOrder(JoinAll(a), JoinAll(b), JoinAll(b));
  }

  /** The mode a step grants to `t` on `r`, if any. */
  ghost function GrantedBy(s: State, a: Action, t: TxnId, r: ResourceId): Option<LockMode> {
    if a.TryAcquire? && a.txn == t && a.res == r && CanGrant(s.held, t, r, a.mode) then Some(a.mode)
    else if a.Attempt? && s.job.Requesting? && s.job.txn == t && s.job.req.res == r &&
            CanGrant(s.held, t, r, s.job.req.mode)
    then Some(s.job.req.mode)
    else None
  }

  /** Everything granted to `t` on `r` since it last held nothing there, oldest first. */
  ghost function GrantsSince(bits: Bits, s: State, run: seq<Action>, t: TxnId, r: ResourceId,
                             grants: seq<LockMode>): seq<LockMode>
    requires Feasible(bits, s, run)
    decreases run
  {
    if run == [] then grants
    else
      var s' := Step(bits, s, run[0]);
      var g := GrantedBy(s, run[0], t, r);
      var next := if g.Some? then grants + [g.value] else if (t, r) in s'.held then grants else [];
      GrantsSince(bits, s', run[1..], t, r, next)
  }

  ghost predicate HeldIsJoin(held: Held, t: TxnId, r: ResourceId, grants: seq<LockMode>) {
    ((t, r) in held <==> grants != []) && ((t, r) in held ==> held[(t, r)] == JoinAll(grants))
  }

  lemma StepKeepsJoin(bits: Bits, s: State, a: Action, t: TxnId, r: ResourceId, grants: seq<LockMode>)
    requires Enabled(s, a) && HeldIsJoin(s.held, t, r, grants)
    ensures var s' := Step(bits, s, a); var g := GrantedBy(s, a, t, r);
            HeldIsJoin(s'.held, t, r, if g.Some? then grants + [g.value] else if (t, r) in s'.held then grants else [])
  {
  }

  lemma {:induction false} RunKeepsJoin(bits: Bits, s: State, run: seq<Action>, t: TxnId, r: ResourceId,
                                         grants: seq<LockMode>)
    requires Feasible(bits, s, run) && HeldIsJoin(s.held, t, r, grants)
    ensures HeldIsJoin(Exec(bits, s, run).held, t, r, GrantsSince(bits, s, run, t, r, grants))
    decreases run
  {
    if run != [] {
      StepKeepsJoin(bits, s, run[0], t, r, grants);
      var s' := Step(bits, s, run[0]);
      var g := GrantedBy(s, run[0], t, r);
      var next := if g.Some? then grants + [g.value] else if (t, r) in s'.held then grants else [];
      RunKeepsJoin(bits, s', run[1..], t, r, next);
    }
  }

  /** After any run, the mode held is the least mode covering all modes granted since the last
      release, and nothing is held exactly when there are none. */
  lemma ModeIsJoinOfGrants(bits: Bits, run: seq<Action>, t: TxnId, r: ResourceId)
    requires Feasible(bits, Start, run)
    ensures var held := Exec(bits, Start, run).held;
            var grants := GrantsSince(bits, Start, run, t, r, []);
            ((t, r) in held <==> grants != []) &&
            ((t, r) in held ==>
              (forall m | m in grants :: Covers(held[(t, r)], m)) &&
              (forall u | (forall m | m in grants :: Covers(u, m)) :: Covers(u, held[(t, r)])))
  {
    RunKeepsJoin(bits, Start, run, t, r, []);
    var held := Exec(bits, Start, run).held;
    var grants := GrantsSince(bits, Start, run, t, r, []);
    if (t, r) in held {
      forall u: LockMode ensures (forall m | m in grants :: Covers(u, m)) ==> Covers(u, held[(t, r)]) {
        JoinAllIsLeast(grants, u);
      }
      JoinAllIsLeast(grants, X);
    }
  }

  // ---- the same, said of the run itself ------------------------------------------------

  /** Step `i` grants `m` to `t` on `r`: nobody else is in the way of the call or of the attempt. */
  ghost predicate GrantsAt(bits: Bits, s: State, run: seq<Action>, i: nat, t: TxnId, r: ResourceId, m: LockMode)
    requires Feasible(bits, s, run) && i < |run|
  {
    var now := StateAt(bits, s, run, i);
    GrantedBy(now, run[i], t, r) == Some(m)
  }

  /** And `t` has held `r` ever since. */
  ghost predicate KeptFrom(bits: Bits, s: State, run: seq<Action>, i: nat, t: TxnId, r: ResourceId)
    requires Feasible(bits, s, run)
  {
    forall j | i <= j <= |run| :: (t, r) in StateAt(bits, s, run, j).held
  }

  ghost predicate LastingGrant(bits: Bits, s: State, run: seq<Action>, i: nat, t: TxnId, r: ResourceId, m: LockMode)
    requires Feasible(bits, s, run) && i < |run|
  {
    GrantsAt(bits, s, run, i, t, r, m) && KeptFrom(bits, s, run, i + 1, t, r)
  }

  lemma KeptLater(bits: Bits, s: State, run: seq<Action>, i: nat, t: TxnId, r: ResourceId)
    requires Feasible(bits, s, run) && run != []
    ensures KeptFrom(bits, Step(bits, s, run[0]), run[1..], i, t, r) == KeptFrom(bits, s, run, i + 1, t, r)
  {
    var s', rest := Step(bits, s, run[0]), run[1..];
    forall j | 0 <= j <= |rest| ensures StateAt(bits, s', rest, j) == StateAt(bits, s, run, j + 1) {
    }
    hide StateAt, Step, Feasible;
    forall j | i + 1 <= j <= |run| ensures StateAt(bits, s, run, j) == StateAt(bits, s', rest, j - 1) {
      assert StateAt(bits, s', rest, j - 1) == StateAt(bits, s, run, j - 1 + 1);
    }
  }

  lemma LastingLater(bits: Bits, s: State, run: seq<Action>, i: nat, t: TxnId, r: ResourceId, m: LockMode)
    requires Feasible(bits, s, run) && i < |run| - 1
    ensures LastingGrant(bits, Step(bits, s, run[0]), run[1..], i, t, r, m) ==
            LastingGrant(bits, s, run, i + 1, t, r, m)
  {
    KeptLater(bits, s, run, i + 1, t, r);
    hide KeptFrom, GrantedBy;
  }

  /** The grants counted are those at some step, or from the start, that have lasted. */
  lemma {:induction false} GrantsMean(bits: Bits, s: State, run: seq<Action>, t: TxnId, r: ResourceId,
                                       grants: seq<LockMode>, m: LockMode)
    requires Feasible(bits, s, run)
    ensures m in GrantsSince(bits, s, run, t, r, grants) <==>
            (m in grants && KeptFrom(bits, s, run, 1, t, r)) ||
            exists i :: 0 <= i < |run| && LastingGrant(bits, s, run, i, t, r, m)
    decreases run
  {
    if run != [] {
      var s', rest := Step(bits, s, run[0]), run[1..];
      var g := GrantedBy(s, run[0], t, r);
      var next := if g.Some? then grants + [g.value] else if (t, r) in s'.held then grants else [];
      GrantsMean(bits, s', rest, t, r, next, m);
      FirstGrant(bits, s, run, t, r, grants, m);
      assert GrantsSince(bits, s, run, t, r, grants) == GrantsSince(bits, s', rest, t, r, next);
      hide GrantsSince, LastingGrant, KeptFrom, Feasible, Step, GrantedBy;
      forall i | 0 <= i < |rest|
        ensures LastingGrant(bits, s', rest, i, t, r, m) == LastingGrant(bits, s, run, i + 1, t, r, m)
      {
        LastingLater(bits, s, run, i, t, r, m);
      }
      if i :| 1 <= i < |run| && LastingGrant(bits, s, run, i, t, r, m) {
        assert LastingGrant(bits, s', rest, i - 1, t, r, m) == LastingGrant(bits, s, run, i - 1 + 1, t, r, m);
      }
      assert (exists i :: 0 <= i < |run| && LastingGrant(bits, s, run, i, t, r, m)) ==
             (LastingGrant(bits, s, run, 0, t, r, m) ||
              exists i :: 1 <= i < |run| && LastingGrant(bits, s, run, i, t, r, m));
    }
  }

  lemma FirstGrant(bits: Bits, s: State, run: seq<Action>, t: TxnId, r: ResourceId, grants: seq<LockMode>, m: LockMode)
    requires Feasible(bits, s, run) && run != []
    ensures var s', rest, g := Step(bits, s, run[0]), run[1..], GrantedBy(s, run[0], t, r);
            var next := if g.Some? then grants + [g.value] else if (t, r) in s'.held then grants else [];
            (m in next && KeptFrom(bits, s', rest, 1, t, r) <==>
             (m in grants && KeptFrom(bits, s, run, 1, t, r)) || LastingGrant(bits, s, run, 0, t, r, m))
  {
    var s', rest := Step(bits, s, run[0]), run[1..];
    KeptLater(bits, s, run, 0, t, r);
    assert GrantedBy(s, run[0], t, r).Some? ==> (t, r) in s'.held;
    assert StateAt(bits, s', rest, 0) == s';
    assert KeptFrom(bits, s', rest, 0, t, r) == ((t, r) in s'.held && KeptFrom(bits, s', rest, 1, t, r));
    hide Step, GrantedBy;
  }

  /** After any run of any callers, a transaction holds a resource exactly when some grant of it has
      lasted, and then in the least mode that covers all such grants. */
  lemma ModeIsLeastOfLastingGrants(bits: Bits, run: seq<Action>, t: TxnId, r: ResourceId)
    requires Feasible(bits, Start, run)
    ensures var held := Exec(bits, Start, run).held;
            ((t, r) in held <==> exists i, m :: 0 <= i < |run| && LastingGrant(bits, Start, run, i, t, r, m)) &&
            ((t, r) in held ==>
              (forall i, m | 0 <= i < |run| && LastingGrant(bits, Start, run, i, t, r, m) :: Covers(held[(t, r)], m)) &&
              (forall u |
                (forall i, m | 0 <= i < |run| && LastingGrant(bits, Start, run, i, t, r, m) :: Covers(u, m)) ::
                  Covers(u, held[(t, r)])))
  {
    ModeIsJoinOfGrants(bits, run, t, r);
    var grants := GrantsSince(bits, Start, run, t, r, []);
    forall m ensures m in grants <==> exists i :: 0 <= i < |run| && LastingGrant(bits, Start, run, i, t, r, m) {
      GrantsMean(bits, Start, run, t, r, [], m);
    }
    hide GrantsSince, LastingGrant, Exec, Feasible, Covers;
    if grants != [] {
      assert grants[0] in grants;
      var i :| 0 <= i < |run| && LastingGrant(bits, Start, run, i, t, r, grants[0]);
    }
    if i, m :| 0 <= i < |run| && LastingGrant(bits, Start, run, i, t, r, m) {
      assert m in grants;
    }
  }
}
