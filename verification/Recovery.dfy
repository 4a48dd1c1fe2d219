/** Getting out of a deadlock: detect, abort the victim, repeat. */
module Recovery {
  import opened Ids
  import opened Collections
  import opened Digraph
  import opened FlatTable
  import opened Manager
  import opened Draining

  lemma {:induction false} VictimRunAppend(held: Held, waits: Waits, victims: seq<TxnId>, v: TxnId)
    requires VictimRun(held, waits, victims)
    requires exists c :: IsCycle(WaitFor(HeldAfter(held, victims), WaitsLeft(waits, victims)), c) && v in c
    ensures VictimRun(held, waits, victims + [v])
    ensures HeldAfter(held, victims + [v]) == DropTxn(HeldAfter(held, victims), v)
    ensures WaitsLeft(waits, victims + [v]) == WaitsLeft(waits, victims) - {v}
    decreases victims
  {
    if victims == [] {
      assert ([] + [v])[1..] == [];
      assert VictimRun(DropTxn(held, v), waits - {v}, []);
    } else {
      assert (victims + [v])[1..] == victims[1..] + [v] && (victims + [v])[0] == victims[0];
      VictimRunAppend(DropTxn(held, victims[0]), waits - {victims[0]}, victims[1..], v);
    }
  }

  /** Ends with no deadlock left. Every transaction aborted was then on a genuine cycle, none is
      aborted twice, and there are no more rounds than there were waiters. */
  method AbortUntilClear(m: LockManager) returns (victims: seq<TxnId>)
    requires m.Valid()
    modifies m, m.shards
    ensures m.Valid() && Acyclic(WaitFor(m.held, m.waits))
    ensures VictimRun(old(m.held), old(m.waits), victims)
    ensures |victims| <= |old(m.waits)| && NoDup(victims) && forall v | v in victims :: v in old(m.waits)
    ensures forall k ::
              (k in m.held <==> k in old(m.held) && k.0 !in victims) && (k in m.held ==> m.held[k] == old(m.held)[k])
    ensures forall u :: SpansOf(m.spans, u) == if u in victims then multiset{} else SpansOf(old(m.spans), u)
    ensures m.waits == old(m.waits) - (set v | v in victims)
  {
    hide *;
    victims := [];
    NoVictims(m.held, m.waits);
    var found := m.FindDeadlock();
    while found.Some?
      invariant m.Valid() && VictimRun(old(m.held), old(m.waits), victims)
      invariant m.held == HeldAfter(old(m.held), victims) && m.waits == WaitsLeft(old(m.waits), victims)
      invariant forall u :: SpansOf(m.spans, u) == if u in victims then multiset{} else SpansOf(old(m.spans), u)
      invariant found.None? ==> Acyclic(WaitFor(m.held, m.waits))
      invariant found.Some? ==> Genuine(found.value, WaitFor(m.held, m.waits))
      decreases |old(m.waits)| - |victims|
    {
      VictimOnCycle(found.value, WaitFor(m.held, m.waits));
      VictimRunAppend(old(m.held), old(m.waits), victims, found.value.victim);
      VictimRunsAreShort(old(m.held), old(m.waits), victims + [found.value.victim]);
      ghost var before := m.spans;
      var released := m.ReleaseAll(found.value.victim);
      DropSpansMeans(before, found.value.victim);
      victims := victims + [found.value.victim];
      found := m.FindDeadlock();
    }
    VictimRunsAreShort(old(m.held), old(m.waits), victims);
    AfterVictims(old(m.held), old(m.waits), victims);
  }

  lemma DropSpansMeans(spans: Spans, t: TxnId)
    ensures forall u :: SpansOf(DropSpans(spans, t), u) == if u == t then multiset{} else SpansOf(spans, u)
  {
  }

  /** One abort after the other takes exactly the victims' locks and waits. */
  lemma {:induction false} AfterVictims(held: Held, waits: Waits, victims: seq<TxnId>)
    ensures forall k :: k in HeldAfter(held, victims) <==> k in held && k.0 !in victims
    ensures forall k | k in HeldAfter(held, victims) :: HeldAfter(held, victims)[k] == held[k]
    ensures WaitsLeft(waits, victims) == waits - (set v | v in victims)
    decreases victims
  {
    if victims != [] {
      var v := victims[0];
      AfterVictims(DropTxn(held, v), waits - {v}, victims[1..]);
      assert victims == [v] + victims[1..];
      assert (set u | u in victims) == {v} + (set u | u in victims[1..]);
    }
  }

  lemma NoVictims(held: Held, waits: Waits)
    ensures VictimRun(held, waits, []) && HeldAfter(held, []) == held && WaitsLeft(waits, []) == waits
  {
  }

  lemma VictimOnCycle(d: Deadlock, g: Graph)
    requires Genuine(d, g)
    ensures exists c :: IsCycle(g, c) && d.victim in c
  {
  }
}
