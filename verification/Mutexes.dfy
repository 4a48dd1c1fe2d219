/** The manager never deadlocks on its own mutexes: the registry mutex is always outermost and a
    thread holds at most one shard mutex. */
module Mutexes {
  import opened Ids
  import opened Collections
  import opened Routing

  datatype Mutex = Registry | ShardMutex(i: nat)

  datatype Op = Lock(m: Mutex) | Unlock(m: Mutex)

  /** API calls by the mutexes they visit. `visited` stands for the waiters' resources, in whatever
      order the registry yields them when the graph is built. */
  datatype Call =
    | OneShard(res: ResourceId)
    | RegistryOnly
    | ReleaseAllCall
    | RequestGranted(res: ResourceId)
    | RequestRefused(res: ResourceId, visited: seq<ResourceId>)
    | FindDeadlockCall(visited: seq<ResourceId>)

  function Section(m: Mutex): seq<Op> {
    [Lock(m), Unlock(m)]
  }

  function ReadSections(bits: Bits, visited: seq<ResourceId>): seq<Op> {
    if visited == [] then [] else Section(ShardMutex(ShardIndex(bits, visited[0]))) + ReadSections(bits, visited[1..])
  }

  function SweepSections(lo: nat, hi: nat): seq<Op>
    requires lo <= hi
    decreases hi - lo
  {
    if lo == hi then [] else Section(ShardMutex(lo)) + SweepSections(lo + 1, hi)
  }

  function Program(bits: Bits, call: Call): seq<Op> {
    match call
    case OneShard(r) => Section(ShardMutex(ShardIndex(bits, r)))
    case RegistryOnly => Section(Registry)
    case ReleaseAllCall => Section(Registry) + SweepSections(0, Pow2(bits))
    case RequestGranted(r) => [Lock(Registry)] + ReadSections(bits, [r]) + [Unlock(Registry)]
    case RequestRefused(r, visited) => [Lock(Registry)] + ReadSections(bits, [r] + visited) + [Unlock(Registry)]
    case FindDeadlockCall(visited) => [Lock(Registry)] + ReadSections(bits, visited) + [Unlock(Registry)]
  }

  /** The rest of a call, with what it holds now. */
  datatype Thread = Thread(todo: seq<Op>, registry: bool, shard: Option<nat>)

  /** Every lock is released, the registry is locked only with nothing held, and a shard only
      while no other shard is. */
  ghost predicate Ordered(t: Thread)
    decreases t.todo
  {
    if t.todo == [] then !t.registry && t.shard.None?
    else
      match t.todo[0]
      case Lock(Registry) => !t.registry && t.shard.None? && Ordered(Thread(t.todo[1..], true, None))
      case Unlock(Registry) => t.registry && t.shard.None? && Ordered(Thread(t.todo[1..], false, None))
      case Lock(ShardMutex(i)) => t.shard.None? && Ordered(Thread(t.todo[1..], t.registry, Some(i)))
      case Unlock(ShardMutex(i)) => t.shard == Some(i) && Ordered(Thread(t.todo[1..], t.registry, None))
  }

  lemma SectionOrdered(i: nat, rest: seq<Op>, registry: bool)
    requires Ordered(Thread(rest, registry, None))
    ensures Ordered(Thread(Section(ShardMutex(i)) + rest, registry, None))
  {
  }

  lemma {:induction false} ReadsOrdered(bits: Bits, visited: seq<ResourceId>, rest: seq<Op>, registry: bool)
    requires Ordered(Thread(rest, registry, None))
    ensures Ordered(Thread(ReadSections(bits, visited) + rest, registry, None))
  {
    if visited == [] {
      assert ReadSections(bits, visited) + rest == rest;
    } else {
      ReadsOrdered(bits, visited[1..], rest, registry);
      var i := ShardIndex(bits, visited[0]);
      hide Ordered, ShardIndex;
      SectionOrdered(i, ReadSections(bits, visited[1..]) + rest, registry);
      assert Section(ShardMutex(i)) + ReadSections(bits, visited[1..]) + rest ==
             Section(ShardMutex(i)) + (ReadSections(bits, visited[1..]) + rest);
    }
  }

  lemma {:induction false} SweepOrdered(lo: nat, hi: nat)
    requires lo <= hi
    ensures Ordered(Thread(SweepSections(lo, hi), false, None))
    decreases hi - lo
  {
    if lo < hi {
      SweepOrdered(lo + 1, hi);
      SectionOrdered(lo, SweepSections(lo + 1, hi), false);
    }
  }

  lemma UnderRegistry(bits: Bits, visited: seq<ResourceId>)
    ensures Ordered(Thread([Lock(Registry)] + ReadSections(bits, visited) + [Unlock(Registry)], false, None))
  {
    var last := [Unlock(Registry)];
    assert last[1..] == [];
    assert Ordered(Thread(last, true, None));
    ReadsOrdered(bits, visited, last, true);
    var p := [Lock(Registry)] + ReadSections(bits, visited) + last;
    assert p[1..] == ReadSections(bits, visited) + last;
  }

  lemma RegistryFirst(rest: seq<Op>)
    requires Ordered(Thread(rest, false, None))
    ensures Ordered(Thread(Section(Registry) + rest, false, None))
  {
    var p := Section(Registry) + rest;
    assert p[1..] == [Unlock(Registry)] + rest;
    assert p[1..][1..] == rest;
  }

  lemma NothingLeft()
    ensures Ordered(Thread([], false, None))
  {
  }

  /** Every API call visits its mutexes in this order. */
  lemma CallsAreOrdered(bits: Bits, call: Call)
    ensures Ordered(Thread(Program(bits, call), false, None))
  {
    NothingLeft();
    hide Ordered, Section, ReadSections, SweepSections, ShardIndex, Pow2;
    match call
    case OneShard(r) =>
      SectionOrdered(ShardIndex(bits, r), [], false);
      assert Section(ShardMutex(ShardIndex(bits, r))) + [] == Section(ShardMutex(ShardIndex(bits, r)));
    case RegistryOnly =>
      RegistryFirst([]);
      assert Section(Registry) + [] == Section(Registry);
    case ReleaseAllCall =>
      SweepOrdered(0, Pow2(bits));
      RegistryFirst(SweepSections(0, Pow2(bits)));
    case RequestGranted(r) => UnderRegistry(bits, [r]);
    case RequestRefused(r, visited) => UnderRegistry(bits, [r] + visited);
    case FindDeadlockCall(visited) => UnderRegistry(bits, visited);
  }

  // ---- any number of threads -----------------------------------------------------------

  datatype World = World(owner: map<Mutex, nat>, threads: map<nat, Thread>)

  /** A thread begins a call, or takes the next lock or unlock of the call it is in. */
  datatype Event = Begin(thread: nat, call: Call) | Advance(thread: nat)

  ghost predicate CanAdvance(w: World, th: nat) {
    th in w.threads && w.threads[th].todo != [] &&
    (w.threads[th].todo[0].Lock? ==> w.threads[th].todo[0].m !in w.owner)
  }

  ghost predicate Possible(w: World, e: Event) {
    match e
    case Begin(th, call) => th !in w.threads || w.threads[th].todo == []
    case Advance(th) => CanAdvance(w, th)
  }

  function Holding(t: Thread, op: Op): Thread
    requires t.todo != []
  {
    match op
    case Lock(Registry) => Thread(t.todo[1..], true, t.shard)
    case Unlock(Registry) => Thread(t.todo[1..], false, t.shard)
    case Lock(ShardMutex(i)) => Thread(t.todo[1..], t.registry, Some(i))
    case Unlock(ShardMutex(i)) => Thread(t.todo[1..], t.registry, None)
  }

  ghost function Next(bits: Bits, w: World, e: Event): World
    requires Possible(w, e)
  {
    match e
    case Begin(th, call) => w.(threads := w.threads[th := Thread(Program(bits, call), false, None)])
    case Advance(th) =>
      var t := w.threads[th];
      var op := t.todo[0];
      World(if op.Lock? then w.owner[op.m := th] else w.owner - {op.m}, w.threads[th := Holding(t, op)])
  }

  /** A mutex has the owner that believes it holds it. */
  ghost predicate Consistent(w: World) {
    (forall th | th in w.threads :: Ordered(w.threads[th])) &&
    (forall m | m in w.owner :: w.owner[m] in w.threads) &&
    (forall th | th in w.threads :: w.threads[th].registry <==> Registry in w.owner && w.owner[Registry] == th) &&
    (forall th, i: nat | th in w.threads ::
      w.threads[th].shard == Some(i) <==> ShardMutex(i) in w.owner && w.owner[ShardMutex(i)] == th)
  }

  /** What an ordered thread holds when its next operation comes up. */
  lemma TopOperation(t: Thread)
    requires Ordered(t) && t.todo != []
    ensures Ordered(Holding(t, t.todo[0]))
    ensures match t.todo[0]
            case Lock(Registry) => !t.registry && t.shard.None?
            case Unlock(Registry) => t.registry && t.shard.None?
            case Lock(ShardMutex(i)) => t.shard.None?
            case Unlock(ShardMutex(i)) => t.shard == Some(i)
  {
  }

  lemma AdvanceKeepsConsistent(bits: Bits, w: World, th: nat)
    requires Consistent(w) && CanAdvance(w, th)
    ensures Consistent(Next(bits, w, Advance(th)))
  {
    hide Ordered;
    var t := w.threads[th];
    TopOperation(t);
    var w' := Next(bits, w, Advance(th));
    assert w'.threads == w.threads[th := Holding(t, t.todo[0])];
    match t.todo[0]
    case Lock(Registry) => assert w'.owner == w.owner[Registry := th];
    case Unlock(Registry) => assert w'.owner == w.owner - {Registry};
    case Lock(ShardMutex(i)) => assert w'.owner == w.owner[ShardMutex(i) := th];
    case Unlock(ShardMutex(i)) => assert w'.owner == w.owner - {ShardMutex(i)};
  }

  lemma BeginKeepsConsistent(bits: Bits, w: World, th: nat, call: Call)
    requires Consistent(w) && Possible(w, Begin(th, call))
    ensures Consistent(Next(bits, w, Begin(th, call)))
  {
    assert th in w.threads ==> Ordered(w.threads[th]) && !w.threads[th].registry && w.threads[th].shard.None?;
    CallsAreOrdered(bits, call);
    hide Ordered, Program;
  }

  lemma NextKeepsConsistent(bits: Bits, w: World, e: Event)
    requires Consistent(w) && Possible(w, e)
    ensures Consistent(Next(bits, w, e))
  {
    hide Consistent;
    match e
    case Begin(th, call) => BeginKeepsConsistent(bits, w, th, call);
    case Advance(th) => AdvanceKeepsConsistent(bits, w, th);
  }

  ghost predicate Schedule(bits: Bits, w: World, events: seq<Event>)
    decreases events
  {
    events == [] || (Possible(w, events[0]) && Schedule(bits, Next(bits, w, events[0]), events[1..]))
  }

  ghost function Play(bits: Bits, w: World, events: seq<Event>): World
    requires Schedule(bits, w, events)
    decreases events
  {
    if events == [] then w else Play(bits, Next(bits, w, events[0]), events[1..])
  }

  lemma {:induction false} PlayKeepsConsistent(bits: Bits, w: World, events: seq<Event>)
    requires Consistent(w) && Schedule(bits, w, events)
    ensures Consistent(Play(bits, w, events))
    decreases events
  {
    if events != [] {
      NextKeepsConsistent(bits, w, events[0]);
      PlayKeepsConsistent(bits, Next(bits, w, events[0]), events[1..]);
    }
  }

  /** In a consistent world with an unfinished call, somebody can go on: the owner of a shard
      mutex, else the owner of the registry, else anybody. */
  lemma SomebodyAdvances(w: World, stuck: nat) returns (th: nat)
    requires Consistent(w) && stuck in w.threads && w.threads[stuck].todo != []
    ensures CanAdvance(w, th)
  {
    assert Ordered(w.threads[stuck]);
    if i: nat :| ShardMutex(i) in w.owner {
      th := w.owner[ShardMutex(i)];
      assert Ordered(w.threads[th]) && w.threads[th].shard == Some(i);
    } else if Registry in w.owner {
      th := w.owner[Registry];
      assert Ordered(w.threads[th]) && w.threads[th].registry;
    } else {
      th := stuck;
    }
  }

  /** With any number of threads running any calls, in every reachable state with an unfinished
      call some thread can take its next step. */
  lemma NeverSelfDeadlocks(bits: Bits, events: seq<Event>, stuck: nat)
    requires Schedule(bits, World(map[], map[]), events)
    requires var w := Play(bits, World(map[], map[]), events); stuck in w.threads && w.threads[stuck].todo != []
    ensures exists th :: CanAdvance(Play(bits, World(map[], map[]), events), th)
  {
    PlayKeepsConsistent(bits, World(map[], map[]), events);
    var th := SomebodyAdvances(Play(bits, World(map[], map[]), events), stuck);
  }
}
