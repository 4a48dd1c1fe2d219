# A verified model of the lock manager

The repository is a transactional lock manager: a sharded table of point and range locks in five
multi-granularity modes, a deadlock-aware `request`, and a periodic deadlock scan. Its two promises
are that an incompatible grant is never issued and that detection finds every genuine cycle and
never reports a false one. This project models the whole manager and proves both for every input and
every interleaving of critical sections; what detection asks of its callers is stated below.

## Structure

The lowest layer is algebra: the mode lattice (`Modes.dfy`), key intervals (`Ranges.dfy`), 64-bit
shard routing (`Routing.dfy`) and finite directed graphs (`Digraph.dfy`).

`FlatTable.dfy` is the reference: who holds what, as plain maps, with the grant rule, the wait edges
and bulk release stated on them. The code is modelled against it by classes that update their fields
in place:

- `Shards.dfy`: one shard, its four maps and holder vectors, one method per critical section;
- `Manager.dfy`: the shards, the routing and the wait registry, with `Merging.dfy` for the fact that
  the flat table is the disjoint union of the shards;
- `WaitGraphs.dfy`: the adjacency map, the iterative three-colour search and victim choice.

Concurrency is a state machine (`Protocol.dfy`) with one atomic step per mutex critical section.
`release_all` is a registry section followed by one section per shard. `request` and `find_deadlock`
hold the registry mutex while they visit shards one at a time. Steps of other threads may come
between any two sections. `Interleaving.dfy` ties the two halves together: it executes the sections
of the real manager class in any order, for any callers, and shows that each is exactly one step of
the machine, so what is proved about runs holds of the concrete maps, graph and search. One step,
the attempt of a `request`, is a shard section together with the registry update that follows it;
`Protocol.SettlingCommutes` shows that nothing another thread can do between the two can tell, and
that it is as disciplined after them as between them, given that the calls for one transaction are
made one after the other.

On top of the machine:

- `Effects.dfy`: what each step does to the table, entry by entry, and that a request is decided as
  its caller made it;
- `Verdicts.dfy`: exactness of detection under interleaving, permanence of deadlocks, and that every
  deadlock is known to one of its members;
- `BulkRelease.dfy`: what one `release_all` leaves and returns while other threads run;
- `Draining.dfy`: no cycle means not stuck, and aborting is graph removal;
- `Recovery.dfy`: the detect-and-abort loop on the manager class;
- `Hierarchy.dfy`: multi-granularity safety on resource trees;
- `History.dfy`: the mode held as the join of what was granted;
- `Replay.dfy`: the manager against the flat model for whole call sequences and any shard counts;
- `Mutexes.dfy`: freedom from deadlock on the manager's own mutexes, and `Footprints.dfy`: that its
  programs are the mutexes the steps of the protocol lock;
- `Limits.dfy`: concrete tables showing where the promises end.

## What callers must do

Some results need nothing of the callers but what the mutexes enforce (`Protocol.Feasible`):

- lock safety (`Protocol.NeverConflicting`) and the history of upgrades (`History.ModeIsJoinOfGrants`);
- permanence of deadlocks (`Verdicts.DeadlockIsPermanent`, `Draining.CycleNeverDrains`), where only the
  members of the cycle must keep what they hold and ask for.

The others rest on habits that the code expects of its callers (src/manager.rs:480-487 and 496-499):

- `Protocol.Suspended`: a transaction registered as waiting takes no point lock except by retrying
  `request`, in particular not by `try_acquire`, which detection would not see; it gives up none
  except by being aborted with `release_all`; and no `request` is begun for a transaction while a
  `release_all` of it is still visiting shards. This is what exact verdicts
  (`Verdicts.SuspendedVerdictIsExact`) and known deadlocks (`Verdicts.EveryDeadlockIsKnown`) need. A
  single verdict needs less: that no edge between registered waiters changes from the step that
  opens its graph build to the last read (`Verdicts.VerdictIsExact`), whatever happened before.
- `Protocol.Departs`, asked of one transaction: nothing is acquired for it, neither a lock nor a
  range, while a `release_all` of it is still visiting shards. The bulk release of that transaction
  (`BulkRelease.InterleavedReleaseAll`) needs this, and nothing of any other. Multi-granularity
  safety of two transactions (`Hierarchy.HierarchyIsSafe`) needs it of those two.

`Protocol.Disciplined` is both habits for everybody, and `Protocol.Legal` a run of such callers. The
schedules that drain the wait set (`Draining.AcyclicDrains`) keep it, and the states in `Limits` are
reached by such runs. From there `Limits.WaiterReleaseFalsifiesVerdict`,
`Limits.WaiterAcquireClosesUnseenCycle`, `Limits.RequestDuringReleaseFalsifiesVerdict` and
`Limits.AcquiredDuringReleaseSurvives` show what goes wrong when each part of the habits is dropped.

The repository's documentation tells the caller to abort the reported victim, which breaks the
reported cycle. It does not follow that no deadlock is left, not even when the victim is the
requester: `Limits.OneAbortMayNotBeEnough` and `Limits.RequesterAbortMayNotBeEnough` give reachable
tables where one is, and `Draining.OneAbortSuffices` says exactly when one abort is enough. What does
hold in every run with suspended waiters is that no deadlock is ever unknown: each cycle has a member whose
`request` has reported a deadlock and that has not withdrawn or tried again since, unless the
requester being examined has just closed it (`Verdicts.EveryDeadlockIsKnown`).

## Model

| member | source | states |
|---|---|---|
| Modes.TablesMatchRights | src/mode.rs:105-115 | the compatibility table forbids exactly the pairs whose subtree read and write rights clash, and covering is inclusion of rights |
| Modes.JoinIsLeastUpperBound | src/mode.rs:142-192 | the join table gives the least mode covering both arguments |
| Modes.CompatibleWithJoin | src/mode.rs:142-192 | a mode is compatible with a join exactly when it is compatible with both parts, and compatibility is symmetric |
| Ranges.New | src/range.rs:56-62 | refuses exactly inverted bounds, and otherwise covers exactly the keys between them |
| Ranges.Point | src/range.rs:77-82 | covers exactly that key |
| Ranges.OverlapMeansCommonKey | src/range.rs:130-132 | comparing bounds decides whether two ranges share a key |
| Routing.RoundingIsLeast | src/manager.rs:229-231 | no smaller power of two covers the requested shard count |
| Routing.RoundingFits | src/manager.rs:229-231 | requests up to 2^63 round without overflowing a word |
| Routing.ShardInBounds | src/manager.rs:910-917 | the index is always a valid shard and the shift amount is legal |
| Routing.HashIsBijection | src/manager.rs:38 | multiplying by the odd constant modulo 2^64 is undone by its inverse, both ways |
| Routing.ShardIsSlice | src/manager.rs:910-917 | a shard owns exactly the ids whose hash lies in its contiguous slice of words |
| Routing.ShardsAreEqual | src/manager.rs:910-917 | each of the 2^bits shards owns exactly 2^(64-bits) resource ids |
| Digraph.InsideDecidesCycles | src/manager.rs:624-631 | graphs that agree on edges between waiters have the same cycles, reached from the same vertices |
| Digraph.MeetingPointDecides | src/deadlock.rs:189-191 | when all cycles pass through one vertex, searching from it alone decides whether there is any |
| Digraph.OrderedHasNoCycle | src/deadlock.rs:205-245 | from a vertex whose edges all lead to earlier finished vertices no cycle can be reached |
| Digraph.SinkExists | src/deadlock.rs:178-185 | in an acyclic graph some waiter waits for no other waiter |
| WaitGraphs.WaitForGraph.AddWait | src/deadlock.rs:106-111 | adds one edge, ignores self-edges, leaves all other edges |
| WaitGraphs.WaitForGraph.AddWaits | src/deadlock.rs:125-129 | adds exactly the edges to the listed holders other than the waiter |
| WaitGraphs.WaitForGraph.ClearWaiter | src/deadlock.rs:132-134 | removes exactly the edges out of the waiter |
| WaitGraphs.WaitForGraph.RemoveTxn | src/deadlock.rs:138-143 | removes exactly the edges into and out of the transaction |
| WaitGraphs.WaitForGraph.CycleFrom | src/deadlock.rs:205-245 | answers with a cycle iff one can be reached; the answer is a simple cycle of real edges reachable from the start; at most one step per reachable vertex and per list entry of one, repeated entries included |
| WaitGraphs.BoundMeans | src/deadlock.rs:205-245 | the bound on steps is the number of reachable vertices plus that of their list entries, repeated ones included |
| WaitGraphs.WaitForGraph.DetectCycle | src/deadlock.rs:178-185 | for any order of keys, answers with a simple cycle iff the graph has one |
| WaitGraphs.BackEdgeStep | src/deadlock.rs:226-229 | meeting a vertex of the current path closes a simple cycle reachable from the start |
| WaitGraphs.PopStep | src/deadlock.rs:238-242 | a popped vertex has only finished successors, so finished vertices stay edge-closed and acyclic, and the step is paid for |
| WaitGraphs.TopOfStack | src/deadlock.rs:218-229 | the steps taken stay below the bound, the path mirrors the stack, and every grey vertex is found on the path |
| WaitGraphs.Exhausted | src/deadlock.rs:218-244 | an empty stack means no cycle can be reached from the start |
| WaitGraphs.PickVictim | src/deadlock.rs:262-267 | a member of the cycle, the greatest or least id by policy, none only for an empty cycle |
| FlatTable.GrantKeepsSafe | src/manager.rs:314-353 | applying the grant rule never makes two holders of a resource conflict |
| FlatTable.WaitEdgesExact | src/manager.rs:636-646 | a request is refused iff it has a blocker, for fresh, covered and upgrade requests, although the edge tests the raw mode and the grant the join |
| FlatTable.BlockersMeaning | src/manager.rs:636-646 | the blockers of a request are all other holders in a mode incompatible with it, and nobody else |
| FlatTable.GrantMeans | src/manager.rs:314-353 | a request is refused iff somebody else is in the way, and otherwise its transaction holds the least mode covering it and what it held, every other lock as before |
| FlatTable.AddSpanKeepsSafe | src/manager.rs:744-770 | a granted range lock conflicts with no overlapping range of another transaction |
| FlatTable.NoPhantom | src/range.rs:111-132 | two range locks of different transactions containing one key have compatible modes |
| Shards.Shard.TryGrantLocked | src/manager.rs:314-353 | grants iff the flat rule does, yields the joined mode, keeps vectors and index in agreement; a refusal leaves the maps as they were |
| Shards.Shard.Release | src/manager.rs:375-394 | drops exactly that lock with its index entry, or reports that it is not held and changes nothing |
| Shards.Shard.ForgetResource | src/manager.rs:858-868 | the index is exact for the table without that lock, with no empty entry |
| Shards.Shard.ReleaseAllPoints | src/manager.rs:438-450 | drops exactly the transaction's point locks of this shard and counts them, although the index disagrees inside the loop |
| Shards.Shard.ReleaseAllRanges | src/manager.rs:452-468 | drops exactly the transaction's range locks of this shard and counts them, with multiplicity |
| Shards.Shard.HoldersBlocking | src/manager.rs:636-646 | exactly the other holders in a mode incompatible with the one requested |
| Shards.Shard.HolderCount | src/manager.rs:674-677 | the number of transactions holding the resource |
| Shards.Shard.ModeHeld | src/manager.rs:695-702 | the mode held on the flat table, if any |
| Shards.Shard.TryAcquireRange | src/manager.rs:744-770 | grants iff no other transaction holds an overlapping range incompatibly; a refusal leaves the maps as they were |
| Shards.Shard.ReleaseRange | src/manager.rs:799-831 | drops the first lock on exactly that range in vector order, with its index entry, or reports that there is none and changes nothing |
| Shards.Shard.ForgetRange | src/manager.rs:872-886 | the range index again lists each pair as often as it is held |
| Shards.UpgradeDecision | src/manager.rs:328-341 | scanning the other holders against the join decides an upgrade as the flat rule does |
| Shards.RemoveKeepsLocks | src/manager.rs:388-391 | swap-removing a holder, and the entry when it was the last, is dropping that lock |
| Shards.DrainingStep | src/manager.rs:439-449 | one iteration of bulk release keeps maps and remaining list in step and accounts for one lock |
| Shards.RangeDrainingStep | src/manager.rs:453-467 | the same for range locks, one list entry for one lock of that range |
| Manager.LockManager.WithShards | src/manager.rs:229-243 | an empty table with the least power of two of shards covering the request |
| Manager.LockManager.TryAcquire | src/manager.rs:295-308 | the flat rule decides, whatever shard the resource is in |
| Manager.LockManager.Release | src/manager.rs:375-394 | on the flat table, drops exactly that lock or reports that it is not held |
| Manager.LockManager.ReleaseAll | src/manager.rs:419-471 | drops exactly the transaction's locks, ranges and wait, returns exactly their number, leaves all others |
| Manager.LockManager.SweepShard | src/manager.rs:429-469 | one shard of a bulk release drops exactly the transaction's locks routed there, and returns how many |
| Manager.LockManager.TryAcquireRange | src/manager.rs:744-770 | conflict with overlapping ranges of other transactions decides, whatever shard the space is in |
| Manager.LockManager.ReleaseRange | src/manager.rs:799-831 | on the flat table, removes exactly one lock on that exact range, the first in the vector of the owning shard, or reports that there is none |
| Manager.LockManager.BuildWaitGraph | src/manager.rs:624-631 | has exactly the edges of the true wait-for relation |
| Manager.LockManager.HoldersBlocking | src/manager.rs:636-646 | exactly the blockers of the request on the flat table |
| Manager.LockManager.RegisterWait | src/manager.rs:544-544 | a transaction waits for one request; other waits and the table stay |
| Manager.LockManager.Request | src/manager.rs:529-554 | granted iff the flat rule grants, the wait cleared or registered, and a deadlock reported iff a cycle of the true wait-for relation can be reached from the requester; the cycle is genuine and the victim its youngest member |
| Manager.LockManager.FindDeadlock | src/manager.rs:604-610 | answers none iff the true wait-for relation is acyclic, else a genuine cycle and its youngest member |
| Manager.LockManager.CancelWait | src/manager.rs:576-579 | removes that wait only |
| Manager.LockManager.ModeHeld | src/manager.rs:695-702 | the mode on the flat table, whatever the routing |
| Manager.LockManager.HolderCount | src/manager.rs:674-677 | the number of holders on the flat table |
| Manager.LockManager.NeverConflicting | dev/DIRECTIVES.md:47-47 | in every state of the manager no two holders conflict, on points or on overlapping ranges |
| Merging.MergeGrant | src/manager.rs:295-308 | granting in the shard a resource is routed to grants on the flat table |
| Merging.MergeDropIn | src/manager.rs:429-450 | bulk release in one shard drops from the flat table exactly the locks routed there |
| Merging.DropBelowAll | src/manager.rs:429-469 | after all shards have been visited nothing of the transaction is left and everything else is |
| Protocol.StepKeepsInv | src/manager.rs:154-163 | every critical section of every disciplined thread keeps the table conflict-free, half-done sweeps clear of locks and ranges in the shards visited, and half-read graphs right between waiters |
| Protocol.StepKeepsSweeps | src/manager.rs:419-471 | the bulk releases of one transaction stay sound if nothing is acquired for it meanwhile, whatever is done for others |
| Protocol.StepKeepsWaitInv | src/manager.rs:624-646 | suspended waiters keep half-read graphs right and apart from bulk releases, whatever else callers do |
| Protocol.SettlingCommutes | src/manager.rs:534-544 | a step another thread takes between the grant decision of a request and its registry update has the same effect after it, and is disciplined there if it was, unless it is a call for the requester itself |
| Protocol.AttemptSettles | src/manager.rs:534-544 | the attempt step is the grant decision followed by that update |
| Protocol.RunKeepsInv | src/manager.rs:154-163 | hence every interleaving does |
| Protocol.SuspendedLeavesEdges | src/manager.rs:480-483 | while no retry is being decided, suspended waiters keep the edges between them |
| Protocol.OthersLeaveEdges | src/manager.rs:624-646 | no edge between waiters changes unless a waiter takes or gives up a lock on a resource some waiter waits for, or is swept |
| Protocol.OnlyLoses | src/manager.rs:419-471 | a step that acquires nothing for a transaction gives it no lock or range |
| Protocol.NeverConflicting | dev/DIRECTIVES.md:47-47 | in every run, by disciplined callers or not, two transactions never hold incompatible modes on a resource, nor on ranges sharing a key |
| Effects.AcquireEffect | src/manager.rs:295-308 | the step refuses and changes nothing iff somebody else is in the way, and otherwise gives the least mode that will do and changes nothing else |
| Effects.ReleaseEffect | src/manager.rs:375-394 | after the step that lock is gone, and every other lock, range, wait and call is as before |
| Effects.AcquireRangeEffect | src/manager.rs:744-770 | a granted range lock is one more of its kind, a refused one none, and nothing else changes |
| Effects.ReleaseRangeEffect | src/manager.rs:799-831 | one range lock of that kind fewer, if there was any, and nothing else changes |
| Effects.WithdrawEffect | src/manager.rs:576-579 | cancelling a wait, or beginning a bulk release, takes that wait at once and no other |
| Effects.SweepEffect | src/manager.rs:429-469 | one section takes exactly what its transaction has in one shard, and the call moves to the next or ends |
| Effects.RequestIsDecidedAsAsked | src/manager.rs:529-544 | whatever others do before the decision, it is taken for the resource and mode the caller gave: if somebody is in the way the caller waits for just that, otherwise it holds the least mode covering it and waits for nothing |
| Verdicts.GraphIsExact | src/manager.rs:489-492 | a graph read shard by shard while others run has exactly the cycles of the wait-for relation of this instant |
| Verdicts.VerdictIsExact | src/manager.rs:529-554 | from any table whatever, if no edge between waiters changes while a graph is built, a scan reports a deadlock iff there is any cycle and a refused request iff its caller can reach one, when the build opened and when it ends |
| Verdicts.SuspendedBuildIsExact | src/manager.rs:604-610 | with suspended waiters, the interleaved `find_deadlock` reports a deadlock iff there is any cycle, and the interleaved `request` of a transaction iff it can reach one |
| Verdicts.SuspendedVerdictIsExact | src/manager.rs:489-492 | in every run that keeps waiters suspended, from the empty table, a finished detection reports a deadlock iff there is one |
| Verdicts.SuspensionIsCalm | src/manager.rs:480-483 | suspended waiters change no edge between them throughout every build |
| Verdicts.VerdictHoldsThroughout | src/manager.rs:529-554 | a build that is right so far stays right over any calm stretch, and its verdict is right for the first instant, the last and every one between |
| Verdicts.CyclesFrozen | src/manager.rs:624-646 | while a graph is being built, no step that leaves the edges between waiters alone creates or breaks a cycle |
| Verdicts.DeadlockPersistsStep | src/manager.rs:489-492 | a step in which the members keep what they hold and ask for keeps the cycle, even if they take more, and a retry by a member is refused |
| Verdicts.DeadlockIsPermanent | src/manager.rs:489-492 | in every continuation the mutexes allow in which no member gives up a lock, cancels, is aborted or changes its request, the same cycle persists and every retry by a member is refused, whatever others do |
| Verdicts.SuspendedMembersKeepLocks | src/manager.rs:480-483 | where waiters are suspended, cancelling, aborting and changing a request is all that can end a deadlock |
| Verdicts.RefusalMeets | src/deadlock.rs:189-191 | in any state, the cycles after a refusal that avoid the requester are exactly those from before, so every newly formed cycle passes through the requester |
| Verdicts.StepInherits | src/deadlock.rs:189-191 | no other step adds an edge between waiters, as long as no waiter calls `try_acquire`, so none forms a cycle |
| Verdicts.StepKeepsKnown | src/deadlock.rs:189-191 | with suspended waiters every step, verdicts and aborts included, keeps each cycle known to a member that has been told or is being examined |
| Verdicts.EveryDeadlockIsKnown | src/deadlock.rs:189-191 | hence every run with suspended waiters does, with any number of deadlocks reported and aborts under way |
| Verdicts.ToldMeans | src/manager.rs:484-487 | those counted as told are exactly the transactions whose `request` returned with a deadlock at some step and that have not been aborted, cancelled or decided anew since |
| Verdicts.EveryDeadlockWasReported | src/deadlock.rs:189-191 | in every run with suspended waiters, each cycle at the end has such a member, or one under examination |
| Verdicts.QuietRunsStayAcyclic | src/deadlock.rs:189-191 | in particular, such a run in which no request reports a deadlock stays acyclic but for cycles through the requester under examination |
| Verdicts.RequesterSeesAll | src/deadlock.rs:189-191 | in every run with suspended waiters, a requester told of no deadlock leaves only cycles with a member told before; when nobody told is left, its verdict decides whether there is any cycle, and the periodic scan finds none |
| Draining.AcyclicDrains | src/manager.rs:480-487 | from every acyclic state of a safe table, amid a graph build or not, there is a schedule of disciplined releases and retries, each retry granted, that empties the wait set |
| Draining.CycleNeverDrains | src/manager.rs:604-610 | with a cycle no schedule does in which waiters keep what they hold and ask for, whatever others do |
| Draining.DrainableIffAcyclic | src/manager.rs:604-610 | the waiters can all be served without any giving way iff the wait-for relation is acyclic |
| Draining.AbortIsRemoval | src/deadlock.rs:138-143 | the relation after `release_all` is the relation before with the transaction removed |
| Draining.AbortBreaksCycles | src/manager.rs:484-487 | the cycles left are exactly those that avoid the aborted transaction |
| Draining.OneAbortSuffices | src/manager.rs:484-487 | one abort ends all deadlock iff every cycle passes through the victim |
| Draining.WithdrawalBreaksCycles | src/manager.rs:419-426 | in any state, right after a wait is cancelled or a bulk release begins and before any lock is swept, the cycles left are exactly those that avoid the transaction; none is left iff all passed through it |
| Draining.VictimRunsAreShort | src/manager.rs:604-610 | only waiters are aborted, each once, so rounds are bounded by the number of waiters |
| BulkRelease.LastShardClears | src/manager.rs:429-469 | after the last shard of a bulk release its transaction holds neither locks nor ranges |
| BulkRelease.InterleavedReleaseAll | src/manager.rs:419-471 | if nothing is acquired for its transaction during the call, whatever else callers do, the transaction holds nothing when it returns; the counts its sections return plus what others released of it are what it held, and they are the number of its locks and ranges when nobody else released any |
| BulkRelease.EachCountsOnce | src/manager.rs:438-468 | each grant of a lock not held, each range grant and each single release changes the count of what a transaction holds by one, and of no other |
| BulkRelease.WholeReleaseAll | src/manager.rs:419-471 | the same for a whole call, begun in any state |
| BulkRelease.DepartingGainsNothing | src/manager.rs:419-471 | beginning no acquisition for a transaction while it is being swept is enough for that |
| Recovery.AbortUntilClear | src/manager.rs:604-610 | `find_deadlock` then `release_all` of its victim, repeated on the manager, ends with no cycle, aborts only members of cycles genuine at the time, takes no more rounds than there were waiters, and takes the victims' locks, ranges and waits and nobody else's |
| Interleaving.Sections.TryAcquire | src/manager.rs:295-308 | the section on the concrete manager is one step of the machine; it is refused iff somebody else is in the way, and otherwise gives the least mode that will do, with ranges, waits and other calls untouched |
| Interleaving.Sections.Release | src/manager.rs:375-394 | one step; the lock is gone afterwards and nothing else is, and the answer says whether it was there |
| Interleaving.Sections.TryAcquireRange | src/manager.rs:744-770 | one step; one more range lock of that kind iff nobody else's conflicts, and nothing else changes |
| Interleaving.Sections.ReleaseRange | src/manager.rs:799-831 | one step; one range lock on exactly that range fewer iff there was one, and nothing else changes |
| Interleaving.Sections.CancelWait | src/manager.rs:576-579 | one step; takes that wait and nothing else |
| Interleaving.Sections.BeginReleaseAll | src/manager.rs:419-426 | one step; takes the wait, and the sweep of the shards begins at the first |
| Interleaving.Sections.SweepNext | src/manager.rs:429-469 | one step; takes exactly what the transaction has in that shard, and returns by how many its locks and ranges have become fewer |
| Interleaving.Sections.BeginRequest | src/manager.rs:529-532 | one step; what is to be decided is what the caller asked for |
| Interleaving.Sections.Attempt | src/manager.rs:534-544 | one step; refused iff somebody else holds the resource incompatibly with the mode asked for, and then the caller waits for just that and a build from it begins; otherwise it holds the least mode that will do and waits no more |
| Interleaving.Sections.BeginScan | src/manager.rs:604-606 | one step; a build begins that looks from everywhere and has all waiters to read |
| Interleaving.Sections.ReadBlockers | src/manager.rs:626-629 | one step; the waiter's edges are now the true ones and no other edge changes |
| Interleaving.Sections.Conclude | src/manager.rs:545-553 | after any interleaving of sections with suspended waiters, and after any other that has left the graph right, the search of the concrete graph reports a deadlock iff, at that instant, the requester can reach a cycle, or for a scan iff there is any; the cycle is genuine and the victim its youngest member |
| Limits.WaiterReleaseFalsifiesVerdict | src/manager.rs:480-483 | in a state a disciplined run reaches, if a registered waiter releases while a graph is being built, a deadlock is reported that is gone |
| Limits.WaiterAcquireClosesUnseenCycle | src/manager.rs:496-499 | in a state a disciplined run reaches, if a registered waiter takes a lock by `try_acquire`, a cycle forms that nobody examines |
| Limits.RequestDuringReleaseFalsifiesVerdict | src/manager.rs:419-426 | in a state a disciplined run reaches, if a `request` is begun for a transaction during its bulk release, a deadlock is reported that is gone |
| Limits.AcquiredDuringReleaseSurvives | src/manager.rs:429-469 | in a state a disciplined run reaches, with two shards or more, a lock acquired for a transaction during its bulk release outlives the call |
| Limits.OneAbortMayNotBeEnough | src/manager.rs:484-487 | in a state a disciplined run reaches, a request closes two cycles, and whichever is reported with its youngest member as victim, aborting that victim leaves the other |
| Limits.RequesterAbortMayNotBeEnough | src/manager.rs:484-487 | in a state a disciplined run reaches, aborting the requester of a reported deadlock leaves an earlier one |
| Hierarchy.AncestorsOnLine | src/lib.rs:43-48 | two ancestors of a node lie on one line |
| Hierarchy.NoConflictingAccess | src/lib.rs:43-48 | with intentions held upwards and compatible modes per node, a writer of a node, explicit or through an ancestor, excludes every other reader and writer |
| Hierarchy.RunKeepsIntent | src/lib.rs:43-48 | a transaction that acquires coarse to fine and releases fine to coarse keeps its intentions upwards in every interleaving, whatever others do |
| Hierarchy.HierarchyIsSafe | src/lib.rs:43-48 | on trees of any depth and in every run, two transactions that obey the protocol never have conflicting access to any node, whatever others do |
| History.JoinAllIsLeast | src/mode.rs:117-121 | folding the join over any modes gives the least mode covering them all |
| History.JoinAllIgnoresOrder | src/mode.rs:117-125 | neither order nor repetition of the modes matters |
| History.ModeIsJoinOfGrants | src/manager.rs:323-347 | after any run, by disciplined callers or not, the mode held is the least mode covering everything granted since the last release, and nothing is held iff nothing was granted |
| History.GrantsMean | src/manager.rs:323-347 | the grants counted are exactly those made at some step with the resource held ever since |
| History.ModeIsLeastOfLastingGrants | src/manager.rs:323-347 | after any run of any callers, a resource is held iff some grant of it has lasted, and then in the least mode covering all that have |
| Replay.Perform | tests/properties.rs:53-128 | one call, on points or ranges, on a manager in any state gives the observation and state change of the flat model |
| Replay.PointCallsMean | tests/properties.rs:68-106 | what the flat model's calls on points and waits answer and change, entry by entry |
| Replay.RangeCallsMean | tests/properties.rs:268-304 | the same for ranges |
| Replay.BulkCallMeans | tests/properties.rs:173-205 | the same for the bulk release |
| Replay.ExpectedAppend | tests/properties.rs:133-171 | one more call adds its observation in the state the others led to |
| Replay.PerformAll | tests/properties.rs:133-171 | any call sequence gives the observations of the flat model, for some choice among equal ranges at each `release_range` |
| Replay.AnyShardCounts | tests/properties.rs:133-139 | two managers in the same state, whatever their shard counts, give observations of the flat model, and the same ones and the same state again unless some `release_range` could choose between modes |
| Replay.AnyTwoShardCounts | tests/properties.rs:133-139 | in particular empty managers with the two shard counts asked for |
| Replay.ChoiceIsForced | src/manager.rs:774-778 | when no `release_range` can choose between modes, the flat model allows one sequence of observations only |
| Mutexes.CallsAreOrdered | src/manager.rs:154-163 | every call takes the registry mutex only with nothing held and at most one shard mutex at a time, and releases all it takes |
| Mutexes.SomebodyAdvances | src/manager.rs:154-163 | in every consistent state with an unfinished call some thread can take its next lock or unlock |
| Mutexes.NeverSelfDeadlocks | src/manager.rs:154-163 | hence in every state reachable by any number of threads running any calls |
| Footprints.OneSection | src/manager.rs:889-893 | a call of one section locks the mutex of the shard its resource is routed to, or the registry's |
| Footprints.ReleaseAllVisits | src/manager.rs:419-471 | a bulk release locks the registry and then every shard once in order, whatever others do in between |
| Footprints.RequestVisits | src/manager.rs:529-554 | a request holds the registry while it locks the shard of its resource and, if refused, one shard for each waiter, itself included |
| Footprints.ScanVisits | src/manager.rs:604-631 | `find_deadlock` holds the registry while it locks one shard for each waiter |

## Left out

- Mutex poisoning and its recovery, the swap of mutex implementations for model checking, `new` with its use of the machine's parallelism, and `Default`: runtime plumbing.
- Serialization, `Display` and error formatting, and the conversions to and from identifiers: identifiers are 64-bit words here.
- `shards`, `waiting_count`, `range_count`, `waiter_count`, `is_empty`, `is_exclusive`, `is_intention`, `start`, `end`: one-line readers.
- Shard requests above 2^63: rounding them up overflows a word, and the model starts from requests that fit.
- Which cycle is reported when there are several, and the iteration order of hash maps and holder vectors: the model takes any order and promises what holds for all of them.
- Replay.AnyTwoShardCounts: compares whether there is a deadlock and not which cycle is returned, and promises equal observations only while no `release_range` can choose between modes, because both choices depend on map and vector order.
- Draining.DrainableIffAcyclic: leaves out the instants at which a `request` holds the registry and its grant is not decided yet.
- Hierarchy.HierarchyIsSafe: says nothing about transactions in the middle of a bulk release, whose locks go shard by shard and not fine to coarse.
- Mutexes.NeverSelfDeadlocks: models which mutexes each call takes in what order, not the data under them; `Footprints` relates these to the critical sections of `Protocol`, which are atomic steps there.
- Range locks in deadlock detection, and conflicts between point and range locks: the code tracks neither.
- Fairness, wake-ups and thread parking: the manager suspends nobody. `Draining` says that a draining schedule exists, not that a scheduler finds it.
- Cost of anything but the cycle search, and the spread of hashes over small id sets.
- The derived ordering on modes, which is declaration order and not the privilege lattice.
