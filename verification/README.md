# Chord file sharing: a verified model

The repository is a peer-to-peer file directory in C++, built on the Chord
protocol of Stoica et al. (SIGCOMM 2001). This project models its ring (joining,
routing, the distributed directory) and its thread pool, and proves what they do.

* `RingArithmetic`, `Membership`: the circle of 2^m points, and the reference
  notions (successor, predecessor, finger) that know only the set of members.
* `NodeState`, `Routing`: a node as a value, and one lookup. Four grades of ring:
  `Named` is any ring of nodes; in a `Partitioned` one every interval is right, in
  a `Safe` one every first finger too, in an `Exact` one every finger.
* `Joining`: one join whose lookups and walk find what they should.
  `CompletedJoins`: a join as the program carries it out on any ring whatever.
  `SoundJoins`: where its walk ends, and when it is the former.
* `Liveness`, `LiveJoins`: which joins leave every lookup answered, of an exact ring
  and of any safe one. `CompactRings`: members within half the circle, where it comes
  to the same as leaving the ring exact.
* `GlobalDirectory`, `Runs`: the directory operations, runs of them and of joins,
  and the one map they implement. `InFlight`: lookups and adds interleaved message
  by message.
* `FileTable`, `ChordNode`: the node object with the program's handlers, updated in
  place, and proved to do what the values say, on any ring.
  `ThreadpoolProtocol`, `Threadpool`: the pool as interleaved steps, and the pool
  object.
* `Witnesses`: concrete rings on which the natural claims fail.

The table length m is a symbolic constant from 1 to 30; the program uses 16
(`src/util/config.h:11`; the comment at `src/node.cpp:218-224` says 48). A host is
named by its hash, and members' hashes are distinct. `local_start` is represented
by its point of the circle; the class shows that shifting it by a circle is
invisible.

## What turns out false, and exactly when it holds

* A node that lands immediately before a member takes itself for its successor, for
  good. A run keeps every answer right if and only if no such node ever lies on the
  arc from half a circle back to a joiner: a condition on the order of joins alone
  (`RunPartitionedIff` with `PartitionedIff`; for one join `SoundJoinIff`). The join
  that meets one completes all the same, and the joiner then answers for another
  member's hash (`BlockedJoinMisanswers`; `SecondJoinMisanswers` is such a run).
* So even a join immediately before a member leaves every answer right, wherever it
  lands, if nobody landed so before (`NextJoinIsClear`); but the ring stays safe if
  and only if nobody has (`RunSafeIff`, and `JoinSafeIff` for one join).
* A join keeps every finger exact if and only if no member sits a power of two past
  the joiner and every member the update walk misses has the joiner's predecessor
  half a circle or more ahead (`JoinExactIff`). A missed member's finger i is wrong
  exactly when the predecessor is nearer than 2^i (`MissedFingerStaleIff`).
* A lookup may go unanswered. A run answers every lookup throughout if and only if no
  joiner had a member a power of two past it and all members fit in less than half
  the circle; and the same runs are those that keep every finger exact throughout
  (`RunAnswersIff`). For one join of an exact ring: no member on a target, and the
  joiner's successor visited by the walk or shielded (`AllAnsweredIff`).
* A ring with stale fingers in which all is answered arises in a run only after some
  lookup went unanswered. `JoinLivesIff` says exactly which joins of any safe ring
  leave every lookup answered, in terms of its present lookups and of who would be
  diverted to the joiner; `JoinRepairs` is a join that puts an unanswered one right.
* A join loses exactly the directory entries filed under the joiner's hash and
  under its successor's hash (`JoinStored`).

## Model

| member | source | states |
|---|---|---|
| RingArithmetic.DistanceNumbersThePoints | src/util/util.cpp:31-55 | From any base, get_distance is a bijection from the points to 1..2^m, and hash_value_add inverts it below a full circle. |
| RingArithmetic.DistancesAddAlongArcs | src/util/util.cpp:31-39 | Distances add along an arc exactly when the middle point is met before the end; otherwise they overshoot by one circle. |
| NodeState.InitialExact | src/join.cpp:12-23 | The first node's self-pointing table and interval are exact for a ring of one. |
| NodeState.ResponsibleIffSuccessor | src/lookup.cpp:19-31 | With local_start one past the predecessor, the interval test holds exactly for the first member clockwise from the key. |
| NodeState.ResponsibilityPartitions | src/lookup.cpp:19-31 | With every interval right, each key has exactly one answering member, its successor. |
| NodeState.PartitionedIff | src/lookup.cpp:19-31 | All interval tests agree with the successor test on all keys exactly when every local_start is one past the predecessor. |
| Routing.HopsLeft | src/lookup.cpp:15 | The bound on remaining forwardings: at most m, and zero exactly at the answering node. |
| Routing.FingerTowardsKey | src/lookup.cpp:7-17 | The floor-log2 finger is the key's successor, or lies strictly before the key with under half the distance and a smaller index left; never the node itself. |
| Routing.HopProgress | src/lookup.cpp:56-63 | A non-responsible node with an exact table forwards to the answering node or makes that progress; never to itself. |
| Routing.LookupTotal | src/lookup.cpp:33-64 | In an exact ring a lookup from any node for any key ends at the key's successor within m forwardings. |
| Routing.AnswerIsSuccessor | src/lookup.cpp:33-64 | With every interval right, whoever answers is the true successor, whatever the fingers. |
| Routing.RouteUnique | src/lookup.cpp:7-17 | Start and key determine the whole course of a lookup. |
| Routing.Answerer | src/lookup.cpp:73-117 | An answered lookup has one answering node: responsible for the key, and the end of every route from its start. |
| Routing.RouteAfterHop | src/lookup.cpp:56-63 | A forwarding neither saves nor spoils a lookup, and shortens its route by exactly one node. |
| Routing.CircleNeverAnswered | src/lookup.cpp:50-63 | A request led back to a node it has passed never gets an answer. |
| Routing.SelfForwardNeverAnswered | src/lookup.cpp:50-63 | A node that forwards a key to itself never gets an answer for it. |
| Joining.PatchKeepsExact | src/join.cpp:136-149 | The patch loop turns a table exact for S into one exact for S plus the joiner. |
| Joining.PatchingIsRecomputation | src/join.cpp:136-149 | Patching for any sequence of joiners, any order, repeats included, gives the one table computed from scratch. |
| Joining.TakenTargetGivesJoiner | src/join.cpp:74-81 | A member exactly at new+2^i makes entry i the joiner, which is then not the right finger. |
| Joining.NewFingerCharacterised | src/join.cpp:66-90 | Entry i is the successor of new+2^i in the enlarged membership, except exactly where a member sits there. |
| Joining.WalkStart | src/join.cpp:95-100 | The walk starts at the successor of the point half a circle back. |
| Joining.MissedIsFar | src/join.cpp:95-105 | Only members more than half a circle behind the joiner are missed. |
| Joining.EmptyHalfIsAllVisited | src/join.cpp:95-105 | With no member in the half circle behind, the walk starts at the joiner's successor and misses nobody. |
| Joining.MissedFingerStaleIff | src/join.cpp:136-149 | A missed member's exact finger i stays right exactly when the joiner's predecessor is at least 2^i away. |
| Joining.NextOnWalk | src/join.cpp:151-154 | The patched finger 0 is the next member towards the joiner, skipping none, or the joiner exactly at its predecessor. |
| Joining.HandoverPlaces | src/join.cpp:107-123 | A key of the responsible node's interval ends at its new successor exactly when it is neither node's own hash. |
| Joining.OtherKeysStay | src/join.cpp:107-127 | Keys outside the responsible node's interval keep their successor. |
| Joining.PredecessorAfterJoin | src/join.cpp:126-127 | The joiner becomes the predecessor of its successor; no other predecessor changes. |
| Joining.FirstFingerAfterJoin | src/join.cpp:136-149 | Finger 0 of every old member is the true successor after the join, visited or not. |
| Joining.JoinSafeIff | src/join.cpp:54-289 | A join keeps a safe ring safe exactly when the joiner does not land immediately before a member. |
| Joining.JoinPartitionedIff | src/join.cpp:257-263 | A join served by the joiner's successor leaves every interval right exactly when the last node told is the joiner's predecessor. |
| Joining.MissedTableStaleIff | src/join.cpp:95-105 | A missed member's table stays exact exactly when the joiner's predecessor is half a circle or more ahead of it. |
| Joining.JoinExactIff | src/join.cpp:54-289 | The exact condition under which a join leaves an exact ring exact. |
| Joining.EmptyHalfJoinExactIff | src/join.cpp:95-105 | With the half circle behind empty, everyone is visited, and the ring stays exact exactly when the targets are free. |
| Joining.JoinAssembled | src/join.cpp:166-289 | The serving node's, the told nodes' and the joiner's parts make up the whole join. |
| CompletedJoins.WalkUnique | src/join.cpp:237-267 | Start and joiner determine every stop of the walk, on any ring. |
| CompletedJoins.WalkStep | src/join.cpp:136-159 | A stop told before, or by an earlier stop's patching, names the same next stop; so the walk over the ring being patched is the walk over the old one. |
| CompletedJoins.OutcomeOfPartitioned | src/join.cpp:54-289 | With the intervals right, a completed join is served by the true successor, sends the table of true successors and starts its walk half a circle back. |
| CompletedJoins.EarlyStopMisanswers | src/join.cpp:257-263 | If it stops anywhere else, the joiner answers for its predecessor's hash. |
| CompletedJoins.OutcomeSpread | src/join.cpp:66-149 | In every completed join, on any ring, finger i stays some member at least 2^i away. |
| SoundJoins.SoundWalk | src/join.cpp:237-267 | In a ring whose members know their successors or sit immediately before them every walk ends: at the joiner's predecessor, each member on the way visited once and no other, if no self-pointed one is on the way; else at a self-pointed one. |
| SoundJoins.SoundJoinIff | src/join.cpp:237-267 | In such a ring a join whose lookups are answered always completes, and leaves every interval right exactly when no self-pointed member lies on the arc from the walk's start to the joiner. |
| SoundJoins.ClearJoin | src/join.cpp:54-289 | If none does, the walk visits each member of the arc once and the ring left is the one the join theorems are about. |
| SoundJoins.BlockedJoin | src/join.cpp:257-263 | If one does, the walk stops short of the predecessor and the joiner answers for the predecessor's hash. |
| SoundJoins.ClearJoinKeepsSound | src/join.cpp:75-149 | A join with a clear arc leaves such a ring again; the joiner is self-pointed exactly if it landed immediately before a member, and nobody else changes in this. |
| SoundJoins.SafeJoinCompletes | src/join.cpp:29-289 | On a safe ring a join whose lookups are answered completes wherever the joiner lands, and leaves the ring the join theorems are about. |
| Liveness.TakenTargetBreaksLookup | src/join.cpp:74-81 | A member on a target is never found from the joiner. |
| Liveness.UninformedSuccessorBreaksLookup | src/join.cpp:95-105 | A missed, unshielded successor looks the joiner's hash up for ever. |
| Liveness.OtherKeysAnswered | src/lookup.cpp:33-64 | Stale fingers or not, keys the joiner does not hold are still answered from every node. |
| Liveness.JoinersKeysAnswered | src/lookup.cpp:33-64 | With an informed successor, the joiner's keys are answered from every node, even one with stale fingers. |
| Liveness.AllAnsweredIff | src/join.cpp:54-289 | The exact condition under which a join of an exact ring leaves every lookup answered. |
| LiveJoins.PathAfterJoin | src/lookup.cpp:50-63 | After a join a request goes where it went, or to the joiner exactly if some told node on its path now prefers the joiner. |
| LiveJoins.AnsweredWasSaved | src/lookup.cpp:50-63 | A member whose lookup is answered after the join had it answered before, or is led to a node that now prefers the joiner. |
| LiveJoins.OtherKeyIff | src/lookup.cpp:33-64 | The joiner's lookup of another member's key is answered exactly if it sends it to a member that has it answered and is not led back. |
| LiveJoins.JoinersKeyIff | src/lookup.cpp:33-64 | The joiner's successor finds a key of the joiner's exactly if it is diverted to the joiner, or its next hop is led to a node that is. |
| LiveJoins.JoinLivesIff | src/join.cpp:54-289 | In any safe ring, stale fingers and unanswered lookups or not: the exact condition, on the ring before, under which a join leaves every lookup answered; the ring then stays safe. |
| CompactRings.CompactJoinIff | src/join.cpp:95-105 | For members within half the circle and free targets, the joiner's successor is informed exactly if the joiner keeps them so, and every missed member is shielded exactly then. |
| CompactRings.CompactRingJoinIff | src/join.cpp:54-289 | For an exact ring with such members, the joins that leave every lookup answered and those that leave it exact are the same: free targets, and all still within half the circle. |
| GlobalDirectory.AddRefines | src/node.cpp:284-302 | An add is an add to the global map, the first one winning. |
| GlobalDirectory.DeleteRefines | src/node.cpp:304-337 | A delete is a delete by the owner from the global map, and nothing for others. |
| GlobalDirectory.GlobalMapHolds | src/node.cpp:258-337 | The global map holds an entry exactly if some operation of that owner added it, on that port, when the key was free, and no later operation is that owner's delete of it. |
| GlobalDirectory.JoinStored | src/join.cpp:107-127 | A join served by the joiner's successor changes no answer but for the entries of two hashes, which it loses. |
| GlobalDirectory.JoinLeavesNoStrays | src/join.cpp:107-127 | Entries of keys that are not members' hashes are only at their successors. |
| Runs.RunPartitionedIff | src/join.cpp:12-289 | Over any run whose operations' lookups are answered every interval is right throughout exactly when no joiner found on its arc a member that had landed immediately before another: a condition on who joined, where and in what order. |
| Runs.FinishedIsReplied | src/join.cpp:29-289 | Every run of completed operations is one whose lookups are answered, so that the condition is exact for completed runs too. |
| Runs.ClearRunIsSound | src/join.cpp:12-289 | A run that meets the condition completes all its joins; the members that take themselves for their successor are then exactly those that landed immediately before a member. |
| Runs.BlockedJoinMisanswers | src/join.cpp:257-263 | After such a run a join that breaks the condition completes all the same, and its joiner answers a lookup that is another member's. |
| Runs.RunSpread | src/join.cpp:12-289 | Every run of completed operations, walks that stop early included, keeps finger i a member at least 2^i away. |
| Runs.RunRefines | src/join.cpp:12-289 | Every run that meets the condition, joins just before a member included, refines the global map, with no entry but at its key's successor. |
| Runs.AnswersAgreeWithGlobalMap | src/lookup.cpp:33-86 | After such a run an answered lookup names the true successor and reports the global map's entry. |
| Runs.RunStoresForgetfulMap | src/join.cpp:107-127 | For all keys, members' hashes included, such a run stores the global map that forgets two hashes at each join. |
| Runs.ForgetfulMapHolds | src/node.cpp:258-337 | The forgetful map holds an entry exactly if some operation of that owner added it, on that port, when the key was free, and no later one is that owner's delete of it or a join that loses it. |
| Runs.RunSafeIff | src/join.cpp:12-289 | Such a run leaves every finger 0 the true successor exactly when no joiner landed immediately before a member. |
| Runs.NextJoinIsClear | src/join.cpp:12-289 | While none has, the next join may land anywhere, just before a member too, and every answer stays right. |
| Runs.SensibleFinishes | src/join.cpp:29-105 | In a safe ring that answers every lookup an operation completes exactly if a member asks for something possible, and a join leaves the ring the join theorems are about. |
| Runs.RunAnswersIff | src/lookup.cpp:33-64 | Over any run every lookup, from every node and for every key, is answered throughout exactly when no joiner had a member a power of two past it and all members fit in less than half the circle; every finger is right throughout in exactly the same runs. |
| Runs.CompactRunIsExact | src/join.cpp:12-289 | Such a run carries out every operation asked for, nobody lands immediately before a member, and the ring it leaves is exact. |
| Runs.EveryNodeReportsGlobalMap | src/lookup.cpp:33-86 | After such a run every node's lookup is answered, within m hops, with the global map's entry. |
| InFlight.ForwardInv | src/lookup.cpp:56-63 | A forwarding, on any fingers, keeps the invariant and is counted against the length of the lookup's route. |
| InFlight.AnswerInv | src/lookup.cpp:33-55 | The answering step adds one reply, to the source, with the global map's entry at that moment. |
| InFlight.InsertInv | src/node.cpp:276-302 | The arrival of an insert gives its key, if it is free, the host that asked for the add and the port it gave, at the node and in the global map alike, and changes nothing else; the insert is gone. |
| InFlight.StepRecorded | src/lookup.cpp:33-55 | Each step keeps the record true: requests in the order of issue, each reply tied to the delivery that made it, and one map per step, which differs from the last only where an insert of a free key arrives, by the entry its adder asked for. |
| InFlight.IssuedByOrder | src/lookup.cpp:73-117 | Each issue makes the request with the next number, with its own source, key and port. |
| InFlight.EveryRun | src/lookup.cpp:33-64 | With every interval right and any fingers, in any interleaving each lookup is in flight or has exactly one reply; the reply was made by a delivery of that lookup, after its issue, and tells the global map's entry of the state of that very step; owners never change; a lookup is delivered exactly as often as it is forwarded or, once answered, as its route has nodes; and an answered add has exactly one insert, on its way or delivered, and nothing else has any. |
| InFlight.RepliedIff | src/lookup.cpp:33-64 | A lookup that has a route has its reply exactly once it has been delivered to each node of it; one that has none is never answered. |
| InFlight.ExactDeliveries | src/lookup.cpp:33-64 | With exact tables no lookup is delivered more than m+1 times. |
| InFlight.SettledAddIsStored | src/node.cpp:258-302 | In any run an add that is no longer on its way, neither as a lookup nor as an insert, has its key stored. |
| InFlight.CanBeSettled | src/lookup.cpp:33-64 | From any state of any run each request that has a route can be brought to its reply and, if it is an add, to a stored key, by delivering its own messages alone. |
| InFlight.ClearRunIsBase | src/join.cpp:12-289 | The ring left by any run that meets the condition on joins is one on which this traffic theorem holds, with the map that forgets two hashes at each join. |
| ChordNode.ChordNode.constructor | src/node.cpp:8-13 | A new node has an empty directory and no file names. |
| ChordNode.ChordNode.InitialChord | src/join.cpp:12-23 | The loop and the assignment give the ring-of-one node. |
| ChordNode.ChordNode.IsResponsibleTo | src/lookup.cpp:19-31 | The shifted comparison is the arc test, and the shift leaves the point local_start stands for, so every later answer, unchanged. |
| ChordNode.ChordNode.GetNextHopInfo | src/lookup.cpp:7-17 | The finger at the floor of log2 of the distance; the node itself for its own hash. |
| ChordNode.ChordNode.LookupReqHandle | src/lookup.cpp:33-64 | One delivery: a reply with the directory's entry or its absence, or a forwarding. |
| ChordNode.ChordNode.Lookup | src/lookup.cpp:73-117 | On any ring an answered lookup changes nothing visible and returns the node at the end of its route and that node's entry. |
| ChordNode.ChordNode.LookupSuccessor | src/lookup.cpp:66-71 | On any ring it returns the answering node, and with the intervals right the key's true successor. |
| ChordNode.ChordNode.JoinReqHandle | src/join.cpp:29-47 | The entry node finds the node that answers for the joiner's hash. |
| ChordNode.ChordNode.RouteEntry | src/join.cpp:69-81 | One entry of the joiner's table, by lookup and comparison, on any ring. |
| ChordNode.ChordNode.BuildRouteTable | src/join.cpp:66-93 | The whole table sent to the joiner, on any ring. |
| ChordNode.ChordNode.HandOverFiles | src/join.cpp:107-123 | In any iteration order the loop splits the old table, no entry lost, doubled or reowned, into exactly what is sent and what is kept. |
| ChordNode.ChordNode.HelpJoinReqHandle | src/join.cpp:54-129 | What the joiner is sent, and the serving node's new interval and directory; nothing else changes; on any ring. |
| ChordNode.ChordNode.AskToJoin | src/join.cpp:29-129 | By way of the entry node the joiner gets the table, the start of the walk and the files, and the serving node alone has changed. |
| ChordNode.ChordNode.HandleUpdateRouteReq | src/join.cpp:136-159 | The in-place loop patches every entry and names the patched finger 0. |
| ChordNode.ChordNode.UpdatePredecessors | src/join.cpp:232-268 | On any ring the loop takes the walk there is, tells exactly its stops, and returns the last. |
| ChordNode.ChordNode.ReceiveFiles | src/join.cpp:280-285 | The received entries are inserted without overwriting. |
| ChordNode.ChordNode.TakeTable | src/join.cpp:211-217 | The loop over the received entries sets the finger table, and the net is not touched. |
| ChordNode.ChordNode.JoinChord | src/join.cpp:166-289 | On any ring, a join that completes leaves in the live nodes exactly the ring that the join theorems speak of, and that a run makes of a join. |
| ChordNode.ChordNode.AddFile | src/node.cpp:258-282 | If the file is in the own shared folder its name is noted, and the file is entered, in the adder's name, at the node that answers for it, unless that one refuses; an adder that answers for it itself never does. Otherwise nothing changes. Every node's names afterwards are stated, and an accepted add is what a run makes of it. |
| ChordNode.ChordNode.AddFileReqHandle | src/node.cpp:284-302 | The name its own table has for the hash, an empty one entered if need be, is looked for on its own disk; if it is there the first add of a key wins, and if not the program ends. |
| ChordNode.ChordNode.DeleteFile | src/node.cpp:304-325 | Deletes exactly an existing entry of its own, with the file's name, and reports the other two cases; a delete of an existing key is what a run makes of it. |
| ChordNode.ChordNode.DelFileReqHandle | src/node.cpp:327-337 | Erases the entry, or reports that it is not there. |
| ThreadpoolProtocol.StartInv | src/util/threadpool.cpp:8-16 | The constructed pool satisfies the invariant, with any number of workers, none included. |
| ThreadpoolProtocol.WorkKeepsPlaces | src/util/threadpool.cpp:22-41 | A worker's step keeps mutual exclusion and what each position says of queue and shutdown. |
| ThreadpoolProtocol.WorkKeepsOnce | src/util/threadpool.cpp:36-39 | A worker's step keeps every dequeued task run once or being run for the first time. |
| ThreadpoolProtocol.AssignInv | src/util/threadpool.cpp:50-63 | Accepting with one notification loses no wakeup. |
| ThreadpoolProtocol.NotifyAllInv | src/util/threadpool.cpp:70 | Notifying all leaves nobody asleep, and the pool draining. |
| ThreadpoolProtocol.StepsTell | src/util/threadpool.cpp:50-75 | In every run the accepted tasks are those submitted while there was room, in order, and the phase is what the destructor's steps so far make it. |
| ThreadpoolProtocol.NoLostWakeup | src/util/threadpool.cpp:22-63 | In every reachable state of a pool with workers queued tasks have an awake worker and someone who can move; in any pool nobody left early, the bound holds, and the tasks submitted while there was room are those dequeued and then those queued, in order. |
| ThreadpoolProtocol.ExactlyOnce | src/util/threadpool.cpp:22-75 | When the destructor returns, every dequeued task has run exactly once, and all tasks submitted while there was room have been dequeued, in order, exactly if there was a worker or nothing to do. |
| ThreadpoolProtocol.WorkDecreases | src/util/threadpool.cpp:22-41 | Every step of a worker, before shutdown as after it, leaves strictly less work. |
| ThreadpoolProtocol.WorkersComeToRest | src/util/threadpool.cpp:22-41 | From any reachable state the workers, left to themselves, stop within as many steps as there is work, and then every accepted task has run exactly once; all sleep if the pool is open, and are gone if it drains. |
| ThreadpoolProtocol.DrainingNeverStuck | src/util/threadpool.cpp:22-41 | After notify_all some worker can move until all have exited. |
| ThreadpoolProtocol.HolderMoves | src/util/threadpool.cpp:22-41 | The worker that holds the lock can always move, and comes nearer to letting go of it. |
| ThreadpoolProtocol.ShutdownEnds | src/util/threadpool.cpp:65-75 | Every run after notify_all is bounded, and one that cannot go on has all workers exited. |
| ThreadpoolProtocol.CanBeDestroyed | src/util/threadpool.cpp:65-75 | Every run of an open pool can be continued, with no further submission, to one in which the destructor has notified and all workers have exited. |
| Threadpool.Threadpool.constructor | src/util/threadpool.cpp:8-16 | Starts all workers at the head of run_task with an empty queue. |
| Threadpool.Threadpool.RunTask | src/util/threadpool.cpp:22-41 | One step of run_task from each position. |
| Threadpool.Threadpool.AssignTask | src/util/threadpool.cpp:50-63 | Accepts exactly when there is room; the task is then the last in the queue and one sleeping worker, if there is any, is woken; nothing else changes. |
| Threadpool.Threadpool.NotifyAllWaiting | src/util/threadpool.cpp:70 | Wakes every sleeping worker. |
| Threadpool.Threadpool.Destroy | src/util/threadpool.cpp:65-75 | Begun in any reachable state, a worker holding the lock or not, the destructor returns under every scheduling, the queue empty and every accepted task run exactly once; without workers none has run. |
| Witnesses.OppositeNodesLoop | src/join.cpp:75-81 | Two nodes at opposite points: the second never finds the first one's hash. |
| Witnesses.LandingJustBeforeIsUnsafe | src/join.cpp:75-81 | A node landing immediately before a member takes itself for its successor. |
| Witnesses.MissedNodeLoops | src/join.cpp:95-105 | Members 1 and 3 and a joiner at 2^(m-1)+2: node 1 is missed and looks the joiner up for ever. |
| Witnesses.JoinRepairs | src/join.cpp:66-149 | Nodes 0 and 12, then 9 (when m is 4): node 12 never gets an answer for key 0 until 9 joins; then every lookup is answered, through a wrong finger. |
| Witnesses.SecondJoinMisanswers | src/join.cpp:257-263 | Node 0, then the last point of the circle, then 5: after the first join every answer is right, after the second node 5 answers for key 0. |
| Witnesses.JoinersHashIsLost | src/join.cpp:112 | A file whose hash is the joiner's stays behind and is not found again. |
| Witnesses.OwnHashIsLost | src/join.cpp:112 | A file whose hash is the old node's is moved away and is not found again. |

## Left out

- ChordNode.ChordNode.Lookup: covers lookups that are answered, because an unanswered one never returns in the program; `Liveness`, `LiveJoins` and `Runs` say which those are.
- ChordNode.ChordNode.JoinChord: covers joins that complete, because another never returns in the program (in every run that keeps answers right, and one join further, joins whose lookups are answered complete: `SoundJoinIff`); one join at a time, each handler atomic; overlapping joins, data races between detached handler threads and node failure are not modelled.
- ChordNode.ChordNode.AddFile: what is in the shared folders is a parameter and does not change during the call; a refusing receiver ends, and what becomes of a ring with a dead node is not modelled. Runs have only accepted adds.
- ChordNode.ChordNode.constructor: the program leaves local_start unset until a ring is started or joined; here it is 0.
- ChordNode.ChordNode.DeleteFile: where the program exits because the file is unknown, the result says so and the ring stays; runs in `Runs` delete only keys that are found.
- InFlight.EveryRun: deletes and joins do not run concurrently with lookups, and a reply and the insert it triggers appear in one step, since the originator reads no shared state in between.
- Threadpool.Threadpool.AssignTask: no submission after destruction begins, as the language requires of any use of a destroyed object.
- Threadpool.Threadpool.Destroy: the final clearing of the thread vector is not shown, and the wait for the lock is not starved for ever by workers that take it in turn.
- Threadpool.Threadpool.RunTask: the unlocked read of the flag and the queue in the loop test is one atomic step.
- Sockets, ports, streams, message framing, generated message code, downloads, the terminal menu and request dispatch: input and output without protocol decisions of their own.
- get_hash and SHA-1: hashes are arbitrary points, distinct for members.
- Floating-point pow and log2: integer powers and the integer logarithm, which agree on the ranges used.
- Wrong message types: messages are typed, so the exit paths for them do not arise.
