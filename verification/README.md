# A verified model of a small Dynamo store

The store keeps key-value pairs on nodes placed on a consistent-hashing ring. A manager admits nodes,
removes them and tells clients which node to ask; nodes replicate writes under vector clocks, count
answers against a read and a write quorum, and keep hints for nodes that are down. This project models
the ring, the membership protocol, one replica, the quorum loops, the conflict filter and hinted
handoff, and proves what each of them keeps over every run.

## How it is laid out

| file | content |
|---|---|
| `Naming.dfy`, `Sequences.dfy` | decimal numerals, virtual names, facts about sequences |
| `RingSpec.dfy`, `Routing.dfy` | the ring as values: sorted insertion, removal, search, preference list |
| `RingHeap.dfy`, `HeapLaws.dfy` | the ring as linked objects, proved to refine the values; its runs |
| `History.dfy`, `Preference.dfy` | laws of the ring over histories, laws of the preference list |
| `Disruption.dfy`, `Joins.dfy` | what a join leaves alone, which keys it disturbs, which moves its notices leave out |
| `Backup.dfy` | the backup file: printer, parser, round trip |
| `Membership.dfy`, `Servers.dfy` | the protocol between manager and nodes, and the handlers on the heap |
| `VectorClock.dfy`, `Replica.dfy`, `Overlaps.dfy` | clocks, one replica, its deliveries one by one and interleaved |
| `Conflicts.dfy`, `Quorum.dfy` | the read filter, the two collection loops |
| `KeyHistories.dfy`, `ReadAfterWrite.dfy` | one key at all nodes over time; what a read finds, receives and answers after a write |
| `EndToEnd.dfy` | ring, membership and quorums together |
| `HintBucket.dfy`, `HintRuns.dfy`, `HintWalk.dfy` | the hint bucket and its handler, a hint holder over time, the walk that looks for a hint holder |

The hash is a field of `Config`, an arbitrary function from strings to naturals, so every statement
holds for every hash function. Where a statement needs different virtual names to have different
hashes it says so (`HashesApart`), and only for the names on the list in question. Ids and clock ticks
are 64-bit: subtracting 3000 from a port and bumping a tick wrap around. What the network, the map
iteration order and the deadline may do is a parameter of the operation concerned.

Each imperative part is a class or a method that works as the program does, and its contract equates
the new state with a function of the old one (`RingSpec.AddNode`, `Routing.PreferenceList`,
`Replica.Deliver`, `Conflicts.Kept`, `HintBucket.ScanEntries`, ...). What the program promises is then
proved about these functions.

## Where the code falls short of its intent

The model follows the code. Each of these is stated as an exact condition, or with an input that shows it.

- The coordinator search answers one node early for hashes above the tail's
  (`History.SearchMeetsExpectationIff`), and a join can move such a key to a node that did not join:
  `Joins.JoinDisturbsIff` says for which hashes of the newcomer, `Joins.SingleNodeDisturbs` gives an instance.
- The notices of a join leave some moves out, of keys at or below the head's hash and above the tail's
  (`Joins.JoinUnannouncedIff`); the moves of all other keys are announced
  (`Disruption.AddNodeAnnouncesMoves`).
- A ring restored from a backup cannot forget a node again (`Backup.ImportedRingIsStuck`).
- The conflict filter keeps the first replica received, not the newest (`Conflicts.ChainKeepsFirst`): which
  received versions are lost to the reader is `Conflicts.LostIff`. It can drop a real conflict
  (`Conflicts.ConflictCanBeLost`).
- A write that carries no clock, as in the documented request body, is acknowledged and dropped when the
  key exists (`Replica.BlindWriteIsDroppedIff`).
- A stored clock goes down when a bump wraps a stored tick (`Replica.AcceptKeepsClockIff`,
  `Replica.ClockMonotoneIff`), a delivery is then not always suppressed as a duplicate later
  (`Replica.AcceptAbsorbsIff`), and a first write discards the clock it was sent with
  (`Replica.FirstWriteDiscardsClock`).
- A delivery reads in one transaction and writes in another, so that two for one object can overlap at a node
  (`Overlaps.OverlapRun`), and the later write replaces what the earlier one has acknowledged. The clock does
  not go down exactly under `Overlaps.OverlapKeepsIff`, in whole runs under `Overlaps.InterleavedMonotoneIff`.
  Different senders lose a write as a rule (`Overlaps.OverlappingDeliveriesLoseWrite`,
  `Overlaps.OverlappingFirstWritesLoseOne`); one sender with equal clocks loses a value without a trace
  (`Overlaps.OverlappingSameSender`).
- A hint is lost when two handlers append at once (`HintRuns.OverlappingHandlersLoseHint`) and when it arrives
  between a scan and the deletion of its target's entry (`HintRuns.LateHintIsLost`); what exactly keeps
  every hint accounted for is `HintRuns.HintConservationIff`. One hint that its target's store refuses
  brings the holder down at every scan in which the target answers, for good (`HintBucket.ScanOutcome`,
  `HintRuns.RefusedHintIsFatal`).
- A read can answer "not found" on fewer replies than MIN_READS about a key that other listed nodes hold:
  exactly when (`ReadAfterWrite.NotFoundTooEarlyIff`, `ReadAfterWrite.NotFoundIff`), and one reply that suffices
  (`ReadAfterWrite.NotFoundWithTooFewAnswers`).
- A read that receives an acknowledged write need not return it: it answers "insufficient" if some replies were
  empty, and with an old version alone, without conflict, if that came first (`ReadAfterWrite.StaleRead`).
  It is sure to return the write if and only if every listed node has acknowledged it, whatever MIN_READS is
  (`ReadAfterWrite.ReadReturnsWriteIff`, and `ReadAfterWrite.HeldReadReturnsWriteIff` where all nodes had
  the key before).

What does hold across all parts: with the rule the configuration documents, that the replication factor is
below MIN_WRITES + MIN_READS, a read gathering its answers, whichever registered nodes coordinate write and
read, never reports the key absent, and receives the acknowledged write among its replicas unless a stored
clock has gone down (`EndToEnd.ReadSeesWriteAnywhere`); without the rule it may not
(`ReadAfterWrite.QuorumsAlwaysMeetIff`). Across a join that leaves the key's coordinator in place, one more
answer is enough (`EndToEnd.ReadAcrossJoin`).

## Model

| member | source | states |
|---|---|---|
| `Naming.ParseInvertsDecimal` | pkg/consistenthashing/consistenthashing.go:286-289 | parsing a printed id gives it back, and is an error exactly for numbers beyond 64 bits |
| `Naming.OwnerOfVirtualName` | internal/nodes/repserver.go:347-348 | cutting a virtual name at its last underscore gives exactly the name it was built from, underscores in the name included |
| `Naming.VirtualNameInjective` | pkg/consistenthashing/consistenthashing.go:100 | different names or indices give different virtual names |
| `Naming.IndexOfVirtualName` | pkg/consistenthashing/consistenthashing.go:100 | behind the last underscore of a virtual name stands its index |
| `Naming.ParseUintRejects` | pkg/consistenthashing/consistenthashing.go:286-289 | a text is an error exactly if it is empty, holds anything but digits, or is beyond 64 bits |
| `RingHeap.DoublyLinkedList.Seek` | pkg/consistenthashing/consistenthashing.go:108-115 | the cursor loop stops at the first hash that is not smaller, or at the tail |
| `RingHeap.DoublyLinkedList.LinkFirst` | pkg/consistenthashing/consistenthashing.go:104-106 | the first node becomes the head |
| `RingHeap.DoublyLinkedList.LinkHead` | pkg/consistenthashing/consistenthashing.go:117-121 | linking in front of the head keeps the chain and puts the node first |
| `RingHeap.DoublyLinkedList.LinkAfter` | pkg/consistenthashing/consistenthashing.go:122-142 | linking behind a node, the head or the tail, keeps the chain and puts it right behind |
| `RingHeap.DoublyLinkedList.LinkBefore` | pkg/consistenthashing/consistenthashing.go:132-137 | linking in front of an inner node keeps the chain and puts it right in front |
| `RingHeap.DoublyLinkedList.Insert` | pkg/consistenthashing/consistenthashing.go:103-144 | after the pointer surgery of every branch the list is linked both ways and is the old one with the node spliced in at its place |
| `RingHeap.DoublyLinkedList.Unlink` | pkg/consistenthashing/consistenthashing.go:247-255 | after the pointer surgery the list is linked both ways and is the old one without the node |
| `RingHeap.DoublyLinkedList.TailFrom` | pkg/consistenthashing/consistenthashing.go:152-157 | following the links from any node ends at the tail |
| `RingHeap.DoublyLinkedList.Clockwise` | pkg/consistenthashing/consistenthashing.go:205-209 | one step clockwise, from the tail to the head |
| `RingHeap.DoublyLinkedList.Append` | pkg/consistenthashing/consistenthashing.go:305-316 | linking behind the last node read keeps the chain and puts the node last |
| `RingHeap.LinkedApart` | pkg/consistenthashing/consistenthashing.go:31-37 | a list whose links are mutual inverses is acyclic |
| `RingHeap.Ring.constructor` | pkg/consistenthashing/consistenthashing.go:54-61 | a new ring is empty and valid |
| `RingHeap.Ring.LinkVirtualNodes` | pkg/consistenthashing/consistenthashing.go:95-145 | the i-th new node carries the i-th virtual name, the given id and that name's hash; all are linked in at their places, the old nodes keep their order |
| `RingHeap.Ring.CollectNotices` | pkg/consistenthashing/consistenthashing.go:149-169 | the notices' new nodes are, in order and each once, exactly the new virtual nodes whose cyclic predecessor has another id; each notice goes to that predecessor |
| `RingHeap.Ring.AddNode` | pkg/consistenthashing/consistenthashing.go:94-172 | for any name, fresh or not: new list, name map and the numbered new nodes, as functions of the old ring; on a ring that was not empty the notices are exactly those, in order and each once |
| `RingHeap.NoticesAreNotified` | pkg/consistenthashing/consistenthashing.go:150-168 | the notices' new nodes are in order, and each once, exactly the new nodes whose cyclic predecessor has another id |
| `Sequences.PredecessorAt` | pkg/consistenthashing/consistenthashing.go:151-160 | the cyclic predecessor is the node in front, and the tail for the head |
| `RingHeap.Ring.RemoveNode` | pkg/consistenthashing/consistenthashing.go:241-258 | unlinks exactly the named entry's nodes and deletes the entry; an unknown name changes nothing |
| `RingHeap.Ring.UnlinkAll` | pkg/consistenthashing/consistenthashing.go:246-256 | unlinking an entry's nodes one by one leaves the rest of the list in order |
| `RingHeap.Ring.SearchKey` | pkg/consistenthashing/consistenthashing.go:175-193 | returns the node at the cyclic search position |
| `RingHeap.Ring.GetPreferenceList` | pkg/consistenthashing/consistenthashing.go:196-225 | ends within one lap in spite of the stepped-back counter; the list is the coordinator and then the first node of each further id met clockwise, as long as the replication factor or, if fewer names are registered, as many as those, and never empty |
| `RingHeap.Ring.HasId` | pkg/consistenthashing/consistenthashing.go:210-216 | the inner scan finds an id exactly when some node listed has it |
| `RingHeap.Ring.IsNodeResponsibleForKey` | pkg/consistenthashing/consistenthashing.go:229-237 | true if and only if some entry of the preference list has the id |
| `RingHeap.Ring.PrintNameMap` | pkg/consistenthashing/consistenthashing.go:338-340 | one line per name, each once, in some order |
| `RingHeap.Ring.PrintNodes` | pkg/consistenthashing/consistenthashing.go:343-348 | one line per virtual node in list order, the tail's included |
| `RingHeap.Ring.BackupRing` | pkg/consistenthashing/consistenthashing.go:331-350 | the printed text, for some order of the name map |
| `RingHeap.Ring.ImportNames` | pkg/consistenthashing/consistenthashing.go:278-292 | the first section as the text determines it, with its error and panic cases |
| `RingHeap.Ring.LinkEntry` | pkg/consistenthashing/consistenthashing.go:305-316 | one line of the second section becomes a new node behind the last one read |
| `RingHeap.Ring.ImportNodes` | pkg/consistenthashing/consistenthashing.go:294-317 | the second section as the text determines it, linked both ways |
| `RingHeap.Ring.ImportRing` | pkg/consistenthashing/consistenthashing.go:270-319 | the imported ring is valid and is what the text says, or the outcome is the text's error |
| `HeapLaws.Replay` | pkg/consistenthashing/consistenthashing.go:94-146 | every run of fresh-name additions and removals on the heap keeps the list acyclic, mutually linked, sorted, counted, divided among the names, and ends in the ring its history determines |
| `HeapLaws.WellFormedPartitions` | pkg/consistenthashing/consistenthashing.go:16-29 | the name map's entries divide the list's nodes among them |
| `HeapLaws.AddThenRemove` | pkg/consistenthashing/consistenthashing.go:241-258 | removing a freshly added name restores the same nodes, head, length and name map, on any ring |
| `HeapLaws.NoticesRefine` | pkg/consistenthashing/consistenthashing.go:148-171 | the notices returned on the heap are those of the value level |
| `RingSpec.AddNodeWellFormed` | pkg/consistenthashing/consistenthashing.go:94-146 | a fresh-name addition keeps the ring sorted, without duplicates, and exactly the registered names' virtual nodes |
| `RingSpec.RemoveNodeWellFormed` | pkg/consistenthashing/consistenthashing.go:241-258 | a removal keeps the same invariant |
| `RingSpec.RemoveUndoesAdd` | pkg/consistenthashing/consistenthashing.go:94-146 | removal after a fresh addition is the identity on rings, hash ties included |
| `History.RunWellFormed` | pkg/consistenthashing/consistenthashing.go:94-146 | the invariant holds after every history |
| `History.AddKeepsWellFormedIffFresh` | pkg/consistenthashing/consistenthashing.go:90-94 | an addition keeps the invariant if and only if the name is not registered |
| `History.SameNamesSameOrder` | pkg/consistenthashing/consistenthashing.go:108-143 | two invariant rings over the same names list the same virtual names and hashes in the same order, whatever the ids |
| `History.CanonicalForm` | pkg/consistenthashing/consistenthashing.go:94-146 | two histories that end in the same membership end in the same ring, if the final members' hashes do not collide |
| `History.CollisionRemembersHistory` | pkg/consistenthashing/consistenthashing.go:116-143 | with colliding hashes the order of arrival shows in the list |
| `History.SearchFindsArc` | pkg/consistenthashing/consistenthashing.go:175-193 | the exact arc of hashes each position answers for; the arcs partition all hashes |
| `History.SearchMeetsExpectationIff` | pkg/consistenthashing/consistenthashing_test.go:311-323 | the search meets the test suite's expectation if and only if the hash is at most the tail's or the list is a single node |
| `Preference.PreferenceListIsFirstOccurrences` | pkg/consistenthashing/consistenthashing.go:196-225 | the list is the coordinator and then the first node of each further id met clockwise; every skipped node's id is already listed |
| `Preference.WalkFillsIff` | pkg/consistenthashing/consistenthashing.go:204-223 | the loop can collect its number of ids if and only if the list has as many ids; otherwise it runs for ever |
| `Preference.WellFormedHasEnoughIds` | pkg/consistenthashing/consistenthashing.go:200-203 | on an invariant ring with one name per id it always has |
| `Preference.PreferenceLength` | pkg/consistenthashing/consistenthashing.go:200-204 | on every ring the list has the smaller of the replication factor and the number of names as its length, and at least one entry |
| `Preference.PreferenceLengthOnRing` | pkg/consistenthashing/consistenthashing.go:200-204 | on an invariant ring with one name per id and a positive replication factor: all ids if they are at most as many, otherwise the replication factor |
| `Preference.ResponsibleIff` | pkg/consistenthashing/consistenthashing.go:229-237 | a node answers for a key if and only if its id stands at some place of the key's list |
| `Preference.ReplicaSetStability` | pkg/consistenthashing/consistenthashing.go:196-225 | if a join leaves the coordinator in place, the new list without the newcomer is a prefix of the old one |
| `Joins.JoinDisturbsIff` | pkg/consistenthashing/consistenthashing.go:175-193 | a join of a fresh name takes a key to a virtual node that is neither its old coordinator nor new if and only if the key is above the old tail's hash, there were two nodes, and behind the tail come nodes at or beyond the key and none short of it, or exactly one short of it and none beyond |
| `Joins.SingleNodeDisturbs` | pkg/consistenthashing/consistenthashing.go:148-193 | with one virtual node per name, any newcomer whose hash is at or beyond a key above the tail's moves that key to the old tail, and no notice says so |
| `Disruption.ExpectedSearchIsUndisturbed` | pkg/consistenthashing/consistenthashing_test.go:311-323 | with the search the test suite expects this holds for every key |
| `Joins.JoinUnannouncedIff` | pkg/consistenthashing/consistenthashing.go:148-171 | a join of a fresh name and id changes a key's coordinator without a notice that applies to the key if and only if the key is at most the head's hash and all that joins behind the tail is beyond the key, or the key is above the tail's and something joins behind the tail but nothing between the tail and the node in front of it |
| `Disruption.NoticeListedIff` | pkg/consistenthashing/consistenthashing.go:150-168 | a notice is returned if and only if it goes from a new virtual node's cyclic predecessor to it and their ids differ |
| `Disruption.NoticesInOrder` | pkg/consistenthashing/consistenthashing.go:150-168 | on values, too, the notices are in order, and each once, for exactly these nodes |
| `Disruption.AddNodeAnnouncesMoves` | pkg/consistenthashing/consistenthashing.go:148-171 | for such keys and a fresh name and id, AddNode moves the coordinator at most to the new id and returns a notice from the old coordinator whose new hash is at most the key's |
| `Backup.BackupRoundTrip` | pkg/consistenthashing/consistenthashing.go:270-350 | for every order of the name map, importing the printed text gives back the list and every name's id |
| `Backup.CarriageReturnGoes` | pkg/consistenthashing/consistenthashing.go:276-279 | a carriage return in front of the newline is not part of the line |
| `Backup.FieldsOfLine` | pkg/consistenthashing/consistenthashing.go:284-289 | a line's name is what stands in front of its first comma, its id the number up to the second, if there is one |
| `Backup.NoCommaPanics` | pkg/consistenthashing/consistenthashing.go:284-286 | a line panics if and only if it has no comma |
| `Backup.NamesFail` | pkg/consistenthashing/consistenthashing.go:278-292 | the first section ends the import with the error or panic of its first bad line |
| `Backup.ListFails` | pkg/consistenthashing/consistenthashing.go:294-303 | so does the second |
| `Backup.ListReads` | pkg/consistenthashing/consistenthashing.go:294-317 | a second section without a bad line is read whole, one virtual node per line, in order and with fresh hashes |
| `Backup.ImportPreservesAnswers` | pkg/consistenthashing/consistenthashing.go:270-319 | the restored ring answers every key with the same preference list |
| `Backup.ImportedRingIsStuck` | pkg/consistenthashing/consistenthashing.go:313-314 | the restored entries are empty, so removing a name leaves the list as it is, and the invariant holds only for an empty list |
| `Servers.FindId` | cmd/nodemanager/main.go:82-90 | the scan finds an id exactly when some entry has it |
| `Servers.RangeIds` | cmd/nodemanager/main.go:95-116 | a range over the name map visits every registered id once, in some order |
| `Servers.NodeManager.AddNodeReq` | cmd/nodemanager/main.go:69-130 | refuses a known id; otherwise tells every registered node once, replies with the same list and adds the newcomer |
| `Servers.NodeManager.DelNodeReq` | cmd/nodemanager/main.go:132-193 | refuses an unknown id; otherwise unlinks exactly the named entry's nodes, deletes the entry and tells every remaining node, unless the list is empty |
| `Servers.NodeManager.GetKey` | cmd/nodemanager/main.go:213-242 | hands out the first id of the preference list, or the error for an empty key |
| `Servers.NodesServer.constructor` | cmd/node/main.go:33-49 | a node without backup file starts with a ring of just itself |
| `Servers.NodesServer.RegisterNode` | cmd/node/main.go:52-78 | adds every node of the manager's reply in order |
| `Servers.NodesServer.UpdateAddNode` | internal/nodes/nodes.go:190-220 | refuses if and only if the one entry it looks at is the newcomer, and then leaves list and map alone; otherwise adds it |
| `Servers.NodesServer.UpdateDelNode` | internal/nodes/nodes.go:234-262 | refuses an unknown id; otherwise unlinks exactly the named entry's nodes and deletes the entry |
| `Servers.NodesServer.HandlesKey` | internal/nodes/nodes.go:73-76 | the check in front of a read or write: true if and only if some entry of the node's preference list has its gRPC port |
| `Membership.GrpcPortInjective` | internal/nodes/nodes.go:199 | the shift by 3000 confuses no two ports, wrap-around included |
| `Membership.JoinAgrees` | cmd/nodemanager/main.go:93-124 | a completed join keeps all registered rings in agreement, in whatever order nodes are told and whichever entry each looks at |
| `Membership.JoinerTracks` | cmd/node/main.go:42-78 | the ring the newcomer builds agrees with the manager's |
| `Membership.JoinerIsRun` | cmd/node/main.go:42-78 | the newcomer's ring is the run that adds itself first and then the nodes of the reply in order, ids shifted |
| `Membership.LeaveAgrees` | cmd/nodemanager/main.go:151-184 | a completed leave keeps them in agreement |
| `Membership.RunAgrees` | cmd/nodemanager/main.go:69-193 | so does every run |
| `Membership.MembershipConvergence` | internal/nodes/nodes.go:190-262 | in every reachable state every registered node knows the manager's names and has the manager's list with the ids shifted, if the current members' hashes do not collide |
| `Membership.AgreeingPreference` | pkg/consistenthashing/consistenthashing.go:196-225 | manager and nodes give every key the same preference list, ids shifted, and none of their loops hangs |
| `Membership.RoutingAgreement` | internal/nodes/nodes.go:126-129 | in every reachable state the node the manager names for a key accepts it |
| `Membership.AcceptingNodes` | internal/nodes/nodes.go:126-129 | in every reachable state the registered nodes that accept a key are exactly those whose shifted port is on the manager's list for it, as many as the list is long; every other registered node refuses |
| `Membership.CollidingNodesDisagree` | cmd/node/main.go:68-73 | with colliding hashes two joins suffice for a node not to follow the manager |
| `VectorClock.ExactlyOneComparison` | pkg/vectorclock/vectorclock.go:20-50 | exactly one of equal, ancestor, descendant, concurrent holds; ancestor and descendant mirror each other |
| `VectorClock.MergeIsLeastUpperBound` | pkg/vectorclock/vectorclock.go:52-60 | the merge is the least clock above both |
| `VectorClock.BumpGoesUpIff` | pkg/vectorclock/vectorclock.go:7-18 | a bump goes strictly up if and only if the tick does not wrap |
| `Replica.ReplicaServer.DoGetReplica` | internal/nodes/repclient.go:20-32 | found, key missing or bucket missing, as stored |
| `Replica.ReplicaServer.ReadForPut` | internal/nodes/repclient.go:35-52 | the bucket is there afterwards, or its name is empty; what is stored so far is read |
| `Replica.ReplicaServer.WriteFor` | internal/nodes/repclient.go:54-81 | writes on the strength of what was read, whatever has been written since; fails exactly for what the store refuses |
| `Replica.ReplicaServer.DoPutReplica` | internal/nodes/repclient.go:34-82 | both, run alone: fails exactly for an empty bucket name and for an empty or oversized key; otherwise the whole new store |
| `Replica.ReplicaServer.PutMultiple` | internal/nodes/repclient.go:120-132 | applies the stream in order up to the first object refused, and reports done if and only if all arrived and none was refused |
| `Replica.DeliverLookup` | internal/nodes/repclient.go:34-82 | a delivery touches the object it names and nothing else |
| `Replica.AcceptTakes` | internal/nodes/repclient.go:54-81 | what a delivery leaves is the stored object if the delivery's clock is an ancestor of it, and otherwise the delivered key and value under another clock |
| `Replica.AcceptKeepsClockIff` | internal/nodes/repclient.go:60-68 | a delivery keeps the stored clock from going down if and only if it does not wrap a tick that was there |
| `Replica.AcceptAbsorbsIff` | internal/nodes/repclient.go:60-68 | a delivery over an existing object leaves its clock strictly below the stored one, so that a copy will be ignored, if and only if it was ignored already, or the bump does not wrap, or it wraps a tick that the delivery lacks or has at zero and leaves a clock other than the delivery's own |
| `Replica.FirstWriteDiscardsClock` | internal/nodes/repclient.go:70-73 | a first write keeps the value and starts the clock afresh; when its copy would be ignored |
| `Overlaps.OverlapRun` | internal/nodes/repclient.go:34-82 | two deliveries that both begin before either ends: what is stored after the first write, and after the second |
| `Overlaps.InFlightIff` | internal/nodes/repclient.go:34-82 | a delivery is still to write if and only if it has begun, and has since neither ended nor failed nor been cut off by a restart |
| `Overlaps.OverlapKeepsIff` | internal/nodes/repclient.go:49-81 | what the first of two overlapping deliveries stored is at most what remains if and only if: for first writes, the senders are the same; over an object, the second was ignored, or, the first having been ignored, it wraps no stored tick, or it has read or brought what the first brought, and gets past the first's bump |
| `Overlaps.SecondCoversUnwrapped` | internal/nodes/repclient.go:66-68 | without wraps and with two senders the last case means that the second delivery already carries a later tick of the first sender than the one just given |
| `Overlaps.OverlappingDeliveriesLoseWrite` | internal/nodes/repclient.go:49-81 | from different senders, both with the stored clock: the acknowledged write is concurrent with what remains |
| `Overlaps.OverlappingFirstWritesLoseOne` | internal/nodes/repclient.go:70-73 | so are first writes of different senders |
| `Overlaps.OverlappingSameSender` | internal/nodes/repclient.go:49-81 | from one sender, with equal clocks or no object yet: the second value stands under the clock the first was acknowledged with, and no read reports a conflict |
| `Overlaps.InterleavedMonotoneIff` | internal/nodes/repclient.go:34-82 | in every interleaving of the reads and writes of deliveries, failures and restarts, no object disappears and no clock ever goes down if and only if at every write what is stored by then was read or brought, save the bumped tick, which gets past it |
| `Overlaps.NoOverlapIsOneByOne` | internal/nodes/repclient.go:34-82 | where no two deliveries for one object overlap, the store holds what whole deliveries give, in the order of their writes |
| `Replica.ClockMonotoneIff` | internal/nodes/repclient.go:34-82 | in a run of deliveries one after the other, in any order, no object disappears and no clock ever goes down if and only if no bump wraps a tick that was stored |
| `Replica.DuplicateSuppression` | internal/nodes/repclient.go:60-63 | after a delivery that an existing object takes in, any later one for it with a clock at most as high changes nothing, whatever came before, and whatever came in between as long as that lets no clock go down |
| `Replica.StreamTwiceIsOnce` | internal/nodes/repclient.go:120-132 | sending a whole stream over existing objects again has no effect, if every step meets the exact conditions of one delivery |
| `Replica.BrokenStreamSentAgain` | internal/nodes/repclient.go:120-132 | sending it again after it broke off anywhere gives what sending it once gives, if the objects it reached existed and met the same conditions |
| `Replica.BlindWriteIsDroppedIff` | internal/nodes/repclient.go:60-63 | in every reachable store a write without clock is dropped if and only if the key exists |
| `Conflicts.GetConflictingReps` | internal/nodes/repserver.go:319-344 | the filter with its self-appending inner loop always ends, and returns the first replica and then, in order, exactly those that survive |
| `Conflicts.TargetBelowFirst` | internal/nodes/repserver.go:329-330 | the target clock stays equal to or an ancestor of the first replica's |
| `Conflicts.ConflictIsReal` | internal/nodes/repserver.go:338-340 | more than one version returned means two received replicas are concurrent |
| `Conflicts.ConflictCanBeLost` | internal/nodes/repserver.go:329-337 | the converse fails |
| `Conflicts.KeptExactly` | internal/nodes/repserver.go:319-344 | what is returned, exactly: the first replica and, in order, every replica concurrent with the final target that arrived after the last replacement |
| `Conflicts.KeptIsFiltered` | internal/nodes/repserver.go:319-344 | the same as a list: the first, then the survivors at increasing positions, each once |
| `Conflicts.ConflictReportedIff` | internal/nodes/repserver.go:319-344 | more than one version is returned if and only if there is such a replica |
| `Conflicts.LostIff` | internal/nodes/repserver.go:319-344 | no returned version is at least as new as a received one if and only if it is neither at most the first nor at most one that survives beside it |
| `Conflicts.ChainKeepsFirst` | internal/nodes/repserver.go:325-331 | without concurrent versions the answer is the first replica received, newer ones are skipped |
| `Conflicts.EqualReplicasAgree` | internal/nodes/repserver.go:319-344 | agreeing replicas give one answer |
| `Quorum.CollectPuts` | internal/nodes/repserver.go:225-250 | the loop stops at the first turn that finds the deadline passed or the acknowledgements as many as wanted, or when the nodes run out; it counts the turns that acknowledge, and the status says none, too few or enough |
| `Quorum.CollectReplies` | internal/nodes/repserver.go:113-142 | the loop stops at the first turn that finds the deadline passed or the replies as many as wanted, or when the nodes run out; it counts the turns that reply, with or without a replica |
| `Quorum.AcksCounted` | internal/nodes/repserver.go:225-241 | the count is the number of turns that bring an acknowledgement |
| `Quorum.RepliesAreCounted` | internal/nodes/repserver.go:113-136 | the count is the number of turns that bring a reply |
| `Quorum.ReplicasInOrder` | internal/nodes/repserver.go:120-125 | the replicas are those brought, in the order of the turns |
| `Quorum.AnswerIsFit` | internal/nodes/repserver.go:150-166 | a read answers with versions if and only if a replica and at least MIN_READS of them came; then these are the first and the survivors in order, and the conflict flag is set if and only if they are more than one, if and only if some replica survives; it is "all down", "not found" or "insufficient" if and only if no reply, no replica, or too few came |
| `Quorum.WriteCoordinatorIsFirstOther` | internal/nodes/repserver.go:129-132 | the write coordinator is the port of the first peer other than the reader that sent a replica, and negative if and only if there is none |
| `Quorum.OthersPort` | internal/nodes/repserver.go:72-78 | for a node with HTTP port p that port is p, and it counts as another if and only if p is neither the reader's port nor the one 3000 above it |
| `Quorum.CollectGets` | internal/nodes/repserver.go:113-168 | the loop and the answer made from it: which of the four answers it is, the versions let through, the conflict flag, and the port of the first other peer that sent a replica |
| `KeyHistories.TakeIsOpenBucket` | internal/nodes/repclient.go:35-49 | the history of one key is what the first half of a delivery at a whole store does to it, and what it reads |
| `KeyHistories.TakeIsWriteBack` | internal/nodes/repclient.go:54-81 | and what the second half does to it |
| `KeyHistories.TakeIsDeliver` | internal/nodes/repclient.go:34-82 | and what both do when nothing interrupts them |
| `KeyHistories.HistoryMonotoneIff` | internal/nodes/repclient.go:34-82 | over the deliveries for one key at all nodes, overlapping ones included, no object disappears and no clock ever goes down if and only if at every write what is stored by then was read or brought, save the bumped tick, which gets past it |
| `ReadAfterWrite.QuorumIntersection` | internal/nodes/repserver.go:113-168 | with more acknowledgements of a write and replies than nodes on the two lists, the read receives a replica; and unless a stored clock has gone down it receives one from a node that acknowledged that write: its clock is at least the one the write left, it is beyond the write if the node had the key and took it in, and at least the first tick of the sender if it had not |
| `ReadAfterWrite.PutThenGet` | internal/nodes/repserver.go:113-250 | after FULL_SUCCESS of a write a read that gathers its answers is never "not found" or "all down", is "insufficient" if and only if some replies were empty, and receives the write unless a stored clock has gone down; if the whole list acknowledged, it returns it |
| `ReadAfterWrite.QuorumsAlwaysMeetIff` | config/config.go:11-13 | in every history a read with r replies receives a replica, and the write unless a stored clock has gone down, after any write with w acknowledgements, if and only if w + r exceeds the length of the list; otherwise it may receive no replica at all, even where no clock goes down |
| `ReadAfterWrite.ReadReturnsWriteIff` | internal/nodes/repserver.go:150-166 | a read with as many replies as it waits for is sure to return a version that shows the acknowledged write if and only if every listed node has acknowledged it, where no clock goes down |
| `ReadAfterWrite.StaleRead` | internal/nodes/repserver.go:159-166 | where all listed nodes hold an object and a write sent with its clock is acknowledged by some, a read that a node without it answers first returns the old object alone, without conflict |
| `ReadAfterWrite.HeldReadReturnsWriteIff` | internal/nodes/repserver.go:159-166 | the same if and only if, over the histories in which every listed node had the key before |
| `ReadAfterWrite.HeldReadAnswers` | internal/nodes/repserver.go:150-166 | where every listed node has the key, a read that gathers its answers returns versions |
| `ReadAfterWrite.EmptyAnswersIff` | internal/nodes/repserver.go:113-136 | n replies without a replica are possible if and only if n listed nodes lack the key, whoever else holds it |
| `ReadAfterWrite.NotFoundIff` | internal/nodes/repserver.go:113-154 | a whole run of the loop can end in "not found" after n replies if and only if, besides, n is at least one and at most what the loop waits for |
| `ReadAfterWrite.NotFoundTooEarlyIff` | internal/nodes/repserver.go:113-154 | it can do so after fewer than MIN_READS replies if and only if MIN_READS is at least two and some listed node lacks the key |
| `ReadAfterWrite.NotFoundWithTooFewAnswers` | internal/nodes/repserver.go:150-154 | one empty reply before the deadline makes the read answer "not found" while a listed node holds the key |
| `ReadAfterWrite.DeliveredAlike` | internal/nodes/repserver.go:187-223 | replicas that start alike and take the same write end alike |
| `ReadAfterWrite.WriteThenRead` | internal/nodes/repserver.go:113-166 | and every later read that gathers its answers returns that one version, without conflict |
| `EndToEnd.CoordinatorsShareList` | internal/nodes/repserver.go:52 | in every reachable state two registered nodes work from the same preference list, with distinct ids and no longer than the replication factor |
| `EndToEnd.ReadSeesWriteAnywhere` | config/config.go:11-13 | if the replication factor is below MIN_WRITES + MIN_READS, then after a write that one registered node coordinates every later read that any registered node coordinates in the same reachable state answers "insufficient" or with versions, never "not found", and receives the write unless a stored clock has gone down; if the whole list acknowledged, it returns it |
| `EndToEnd.ReadReturnsWriteAnywhereIff` | config/config.go:11-13 | between any two coordinators of a reachable state a read is sure to return an acknowledged write if and only if MIN_WRITES is the length of the key's list |
| `EndToEnd.ReadAcrossJoin` | pkg/consistenthashing/consistenthashing.go:196-225 | a read coordinated after a join that leaves the key's coordinator in place is never "not found" and receives a write coordinated before it, unless a stored clock has gone down, if MIN_WRITES + MIN_READS exceeds the replication factor by more than one |
| `HintBucket.HintHolder.PutInHintBucket` | internal/nodes/repclient.go:155-177 | run alone, appends the hint to its target's list and leaves the others alone; fails exactly for a target name the store refuses |
| `HintBucket.HintHolder.HandOver` | internal/nodes/repserver.go:253-285 | one list to a target that answers: every hint is sent under its bucket, its object's key and the holder's id, in order; of those that arrive all are delivered up to the first refused; done if and only if the whole stream arrives and none is refused; other stores are left alone |
| `HintBucket.HintHolder.StreamTo` | internal/nodes/repserver.go:253-285 | the stream itself, at the target's store |
| `HintBucket.HintHolder.ScanNext` | internal/nodes/nodes.go:286-303 | one entry of a scan: an unknown or silent target is passed over; a stream without a reply brings the holder down |
| `HintBucket.HintHolder.Scan` | internal/nodes/nodes.go:286-303 | the scan of one tick: what the targets' stores become, what is to be deleted, where a missing reply ends it |
| `HintBucket.ScanOutcome` | internal/nodes/nodes.go:286-303 | the holder survives a scan if and only if no stream breaks and no answering target refuses an object; then exactly the targets that took their whole list are to be deleted |
| `HintBucket.HintHolder.DeleteDelivered` | internal/nodes/nodes.go:309-315 | deletes exactly the listed entries |
| `HintRuns.RefusedHintIsFatal` | internal/nodes/nodes.go:286-303 | with handlers and ticks one at a time, a hint that its target's store refuses stays in the bucket for good, and every scan in which the target answers brings the holder down |
| `HintRuns.RunSound` | internal/nodes/nodes.go:282-317 | in every run each target's store is what the deliveries made there give, and what was handed over is among them, in order |
| `HintRuns.HandedIsApplied` | internal/nodes/nodes.go:299-301 | in every run, for every hint handed over the target has taken a delivery of its object, under its bucket, its object's key and the holder's id, and holds that key; if the key was there before, took the hint in and no clock has gone down since, the stored object is beyond the hint, and sending it again changes nothing |
| `HintRuns.RunGenuine` | internal/nodes/repclient.go:155-177 | in every run all that is kept or was handed over for a target was accepted for it |
| `HintRuns.NothingOutlivesCrash` | internal/nodes/nodes.go:282-317 | after a crash or restart no handler ends that has not begun since, and no entry is deleted that no scan has visited since |
| `HintRuns.HintConservationIff` | internal/nodes/nodes.go:282-317 | in every interleaving of the reads and writes of concurrent handlers, scans, deletions, crashes and restarts, the accepted hints are at every moment accounted for, once and in order, if and only if no handler writes back a list that has changed since it read it and no deletion takes a list other than the one streamed |
| `HintRuns.OneAtATimeConserves` | internal/nodes/nodes.go:282-317 | with handlers and ticks one at a time every accepted hint is in the bucket or has been delivered to its target's store, in arrival order |
| `HintRuns.OverlappingHandlersLoseHint` | internal/nodes/repclient.go:155-177 | two handlers at once lose a hint |
| `HintRuns.LateHintIsLost` | internal/nodes/nodes.go:309-315 | the tick that loses a hint |
| `HintRuns.CrashedHandoverRepeats` | internal/nodes/repserver.go:253-285 | a list streamed again after a crash in mid-stream leaves the target as if streamed once, if the objects reached existed and met the conditions of one delivery |
| `HintWalk.HintSender.InitiateHintedHandoff` | internal/nodes/repserver.go:346-383 | ends; tries the nodes that are neither the sender's nor the target's in increasing clockwise distance from the target, each once, until the first success, and leaves none out otherwise; files the hint under the name the target was added with |
| `HintWalk.HintSender.TryBehind` | internal/nodes/repserver.go:356-367 | the first loop tries the candidates behind the target up to the tail |
| `HintWalk.HintSender.TryBefore` | internal/nodes/repserver.go:368-382 | the second loop goes on from the head and ends at the target |
| `HintWalk.CandidatesDistinct` | internal/nodes/repserver.go:356-382 | the candidates are all virtual nodes but those of sender and target, each once |
| `HintWalk.WalkIsClockwise` | internal/nodes/repserver.go:356-382 | the order of the two loops is that of increasing clockwise distance from the target |

## Left out

- HTTP and gRPC plumbing, JSON and gob encoding, logging, `.env` loading, wall-clock timestamps.
- Bolt's files: a store is a map from bucket and key to object, and the characters of a key stand for its bytes. Bolt's limit on the size of values is not modelled. The hint bucket is a store of its own; a replicated write that names the reserved hint bucket is not modelled, the handlers refuse it.
- A delivery is several transactions in the program. `Overlaps` and `KeyHistories` interleave its read and its write with others; the check and the creation of a bucket are one step with the read, where in the program a delivery can fail because another has just created the bucket. The runs of `Replica` and the targets' logs in `HintRuns` are those without overlap (`Overlaps.NoOverlapIsOneByOne`).
- Deliveries from other nodes that fall between two hints of one stream: `OtherPut` comes before or after a scan.
- MD5: the hash is an arbitrary function.
- GoVector is not part of this model: clocks are maps ordered pointwise, merged by pointwise maximum over the union of the keys.
- The key ranges that `serverReallocKeys` and `delnodeReallocKeys` send, and key deletion by clients.
- Joins and leaves that overlap in time: a step of the protocol is a completed join or leave, and in `EndToEnd` the membership does not change between the write and the read, except for one join in `EndToEnd.ReadAcrossJoin`.
- Two registered ports 3000 apart: `serverPutReplicas` compares a peer's gRPC port with its own HTTP port (internal/nodes/repserver.go:192) and would then apply the peer's copy of a write to its own store, which `ReadAfterWrite.HonestPuts` excludes.
- The receiver of a broken stream: it dereferences the missing message and goes down too; its store keeps what it has handled.
- Restarting a node from a backup file inside the protocol.
- Real deadlines and goroutine scheduling: each turn of a collection loop takes an answer or the deadline, in any order.
- Scanner buffer limits: lines of any length are read.
- `RingHeap.Ring.SearchKey`: returns the node itself where the source returns a copy of it; the two differ only if the ring changes before the copy's links are followed.
- `RingHeap.Ring.RemoveNode`: its new value-level ring is stated for lists without duplicate values; the list of nodes itself is stated for every ring.
- `Servers.NodeManager.DelNodeReq`: likewise, and every reachable manager ring is one.
- `Servers.NodesServer.UpdateDelNode`: likewise.
- `Membership.RunAgrees`: needs at least one virtual node per name; without any there is nothing to route by.
- `Membership.MembershipConvergence`: a node that has left keeps its last ring and is no longer tracked.
- `Replica.DuplicateSuppression`: needs the delivery to be taken in and no wrap of a stored tick after it; `Replica.AcceptAbsorbsIff` and `Replica.ClockMonotoneIff` say exactly when that is so. First writes discard their clock and are not suppressed (`Replica.FirstWriteDiscardsClock`).
- `Replica.StreamTwiceIsOnce`: for streams in which every step is taken in and wraps no stored tick.
- `Replica.BrokenStreamSentAgain`: the same for the part that got through.
- `HintRuns.CrashedHandoverRepeats`: the same; deliveries from others between the crash and the repetition are not covered.
- `HintRuns.HandedIsApplied`: that a hint is beyond suppression is stated under the same two conditions.
- `Replica.ClockMonotoneIff`: for deliveries that do not overlap; `Overlaps.InterleavedMonotoneIff` is about all interleavings.
- `ReadAfterWrite.QuorumIntersection`: that the read has a replica holds in every history; that the replica shows the write is stated for histories in which no stored clock goes down, exactly those of `KeyHistories.HistoryMonotoneIff`, and that it is beyond the write where the node took it in.
- `ReadAfterWrite.PutThenGet`: likewise.
- `ReadAfterWrite.QuorumsAlwaysMeetIff`: likewise.
- `ReadAfterWrite.ReadReturnsWriteIff`: over the same histories.
- `ReadAfterWrite.HeldReadReturnsWriteIff`: likewise, for writes that carry a clock which the bump does not wrap.
- `EndToEnd.ReadSeesWriteAnywhere`: likewise.
- `EndToEnd.ReadReturnsWriteAnywhereIff`: likewise.
- `EndToEnd.ReadAcrossJoin`: likewise; when it is sure to return the write is not stated.
