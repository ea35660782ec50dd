# KilnCache in Dafny

KilnCache is a replicated build cache. Each node keeps objects as files, an index
of them, and a quota; a client PUT is stored on the key's holders, a read falls
back to the other members, and a repair worker re-creates missing copies. This
project models three layers and proves what they promise over whole runs.

- **Node store** (`Machine`, `Store`, `Stream`, `Index`, `Rows`, `Heap`, `Evict`,
  `Life`, `Serve`). `Machine` is a state machine of system calls: uploads in flight,
  renames, directory syncs, deletions, kills and power losses. A directory entry
  carries every value a power loss could bring it back with. `Store`, `Index` and
  `Evictor` are classes whose methods are proved against that machine. `Life` states
  what holds over sequences of operations, and `Serve` shows that sequences of calls
  to the classes are such sequences.
- **Cluster protocol** (`Words`, `Ring`, `Protocol`, `Coordinator`, `Cluster`,
  `Reads`). `Ring` is rendezvous placement on 64-bit words. `Coordinator` is the
  class that dispatches PUTs and reads. `Cluster` runs one store machine per node
  and lets messages be lost, repeated or late, bodies be altered, and nodes crash,
  evict and go down at any moment.
- **Repair** (`Repair`, `Converge`, `Deliver`). The auditor's cursor and bounded queue
  over an index that other requests change between page reads, and convergence of
  the whole cluster.

`Base` and `Sorting` hold shared vocabulary. SHA-256 (section 6.2 of FIPS 180-4), as
content hash and as the source of placement seeds, is a parameter, so every statement
holds for every hash. So is the logarithm in the eviction score. File-system and
network failures, clocks, goroutine schedules and the times at which workers take
tasks are parameters too.

Some results say that something the code or its comments suggest does not hold, and
exactly when it does:

- "Already stored, durable" can be untrue (`SecondPutOverclaims`): the same Put twice,
  the first with a failing directory sync. It is true exactly when, since the object
  was last removed, a Put to its shard directory that stored something new answered
  durable while it was there (`AlreadyStoredIsDurableIff`); in system calls, exactly when its directory was
  synced, or power was lost, while the name was there and it was not deleted since
  (`SurvivesEveryPowerLossIffSynced`).
- What a front door reports for a PUT it proxied -- size, prior presence, copies,
  holders, durability -- is true, for all answers, exactly when the declared size is
  the stored one, the owner did not have the object already, its copy is durable, and
  every holder named is sure to have a copy by the owner's ring
  (`ProxiedReportIsTrueIff`). With equal holder counts it may still name a node
  without a copy (`ProxiedReportMayNameAnyone`), and a PUT without a length is
  reported with size -1 (`ChunkedPutsAreMisreported`).
- A hop header survives the wire exactly when the sender has a name or the hop is the
  client's (`HopSurvivesTheWire`). Forwarding is bounded for every choice of rings
  exactly when every node has a name (`ForwardingBoundedIffNamed`); `New` accepts an
  empty one and only configuration rules it out.
- A forwarded request without a hop is not terminal, though the comment at
  internal/httpapi/cache.go:160-162 says so: it is terminal exactly when it names a
  hop other than the coordinator's (`ForwardedIsTerminalIff`).

## Model

| member | source | states |
|---|---|---|
| Ring.MixBijective | internal/cluster/ring.go:158-165 | the SplitMix64 finalizer has a two-sided inverse on 64-bit words |
| Ring.Mix | internal/cluster/ring.go:158-165 | the shift-multiply steps, with the SplitMix64 shifts and multipliers, compute the function that is proved bijective |
| Ring.TieIffSameSeed | internal/cluster/ring.go:167-169 | two members tie on a key exactly when their seeds are equal |
| Ring.WeightSeparatesKeys | internal/cluster/ring.go:167-169 | a member weighs two keys the same exactly when their seeds are equal |
| Ring.TiesAreAllOrNothing | internal/cluster/ring.go:167-194 | a tie on one key is a tie on every key |
| Ring.HexNumberInjective | internal/cluster/ring.go:123-156 | different hex prefixes of one length are different numbers |
| Words.ShrDivides | internal/cluster/ring.go:158-165 | shifting right by k divides by 2^k and rounds down |
| Ring.KeySeedIsThePrefix | internal/cluster/ring.go:123-133 | two storable keys get one seed exactly when their first 16 digits agree |
| Ring.KeySeedReadsBack | internal/cluster/ring.go:123-156 | the seed reads back, nibble by nibble, as the first 16 hex digits of the key, first digit first; a key without them is hashed |
| Ring.ComputeKeySeed | internal/cluster/ring.go:123-133 | the digit loop loses no bit to wrap-around |
| Ring.OwnersAreTheMembers | internal/cluster/ring.go:179-200 | the preference list is every member once, heavier members first and equal weights by name |
| Ring.AnySortIsOwners | internal/cluster/ring.go:189-198 | any correctly sorted arrangement of the members is that list, so the sort's algorithm does not matter |
| Ring.ScoreMembers | internal/cluster/ring.go:180-188 | every member is paired with its weight for the key, computed from the key's seed |
| Ring.SortScored | internal/cluster/ring.go:189-194 | what the library sort promises: the same elements, none before one in front of it |
| Ring.ComputeOwners | internal/cluster/ring.go:179-200 | scoring, any such sort and dropping the scores give the one preference list |
| Ring.HoldersAreDistinctMembers | internal/cluster/ring.go:204-213 | holders are distinct members at the head of the preference list: as many as asked for, one if fewer than one is asked for, everyone if more than there are |
| Ring.AddingAMemberKeepsTheOrder | internal/cluster/ring.go:179-200 | deleting a new member from the new list gives back the old list, for every key |
| Ring.AddingAMemberMovesOneHolder | internal/cluster/ring.go:204-213 | a new member changes a key's holders at most by joining and displacing the last one |
| Ring.New | internal/cluster/ring.go:51-80 | accepts exactly the lists with non-blank, distinct names that include self when self has a name, and an error names a rule that was broken |
| Ring.MembersAreTrimmed | internal/cluster/ring.go:55-71 | a member is its peer with white space dropped around the name and slashes after the URL, and nothing else; its seed is the hash of the trimmed name |
| Ring.PeerOrderIsIrrelevant | internal/cluster/ring.go:51-80 | permuting the peer list gives the same ring |
| Protocol.HopSurvivesTheWire | internal/cluster/client.go:118-126 | encoding then decoding a hop is the identity if and only if the sender is named or the hop is the client's |
| Protocol.UnknownHopIsTerminal | internal/protocol/protocol.go:126-141 | an unknown role is read as a replica, which forwards nothing |
| Protocol.ForwardedIsTerminalIff | internal/httpapi/cache.go:155-168 | a forwarded request is terminal if and only if it names a hop other than the coordinator's; without a hop it is served as a client's; which header word gives which role |
| Protocol.ForwardingDescends | internal/cluster/coordinator.go:191-221 | each message has strictly lower rank than the request it serves, on any ring |
| Protocol.ChainsAreShort | internal/protocol/protocol.go:68-115 | a request visits at most three nodes, whatever ring each node has |
| Protocol.NamelessNodesForwardForever | internal/protocol/protocol.go:126-141 | a nameless node alone in its ring forwards to itself for every length, whatever the others are |
| Protocol.ForwardingBoundedIffNamed | internal/cluster/ring.go:51-80 | for nodes with given names, forwarding is bounded by rank for every choice of accepted rings if and only if every name is non-empty |
| Protocol.CoordinatorWrites | internal/cluster/coordinator.go:258-295 | a coordinated PUT causes, transitively, no more writes than its coordinator has holders |
| Protocol.ClientPutWritesAreBounded | internal/cluster/coordinator.go:364-380 | a client PUT causes at most 1 + holders peer writes, over all nodes it reaches |
| Coordination.AckMeansDistinctCopies | internal/cluster/coordinator.go:258-313 | the counted nodes are pairwise distinct and are exactly the coordinator and the holders that accepted, also on a coordinator outside its own holders; from a holder, Wanted needs every answer |
| Coordination.Coordinator.constructor | internal/cluster/coordinator.go:126-150 | the replica count is the one given, 1 if less than 1 is given, the ring size if more |
| Coordination.Coordinator.FanOut | internal/cluster/coordinator.go:328-340 | in whatever order the goroutines finish, slot i holds target i's own answer |
| Coordination.Coordinator.Replicate | internal/cluster/coordinator.go:283-301 | the acknowledged names are the accepting targets in target order, and the rest are failures |
| Coordination.Coordinator.Coordinate | internal/cluster/coordinator.go:258-313 | succeeds exactly when Wanted distinct copies exist, otherwise fails with the exact shortfall; every other holder is sent a replica |
| Coordination.Coordinator.ProxyPut | internal/cluster/coordinator.go:364-390 | forwards once, to the first holder, and turns its answer into the client's |
| Coordination.Coordinator.PutLocalOnly | internal/cluster/coordinator.go:232-246 | a terminal write counts one copy, this node's |
| Coordination.Coordinator.Put | internal/cluster/coordinator.go:191-221 | which role stores, coordinates, proxies or declines, and the whole answer of each: a coordinated PUT names exactly this node and the holders that accepted, carries the local size, prior presence and durability, and is acknowledged exactly when that is Wanted nodes, from a holder exactly when every other holder accepted; a front door's answer is the first holder's; exactly the messages sent |
| Coordination.ReadOrderIsEveryOther | internal/cluster/coordinator.go:463-472 | a client read tries every other member exactly once, and those are the read messages it may send |
| Coordination.HoldersAreAskedFirst | internal/cluster/coordinator.go:457-472 | an earlier member in the read order outweighs a later one, and the key's holders come before all other members |
| Coordination.TryPeers | internal/cluster/coordinator.go:430-455 | the first hit in order wins; without a hit everyone was asked, and one failure makes it unreachable rather than missing |
| Coordination.Coordinator.Open | internal/cluster/coordinator.go:408-455 | not found only if the local store and every member answered absent; each read is counted once, under what became of it |
| Coordination.Coordinator.Stat | internal/cluster/coordinator.go:475-506 | the same answers give the verdict Open would give, counted the same way |
| Coordination.VerdictIsDetermined | internal/cluster/coordinator.go:408-506 | the answers determine the verdict, so Open and Stat cannot disagree |
| Coordination.HitIffSomeoneHasIt | internal/cluster/coordinator.go:430-455 | a fallback read succeeds exactly when some member had the object |
| Coordination.AcknowledgedOwnersHaveThese | internal/cluster/coordinator.go:258-313 | whenever an owner acknowledges, its holders have copies, or itself alone if it is not one of them |
| Coordination.AnyOtherMayLack | internal/cluster/coordinator.go:258-313 | for any other node, some answers acknowledge without a copy there |
| Coordination.ProxiedReportIsTrueIff | internal/cluster/coordinator.go:364-390 | every field reported for a proxied PUT is true for all answers if and only if the declared size is the stored one, the owner did not have it already, its copy is durable, and the names are among the nodes sure to have a copy |
| Coordination.ProxiedReportMayNameAnyone | internal/cluster/coordinator.go:373-379 | with equal counts and differing rings, a named holder outside the owner's has no copy though all peers accepted |
| Coordination.ChunkedPutsAreMisreported | internal/cluster/coordinator.go:373-379 | a PUT declared without a length is reported with size -1 whatever was stored |
| Machine.IncomingIsNotAKey | internal/storage/key.go:75-87 | no valid key can name an upload's temporary file |
| Machine.SameDirIffSamePath | internal/storage/key.go:102-124 | two objects share a directory to sync exactly when their sharded paths share it |
| Machine.StepKeepsInv | internal/storage/store.go:460-541 | every system call, crash and deletion keeps: names resolve only to whole, synced, checked bodies, and durable claims hold |
| Machine.RunKeepsInv | internal/storage/store.go:416-567 | that invariant holds after every run of interleaved uploads |
| Machine.VisibleCasMatchesItsKey | internal/storage/store.go:495-520 | after every run, a visible content-addressed file hashes to its key |
| Machine.VisibleWasPublished | internal/storage/store.go:460-541 | what is visible is byte for byte one published body: of the declared length if one was declared, within the size limit, hashing to its key if content-addressed, under a 64-digit key of one of the two namespaces |
| Machine.PowerLossThenRestartRecovers | internal/storage/store.go:144-202 | after a power loss at any step and a restart: no temporaries, whole objects, index equal to disk, every durable and undeleted Put still there; loss and restart are themselves steps, so runs go on from there |
| Machine.KillThenRestartRecovers | internal/storage/store.go:144-202 | the same after a process kill at any step, with every directory entry as it was |
| Machine.SurvivesEveryPowerLossIffSynced | internal/storage/fsutil.go:45-63 | after any run an object survives every power loss if and only if its directory was synced, or power was lost, while the name was there and it was not deleted since |
| Machine.DeletionMayBeUndone | internal/storage/store.go:854-877 | a deletion is not synced, so some power loss right after it brings the object back whole |
| Machine.VanishesOnlyBy | internal/storage/store.go:460-541 | a visible object disappears only by deletion, or in a power loss it was not safe from |
| Machine.PinnedStays | internal/storage/store.go:522-541 | an object safe from power loss stays so until it is deleted |
| Machine.LinkedIsVisible | internal/storage/store.go:522-541 | an upload past its rename and not deleted since is visible, and safe once its directory is synced |
| Machine.StepSeenFromOutside | internal/storage/store.go:460-541 | each step publishes at most one checked body, and only published bodies are ever served |
| ObjectStore.SecondPutOverclaims | internal/storage/store.go:440-457 | the same Put twice, the first with a failing directory sync: the second answers durable and a power loss may remove the object |
| ObjectStore.DurableIffSynced | internal/storage/store.go:522-541 | a fresh Put's body outlives every power loss if and only if its directory sync succeeded |
| ObjectStore.CopyBody | internal/storage/store.go:476-494 | for every pattern of short reads the staged bytes are the body, cut exactly one byte past the limit and nowhere else |
| ObjectStore.Admit | internal/storage/store.go:416-438 | the checks before anything is read, with the error each failure deserves, in the order they are made |
| ObjectStore.Receive | internal/storage/store.go:460-520 | accepts exactly the bodies within the limit, of the declared length if one is declared, and hashing to a content-addressed key, when no call fails; otherwise the error is that of the first check failed |
| ObjectStore.Store.constructor | internal/storage/store.go:144-202 | an empty store satisfies the invariant |
| ObjectStore.Store.Put | internal/storage/store.go:416-567 | every answer decided by the request and the calls that fail, with the first rule broken as the error; the shortcut exactly for a content-addressed object that is there, which is then touched; otherwise success publishes exactly the body, of the declared size, a body of another length is refused, failure changes nothing, and all are legal runs of the machine |
| ObjectStore.Store.PutFresh | internal/storage/store.go:460-567 | the same past the shortcut, with durable meaning the directory sync succeeded |
| ObjectStore.AbandonedPutRuns | internal/storage/store.go:460-520 | an upload that is given up at any check is a run of the machine back to where it began |
| ObjectStore.Store.Publish | internal/storage/store.go:522-561 | the state from rename to index upsert, with the sync failing or not |
| ObjectStore.FreshPutKeepsTheRules | internal/storage/store.go:460-541 | the published state is reached by machine steps, so it keeps the invariant |
| ObjectStore.PublishedIsThere | internal/storage/store.go:522-541 | after a fresh Put the body is visible, no other name changed, and a durable claim survives any power loss |
| ObjectStore.PublishKeepsAgreement | internal/storage/store.go:545-561 | a Put whose index write succeeds keeps index equal to disk |
| ObjectStore.Store.DeleteFile | internal/storage/store.go:854-877 | removes the file and leaves the row, reporting the file's size |
| ObjectStore.Store.Delete | internal/storage/store.go:815-847 | removes file, row and queued read together; deleting what is absent changes nothing |
| ObjectStore.DeleteKeepsAgreement | internal/storage/store.go:815-847 | index equal to disk survives a deletion |
| ObjectStore.Store.SweepTemps | internal/storage/store.go:357-386 | removes exactly the files whose name starts with "incoming-" |
| ObjectStore.Store.Reconcile | internal/storage/store.go:241-332 | the index becomes the reconciled one and every reported count is the size of the set it names; files = before - stale + added |
| ObjectStore.WalkFiles | internal/storage/store.go:882-912 | the walk visits each file once, in any order, with the same result |
| ObjectStore.MergeEntries | internal/storage/store.go:241-307 | the entries rebuild exactly the reconciled table, and each count is the size of the set it names |
| ObjectStore.Store.Recover | internal/storage/store.go:144-202 | startup leaves the node recovered; if reconciliation fails only the temporaries are gone and the error is returned |
| Rows.ReconcileIsExactAndIdempotent | internal/storage/store.go:241-307 | rows match files at disk sizes, surviving rows keep their times and a count of at least one, new rows take the file's time, a second run changes nothing |
| Rows.FlushKeepsSizes | internal/storage/index.go:374-416 | recording reads adds, removes and resizes no row; exactly the queued rows get the queued access time and one more read |
| Rows.UpsertKeepsHistory | internal/storage/index.go:259-276 | an object written again gets the new size and access time and keeps its creation time and read count, a new one starts at one read; no other row changes |
| Rows.UpsertBytes | internal/storage/index.go:259-276 | an upsert moves the byte total by the new size less the old one |
| Streaming.Object.Read | internal/storage/store.go:635-644 | successive reads deliver consecutive pieces of the file and hash what they deliver |
| Streaming.Object.CopyVerified | internal/storage/store.go:676-701 | for every pattern of reads and writes, success delivered exactly the file's bytes; short reads alone never fail it; an error is that of the last turn taken, and no earlier read failed |
| Streaming.Object.Verify | internal/storage/store.go:709-723 | succeeds exactly when the delivered bytes hash to the key |
| MetadataIndex.Index.Upsert | internal/storage/index.go:259-276 | a new row, or the old one with size and access time replaced |
| MetadataIndex.Index.Remove | internal/storage/index.go:279-295 | the row and its queued read go; a failed removal still drops the queued read |
| MetadataIndex.Index.RemoveBatch | internal/storage/index.go:309-347 | all rows go or none |
| MetadataIndex.Index.Touch | internal/storage/index.go:350-371 | the queue never outgrows its limit and a full queue still refreshes what it has |
| MetadataIndex.Index.FlushTouches | internal/storage/index.go:374-416 | the queue empties either way; only rows that still exist are touched |
| MetadataIndex.Index.Totals | internal/storage/index.go:419-425 | exact row count and byte total |
| MetadataIndex.Index.ColdestN | internal/storage/index.go:454-488 | the N least recently accessed rows, none colder left out |
| MetadataIndex.Index.PageAfter | internal/storage/index.go:503-538 | the next rows in key order with none missing in between |
| MetadataIndex.EmptyPageMeansTheEnd | internal/storage/index.go:503-538 | an empty page means no row follows the position |
| Base.NamespaceThenKey | internal/storage/index.go:503-538 | rows are ordered by namespace first and by key within one |
| Base.LessAtFirstDifference | internal/storage/index.go:503-538 | strings are compared at the first place they differ, a proper prefix first |
| MetadataIndex.Index.ReplaceAll | internal/storage/index.go:571-603 | the table is exactly the entries; a repeated key or failed commit changes nothing |
| CandidateHeap.Init | internal/storage/evict.go:327-331 | heapifying gives a heap of the same candidates |
| CandidateHeap.Down | internal/storage/evict.go:71-89 | sifting down restores heap order and permutes nothing outside |
| CandidateHeap.Pop | internal/storage/evict.go:71-89 | removes a lowest-scored candidate and leaves a heap of the rest |
| Eviction.ScorePrefersRecentAndSmall | internal/storage/evict.go:54-62 | for a monotone penalty the score falls with size and rises with last access |
| Eviction.ScoreIsAccessLessPenalty | internal/storage/evict.go:46-62 | the score is the access time less weight times log2(1 + size / unit) truncated to a whole number, with 65536 for a unit that is not positive |
| Eviction.CheckQuota | internal/storage/evict.go:107-119 | accepts exactly a positive maximum with 0 < low < high <= 1, and names the first rule broken |
| Eviction.MarksAreOrdered | internal/storage/evict.go:108-125 | each byte mark of a valid quota is its fraction of the maximum rounded down, and the marks are ordered within the maximum |
| Eviction.Evictor.constructor | internal/storage/evict.go:195-222 | a non-positive batch size becomes 512 and an all-zero policy one hour per doubling at 65536 bytes |
| Eviction.Evictor.EvictBatch | internal/storage/evict.go:323-355 | victims leave in score order, no candidate left scores lower than one taken, only blocked files are skipped and counted, and the batch stops at the need |
| Eviction.Evictor.EvictNext | internal/storage/evict.go:333-352 | the lowest score is popped, and its file unlinked and counted or the failure counted |
| Eviction.Evictor.Round | internal/storage/evict.go:308-372 | unlinked files and removed rows are the same objects, chosen fairly from the coldest rows; a round without a victim means the whole coldest batch is blocked |
| Eviction.Evictor.Drain | internal/storage/evict.go:308-373 | terminates, and without error or stall has freed enough; it fails exactly in the round where the caller gives up or the coldest rows cannot be read |
| Eviction.Evictor.Measure | internal/storage/evict.go:285-299 | usage is measured after exactly the queued reads are recorded, which changes no object and no size |
| Eviction.Evictor.Relieve | internal/storage/evict.go:300-376 | only usage above the high mark starts a sweep, which is then counted with what it removed |
| Eviction.Evictor.Sweep | internal/storage/evict.go:284-377 | above the high mark it reaches the low mark or stalls on a blocked batch, unless it fails, and it fails only when closed, given up or refused by the index; evicted and freed are the exact drop in rows and bytes, and so counted; it frees less than needed plus the last victim and does nothing at or below the high mark; queued reads are recorded first; no removable row that scores lower and was read earlier than a victim is left |
| Eviction.FairGoesOn | internal/storage/evict.go:308-372 | rounds that each choose fairly add up to a fair sweep |
| Eviction.RemovableFilesNeverJam | internal/storage/evict.go:314-372 | if every file can be unlinked no sweep stalls, so none overshoots |
| Eviction.EmptiedIsExact | internal/storage/evict.go:338-355 | a sweep removes exactly the named files and no other entry changes |
| Eviction.EmptiedKeepsInv | internal/storage/evict.go:338-355 | a sweep keeps the crash invariant |
| NodeLife.EventKeepsAgreement | internal/storage/store.go:522-561 | each Put, deletion, flush or sweep keeps index equal to disk and the crash invariant |
| NodeLife.IndexFollowsDisk | internal/storage/store.go:522-561 | over every sequence of them, the index lists exactly the files at their sizes |
| NodeLife.UsageGrowsByWrites | internal/storage/evict.go:295-305 | only a write raises usage, by at most its size |
| NodeLife.EvictionIsAmortised | internal/storage/evict.go:295-305 | k sweeps that worked took at least (k-1) times more than the distance between the marks in writes, and usage stays within what is not yet paid back |
| NodeLife.ProbedWriteEndsNearTheMark | internal/cluster/coordinator.go:193-205 | a write the quota probe let through ends within its own size of the high mark |
| NodeLife.RepairStopsAtTheMark | internal/cluster/coordinator.go:193-205 | in any run, usage is within the clients' bytes of where it started or of one object past the high mark, however much repair sends |
| NodeLife.AlreadyStoredIsDurableIff | internal/storage/store.go:440-457 | over any life, "already stored, durable" is true if and only if, since the object was last removed, a Put to its shard directory that stored something new answered durable while it was there |
| NodeService.ServePut | internal/storage/store.go:416-567 | a call to Put is one event of a life: a write exactly when it stored something new |
| NodeService.ServeDelete | internal/storage/store.go:815-847 | a call to Delete is one event of a life |
| NodeService.ServeFlush | internal/storage/index.go:374-416 | a call to FlushTouches is one event of a life |
| NodeService.ServeSweep | internal/storage/evict.go:284-377 | a call to Sweep is one event of a life, with the work it did |
| NodeService.CleanSweep | internal/storage/evict.go:284-377 | with every file removable, the index working and nobody giving up, a sweep above the high mark ends at or below the low one, none stalls or fails, overshoot is never counted, and the counts are the exact drop |
| NodeService.Serve | internal/storage/store.go:416-567 | any list of calls to the store, index and evictor is a life, each event decided by its request and the state it finds, and keeps index equal to disk |
| NodeService.RecoveredAgrees | internal/storage/store.go:241-307 | a recovered node's index lists exactly its files at their sizes |
| NodeService.StartAndServe | internal/storage/store.go:144-202 | startup fails exactly when reconciliation does; otherwise, from any disk and after any list of calls, the index lists exactly the files |
| Repair.Worker.constructor | internal/repair/repair.go:132-156 | a queue of 1024 and a budget of 5000 by default; this node's objects are those whose holders include it |
| Repair.Worker.Offer | internal/repair/repair.go:375-384 | never blocks: accepts exactly when there is room, and counts either way |
| Repair.Worker.Enqueue | internal/repair/repair.go:388-388 | an outside offer keeps the queue bounded and the audit's cover |
| Repair.Worker.Take | internal/repair/repair.go:252-261 | workers receive the oldest tasks, none twice and none lost |
| Repair.Worker.AuditPage | internal/repair/repair.go:314-344 | rows are settled in order up to the first refusal, and the tasks handed to workers meanwhile are the oldest ones |
| Repair.Worker.NextRow | internal/repair/repair.go:314-344 | one row audited after workers received some tasks; nothing is lost or reordered |
| Repair.Worker.AuditRow | internal/repair/repair.go:315-343 | a row is refused exactly when it is ours and the queue is full |
| Repair.Worker.NextPage | internal/repair/repair.go:300-344 | a page moves the cover to its last settled row; an empty one completes the sweep |
| Repair.Worker.AuditPages | internal/repair/repair.go:298-345 | pages are taken until the budget is used, the index ends, the queue is full or a read fails, and which of these happened is reported |
| Repair.Worker.AuditPass | internal/repair/repair.go:282-349 | a pass is made and counted exactly when the ring has two members and two replicas are wanted; no self-held row present from one reset to the next is skipped, whatever changes in between; fewer than budget + 512 rows per pass; audited = not ours + enqueued + dropped less outside offers; it fails only if a read does, leaving the cursor; from an empty queue an unfinished pass moves the cursor strictly forward |
| Repair.CoverAdvances | internal/repair/repair.go:314-344 | settling rows of a page taken from a changing index leaves no gap behind the cursor |
| Repair.EndOfIndexCompletes | internal/repair/repair.go:306-312 | reaching the end means every steady self-held row was queued |
| Repair.Worker.RepairTask | internal/repair/repair.go:391-461 | every other holder is visited in order until the context ends, and each outcome is counted where it belongs |
| Repair.Worker.WorkOff | internal/repair/repair.go:252-261 | the workers' loop visits every other holder of every task whose object is still here |
| Repair.Worker.PassAndTake | internal/repair/repair.go:225-247 | after a pass and an emptied queue the workers have received every task ever accepted, in order |
| Repair.Worker.PassAndWork | internal/repair/repair.go:225-261 | after a pass and its work, everything the sweep queued so far has been visited |
| Repair.Worker.Sweep | internal/repair/repair.go:225-349 | a sweep that reaches its end has visited every other holder of every self-held row that was there throughout; with two members, two replicas and no failing read, more passes than there are rows always reach the end |
| Repair.VisitsAddUp | internal/repair/repair.go:405-458 | every holder visited is counted exactly once or could not be asked |
| Cluster.EveryCasCopyMatchesItsKey | internal/cluster/coordinator.go:342-356 | on every node at every moment of every run, with any rings and altered bodies, a content-addressed copy hashes to its key |
| Cluster.CopiesAreOnHolders | internal/cluster/coordinator.go:191-221 | with a shared ring every copy is always on one of its holders |
| Cluster.RunsKeepPuts | internal/cluster/coordinator.go:258-313 | every node counted for a PUT published the object, and an acknowledged PUT counts Wanted of them, over every run |
| Cluster.AckedPutsAreOnEveryHolder | internal/cluster/coordinator.go:258-313 | with a shared ring a PUT is acknowledged only after every holder has published the object |
| Cluster.AnswerMeansVisible | internal/cluster/coordinator.go:342-356 | when a node answers for a PUT and deleted nothing under the name since it began, the object is visible there, its directory sync has been tried, and it is safe if that succeeded |
| Cluster.StaysVisible | internal/storage/store.go:460-541 | over any run a visible copy stays unless its node deletes it or loses it in a power loss |
| Cluster.StaysPinned | internal/storage/store.go:522-541 | over any run a copy safe from power loss stays visible unless its node deletes it |
| ClusterReads.EmitsWhatPutSends | internal/cluster/coordinator.go:191-221 | the cluster's message rules are the coordinator's, in both directions |
| ClusterReads.StoresWhatPutStores | internal/cluster/coordinator.go:191-221 | a node stores every PUT but a client's for a key it does not hold, as hop dispatch does |
| ClusterReads.CoordinateInCluster | internal/cluster/coordinator.go:258-313 | the nodes Coordinate counts are exactly those that accepted among the ones the cluster lets a PUT count, and it acknowledges exactly when the cluster may |
| ClusterReads.OpenInCluster | internal/cluster/coordinator.go:408-455 | a client read through Open gives the verdict the read theorems speak of |
| ClusterReads.DurableCopiesOutlivePowerLoss | internal/cluster/coordinator.go:342-356 | a copy confirmed from a synced directory is there at every later moment unless deleted, whatever power losses came |
| ClusterReads.ConfirmedCopyIsThere | internal/cluster/coordinator.go:342-356 | any confirmed copy is there unless its node deleted it or lost it in a power loss since the PUT began |
| ClusterReads.AcknowledgedPutsStayReadable | internal/cluster/coordinator.go:408-472 | after an acknowledgement a read through any node succeeds while fewer nodes are missing than copies were wanted: down when asked, deleted or evicted since, or unsynced and then lost; for every choice of nodes and every interleaving |
| ClusterReads.DownHoldersAreNotAMiss | internal/cluster/coordinator.go:430-455 | with every holder down no other node serves the object, and none calls it missing |
| Convergence.SweepAsNode | internal/repair/repair.go:132-156 | a worker built for a node and swept to the end gives the record convergence needs; with two members, two replicas and no failing read, enough passes get there |
| Convergence.YesMeansSeen | internal/repair/repair.go:405-458 | a holder that answers that it has the object, or whose Put got past its directory sync, has the object visible within the window |
| Convergence.IndexedIsSteady | internal/storage/index.go:503-538 | a row indexed at the start of a window in which nothing is removed is in every page read during it |
| Convergence.SweepVisits | internal/repair/repair.go:282-461 | a finished sweep has visited every other holder of each such row |
| Convergence.OneSweepConverges | internal/repair/repair.go:282-475 | in any run of the cluster with a window in which nothing is removed and every node's worker sweeps with successful visits, every object there at the start is on exactly its holders at the end, and content-addressed copies are intact |
| Delivery.PutServesOneMore | internal/storage/store.go:416-567 | a fresh Put adds its body to what a node serves and changes nothing else |
| Delivery.DeliveryIsARun | internal/repair/repair.go:463-475 | sending a copy to a holder that lacks it is a run of the cluster that ends with exactly one more copy, the sender's bytes |
| Delivery.DeliveriesAreARun | internal/repair/repair.go:391-475 | any list of deliveries is a run of the cluster with exactly the copies it should have |
| Delivery.HolderStores | internal/cluster/coordinator.go:342-356 | a replica message in hand, the holder's upload, directory sync and answer are a run after which it is counted |
| Delivery.FullReplicationIsReachable | internal/repair/repair.go:391-475 | from any reachable state there is a run of repair deliveries to full replication: each object on exactly its holders, no old copy changed, each new one equal to an old one |
| Delivery.AcknowledgementIsReachable | internal/cluster/coordinator.go:258-356 | from any state whatever, a client PUT of a body that passes the checks, to a holder whose holders are different nodes, has a run that ends acknowledged, counting exactly the holders, with the object on each |
| Delivery.EveryCopyMayGoDown | internal/cluster/coordinator.go:408-455 | as many failures as copies are too many: an acknowledged PUT can be followed by the failure of every node that has the object |
| Delivery.OutageLosesNothing | internal/cluster/coordinator.go:408-455 | any nodes may go down together and come back, and every copy and every PUT in progress is as it was |

## Left out

- Sweep: does not model a failing RemoveBatch, because the code then counts the same rows again and its totals are not exact.
- Sweep: an index closed under a running evictor is not modelled; the node stops its evictor first.
- Round: inherits from Sweep that RemoveBatch succeeds; so do Drain and Relieve.
- EvictBatch: does not model a Put between unlinking a file and removing its row, which leaves a file without a row until the next startup.
- IndexFollowsDisk: holds for operations that do not overlap and whose index writes succeed, for the same reason.
- RepairStopsAtTheMark: holds for writes one at a time and a readable usage probe; concurrent writes can each pass the probe before any is counted.
- MarksAreOrdered: uses exact fractions where the code multiplies floating-point numbers.
- ScorePrefersRecentAndSmall: takes the base-2 logarithm as any increasing function of real numbers.
- OneSweepConverges: a visit that is declined over quota or cannot be made is retried by a later sweep, so it is not part of the window.
- AcknowledgedPutsStayReadable: a local disk that fails while being read ends the read with that error and is not counted among missing nodes.
- The recency of a flushed row: a flush can move a row's access time back past a later Put, so nothing is claimed about its order.
- ObjectsStored and BytesStored counters, which drift when an action-cache entry is overwritten.
- Agreement of action-cache values under concurrent overwrites, which the project does not promise.
- Durability of the shard directories themselves, which is assumed.
- A store opened without an index, where eviction, repair and recency do nothing.
- HTTP servers, routing, middleware, metrics, health and logging.
- SQL, write-ahead logging and connection pools: the index is a map with atomic operations that may fail.
- Timers, wake-ups and goroutine lifecycles: they appear as arbitrary interleavings and a cancelled flag.
- The statistics of how evenly keys spread over members.
- Configuration parsing, the benchmark, chaos and fixture programs.
