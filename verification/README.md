# Snapshot history cache

A Dafny 4.11 model of the part of the snapshotter node that remembers which snapshot (CID) every project
finalized at which epoch, with proofs of what readers of that memory may rely on. `dafny verify dfyconfig.toml`
checks the whole project.

## What is modelled

* **Blank-epoch bitmap** (`RedisString`, `BitmapSpec`, `RedisBitmap`, `BitmapConcurrency`). A set of integers packed,
  most significant bit first, into a Redis string. The class keeps the source's paths: one SETBIT per id, the
  GETRANGE / merge / SETRANGE window, and the two fallbacks. Every path is proved against the abstract `set<int>`.
  `BitmapConcurrency` splits the window path into its two Redis commands and looks at all interleavings.
* **Snapshot chain** (`History`, `SnapshotWriter`, `CacheModel`, `SnapshotChain`). The committer lists the last 200
  (epoch, cid) pairs in every snapshot, following the last accepted, announced or finalized one; `process_snapshot_cid` walks that chain back through the oldest
  links. Writer and reader are proved to undo each other, with the exact limits of one walk.
* **Resolvers** (`Resolver`, `Sorting`, `ProjectStore`, `Submissions`, `SnapshotReader`, `TimeSeries`). The contract
  fetch, the two bulk strategies, the bulk range resolver, the zip with epochs, the snapshot reader, and the spaced
  time series. They are methods on a class that holds the data hash, the bitmap string and the expiry members; the
  state change of the three cache writers equals a specification function (`Walk`, `Fetch`, `Batch`), about which the
  properties are then proved.
* **Sliding windows** (`VolumeWindow`, `ActivityWindow`). The trade volume, active pools and active tokens handlers.
* **Runs and expiry** (`CacheRuns`, `Expiry`). Whole runs of cache writes and cleanups, on one project's values and on
  the string keys that Redis sees; `Expiry.Shows` connects the two.
* **Block scanner** (`BlockScanner`). The event detector's polling loop over whole runs, crashes and restarts included.

`Common` and `Text` hold shared vocabulary (results, ranges, decimal strings, null CIDs).

## How to read the results

A *history* `h` maps the epochs a project finalized to their CIDs. A cache is *sound* for `h` when every cached CID is
`h`'s and every blank mark on an epoch of `h` is hidden by a cached CID. `Consistent(h, ipfs)` says that each reachable
snapshot of `h` lists links of `h` without leaving any out between its oldest link and itself; `ChainedIsConsistent`
proves it for everything the snapshot writer produces. `Faithful(h, w)` says that the contract reports only CIDs of `h`,
and reports nothing only for epochs that are pending or outside `h`; `Settled` says that it has decided an epoch. None
of these is about the cache, so the resolvers are proved from any sound cache. The reachable part of the content store
is an argument of every call, so fetches that fail are covered by leaving CIDs out of it. What one walk leaves behind
needs none of these assumptions (`WalkCachesItsLinks`), and it is what lets a known snapshot answer for epochs the
contract still has pending (`ProcessClosest`, `FetchBulkUsingPrevious`). `Fetch`, `Batch` and the batch handlers are
likewise pinned epoch by epoch and member by member (`FetchSucceeds`, `FetchOtherwise`, `BatchFrame`, `BatchScores`).

Where the code does not do what a reader might expect, the model states what it does, with the exact condition:

* the contract fetch marks its own epoch blank, so that epoch may read as blank after it expired
  (`FetchedEpochTurnsBlank`, `HitsSurviveCleanups`), and its error path writes the hash without the expiry set
  (`FailedFetchAgreesIff`);
* `ensure_complete` stops after the first thousand uncached CIDs (`GetSubmissionDataBulk`);
* a snapshot is announced before the collector accepts it, and until a first one is accepted the next commit builds on
  announced ones (`RejectedSnapshotIsListed`, `ListsAcceptedIff`, `AcceptedRoundTripIff`);
* a scanner without a saved marker starts over at each head until a poll leaves a position behind (`FirstFetchFails`,
  `CrashesLoseNothing`);
* overlapping bitmap windows can lose ids (`AllSurviveIff`), a late message leaves a stale aggregate
  (`LateMessagesAreStale`, in both window modules), a walk has a limited reach (`RecoveryIsCompleteIff`, `FullWalkIff`),
  and a project id with a bar blocks the cleanup (`BarBlocksCleanup`).

The docstring of `_detect_events` says that a scanner that is far behind processes the current block; the code goes back
ten blocks, and the model follows the code.

## Model

| member | source | states |
|---|---|---|
| SnapshotChain.ChainRecovery | snapshotter/utils/data_utils.py:1580-1619 | From an empty hash and bitmap, one depth-0 walk from commit n caches exactly the (up to 10200) commits before n, each with its CID, status 0 and a score seven days ahead, and marks blank exactly the commit-free epochs between the oldest of them and n; only the snapshots 0, 200, 400, ... commits back have to be reachable |
| SnapshotChain.RecoveryIsCompleteIff | snapshotter/utils/data_utils.py:49 | The whole history before the head is recovered if and only if at most 10200 commits precede it and on every level the snapshot can be fetched and the bitmap accepts the gaps |
| SnapshotChain.WriterReaderRoundTrip | snapshotter/utils/generic_worker.py:501-588 | Reader undoes writer: in every run of commits, with failed uploads and submissions, announcements seen late or never, and snapshots finalized by others, walking from any uploaded snapshot into an empty cache, through any part of the store that holds the snapshots 0, 200, 400, ... commits back, restores exactly the (epoch, cid) record of the commits it goes back to and exactly the blank epochs between them |
| SnapshotChain.AcceptedRoundTripIff | snapshotter/utils/generic_worker.py:371-404 | From an accepted snapshot, what comes back are the accepted commits alone if and only if the first accepted attempt found no earlier snapshot in the second and third lookup |
| SnapshotChain.WalkRestores | snapshotter/utils/data_utils.py:1554-1649 | The same reading for any chained list of at most 10201 links: hash entries are exactly the links before the head, blank marks exactly the epochs no link has |
| SnapshotChain.WalkRecovers | snapshotter/utils/data_utils.py:1580-1639 | From any cache, at any depth and through any reachable part of a chain, the result is the old cache plus exactly one contiguous stretch of commits and the gaps inside it |
| CacheModel.WalkCachesItsLinks | snapshotter/utils/data_utils.py:1580-1646 | Whatever else is stored or reachable: a walk from a reachable snapshot with accepted gaps leaves every epoch it lists cached with a listed CID, status 0 and a score seven days ahead, and every other epoch from its oldest link up to it blank |
| CacheModel.WalkGrows | snapshotter/utils/data_utils.py:1554-1649 | On any store a walk forgets no entry, score or mark, and every score it changes lies seven days ahead |
| CacheModel.LastLevelOnly | snapshotter/utils/data_utils.py:1614-1619 | From depth 50 on a walk touches nothing but its own links and gaps |
| SnapshotChain.UnreachableOldest | snapshotter/utils/data_utils.py:1580-1646 | A concrete walk in which only the head can be fetched: its links are cached and its gap is blank |
| SnapshotChain.OldestFromNothing | snapshotter/utils/data_utils.py:1614-1619 | Where the stretch starts when nothing is known: 200 commits further back per level left; it starts at commit 0 if and only if the levels reach that far and all can be fetched and fit |
| SnapshotChain.FullWalkIff | snapshotter/utils/data_utils.py:1611-1619 | From a cache that is not empty the stretch starts at the first commit if and only if every oldest link on the way is still unknown and within the depth bound, and on every level the snapshot can be fetched and the gaps fit |
| SnapshotChain.WalkReachesFirstIff | snapshotter/utils/data_utils.py:1611-1619 | Under exactly that condition the walk caches an unknown first commit |
| SnapshotChain.WalkLevel | snapshotter/utils/data_utils.py:1577-1646 | One level on any reachable part of a chain: nothing if the snapshot cannot be fetched or the bitmap raises, else gaps first, deeper level second, own links last |
| SnapshotChain.RecoveredJoin | snapshotter/utils/data_utils.py:1589-1602 | Recovering the older stretch and then the newer one equals recovering both at once, entry by entry and score by score |
| SnapshotChain.GapJoin | snapshotter/utils/data_utils.py:1584-1595 | The gap sets of two adjacent levels join to the gap set of the whole stretch |
| SnapshotChain.RecoveredIsRecord | snapshotter/utils/data_utils.py:1580-1609 | The recovered cache holds a CID exactly for the epochs of commits r..n-1 and a blank mark exactly for the epochs in between without any commit |
| SnapshotWriter.RollingChain | snapshotter/utils/generic_worker.py:501-588 | Over every run of commits at increasing epochs, whatever fails and whatever earlier announcement or finalized snapshot a lookup returns, the raw record and every announced commit end a chain in the content store: each snapshot of it lists exactly the last min(n, 200) links before it, epochs strictly increase |
| SnapshotWriter.ListsAcceptedIff | snapshotter/utils/generic_worker.py:501-523 | A snapshot lists exactly the last min(n, 200) accepted commits if and only if there are at least 200 of them or the later lookups found nothing at the first accepted attempt (at this attempt, when none was accepted before) |
| SnapshotWriter.RejectedSnapshotIsListed | snapshotter/utils/generic_worker.py:535-546 | A snapshot that was announced and then rejected by the collector is listed by the next one, although nothing was accepted |
| SnapshotWriter.LineageSplits | snapshotter/utils/generic_worker.py:371-404 | What a snapshot goes back to is what the first accepted attempt found, followed by the accepted commits |
| SnapshotWriter.TrailIsBacked | snapshotter/utils/generic_worker.py:524-588 | The trail of every uploaded snapshot stays a chain in the store for the rest of the run |
| SnapshotWriter.FoundIsBacked | snapshotter/utils/generic_worker.py:350-468 | Whichever of the three lookups answers, the snapshot it returns is the end of a chain in the store, older than the attempt; it answers nothing exactly when the lineage is empty |
| SnapshotWriter.EverySnapshotIsRecent | snapshotter/utils/generic_worker.py:501-523 | Every snapshot that is built, accepted or not, lists exactly the most recent links of its lineage: at most 200, strictly increasing |
| SnapshotWriter.CommitKeepsInv | snapshotter/utils/generic_worker.py:501-588 | One commit, whatever fails in it, keeps the raw record and all announcements ends of chains in the store |
| SnapshotWriter.RecentSnoc | snapshotter/utils/generic_worker.py:517-522 | Dropping one of 200 links and appending one keeps the list equal to the last min(n, 200) links |
| SnapshotWriter.PreparedIsRecent | snapshotter/utils/generic_worker.py:503-523 | The list built from what the lookups return equals the recent window of its lineage |
| SnapshotWriter.PreparedPayload | snapshotter/utils/generic_worker.py:501-523 | The payload of a snapshot is never changed, and nothing is when previous snapshots are not kept or none is found; otherwise the list ends with what was found first: the raw record, the stored announcement, the finalized snapshot |
| SnapshotWriter.SnapshotCommitter.CommitPayload | snapshotter/utils/generic_worker.py:499-588 | Raw record, announcements and store change as Commit says: announced as soon as uploaded, recorded only when accepted; a CID is returned only then |
| History.HistoryMapRecords | snapshotter/utils/generic_worker.py:522-523 | For increasing links, the history map and the list of links say the same |
| BitmapSpec.SetInRangeMembers | snapshotter/utils/redis/redis_bitmap.py:204-253 | Every path of set_bits_in_range (merge with short-string padding, sparse fallback, oversize fallback) leaves old set union ids, duplicates included, hence the same set as SETBIT by SETBIT |
| BitmapSpec.SetAllMembers | snapshotter/utils/redis/redis_bitmap.py:255-261 | A pipeline of SETBIT adds exactly the ids |
| BitmapSpec.MergedWrite | snapshotter/utils/redis/redis_bitmap.py:226-245 | Whatever window bytes were read, writing them merged yields: inside the window the ids and the bits read, outside it the string as it is now |
| BitmapSpec.MergedWriteMembers | snapshotter/utils/redis/redis_bitmap.py:226-245 | If the window is what the string holds, the write adds exactly the ids |
| BitmapSpec.StaleWriteMembers | snapshotter/utils/redis/redis_bitmap.py:226-245 | The same for a window read from an earlier string: membership after the write, for every id |
| BitmapSpec.ByteMaskBits | snapshotter/utils/redis/redis_bitmap.py:206-213 | Bit e mod 8 of the mask of byte e div 8 is set if and only if e is one of the ids |
| BitmapSpec.WindowCovers | snapshotter/utils/redis/redis_bitmap.py:215-219 | The first and last touched byte are touched bytes, are ordered, and enclose every id |
| BitmapSpec.CountMembers | snapshotter/utils/redis/redis_bitmap.py:457-479 | The number of set bit positions equals the size of the stored set, for every offset |
| RedisBitmap.RedisBitmap.SetBitsInRange | snapshotter/utils/redis/redis_bitmap.py:171-253 | Set becomes old union ids; the result is the window length if that is at most max_range_size and four times the touched bytes, else the number of ids, and never more than 4 * len(ids); a bound violation raises before anything is written |
| RedisBitmap.RedisBitmap.SetBits | snapshotter/utils/redis/redis_bitmap.py:125-169 | Set becomes old union ids and the result is exactly the growth of the set, duplicates counted once |
| RedisBitmap.RedisBitmap.SetBit | snapshotter/utils/redis/redis_bitmap.py:89-123 | Adds exactly the id; True exactly when it was absent; ValueError exactly outside offset..offset + 2^32 - 1, with the string untouched |
| RedisBitmap.RedisBitmap.FallbackToSetbit | snapshotter/utils/redis/redis_bitmap.py:255-261 | The fallback is SETBIT for every id |
| RedisBitmap.RedisBitmap.GroupByByte | snapshotter/utils/redis/redis_bitmap.py:206-213 | byte_map has exactly the touched bytes, each with the OR of its ids' bits, and at most len(ids) entries |
| RedisBitmap.RedisBitmap.OrInto | snapshotter/utils/redis/redis_bitmap.py:210-213 | One entry: 1 << (7 - bit) is ORed in, from 0 for a new byte, nothing else changes |
| RedisBitmap.RedisBitmap.MergeRange | snapshotter/utils/redis/redis_bitmap.py:231-247 | The merge path, also for a missing key or a short reply, writes the window that was read with the ids merged in, and returns its length |
| RedisBitmap.RedisBitmap.MergeInto | snapshotter/utils/redis/redis_bitmap.py:240-242 | In place, every window byte becomes its old value OR the byte_map entry |
| RedisBitmap.RedisBitmap.GetBitsInRange | snapshotter/utils/redis/redis_bitmap.py:342-422 | The same pairs, in input order, as get_bits, for every id list and string: strings shorter than the window, missing keys and the oversize fallback included |
| RedisBitmap.RedisBitmap.GetBits | snapshotter/utils/redis/redis_bitmap.py:296-340 | One pair per id, in input order, telling membership in the stored set |
| RedisBitmap.RedisBitmap.GetBit | snapshotter/utils/redis/redis_bitmap.py:263-294 | Membership in the stored set; ValueError exactly for an id out of bounds |
| RedisBitmap.RedisBitmap.GetBitCount | snapshotter/utils/redis/redis_bitmap.py:457-485 | BITCOUNT equals the size of the stored set |
| RedisString.CountIsCardinality | snapshotter/utils/redis/redis_bitmap.py:474-479 | Counting bits byte by byte counts the set bit positions |
| RedisString.SetBitBits | snapshotter/utils/redis/redis_bitmap.py:114-118 | SETBIT on the zero-padded string changes exactly one bit position |
| TimeSeries.SpacedIsUnique | snapshotter/utils/data_utils.py:1348-1362 | The sampling conditions determine the list of epochs |
| RedisString.MaskShift | snapshotter/utils/redis/redis_bitmap.py:208-213 | The most-significant-first mask of a bit position is 1 << (7 - position) |
| RedisString.TestShift | snapshotter/utils/redis/redis_bitmap.py:404-411 | Reading a bit by shifting right and masking agrees with testing the mask |
| BitmapConcurrency.Config.DisjointCallsAllSurvive | snapshotter/tests/test_redis_bitmap.py:223-258 | GETRANGE and SETRANGE being separate steps, every interleaving of any number of calls with pairwise disjoint byte windows ends in exactly the starting set and all their ids |
| BitmapConcurrency.Config.StepKeepsInv | snapshotter/utils/redis/redis_bitmap.py:215-247 | Between any two steps the string stores the start and the ids of finished calls, and a held window has all starting bits and no bit that is not stored |
| BitmapConcurrency.Config.StepEffect | snapshotter/utils/redis/redis_bitmap.py:215-247 | A step adds nothing or exactly its call's ids and touches no byte outside its own window |
| BitmapConcurrency.Config.AllSurviveIff | snapshotter/utils/redis/redis_bitmap.py:215-247 | For any number of calls with any windows: every finished interleaving stores exactly the starting set and all ids if and only if, for each call that takes the merge path, the ids of the others inside its window are its own or were stored from the start |
| BitmapConcurrency.Config.LosingRun | snapshotter/utils/redis/redis_bitmap.py:226-245 | Otherwise there is a finished interleaving that loses such an id: the merging call reads first and writes last |
| BitmapConcurrency.NeighboursCollide | snapshotter/utils/redis/redis_bitmap.py:226-245 | A concrete losing interleaving: two calls setting ids 0 and 1 of an empty string |
| BitmapConcurrency.Config.UsableWrite | snapshotter/utils/redis/redis_bitmap.py:226-245 | Writing a window read earlier adds exactly the call's ids when the other calls spare them |
| ProjectStore.ProjectStore.ProcessSnapshotCid | snapshotter/utils/data_utils.py:1554-1649 | The recursive method on hash, bitmap and expiry set does what Walk says, which WalkCachesItsLinks, WalkRecovers and LastLevelOnly pin |
| ProjectStore.ProjectStore.GapList | snapshotter/utils/data_utils.py:1584-1608 | The sorted leftover of the epoch range after discarding every listed epoch |
| ProjectStore.ProjectStore.BuildEntries | snapshotter/utils/data_utils.py:1587-1595 | Building the mapping from the newest link down keeps the oldest link's entry for a repeated epoch |
| Resolver.WalkImproves | snapshotter/utils/data_utils.py:1554-1649 | process_snapshot_cid keeps the cache sound wherever in the history it starts, whatever part of the chain is reachable and whether or not the bitmap raises; it forgets nothing and puts no blank mark on a cached epoch |
| Resolver.FetchImproves | snapshotter/utils/data_utils.py:332-450 | w3_get_and_cache_finalized_cid keeps the cache sound although it marks its own epoch blank; the only new epoch with both a CID and a blank mark is its own; it answers with the history's CID or null |
| Resolver.FetchImprovesFrom | snapshotter/utils/data_utils.py:332-450 | The same from a cache that is sound but for any set of epochs |
| Resolver.FetchIsExact | snapshotter/utils/data_utils.py:332-450 | For an epoch the contract has settled, and gaps the bitmap accepts, the answer is the history's CID, or null if there is none; and the cache remembers it: the epoch and every link its snapshot lists have CIDs, or the epoch is marked blank |
| Resolver.FetchSucceeds | snapshotter/utils/data_utils.py:384-450 | A successful fetch, epoch by epoch: it and every link of its snapshot get the contract's status plus one and a score of now + 604800, its gaps and itself are marked blank, and every other entry, score and mark is what the walk left |
| Resolver.FetchOtherwise | snapshotter/utils/data_utils.py:380-450 | The other outcomes, epoch by epoch: rejected gaps leave entries but no scores or marks, a pending epoch changes nothing, an epoch without a CID is marked blank or raises |
| Resolver.BatchFrame | snapshotter/utils/data_utils.py:685-709 | A batched fetch touches no epoch that was not requested |
| Resolver.FinalizeImproves | snapshotter/utils/data_utils.py:384-420 | Writing the fetched epoch's entry last makes the cache sound again |
| Resolver.BatchRemembers | snapshotter/utils/data_utils.py:661-709 | After a batched fetch every answered epoch has its CID and expiry member, or its blank mark |
| Resolver.BatchImproves | snapshotter/utils/data_utils.py:654-709 | The batched contract fetch keeps the cache sound and adds no epoch with both a CID and a blank mark |
| Resolver.ChainedIsConsistent | snapshotter/utils/generic_worker.py:501-523 | What the snapshot writer produces satisfies the reader's assumption about histories, for any reachable part of the content store |
| ProjectStore.ProjectStore.FetchAndCache | snapshotter/utils/data_utils.py:332-450 | The contract fetch on the real state does what Fetch says, every outcome of which FetchSucceeds and FetchOtherwise pin |
| CacheRuns.ReadsAreSound | snapshotter/utils/data_utils.py:120-145 | After any run of handler and resolver writes without cleanups, a hash hit is the history's CID and a blank answer comes only for epochs outside the history |
| CacheRuns.HitsSurviveCleanups | snapshotter/cacher.py:981-1024 | After any run at all, cleanups included, a hash hit is the history's CID, and an epoch of the history reads as blank only if the run fetched it from the contract or it carried both a CID and a blank mark from the start |
| CacheRuns.ApplyKeepsHits | snapshotter/utils/data_utils.py:384-450 | Each single event, cleanups included, keeps that, with the fetched epochs as the only exceptions |
| CacheRuns.ApplyKeepsSound | snapshotter/utils/data_utils.py:384-450 | Each single write keeps the cache sound |
| CacheRuns.CleanupKeepsSoundIff | snapshotter/cacher.py:981-1018 | One cleanup keeps a sound cache sound if and only if no expiring epoch has both a CID and a blank mark; runs are the subject of HitsSurviveCleanups |
| CacheRuns.EntriesLive | snapshotter/cacher.py:981-1018 | An entry that expires at some time is there after every run of later events and of cleanups before that time |
| CacheRuns.FetchedEntriesLive | snapshotter/utils/data_utils.py:426-431 | What a contract fetch cached, the epoch and every link of its snapshot, survives every cleanup earlier than seven days later |
| CacheRuns.ApplyKeepsAlive | snapshotter/cacher.py:769-787 | Each later event only puts an expiry off, and a cleanup before it removes nothing |
| CacheRuns.FetchedEpochTurnsBlank | snapshotter/utils/data_utils.py:405 | Because the fetch marks its own epoch, that epoch reads as blank once its entry has expired, although the history has it |
| CacheRuns.ExpiryAgreement | snapshotter/cacher.py:769-787 | Over every run of handler writes, resolver writes and cleanups without the fetch's error path, every cached epoch has an expiry member |
| CacheRuns.ApplyAgrees | snapshotter/utils/data_utils.py:426-431 | Each single write keeps hash and expiry set in agreement |
| CacheRuns.FailedFetchAgreesIff | snapshotter/utils/data_utils.py:437-441 | On the error path agreement survives if and only if the epoch and all links it caches had expiry members already |
| CacheRuns.WalkAgrees | snapshotter/utils/data_utils.py:1632-1644 | A walk adds hash entries and expiry members for the same epochs |
| ProjectStore.ProjectStore.GetFinalizedCidsBulk | snapshotter/utils/data_utils.py:183-323 | Raises if and only if the bitmap rejects the uncached epochs; empty if and only if there is no first epoch or no epoch of the clamped range can have data; otherwise one CID per epoch of max(min, first)..max in epoch order, each the own epoch's CID or null; null above the last epoch with data; exact at every epoch that is cached, blank, settled by the contract, or reached by the snapshot cached right above the largest open epoch, and, in every hole right below a cached epoch, at all but at most one of the epochs its snapshot reaches; and every epoch the contract has answered for is cached afterwards |
| ProjectStore.LineUp | snapshotter/utils/data_utils.py:314-323 | Pairs that answer every epoch of a range once, sorted by epoch, line up with the range |
| ProjectStore.ProjectStore.FetchBulkUsingPrevious | snapshotter/utils/data_utils.py:493-599 | Answers every requested epoch exactly once, after at most one contract fetch per epoch. Exact at every blank or settled epoch and, without the contract, at every epoch but the largest pending one that the closest known snapshot above that one reaches; one fetch is enough when it reaches them all. Of the epochs that any one known snapshot reaches, as the closest above them, at most one is not exact. What the contract has answered for is cached afterwards; raises if and only if the bitmap rejects the request |
| ProjectStore.ProjectStore.FetchLargest | snapshotter/utils/data_utils.py:542-591 | One turn of its loop: the largest pending epoch is fetched, no epoch served by the closest snapshot above it stays pending, every other answer is exact, and what was answered is kept |
| ProjectStore.ProjectStore.AllSure | snapshotter/utils/data_utils.py:542-595 | The turns together leave exactly the answers that are not sure to the contract |
| ProjectStore.ProjectStore.OneLeftNext | snapshotter/utils/data_utils.py:542-591 | A turn leaves at most its own epoch to the contract, and only if no earlier turn walked the snapshot that reaches it |
| ProjectStore.ProjectStore.HolesOf | snapshotter/utils/data_utils.py:262-323 | In a range, a cached epoch with a hole below it is the closest known pair above the epochs of the hole, so all but at most one of those its snapshot reaches are exact |
| ProjectStore.ProjectStore.RangeSure | snapshotter/utils/data_utils.py:289-305 | Within a range, the snapshot cached right above the largest open epoch is the closest known one above it |
| ProjectStore.ProjectStore.TakeResolved | snapshotter/utils/data_utils.py:566-591 | After each fetch exactly the epochs meanwhile marked or cached leave the work list, each with its own exact answer; none is answered twice |
| ProjectStore.ProjectStore.TakeBlank | snapshotter/utils/data_utils.py:569-578 | The blank epochs, and only they, leave the work list with a null answer |
| ProjectStore.ProjectStore.ProcessClosest | snapshotter/utils/data_utils.py:549-556 | Walks the snapshot of a closest known pair above the epoch, one level, unless it was walked before: if it is reachable with accepted gaps, every epoch from its oldest link up to it then has a CID or a blank mark; the cache stays sound |
| ProjectStore.ProjectStore.FetchOne | snapshotter/utils/data_utils.py:558-562 | A fetch inside the loop answers its own epoch, has the whole effect of the contract fetch, and keeps what the contract has answered |
| ProjectStore.ProjectStore.SplitBlank | snapshotter/utils/data_utils.py:525-535 | Request split into null answers and pending epochs: together exactly the request |
| ProjectStore.ProjectStore.SplitCached | snapshotter/utils/data_utils.py:262-287 | Range split into hash hits and the epochs without one: together exactly the range |
| ProjectStore.ProjectStore.ResolveMissing | snapshotter/utils/data_utils.py:289-323 | Every uncached epoch is answered exactly once by either fetch strategy, exactly where it is sure; raises if and only if the bitmap rejects them |
| ProjectStore.ProjectStore.ResolveRange | snapshotter/utils/data_utils.py:252-323 | Null tail, hits, blanks and fetched epochs together, sorted, have one CID per epoch of the range, exact where it is sure |
| ProjectStore.ProjectStore.FetchBulk | snapshotter/utils/data_utils.py:608-715 | One answer per requested epoch in request order, exact at every settled epoch; the state change is Batch, and what the contract has answered for is cached; raises if and only if the bitmap rejects the blanks found |
| ProjectStore.ProjectStore.Classify | snapshotter/utils/data_utils.py:661-683 | Contract answers to pairs, hash entries, scores and blanks |
| ProjectStore.ProjectStore.BatchStatus | snapshotter/utils/data_utils.py:630-650 | Batches of 50 cover the request exactly and in order |
| ProjectStore.ProjectStore.GetFinalizedCid | snapshotter/utils/data_utils.py:85-145 | A present answer is the history's CID; exact where hash or contract settle the epoch; the state changes exactly when the epoch is open, by one contract fetch; raises if and only if the epoch is looked up in the bitmap and out of its bounds |
| Sorting.FindClosestLarger | snapshotter/utils/data_utils.py:453-484 | For any unsorted list with repeats: an element with the least epoch above the key, the first listed of that epoch, and None if and only if there is no larger epoch |
| Sorting.SortStable | snapshotter/utils/data_utils.py:464-464 | The sort keeps pairs of the same epoch in list order |
| Sorting.SortSorts | snapshotter/utils/data_utils.py:466-466 | The sort by epoch orders and permutes |
| Sorting.AscendingUnique | snapshotter/utils/data_utils.py:314-323 | Two ascending lists with the same elements are equal |
| Sorting.SortedIsRange | snapshotter/utils/data_utils.py:319-323 | Sorted answers to every epoch of a range are in the range's own order |
| Submissions.CidCache.GetSubmissionDataBulk | snapshotter/utils/data_utils.py:831-901 | Without ensure_complete each CID reads as cached, or as fetched, in order. With it, an unresolved CID among the first 1000 uncached ones gives []; and a KeyError is raised if and only if those all resolve and some further uncached CID is left. What was fetched is cached when the project caches CIDs |
| Submissions.UnreadBeyondThousand | snapshotter/utils/data_utils.py:851-896 | That KeyError takes more than a thousand uncached CIDs |
| Submissions.CachedReadsStay | snapshotter/utils/data_utils.py:857-886 | Once read into the lite cache, a CID goes on reading the same, whatever can still be fetched |
| Submissions.FetchDataIs | snapshotter/utils/data_utils.py:801-828 | A CID reads as the payload stored under it without its predecessors, or as nothing when it is empty, null or unreachable |
| Text.HasNullIff | snapshotter/utils/data_utils.py:143-143 | A CID is null if and only if "null" occurs somewhere in it |
| Text.NoLetterNoNull | snapshotter/utils/data_utils.py:143-143 | A CID without the letter l, as base58 CIDs are, is not null |
| Text.NullCidNames | snapshotter/utils/data_utils.py:377-377 | Null CIDs of different epochs differ |
| Submissions.CidCache.FetchBatch | snapshotter/utils/data_utils.py:868-886 | One batch reads exactly its CIDs, changes no cached value and reports whether one is empty |
| Submissions.CidCache.Assemble | snapshotter/utils/data_utils.py:897-901 | The final list in input order; KeyError if and only if a CID was never read |
| SnapshotReader.SnapshotReader.GetEpochSnapshotBulk | snapshotter/utils/data_utils.py:1212-1266 | Whatever the cache holds, each returned snapshot was read under the history's CID of its own epoch, epochs increasing. It raises if and only if the bulk resolver does, or with ensure_complete the pairs are full and a CID beyond the first batch is left unread; with ensure_complete it is empty unless the pairs are full and the first batch can be read; when cache and contract cover the range, what is returned is exactly the history's window |
| SnapshotReader.AlignedPairs | snapshotter/utils/data_utils.py:1246-1251 | The blind zip pairs every surviving CID with its own epoch |
| SnapshotReader.ExactPairs | snapshotter/utils/data_utils.py:1246-1251 | An exact answer zips to exactly the history's window |
| SnapshotReader.FullPairs | snapshotter/utils/data_utils.py:1253-1255 | As many surviving pairs as epochs means every epoch is there |
| SnapshotReader.CoveredWindow | snapshotter/utils/data_utils.py:1240-1266 | A bulk answer for a range that can be answered carries the history's window |
| SnapshotReader.WindowTrim | snapshotter/utils/data_utils.py:252-257 | Clamping the lower end at the first epoch loses no snapshot |
| SnapshotReader.WindowSplit | snapshotter/cacher.py:567-577 | A window splits at any epoch |
| SnapshotReader.TailIs | snapshotter/utils/data_utils.py:1147-1161 | The tail is the window's length back, or the project's first epoch if that is closer |
| SnapshotReader.SnapshotReader.Zip | snapshotter/utils/data_utils.py:1246-1251 | The loop over the zipped pairs keeps exactly the non-null ones |
| TimeSeries.Epochs | snapshotter/utils/data_utils.py:1322-1362 | The sampled epochs are start, start - step, ... clamped at the first epoch: as many as asked for, fewer only when the first epoch was reached, which then comes last |
| TimeSeries.SpacedDescends | snapshotter/utils/data_utils.py:1348-1362 | No epoch is sampled twice unless the step is zero epochs, and none lies below the first |
| TimeSeries.NextSample | snapshotter/utils/data_utils.py:1349-1361 | Each sampled epoch is a step below the one before, cut off at the first |
| TimeSeries.EpochsIn | snapshotter/utils/data_utils.py:1326-1327 | The number of whole epochs in a time span |
| TimeSeries.Truncated | snapshotter/utils/data_utils.py:1344-1344 | Division truncated toward zero |
| TimeSeries.Cids | snapshotter/utils/data_utils.py:1332-1364 | Each sampled epoch gets the history's CID or none; exact when settled |
| TimeSeries.GetTimeSeries | snapshotter/utils/data_utils.py:1269-1371 | One snapshot or nothing per sampled epoch, in order, read under that epoch's own CID; exactly the history's sample when every sampled epoch is settled |
| VolumeWindow.IncrementalEqualsFresh | snapshotter/cacher.py:506-642 | Over every run of messages with nondecreasing epochs, the value at the marker, if present, is the exact volume of [tail, marker]; it is absent if and only if the last message repeated the epoch before it |
| VolumeWindow.HandleStaysFresh | snapshotter/cacher.py:543-642 | One message keeps that invariant, whichever of the correction and the fresh sum it takes |
| VolumeWindow.CorrectionIsExact | snapshotter/cacher.py:567-594 | The correction equals the fresh sum, also when the old window was clamped at the first epoch and the new one is not |
| VolumeWindow.LateMessagesAreStale | snapshotter/cacher.py:545-546 | With a value cached at the marker, a message stores the exact volume for every history if and only if it is not older than the marker or the marker lies at or below its tail |
| VolumeWindow.VolumeSplit | snapshotter/cacher.py:567-577 | Volume is additive over adjacent windows |
| VolumeWindow.VolumeOfEpoch | snapshotter/cacher.py:580-591 | One epoch's volume is the totalTrade stored in its snapshot, when that is reachable and positive, and 0 otherwise |
| VolumeWindow.VolumeSteps | snapshotter/cacher.py:604-624 | A window's volume is the sum over its epochs |
| VolumeWindow.CacheIsUsed | snapshotter/cacher.py:545-594 | With a value cached inside the window only the entering and leaving epochs are read, and the old value plus the former minus the latter is stored, or 0 if negative; a repeated or older epoch takes it over |
| VolumeWindow.VolumeIndexer.WindowTotal | snapshotter/cacher.py:543-624 | The total combines the cached value with the snapshots that were read, each under the history's CID of its own epoch; it is the corrected or fresh total of the history when every epoch can be answered |
| VolumeWindow.VolumeIndexer.Process | snapshotter/cacher.py:506-642 | That total is stored under the new epoch, the marker moves and the old value goes; the keys are those of Handle when every epoch can be answered; a failed fetch changes nothing |
| VolumeWindow.VolumeIndexer.Add | snapshotter/cacher.py:580-584 | The adding loop adds exactly the positive totalTrade values |
| VolumeWindow.VolumeIndexer.Subtract | snapshotter/cacher.py:587-591 | The subtracting loop subtracts exactly the positive totalTrade values |
| ActivityWindow.EveryTableIsExact | snapshotter/cacher.py:369-504 | Over every run of messages with nondecreasing epochs, from a correct seed the table at the marker stays present, gives every address its exact count over the marker's window, and has no negative count |
| ActivityWindow.HandleStaysPointwise | snapshotter/cacher.py:401-435 | One message keeps that, moves the marker exactly when it corrects, and leaves no negative count |
| ActivityWindow.CorrectedCount | snapshotter/cacher.py:410-429 | Per address: old count plus entering minus leaving epochs is the new window's count, also for addresses the table did not list |
| ActivityWindow.LeavingEpochs | snapshotter/cacher.py:413-415 | The epochs subtracted are exactly those of the old window below the new tail, clamped or not |
| ActivityWindow.ActivityOfEpoch | snapshotter/cacher.py:418-429 | In one epoch an address counts what the dictionary of its stored snapshot says, and 0 without one |
| ActivityWindow.ActivitySteps | snapshotter/cacher.py:418-429 | A window's activity is the sum over its epochs |
| ActivityWindow.CorrectedAddresses | snapshotter/cacher.py:418-429 | A corrected table lists exactly its old addresses and those of the snapshots that entered |
| ActivityWindow.LateMessagesAreStale | snapshotter/cacher.py:401-405 | A message leaves a correct table for every history if and only if it is not older than the marker or is ignored |
| ActivityWindow.ActivityIndexer.Process | snapshotter/cacher.py:369-504 | The tables after a pools or tokens message combine the old one with the snapshots that were read, each under the history's CID of its own epoch; they are those of Handle when every epoch can be answered; a failed fetch changes nothing |
| ActivityWindow.ActivityIndexer.Add | snapshotter/cacher.py:418-423 | Addition per address, missing addresses starting at 0 |
| ActivityWindow.ActivityIndexer.Subtract | snapshotter/cacher.py:425-429 | Subtraction per listed address; no address appears or disappears |
| Expiry.Cacher.Cleanup | snapshotter/cacher.py:981-1024 | When all due members split into project and epoch, exactly the due members are gone from the hashes and from the expiry set; when one does not, nothing changes; agreement of the two is kept |
| Expiry.Cacher.Group | snapshotter/cacher.py:1002-1008 | The groups hold exactly the due keys; fails if and only if a member does not split in two |
| Expiry.Cacher.DeleteGroups | snapshotter/cacher.py:1010-1016 | One HDEL per project deletes exactly what per-entry deletes would |
| Expiry.SplitMember | snapshotter/cacher.py:1005 | project|epoch splits back to its parts if and only if neither has a bar |
| Expiry.MembersAreUnique | snapshotter/cacher.py:697-702 | Members of bar-free project ids never collide |
| Expiry.BarBlocksCleanup | snapshotter/cacher.py:1005 | A project id with a bar: once one of its members is due, no later pass removes anything of any project, over any run of passes and writes that do not write that member again |
| Expiry.WriteShows | snapshotter/cacher.py:684-702 | A handler write with string keys changes that epoch of that project's view and no other project's view |
| Expiry.SweepShows | snapshotter/cacher.py:989-1018 | On each project's view the pass over all projects is that project's own cleanup |
| Expiry.Cacher.HandleSubmitted | snapshotter/cacher.py:684-702 | Hash entry and expiry member of a submitted snapshot; agreement kept |
| Expiry.Cacher.HandleFinalized | snapshotter/cacher.py:733-787 | Hash entry, expiry member and last finalized epoch; agreement kept |
| Expiry.Cacher.HandleBatch | snapshotter/cacher.py:278-367 | All fields, members and last finalized epochs of a batch, although the old values are read before any write runs; BatchFields, BatchScores and AllFinalizedIs say what that is for every project |
| Expiry.BatchFields | snapshotter/cacher.py:333-343 | A batch sets exactly the one field of exactly the projects it names, the last entry of a project counting |
| Expiry.BatchScores | snapshotter/cacher.py:345-351 | A batch scores the members it names; every other member is there as before with the same score |
| Expiry.BatchShows | snapshotter/cacher.py:333-351 | A batch changes one epoch of the view of each project it names and no other project's view |
| Expiry.AllFinalizedIs | snapshotter/cacher.py:316-331 | A batch raises the last finalized epoch of exactly the projects it names |
| Expiry.AllFinalizedAt | snapshotter/cacher.py:318-331 | Reading the old last-finalized value and reading that of the earlier batch entries come to the same |
| Expiry.LastFinalizedIsMax | snapshotter/cacher.py:752-767 | In whatever order finalizations arrive, the stored epoch is the largest that arrived |
| BlockScanner.UndisturbedRun | snapshotter/system_event_detector.py:321-432 | Without deaths, over every run of polls with rising heads and any failed polls: ranges are disjoint, increasing, at most ten blocks long; of the blocks up to the marker exactly those above the start were broadcast, once each, except those given up. The start is the saved marker, or without one the block before the head of the first poll that leaves a position behind |
| BlockScanner.CrashesLoseNothing | snapshotter/system_event_detector.py:349-432 | Whatever dies and restarts: a block up to the marker was broadcast in full or given up if and only if it lies above the start, or, without a saved marker, is a head sent by a process that died before any position was kept. A block is broadcast once plus at most once per range a process died with, and there is at most one such range per death |
| BlockScanner.FirstFetchFails | snapshotter/system_event_detector.py:400-422 | Without a saved marker blocks are lost: when the first fetch fails, all blocks from that head up to the next one are neither broadcast nor given up, and the marker passes them |
| BlockScanner.RunIsEarly | snapshotter/system_event_detector.py:349-432 | What any run knows of the blocks up to its start: where it starts, and which of them were sent |
| BlockScanner.ResendsStartAboveMarker | snapshotter/system_event_detector.py:350-378 | A broadcast range starts above the persisted marker and above the position in memory and ends at the head |
| BlockScanner.SkippedExactly | snapshotter/system_event_detector.py:368-374 | Over a whole run, a block is given up if and only if some poll whose lag exceeded ten found it between its position and ten below its head |
| BlockScanner.CompletedPollCatchesUp | snapshotter/system_event_detector.py:368-432 | A completed poll makes progress: the marker is at the head and every block above the old position and less than ten below the head was broadcast in full |
| BlockScanner.DeathOutcomes | snapshotter/system_event_detector.py:64-75 | A failed poll sends nothing and keeps the marker; a hard death keeps the marker and forgets the position; a graceful one saves it |
| BlockScanner.RunKeepsInv | snapshotter/system_event_detector.py:321-445 | Every poll keeps the counts, the order, the range length, and coverage above the block where accounting starts |
| BlockScanner.StepCovered | snapshotter/system_event_detector.py:368-432 | A poll keeps every block from the start of accounting up to the position broadcast or given up |
| BlockScanner.StepRare | snapshotter/system_event_detector.py:424-432 | A poll keeps the bound on repeated broadcasts |
| BlockScanner.EventDetector.PollOnce | snapshotter/system_event_detector.py:328-432 | One turn of the loop, or a death in it, moves field, marker and broadcasts as Step says |
| BlockScanner.EventDetector.DetectEvents | snapshotter/system_event_detector.py:321-445 | Any number of turns does what Run says |
| BlockScanner.EventDetector.Die | snapshotter/system_event_detector.py:64-75 | A graceful exit saves a known position and nothing else |

## Left out

- ProjectStore.ProjectStore.GetFinalizedCidsBulk: exactness is stated for the epochs the hash, the bitmap, the contract or a cached snapshot above decides, because any other epoch is answered null by design; alignment and soundness hold without that.
- VolumeWindow.VolumeIndexer.Process: equality with the history's total is stated only when the node can answer for every epoch the message reaches, because a snapshot that cannot be fetched is silently counted as 0.
- VolumeWindow.VolumeIndexer.WindowTotal: the same condition for the same reason.
- ActivityWindow.ActivityIndexer.Process: the same condition; the seed table is an argument because neither handler ever creates one.
- ActivityWindow.EveryTableIsExact: takes one project's messages; neither the tables nor the markers of pools and tokens are separated by project in Redis, so messages of several projects sharing them are not covered.
- CacheRuns.CleanupKeepsSoundIff: speaks of one cleanup; what whole runs with cleanups keep is HitsSurviveCleanups.
- BlockScanner.UndisturbedRun: heads never fall and are at least 1; a chain reorganisation that lowers the head is not covered.
- BlockScanner.CrashesLoseNothing: a range broken off in the middle counts as not delivered as a whole; which of its events went out is not modelled.
- TimeSeries.Epochs: epoch lengths are exact reals and step lengths are positive; float rounding is not modelled.
- SnapshotWriter.RollingChain: epochs of attempts increase and snapshot objects start with an empty list; a snapshot the third lookup returns is assumed older and built by the same rule. A lookup that raises is an attempt that uploads nothing.
- Float rounding of trade volume: volumes are exact integers.
- Redis TTLs, the "processing" locks with their 600 seconds, and wall-clock time other than the scores compared with now.
- RPC, contract and IPFS calls with their retries: replaced by a given contract state and content store; a retry is another call.
- Concurrency of handlers and of gathered calls: each Redis pipeline, each handler and each resolver is one atomic step, except in BitmapConcurrency; so the gap between reading and writing the last finalized epoch, and the moments when a fetch has marked its own epoch but not yet written its entry, are not observed.
- The lite snapshot copies and the set of CIDs to cache that process_snapshot_cid also writes.
- Reading the closest epochs around a missing one (seek in get_project_epoch_snapshot): an easy scan of the hash keys.
- Links with non-numeric epochs or non-string CIDs in a stored record, which the committer filters out.
- Type, key and connection checks of RedisBitmap; only its numeric bounds and batch size are kept.
- Task dispatch, signing, API endpoints, configuration loading, health pings and unpinning.
