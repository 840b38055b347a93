# A verified model of the lakehouse row cache

The system is an LSM engine whose durable bottom level is a table of Parquet files in a lake. Writers take a
log sequence number (LSN), append to a segmented write-ahead log, then insert into a memtable. A flush freezes
the memtable, plans, stages, publishes one file to the lake, refreshes the cached file index, truncates the log
and retires the memtable. `open` rebuilds everything volatile from the lake's files and the log above the
highest published LSN. Reads ask the memtables, then the files newest first.

The project models that engine in Dafny and proves what it promises, layer by layer:

| file | what it holds |
|---|---|
| `Bytes`, `Records`, `Frames`, `Checksums` | little-endian integers, key order, the log frame's encoder and decoder, the replay loop, CRC-32 and the damage it catches |
| `Wal`, `WalContents`, `WalRuns`, `WalSizes`, `WalOrder`, `WalLimits` | the segmented log as a class and as a value; what each operation does to the multiset of records on disk; whole runs with torn writes; how full segments get; when replay is in LSN order; when a segment's name is reused |
| `Memtable` | one memtable, the set of active and frozen ones, arrival-order independence |
| `Bloom`, `WriterBlooms`, `Lake` | the split-block bloom filter, against its own construction and against a filter the catalog's writer made; row-group and interval pruning, the sorted file index, the pruned read against a naive one |
| `Flush`, `Names` | the flush plan, batching, segment and staging names |
| `Cache` | the byte-bounded LRU: two cross-linked maps against an abstract recency list |
| `Protocol`, `Invariant`, `Steps`, `Recovery` | the engine as a step machine with a crash enabled everywhere, and the invariant each step keeps |
| `Guarantees`, `Linearizable` | what holds in every reachable state |
| `SingleClient` | one client that reopens after a flush that stopped early: it needs no guard but the size bounds |
| `Limits`, `FreezeLimits`, `FlushLimits`, `OrderLimits`, `OvertakeLimits` | what the code does not enforce: the exact condition under which each step is safe, and runs that break it |
| `EngineRuns`, `EngineSolo`, `Engine` | the engine as a class whose methods are runs of protocol steps |

`dafny verify dfyconfig.toml` checks the whole project.

## The protocol

A state holds the log (files and in-memory segment list), the lake's live files in publish order, the staged
files, the next LSN, the writers between taking an LSN and logging (`pending`) and between logging and inserting
(`logged`), the memtables, the cached index, and a flush program counter. `history` is bookkeeping: every record
acknowledged, or found durable by an open. `Enabled` and `Apply` are the code's steps; any number of writers, the
flush pipeline and crash-then-open interleave in any order. A crash may tear the append in progress at any byte,
and may fall between any two unlinks of a truncation. In two respects the steps are not the code's. A flush may
take up any queued table, where `flush_inner` only ever plans the one it has just frozen. And there is one flush
program counter: **one flush runs at a time**, an assumption the code does not enforce. Calls that overlap are
covered only as far as one flush can wait, frozen but not planned, while another runs; that is the case of
`OvertakeLimits`. `Guard` is what else the code leaves to its callers or to luck:

- **Begin**: the LSN stays below 2^63 (the lake stores it as a signed column) and the record's payload is
  shorter than 2^32 bytes. Frames of longer payloads do not decode, see `Records.FrameRoundTrip`.
- **Log** and a tear: a rotation does not reuse the name of a file already in the directory (`FreshName`).
- **Freeze**: every write in flight outranks the table being frozen.
- **PlanFlush**: the oldest frozen table goes first. A table that an abandoned flush left published is taken up
  again only when the index shows its file; the documentation describes such a retry, the code never makes one.

A client that issues one call at a time and reopens after any flush that stopped early meets every one of these
but the size bounds by itself: `SingleClient.SoloRunsAreGuarded`.

`Reachable` means reachable by guarded steps from an empty lake and an empty directory.

Assumptions that hold throughout: a tear leaves a byte prefix of what was written; each published file is well
formed (sorted unique keys, exact bounds, exact row-group statistics except that the last group may lack them,
a bloom built over all its keys).

## What the code does not enforce

Each of these is a place where the code falls short of its own documentation, with the exact condition.

- **A late writer.** A writer that took its LSN before the freeze and inserts after it can be hidden by, or can
  hide, newer data without any crash; once the frozen table is published the late record is below the watermark,
  so its own table is planned as already published and dropped. `FreezeLimits.FreezeGuardIsExact` says freezing is
  safe if and only if no write in flight is outranked by the table, wherever the pipeline stands and whatever is
  queued. One state is left out: a flush abandoned between its publish and its index refresh. There nothing more
  is published or dropped until the next open (`FreezeLimits.StuckIsInert`), so no watermark can pass a late
  record, and the guard is stronger than reads need. `FlushLimits.LateWriterHappens` reaches the unsafe state by
  two concurrent puts.
- **Publishing out of order, then crashing.** `flush_inner` always flushes the table it has just frozen. After a
  flush that stopped early, or beside one still waiting, an older table stays queued and the next flush publishes
  past it. `OrderLimits.OldestFirstIsExact` says a crash then keeps everything if and only if each key jumped over
  was written again at or above the published table. `OvertakeLimits.OutOfOrderHappens` reaches it from an empty
  engine.
- **An overtaken flush, with no crash.** When the older flush resumes it finds its table at or below the published
  watermark, takes the branch for a retry, truncates the log and drops the table, whose rows are in no file.
  `OvertakeLimits.OvertakenFlushIsExact` says reads stay right if and only if each of the dropped keys is in the
  published table or above it, and, while tables still wait, if and only if none of them hides a key of the newer
  table. `OvertakeLimits.OutOfOrderHappens` gives the run. From a reachable state the flush of a table just frozen
  never takes that branch (`EngineRuns.FreshFlushWrites`): it is not an idempotent retry in any run the guards
  allow, and in the runs they exclude it drops data.
- **Reusing a segment's name.** `rotate` names a segment by the next record's LSN and opens the file if it
  exists. With writers logging out of LSN order a torn rotation can leave a file whose name a later rotation
  reuses; truncation then unlinks the active file. `WalLimits.NameReuseIsExact` gives the condition and
  `WalLimits.NameReuseHappens` a run that loses a record. With one writer it cannot happen
  (`WalOrder.UpwardIsSequential`).
- **Replay out of LSN order.** Segments replay in name order. If a torn write of a higher LSN named the active
  segment, a later rotation may name a segment below it: durable LSNs 5, 6, 7 then replay as 5, 7, 6
  (`WalOrder.ReorderHappens`). `WalOrder.ReplayOrderIsExact` says replay stays in order if and only if the rotation
  names the new segment above the one it seals. The memtable does not depend on the order.
- **A row group without statistics** hides the groups after it, so only the last may lack them
  (`Lake.StatsConditionIsExact`).
- **A cached range that comes back longer or shorter.** `ByteCache::insert` subtracts the new length, not the old
  one. The counter stays exact if and only if the lengths agree, or the range grew and its old bytes were all the resident bytes;
  `ByteCaches.ByteCache.Insert` says so.
- **The comment on `max_lsn`** (src/memtable.rs:81-84) says it advances for a losing record. It never does: a
  loser is outranked by an entry for its own key (`Memtables.WatermarkIsExact`).

## Model

| member | source | states |
|---|---|---|
| Guarantees.GetRefinesMap | src/engine.rs:160-174 | In every reachable state, under any interleaving of writers, flush steps and crashes, a get answers the highest-LSN record acknowledged or recovered for the key, a tombstone answering None |
| Guarantees.CrashLosesNothing | src/engine.rs:66-125 | A crash anywhere, mid-append and mid-truncation included: the open succeeds, keeps every acknowledged and every logged record, and gains exactly the in-flight write whose whole frame was on disk |
| Guarantees.NextLsnIsExact | src/engine.rs:89-91 | The reopened engine's next LSN is above every record in the directory and every published watermark, and is the first such number |
| Guarantees.RebuiltIsDurableFold | src/engine.rs:85-91 | After a crash and open, get answers the per-key highest-LSN fold of all records durable in the lake or the log |
| Guarantees.SecondRestartChangesNothing | src/engine.rs:66-125 | Crashing and opening again reproduces the same state, field by field |
| Guarantees.PlanIsExact | src/flush.rs:83-94 | In reachable states the plan is Write exactly when none of the oldest frozen table's rows is in the lake, and AlreadyPublished exactly when the newest file holds all of them |
| Guarantees.PublishedExactlyOnce | src/engine.rs:187-230 | Over every run, across crashes, files' LSN ranges are disjoint and ordered by watermark, and no two durable records share an LSN |
| Guarantees.WatermarksCoincide | src/index.rs:174-176 | Once a flush has refreshed the index, the planned watermark, the lake's MAX(lsn), the index's watermark and the table's highest LSN are one number |
| Linearizable.ReadIsLinearizable | src/engine.rs:160-174 | The two-phase read, with any guarded steps but a restart between its looks, returns the abstract map's value for the key at some instant in between |
| ProtocolRecovery.StepKeeps | src/engine.rs:127-271 | Each guarded step keeps the protocol invariant |
| ProtocolRecovery.RestartIsPossible | src/engine.rs:66-125 | Under the invariant an open after any crash is possible |
| ProtocolSteps.InsertKeeps | src/engine.rs:149-151 | Inserting a logged record, in any order among the writers of one active table, keeps every record in one home and every layer above the older ones |
| ProtocolSteps.PublishKeeps | src/engine.rs:223-232 | Publishing moves a table's rows into the lake without losing, duplicating or reordering a layer |
| ProtocolSteps.TruncateKeeps | src/engine.rs:242 | Truncation after a publish removes nothing that is not durable in the lake |
| ProtocolSteps.UnlinkKeeps | src/wal.rs:165-176 | So does every single unlink of a truncation, so a crash between two of them is covered |
| Limits.LookupPicksVisible | src/engine.rs:160-174 | Over well-formed files the tiered lookup answers the newest visible layer's entry, whatever the index shows; `Faithful` is stated with it |
| FreezeLimits.FreezeGuardIsExact | src/memtable.rs:207-220 | Unless a flush was abandoned between its publish and its index refresh: freezing is safe in every guarded continuation if and only if every write in flight outranks the table |
| FreezeLimits.StuckIsInert | src/engine.rs:223-240 | In that remaining case no guarded step but a restart publishes, drops or refreshes anything |
| FlushLimits.LateWriterHappens | src/engine.rs:127-158 | Two concurrent puts reach a state in which freezing is unsafe |
| OrderLimits.OldestFirstIsExact | src/engine.rs:187-230 | Publishing a newer frozen table past older unpublished ones and then crashing, mid-append or not, keeps reads faithful if and only if each key jumped over was written again: in that table, above it, or by a write whose whole frame is on disk |
| OvertakeLimits.OvertakenFlushIsExact | src/engine.rs:187-213 | A newer table is flushed whole while older ones wait, then some of those flushes resume and skip: with no crash, reads stay faithful if and only if no key is harmed; once all have resumed, if and only if each key jumped over is in the published table or above it |
| OvertakeLimits.OutOfOrderHappens | src/engine.rs:187-213 | Two writes and two freezes from an empty engine reach a state in which both of those lose an acknowledged record |
| EngineRuns.FreshFlushWrites | src/engine.rs:197-212 | From a reachable state the flush of a table just frozen always publishes it; the already-published branch is never taken |
| SingleClient.SoloRunsAreGuarded | src/engine.rs:66-263 | One client that reopens after any flush that stopped early meets every guard by itself, segment-name freshness and flush order included, with a positive segment size and the size bounds |
| SingleClient.ReadsLastWrite | src/engine.rs:160-174 | Whatever that client did and wherever it crashed, a read answers its last write to the key that was acknowledged or had reached the disk whole |
| EngineRuns.FlushIsARun | src/engine.rs:186-256 | One flush, with each of the four crash points and a failing truncation, is a run of protocol steps, guarded when the queue was empty and the index fresh |
| EngineRuns.WriteIsARun | src/engine.rs:127-158 | A put or delete is the run take-LSN, log, insert |
| EngineRuns.QuietIsFresh | src/engine.rs:234-263 | In a reachable state with an empty queue the index shows every file |
| Engines.Engine.Open | src/engine.rs:66-125 | The engine built from a dead process's lake and directory is the state the protocol's restart gives, with the caller's memtable threshold; an error is the damage the log's open found; from a reachable state it always opens, into a reachable state, with the first free LSN; what a single client left, a stopped flush or a torn write included, always opens ready for its next call with nothing forgotten |
| Engines.Engine.Append | src/engine.rs:140-158 | Durable, then visible; a flush follows exactly when the active table is full and the queue has room. The answer is `Ok`, a stall exactly when the table is full and the queue too, or an I/O error exactly when that flush's truncation met a missing file; from a reachable state under the write guard, whatever is queued, it is `Ok` unless it stalls. After `Ok` the entries held add up to less than a positive threshold. Reachable states with an empty queue stay reachable under the write guard; for a single client the size bounds alone are enough and the record is the map's |
| Engines.Engine.Put | src/engine.rs:127-131 | Takes the next LSN; the new state is the run of a put record followed by the flush, if any; the answer is pinned as for `Append`, and after `Ok` the active table's keys and values, with 64 bytes for each entry, total less than the threshold if that is positive; for a single client it succeeds and the record becomes the map's answer |
| Engines.Engine.Delete | src/engine.rs:133-137 | The same with a tombstone |
| Engines.Engine.Get | src/engine.rs:160-174 | Answers the tiered lookup, and in a reachable state, or between a single client's calls, the abstract map's value |
| Engines.Engine.Flush | src/engine.rs:186-256 | Refuses exactly when the queue is full, does nothing on an empty table, otherwise runs the flush's steps. It answers `Committed` exactly when the lake grew by one file, which holds the table's entries and which the index shows; `AlreadyInLake` exactly when the table was dropped with the lake unchanged; an I/O error exactly when truncation met a missing file, never from a reachable state. The watermark answered is the table's highest LSN and the lake's; every sealed segment left by its truncation holds a record above it or none at all; a whole flush leaves neither the table nor its staging file behind; for a single client it never fails |
| Engines.Engine.PublishIndex | src/engine.rs:259-263 | The index becomes the lake's files newest first |
| Engines.Engine.TruncateWal | src/engine.rs:265-271 | Only the log changes, as truncation through the watermark does |
| Records.Encode | src/record.rs:82-97 | The back-patched buffer is the old buffer followed by the record's frame |
| Records.FrameRoundTrip | src/record.rs:101-155 | Decoding a frame, whatever follows it, gives back the record and the frame's size; stated with the exact payload bound |
| Records.DecodeIsExact | src/record.rs:128-155 | Past the checksum a payload decodes to a record if and only if it begins with that record's encoding; anything else is damage |
| Records.CutFrameIsTorn | src/record.rs:101-115 | Every strict prefix of a frame decodes as a torn tail, never as damage |
| Records.PayloadLayout | src/record.rs:70-92 | Where each field of a payload starts, and that lengths and the LSN are spelled least significant byte first |
| Checksums.DamagedFrameIsTorn | src/record.rs:110-115 | A frame whose payload was damaged in any way within four consecutive bytes decodes as a torn tail, never as a record |
| Checksums.CheckValue | src/record.rs:94 | The checksum of "123456789" is CRC-32's published check value, 0xCBF43926 |
| Frames.ReplayOfPrefix | src/wal.rs:238-254 | For every byte prefix of encoded frames, replay returns exactly the records whose frames lie wholly in it, and where they end |
| Frames.CutThenAppend | src/wal.rs:74-84 | Cutting the file there and appending more frames replays to the old records followed by the new |
| Frames.ReplaySegment | src/wal.rs:238-254 | The replay loop computes that replay and its highest LSN |
| WalLog.Wal.Append | src/wal.rs:128-156 | Rotates a full segment first, then writes all frames at once; the whole new log is stated |
| WalLog.Wal.Rotate | src/wal.rs:187-207 | Seals the active segment and opens the named file, keeping bytes already in it |
| WalLog.Wal.TruncateThrough | src/wal.rs:165-176 | Unlinks the covered sealed segments in order, stopping at the first missing file; what covered means in records is `WalContents.TruncatedKeeps` |
| WalLog.OpenWal | src/wal.rs:65-124 | Lists, repairs and replays every segment, resumes the newest, or fails with the first damaged one |
| WalLog.ListSegments | src/wal.rs:213-234 | The directory's segments once each in increasing order |
| WalContents.AppendedKeeps | src/wal.rs:128-156 | An append adds exactly its records to the multiset on disk and keeps the log's invariant |
| WalContents.TornAppendKeeps | src/wal.rs:74-84 | A torn append adds exactly the records whose frames were whole, and leaves a readable directory |
| WalContents.TruncatedKeeps | src/wal.rs:165-176 | Truncation unlinks a sealed segment exactly if its file holds some record with an LSN above 0 and none above the watermark; so no record above the watermark goes, and every other file keeps its bytes |
| WalContents.TruncationLeaves | src/wal.rs:165-176 | Every sealed file left after truncation holds a record above the watermark, or none at all |
| WalContents.UnlinkedFirstKeeps | src/wal.rs:172-174 | So does each single unlink, and finishing the truncation from there ends where the whole would |
| WalContents.OpenReads | src/wal.rs:65-124 | Opening a readable directory repairs it without losing a record and replays exactly those above the watermark |
| WalContents.OpenIsIdempotent | src/wal.rs:65-124 | Opening what an open left changes nothing |
| WalRuns.ReplayIsExact | src/wal.rs:65-124 | After any run of appends, rotations, truncations, tears and reopens, opening at or above every truncation watermark replays exactly the durable records above it, each as often as logged |
| WalRuns.SequentialReplayIsInOrder | src/wal.rs:65-207 | When durable LSNs strictly increase and rotations name segments upward, every such run is possible without a name guard, and replay is in strictly increasing LSN order |
| WalSizes.SegmentsFillUp | src/wal.rs:128-156 | Over any run of upward rotations, torn writes and reopens included, every sealed file has at least the size limit in bytes, and every file has less than the limit without its last batch |
| WalOrder.UpwardIsSequential | src/wal.rs:128-156 | A writer whose LSNs only go up, torn attempts included, rotates upward by itself |
| WalOrder.ReplayOrderIsExact | src/wal.rs:69-89 | After such a run, one more batch with higher LSNs keeps replay in order if and only if it does not rotate below the segment it seals |
| WalOrder.ReorderHappens | src/wal.rs:187-207 | A concrete run in which durable LSNs 5, 6, 7 replay out of order |
| WalLimits.NameReuseIsExact | src/wal.rs:187-207 | The active file outlives every truncation if and only if the append did not rotate onto a live segment that holds records |
| WalLimits.NameReuseLosesRecord | src/wal.rs:165-207 | What reuse costs: a record above the watermark is gone after truncation |
| WalLimits.NameReuseHappens | src/wal.rs:187-207 | A concrete run from an empty directory in which that happens |
| Names.SegmentNameRoundTrip | src/wal.rs:209-234 | Printing a u64 in 20 zero-padded digits, then stripping the suffix and parsing, is the identity, and every name has the same length |
| Names.NameOrderIsLsnOrder | src/flush.rs:96-103 | Byte order of segment and staging names is LSN order |
| Memtables.WatermarkIsExact | src/memtable.rs:67-113 | After any inserts `max_lsn` is the highest LSN among surviving entries |
| Memtables.SizeEstimateIsExact | src/memtable.rs:67-87 | After any inserts the byte estimate is key length, value length and 64 summed over every record inserted, and at least the same sum over the surviving entries |
| Memtables.ArrivalOrderIsIrrelevant | src/memtable.rs:67-87 | Any permutation of records with distinct LSNs builds the same table, byte estimate and watermark included |
| Memtables.InsertedAllHolds | src/memtable.rs:67-97 | Per key the table holds the highest-LSN record inserted, and nothing else |
| Memtables.Memtable.Insert | src/memtable.rs:67-87 | A record takes its key's place only if it outranks what is there; size and watermark are those of `Memtables.SizeEstimateIsExact` and `Memtables.WatermarkIsExact` |
| Memtables.Memtable.Get | src/memtable.rs:89-97 | Found, deleted or missing |
| Memtables.Memtable.Iter | src/memtable.rs:125-129 | Every entry once, in strictly increasing key order |
| Memtables.MemtableSet.Get | src/memtable.rs:175-189 | Active first, then frozen newest first; the first table with an opinion answers |
| Memtables.MemtableSet.Freeze | src/memtable.rs:207-220 | Refuses when full, does nothing when empty, else queues the active table last behind a fresh one |
| Memtables.MemtableSet.Retire | src/memtable.rs:226-229 | Drops that table by identity; the rest keep their order |
| Memtables.MemtableSet.Insert | src/memtable.rs:171-173 | Only the active table changes |
| Blooms.AddedKeysAreFound | src/bloom.rs:60-71 | A filter made by OR-ing keys' masks in any order, with any later ORs, answers true for each of them |
| Blooms.FilterIsExact | src/bloom.rs:60-71 | A filter built from nothing answers true for a key if and only if each of its eight bits was set by some added key of the same block; so an empty filter rejects every key |
| WriterBlooms.AgreesWithWriter | src/bloom.rs:155-179 | The hash, the mask and the word layout agree with a filter the catalog's writer made: keys of two, three and four bytes that it holds are found, a key it lacks is dismissed |
| Blooms.SlotInBounds | src/bloom.rs:60-71 | Every probe index is in bounds |
| Blooms.BlockIndexInBounds | src/bloom.rs:83-85 | For 1 to 2^32 blocks the index is below the block count, monotone in the upper hash, and the product fits 64 bits |
| Blooms.BlocksAreUniform | src/bloom.rs:82-85 | Each block receives the floor or the ceiling of 2^32 / n upper-half values |
| Blooms.MightContain | src/bloom.rs:60-71 | The probe loop decides whether all eight words hold the key's mask, which `Blooms.FilterIsExact` makes exact in both directions |
| Blooms.ComputeMask | src/bloom.rs:88-95 | Each word of the mask is the one bit its salt selects |
| Blooms.Murmur3 | src/bloom.rs:99-146 | The loop over four-byte blocks and the tail computes the recursive hash |
| Lake.PrunedReadIsNaive | src/read.rs:65-82 | For every well-formed lake, newest first with all pruning on, first hit wins: the answer is the highest-LSN row for the key over all rows of all files, and Missing exactly when there is none |
| Lake.FileReadIsLookup | src/read.rs:84-109 | Pruning never changes a file's answer |
| Lake.PruningIsTight | src/read.rs:173-181 | Bounds and statistics let a key through exactly if it lies between two rows of the file or of the group, so nothing that could be dismissed is read |
| Lake.OneGroupMayHold | src/read.rs:96-106 | At most one row group with statistics may hold a key, the reason the read stops at the first |
| Lake.StatsConditionIsExact | src/read.rs:96-106 | Every row of a file is found if and only if no group but the last lacks statistics |
| Lake.IndexIsReversed | src/index.rs:148-176 | With increasing watermarks the loaded index is the files newest first, and its watermark the lake's MAX(lsn) |
| Lake.IndexIsSorted | src/index.rs:148-153 | For any files at all the loaded index holds each once, by descending watermark, ties in catalog order |
| Lake.Load | src/index.rs:94-153 | Pushing every row and sorting by descending watermark, ties in place |
| Lake.Get | src/read.rs:65-82 | The loop over candidates computes the pruned read |
| Lake.GetFromFile | src/read.rs:84-109 | The loop over row groups stops at the first that may match |
| Lake.ScanRowGroup | src/read.rs:111-157 | The row scan answers the first row with the key |
| Flushes.Batches | src/flush.rs:204-239 | The concatenated batches are the staged rows in order; every batch but the last is full and none is empty; what a staged row is, column by column, is `Flushes.StagingIsLossless` |
| Flushes.StagingIsLossless | src/flush.rs:214-225 | The op column is 0 exactly for a put and 1 exactly for a tombstone; the LSN column stays in the signed 64-bit range, is the LSN modulo 2^64, and is the LSN itself exactly below 2^63; null exactly for tombstones; a staged row reads back as itself if and only if tombstones carry no value; order is kept below 2^63 |
| Flushes.StagedKeysIncrease | src/flush.rs:204-239 | Staged keys strictly increase |
| ByteCaches.ResidentExactly | src/cache.rs:87-133 | After any trace a touched range is resident if and only if it fits the budget together with all distinct admissible ranges touched since |
| ByteCaches.CacheIsHotSuffix | src/cache.rs:101-133 | After any trace the cache is the longest hot end of the whole recency stack that fits |
| ByteCaches.WarmDropsShortestPrefix | src/cache.rs:117-126 | Eviction removes the shortest least-recent prefix that makes room |
| ByteCaches.LargerHoldsMore | src/cache.rs:87-133 | LRU inclusion: on one trace a larger budget always holds what a smaller one holds, if the smaller admits every range |
| ByteCaches.LargerNeverMissesMore | src/cache.rs:193-203 | So it never misses more |
| ByteCaches.LargerCanMissMore | src/cache.rs:104-108 | Without that proviso it can: an inadmissible range for the smaller cache evicts a useful one from the larger |
| ByteCaches.ByteCache.Get | src/cache.rs:87-99 | A hit moves the range to the hot end and keeps the maps inverse; a miss changes nothing |
| ByteCaches.ByteCache.Insert | src/cache.rs:101-133 | The recency list moves as specified, the range's bytes are the ones given, the counter stays the exact byte sum within the budget, and exactly when it does not after a change of length |
| ByteCaches.ByteCache.MakeRoom | src/cache.rs:117-126 | The eviction loop ends with room made, never through its empty break and never saturating |
| ByteCaches.RangeFetcher.FetchRange | src/cache.rs:193-220 | Through the cache or past it the answer is the store's own bytes, with hits, misses, evictions and fetched bytes counted |
| ByteCaches.RangeFetcher.InCacheExactly | src/cache.rs:193-220 | At every moment a range is in the cache's map if and only if it is still warm in the fetches so far |

## Left out

- Postgres queries, the DuckDB child process, SQL text: publishing is one atomic step that adds a well-formed file holding the staged rows. In `Engines` the publisher is a function parameter assumed to make such files.
- Parquet and Arrow encoding, async execution, the object store: a file is a sequence of row groups of records; the store is an immutable map from ranges to bytes. A file's location and its rows are one value.
- I/O errors: an error is a crash, except a failing unlink in truncation, which `Engines.Engine.Flush` models.
- Engines.Engine.Flush: does not model writers running during the flush; the class runs one call at a time, and the interleavings are those of `Protocol`.
- Engines.Engine.Get: does not model steps between the two looks, which `Linearizable.ReadIsLinearizable` does.
- Locks and memory ordering: each memtable insert, locked section and log append is one step. The skiplist's own structure is a map, and its iteration order is re-sorted.
- The log directory is a map from start LSN to bytes; `Names` shows the file names and the numbers are the same thing. Foreign files in the directory and several spellings of one number are not modelled.
- A crash in the middle of an open's own repair of several torn segments is not a step; what a finished open leaves is opened again unchanged.
- Staged files hold records; `Flushes` shows separately that the batches written for them lose nothing.
- Whether the murmur hash equals the C++ fork's on every key: its source is not part of this model. `WriterBlooms` compares single keys. Base64 and hex decoding.
- The reverse round trip, encoding what was decoded: `decode` ignores bytes after the value inside a payload, so it does not hold.
- `MetadataCache`, `reset_stats`, latency injection, configuration, benchmark statistics, `size_bytes`, `stalled`: memoised footers, counters and read-only size and queue reports. Nothing they return is read by the write, flush, recovery or lookup paths, so no property here depends on them.
- ByteCaches.ByteCache.Get: does not model wrap-around of the 64-bit tick or counters.
- Two concurrent misses of one range insert it twice; the second insert moves the recency list as a hit would, which is `ByteCaches.ByteCache.Insert` with equal lengths.
