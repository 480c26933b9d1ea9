# Verification of the durability layer

A Dafny model of the parts of `rusty_multimodal_db` that keep an `id -> age` (or `id -> value`)
map on disk, and of its two lock- and channel-based concurrent stores. Each store is a fast or
durable form of a simple map. The project states what simple map that is and proves it of every
run: of updates, reopens, flushes, checkpoints, compactions and, where a file is written in steps,
crashes between the steps.

`dafny verify dfyconfig.toml` verifies the whole project.

## How it is laid out

Each store comes in two files. One gives the store's bytes or entries as values, what each
operation does to them as functions, and the theorems about whole runs. The other holds the class
whose methods change files and indexes in place, each method proved to do what its function says.
File writes that a crash can part are kept apart: the object that makes them records, in a ghost
field, every state they pass through. (The creates that truncate in place are not; see the end.)

| files | models |
|---|---|
| `Bytes`, `Framing`, `Rewrites`, `Folds`, `History`, `Records`, `Slots` | little-endian fields, runs of frames and readers of them, files replaced by a rename, left folds, the last write of each id, records with their indexes, rows of slots and the index over them |
| `Formats` | every file's bytes, field by field |
| `ColumnarImage`, `MmapAges`, `MmapAgeStore` | the columnar mapped file, its meaning as a map, the store |
| `Wal`, `CanonicalState`, `LogDirs` | the write-ahead log, the in-memory state, the directory shared by the log-based stores |
| `Hybrid`, `HybridStore`; `WalFsync`, `WalFsyncStore`; `Lsm`, `LsmStore` | the three log-based stores |
| `InsertLog`, `MergeLog` | the insert log in both versions, and its fold into a record list |
| `SlotFile`, `SlotStacks`, `ScannedField`, `ScannedMeaning`, `MmapScanned` | the slot file and the durable field layer over it |
| `Fnv`, `BlobHeader`, `EdgeBlob`, `RecordBlob` | the hash and the companion files |
| `Production`, `ProductionStore` | the ages file and its companion blob together |
| `Sharded`, `ShardedStore`; `Actor`, `ActorWorker` | the concurrent stores as threads taking turns, and their own code |

A record's breed is its bytes. A UUID is its sixteen octets, as in section 4 of RFC 9562. FNV-1a
is as in section 2 of draft-eastlake-fnv.

## Where the code and its documentation part

The model follows the code. Four statements in its comments do not hold of it in general, and the
exact condition under which each does is proved.

- A fold of the insert log is called idempotent (src/generic/mmap_store.rs:725-731). By id it is, for
  a list with one record of each id; with more, a deletion uncovers another
  (`MergeLogs.FoldingAgainFindsTheSameIff`, `MergeLogs.FoldingAgainCanUncover`). As a list it is not
  even then: a record the log deletes and brings back moves to the end when the same log is folded
  again (`MergeLogs.FoldingAgainIsNoOpIff`, `MergeLogs.FoldingAgainCanReorder`).
- Writing the insert log's header and first entry together is said to leave no header-only or
  half-header file behind a crash (src/generic/insert_log.rs:42-44). A write cut short leaves one,
  and some of what is appended to it later is not read back
  (`InsertLog.AppendAfterCutIsRecoveredIff`). The same holds of any torn version 2 tail; behind a tear
  inside an entry that is every entry of another kind (`InsertLog.TornEntryLosesTheAppend`).
- A write-ahead log's length prefix is said to let a reader detect a torn write and not misinterpret
  it (src/durability/mod.rs:237-241). That holds until something is appended behind the tear, which
  the stores' open leads to. Then the update is lost, the log no longer reads, or the two frames pass
  for one entry (`Wal.AfterTearReads`, `Wal.LostAgeReadsAsThirtySix`,
  `Wal.AppendAfterCutIsRecoveredIff`); in each store at most one new age survives
  (`WalFsync.AtMostOneAgeSurvivesATear`, and the same in `Hybrid` and `Lsm`).
- An insert into the field layer cut off before its slot is appended is said to be reseeded from
  the record (src/generic/mmap_scanned.rs:244-250). If the file still holds a committed slot for
  that id, the stale value is read instead (`ScannedMeaning.InterruptedInsertReopensIff`,
  `ScannedMeaning.InterruptedInsertReadsStale`). For the same reason a deleted slot can uncover an
  older one (`ScannedMeaning.DeletedIdReopens`, `ScannedMeaning.DeleteUncoversStale`).

Some places where the code does less than a caller may expect:

- In the fsync and hybrid stores an update of an unknown id is refused but already logged, and
  fails a later open. When exactly is part of `WalFsync.EveryRunIsSequential` and
  `Hybrid.EveryRunIsSequential`.
- The stores' create truncates only the log. What an older snapshot, base or generation then does
  is stated by `Hybrid.CreateOverOldDirectoryIff`, `WalFsync.CreateOverOldDirectoryIff` and
  `Lsm.CreateOverOldDirectoryIff`. In the hybrid store updates are lost
  (`Hybrid.FirstUpdateIsLost`).
- The record blob's seed ages are not read back over an ages file that remembers the ids
  (`Production.PortableReopenShowsTheSame`). A portable reopen between an interrupted open's two writes
  is the exception (`Production.PortableReopenInTheGap`, `Production.SeedComesBack`).
- A scan of the sharded store is a snapshot only when all its records are in one shard
  (`Sharded.ScansAreSnapshotsIff`).
- The breed index agrees with the records if and only if no id is supplied with two breeds
  (`CanonicalState.BreedIndexAgreesIff`); what that does to the answers of `same_breed` is
  `Records.SameBreedAnswersIff`.

## Model

| member | source | states |
|---|---|---|
| `ColumnarImage.ImageRoundTrip` | src/durability/mmap_store.rs:414-429 | Decoding the image of any list gives its count, ids and ages back, every slot committed, the header accepted |
| `ColumnarImage.ImageIsDetermined` | src/durability/mmap_store.rs:299-319 | Two byte strings that decode as the same committed list are the same bytes: no byte of the layout is free |
| `ColumnarImage.WithAgeWritesOneAge` | src/durability/mmap_store.rs:350-354 | An age write changes that age alone; header, ids, markers and every other age stand, whatever the file length |
| `ColumnarImage.HeaderVerdicts` | src/durability/mmap_store.rs:380-396 | A header is accepted for exactly one string of twelve bytes, refused by version for exactly those another version's build writes, and called foreign otherwise |
| `ColumnarImage.BuildImage` | src/durability/mmap_store.rs:414-429 | The loop that fills the buffer produces exactly the image of its list |
| `Slots.LastCommittedIsLast` | src/durability/mmap_store.rs:560-594 | The position map built by the first pass of an open points, for each id, at its last committed slot, and at nothing else |
| `Slots.LastCommittedUnique` | src/durability/mmap_store.rs:560-594 | That description determines the map |
| `Slots.EverySlotIsLive` | src/generic/slot_file.rs:140-151 | As many live ids as slots: each slot is committed and is its own id's position |
| `Slots.GaplessScanIsTheWholeColumn` | src/durability/mmap_store.rs:403-405 | As many live ids as slots means every slot is live (an injective map into N positions is onto), so the bulk scan returns exactly what the sorted-position scan returns |
| `Slots.ScanReadsEachIdOnce` | src/durability/mmap_store.rs:693-711 | A scan returns one value per live id, each the value a get of that id reads |
| `Slots.SortedPositions` | src/durability/mmap_store.rs:704-710 | Collecting the positions and sorting them gives the live positions in order |
| `Slots.OverwriteUpdatesOneValue` | src/durability/mmap_store.rs:717-724 | Writing the indexed slot of an id changes the file's map at that id and nowhere else |
| `Slots.AppendWins` | src/generic/slot_file.rs:217-238 | A committed slot appended at the end becomes its id's indexed slot and value, every other id unchanged |
| `MmapAges.OpenReads` | src/durability/mmap_store.rs:549-648 | In both branches of an open each supplied id reads the file's committed age for that id, else its own seed; nothing missing leaves every byte, something missing leaves exactly the supplied ids |
| `MmapAges.OpenIsIdempotent` | src/durability/mmap_store.rs:549-648 | Reopening with the same records changes no byte |
| `MmapAges.CrashDuringRewriteRecovers` | src/durability/mmap_store.rs:472-495 | A crash anywhere in the rewrite leaves the whole old or the whole new image, and reopening it gives, byte for byte, the file of an uninterrupted open |
| `MmapAges.StepRefines` | src/durability/mmap_store.rs:549-648 | Each create, update, reopen and reopen cut off by a crash is, on the byte file, the same step of a plain map of ages and visible ids |
| `MmapAges.RunRefines` | src/durability/mmap_store.rs:506-724 | Over every run of creates, updates, reopens and reopens cut off after any of their writes, with any record lists, in any order and with repeats, the byte file holds exactly the plain map |
| `MmapAges.AgeWriteUpdatesOneAge` | src/durability/mmap_store.rs:717-724 | The bytes written by an update change one id's age in the file's map, the index and header standing |
| `Rewrites.RewriteStates` | src/durability/mmap_store.rs:472-495 | The states a write-beside-and-rename passes through are exactly those after so many of its writes |
| `Rewrites.RenamedFile.WriteViaRename` | src/durability/record_blob.rs:387-403 | The path ends with the new file and no temp file, through exactly those states in order |
| `Rewrites.TraceIsDuring` | src/durability/mmap_store.rs:472-495 | Each state a rewrite leaves behind is one of those a crash may |
| `MmapAgeStores.AgesDir.WriteViaRename` | src/durability/mmap_store.rs:472-495 | The path ends with the new image, and every state passed through is one of those of a rewrite |
| `MmapAgeStores.CollectPersisted` | src/durability/mmap_store.rs:560-594 | The first pass of an open collects exactly the committed ages and last positions by id |
| `MmapAgeStores.CheckHeader` | src/durability/mmap_store.rs:380-396 | By the first twelve bytes: accepted if they are this version's, refused by version if another's, foreign if no version's |
| `MmapAgeStores.MmapAgeStore.Create` | src/durability/mmap_store.rs:506-528 | A valid store whose file is the image of the seeds and whose indexes are those of the records and edges |
| `MmapAgeStores.MmapAgeStore.Open` | src/durability/mmap_store.rs:549-648 | Errors leave the directory as it was; success leaves the store and file the open step defines, every intermediate directory state being one of a rewrite |
| `MmapAgeStores.MmapAgeStore.Get` | src/durability/mmap_store.rs:665-673 | A visible id reads its record with the age the file holds for it; any other id reads nothing |
| `MmapAgeStores.MmapAgeStore.ScanAges` | src/durability/mmap_store.rs:693-711 | Both paths return the ages at the live positions in position order |
| `MmapAgeStores.MmapAgeStore.UpdateAge` | src/durability/mmap_store.rs:717-724 | A known id has its age bytes overwritten, an unknown one is refused and nothing changes |
| `MmapAgeStores.MmapAgeStore.Neighbors` | src/durability/mmap_store.rs:736-738 | The other end of every edge that touches the id, in edge order, of the edge list the store was built from |
| `MmapAgeStores.MmapAgeStore.SameBreed` | src/durability/mmap_store.rs:726-734 | Built from a list without strays, exactly the other ids whose records have the id's breed |
| `Records.AdjacencyListsOtherEnds` | src/durability/mmap_store.rs:274-293 | The adjacency index lists under each id the other ends of its edges, in edge order |
| `Records.SameBreedAnswersIff` | src/durability/mmap_store.rs:726-734 | For every id the other ids of its breed and no more, if and only if no record was overtaken by one of another breed while another id kept the first |
| `Records.SameBreedMissesNothing` | src/durability/mmap_store.rs:726-734 | No id of the breed is ever left out, whatever the list |
| `Records.RecordAfterIs` | src/durability/mmap_store.rs:274-293 | What a store owes of an id after a history of updates: the last record listed for it with the last age set, and nothing for an id not listed |
| `Records.SameBreedCounts` | src/durability/mmap_store.rs:726-734 | An answer names each other id as often as the list pairs it with the breed |
| `Records.BreedIndexInOrder` | src/durability/mmap_store.rs:274-293 | The breed index keeps the list's order within a breed |
| `Wal.DecodeEncode` | src/codec.rs:23-34 | Every entry decodes from its own encoding |
| `Wal.EncodeDecode` | src/codec.rs:23-34 | Only its own encoding decodes to an entry |
| `Wal.ReadWalEntries` | src/durability/mod.rs:265-288 | The loop computes exactly the reading of the log: complete frames in order, a torn tail dropped, a whole frame that does not decode an error |
| `Wal.CutLogReadsWholeFrames` | src/durability/mod.rs:265-288 | A log cut at any byte never errors and reads as exactly the entries whose frames lie wholly before the cut |
| `Wal.WholeLogReadsBack` | src/durability/mod.rs:244-253 | An uncut log reads as every appended entry, in append order |
| `Wal.CutAppendReads` | src/durability/mod.rs:244-253 | One more append cut anywhere reads as the old entries, or with all of the new one |
| `Wal.AfterTearReads` | src/durability/mod.rs:265-288 | Behind a tear in its length a frame is swallowed; behind a later one, bytes of both frames fail to decode or pass for one entry |
| `Wal.LostAgeReadsAsThirtySix` | src/durability/mod.rs:239-241 | A tear that cost an entry its age makes the next append give it the age thirty-six, or makes the log unreadable while that append's number is small |
| `Wal.AtMostOneAgeIsRecovered` | src/durability/mod.rs:265-288 | Behind a given tear, of all the ages an update could set under one number for one id, at most one is read back |
| `Wal.AppendAfterCutIsRecoveredIff` | src/durability/wal_fsync.rs:97-100 | Opening appends after whatever the file ends with: for any number and id, an append is read back whatever its age if and only if the file's length is a multiple of the frame's |
| `Wal.MissingLogIsEmpty` | src/durability/mod.rs:258-268 | A log that is not there reads as empty |
| `CanonicalState.NewStateIsConsistent` | src/durability/mod.rs:404-433 | After construction each record has its own cache cell, holding its age |
| `CanonicalState.UpdateKeepsConsistent` | src/durability/mod.rs:443-454 | An update keeps cache, positions and records in agreement and changes one record's age |
| `CanonicalState.ReplayIsApplied` | src/durability/wal_fsync.rs:88-95 | Replay succeeds exactly when every logged id is known, and is then the entries applied in order |
| `CanonicalState.ReplayIsIdempotent` | src/durability/wal_fsync.rs:77-109 | Replaying a log over a state that already contains it changes nothing |
| `CanonicalState.BreedIndexAgreesIff` | src/durability/mod.rs:404-433 | After construction and any log of updates, the breed index lists exactly the ids of each breed if and only if no id was supplied with two, and the adjacency index is the edge list's |
| `CanonicalState.AdjacencyIsSymmetric` | src/durability/mod.rs:404-433 | Adjacency counts are symmetric for any edge list |
| `CanonicalState.EveryScheduleBuildsTheSame` | src/durability/mod.rs:344-398 | Every interleaving of the two building threads ends in the state the sequential build gives |
| `CanonicalState.CanonicalCachedState.NewSequential` | src/durability/mod.rs:404-433 | The constructor's loops build that state |
| `CanonicalState.CanonicalCachedState.UpdateAge` | src/durability/mod.rs:443-454 | The record is written, then its cell; what is refused, and what is left when the state is not consistent, is as the code has it |
| `CanonicalState.CanonicalCachedState.ScanAges` | src/durability/mod.rs:439-441 | The cache is returned, and at each record's position it holds that record's age |
| `CanonicalState.AppliedShows` | src/durability/mod.rs:404-454 | A new state after any log shows each id listed as its last record with the last age logged, no other id, and in each record's cache place that age |
| `CanonicalState.UpdateShows` | src/durability/mod.rs:443-454 | One more update shows in the record and its cache place and nowhere else |
| `LogDirs.LogDir.AppendWalEntry` | src/durability/mod.rs:244-253 | The entry's frame ends the log, and every state passed through has some first part of it |
| `LogDirs.AppendTraceIsDuring` | src/durability/mod.rs:244-253 | Each state an append leaves behind is one a crash may, the last the whole append |
| `Hybrid.UpdateKeeps` | src/durability/hybrid.rs:206-215 | An update keeps the log's numbering gapless from zero, the cutoff below the next number and the snapshot equal to the base with exactly the covered entries applied |
| `Hybrid.CheckpointKeeps` | src/durability/hybrid.rs:180-193 | A checkpoint keeps the same invariant and covers every entry logged so far |
| `Hybrid.CutoffSelectsSuffix` | src/durability/hybrid.rs:145-156 | Filtering a gapless log by sequence number past the cutoff is dropping the covered prefix |
| `Hybrid.OpenRecoversIff` | src/durability/hybrid.rs:129-168 | An open gives back exactly the running store if and only if every id logged after the snapshot is known |
| `Hybrid.CrashedAppendOpens` | src/durability/hybrid.rs:206-215 | A crash inside an append opens as if it had never begun, unless the whole frame is there |
| `Hybrid.EveryRunIsSequential` | src/durability/hybrid.rs:129-215 | Over every run from an empty directory, reopened with any record lists, an open fails exactly when an entry pending since the last checkpoint has an id unknown to it; otherwise the state is every logged update of a known id applied in order to the records in force |
| `Hybrid.AfterTearOpens` | src/durability/hybrid.rs:138-170 | An update appended behind a torn tail: the next open cannot read the log, or opens as over the entries before the tear and at most one more |
| `Hybrid.AtMostOneAgeSurvivesATear` | src/durability/hybrid.rs:138-170 | After a run cut short inside an append and reopened with any lists, of all the ages one more update can set but the present one at most one is there after the next open |
| `Hybrid.TornAppendEndsARun` | src/durability/hybrid.rs:206-215 | A run ended by a crash inside an append reopens to what it would have without that update, or with it once the whole frame is there |
| `Hybrid.KnownIdsNeverFail` | src/durability/hybrid.rs:206-215 | With ids known to every list only no open of any run fails |
| `Hybrid.CreateOverOldDirectoryOpens` | src/durability/hybrid.rs:98-116 | Created over an old snapshot, the next open restores that snapshot and replays only the updates numbered past its cutoff |
| `Hybrid.CreateOverOldDirectoryIff` | src/durability/hybrid.rs:98-116 | Every update of known ids survives that open if and only if the old snapshot is the new store's own state and covers nothing, or there are no records at all |
| `Hybrid.FirstUpdateIsLost` | src/durability/hybrid.rs:98-116 | Over a snapshot of the very same state that covers anything, one update to another age is gone after the open |
| `Hybrid.EveryRunShows` | src/durability/hybrid.rs:138-215 | After any such run each id shows with the last age of every update ever made of it, no unknown id shows, and the cache agrees |
| `Hybrid.EveryRunNumbersInOrder` | src/durability/hybrid.rs:151-155 | The log reads back whole, numbered one by one from zero, and the next entry follows on |
| `Hybrid.NextSeqIsAboveAll` | src/durability/hybrid.rs:151-155 | The next number is above every number in the log, in whatever order they stand, and no higher than it must be |
| `Hybrid.FirstOpen` | src/durability/hybrid.rs:122-170 | Opened over an empty directory the store is the one a create makes |
| `HybridStores.HybridStore.Open` | src/durability/hybrid.rs:129-168 | The store opened, or the failure, is the one the open function gives |
| `HybridStores.HybridStore.Checkpoint` | src/durability/hybrid.rs:180-193 | The snapshot written is the state with the last number used; the log stands |
| `HybridStores.HybridStore.UpdateAge` | src/durability/hybrid.rs:206-215 | The entry is logged first, known id or not; the state and next number follow |
| `HybridStores.ReplayEntries` | src/durability/hybrid.rs:145-156 | The replay loop computes the filtered replay and the next sequence number, or the first refusal |
| `WalFsync.CheckpointKeeps` | src/durability/wal_fsync.rs:121-129 | Both states a checkpoint passes through describe the same running state |
| `WalFsync.OpenRecoversIff` | src/durability/wal_fsync.rs:77-109 | An open gives back the running state if and only if every logged id is known |
| `WalFsync.CrashedAppendOpens` | src/durability/wal_fsync.rs:143-153 | A crash inside an append opens as if it had never begun, unless the whole frame is there |
| `WalFsync.EveryRunIsSequential` | src/durability/wal_fsync.rs:77-153 | Over every run, reopened anywhere with any record lists and crashed or not between a checkpoint's two writes, an open fails exactly when an update pending since the last whole checkpoint has an id unknown to it; otherwise the state is the sequential result |
| `WalFsync.AfterTearOpens` | src/durability/wal_fsync.rs:79-105 | An update appended behind a torn tail: the next open cannot read the log, or opens as over the entries before the tear and at most one more |
| `WalFsync.AtMostOneAgeSurvivesATear` | src/durability/wal_fsync.rs:79-105 | After a run cut short inside an append and reopened with any lists, of all the ages one more update can set but the present one at most one is there after the next open |
| `WalFsync.TornAppendEndsARun` | src/durability/wal_fsync.rs:143-153 | A run ended by a crash inside an append reopens to what it would have without that update, or with it once the whole frame is there |
| `WalFsync.CreateOverOldDirectoryIff` | src/durability/wal_fsync.rs:46-65 | Created over an old base, the next open gives the created store if and only if the base is absent or its very state |
| `WalFsync.RefusedUpdateBlocksTheNextOpen` | src/durability/wal_fsync.rs:143-153 | An update of an unknown id, and only that, is refused, logged all the same and fails the next open |
| `WalFsync.EveryRunShows` | src/durability/wal_fsync.rs:77-153 | After any such run each id shows with the last age of every update ever made of it, no unknown id shows, and the cache agrees |
| `WalFsync.EveryRunNumbersInOrder` | src/durability/wal_fsync.rs:91-95 | The log reads back numbered one by one, across checkpoints and reopens, and the next entry follows on |
| `WalFsync.NumbersOnlyGrow` | src/durability/wal_fsync.rs:143-153 | While the store stays open each update takes the next number and a checkpoint none |
| `WalFsync.FirstOpen` | src/durability/wal_fsync.rs:77-109 | Opened over an empty directory the store is the one a create makes |
| `WalFsyncStores.WalFsyncStore.Open` | src/durability/wal_fsync.rs:77-109 | The store opened, or the failure, is the one the open function gives |
| `WalFsyncStores.WalFsyncStore.Checkpoint` | src/durability/wal_fsync.rs:121-129 | Exactly two states are passed through: new base with the old log, then new base with an empty log |
| `WalFsyncStores.WalFsyncStore.UpdateAge` | src/durability/wal_fsync.rs:143-153 | The entry is logged and synced first, known id or not; every state passed through has some first part of it |
| `WalFsyncStores.ReplayAll` | src/durability/wal_fsync.rs:88-95 | The replay loop computes the replay, or its first refusal |
| `Lsm.ResolveReadsOverrides` | src/durability/lsm_store.rs:164-176 | Memtable, then generations from the newest down, then the base record: the last override of the id, else its base age |
| `Lsm.FlushKeeps` | src/durability/lsm_store.rs:265-282 | A flush cut off after any number of its three writes and reopened holds the same overrides |
| `Lsm.CrashedAppendKeeps` | src/durability/lsm_store.rs:299-312 | A crash inside an append opens with the override or as if it were never asked for |
| `Lsm.EveryRunResolves` | src/durability/lsm_store.rs:164-312 | Over every run from an empty directory, flushes cut off after any of their writes and reopens with any records, each id resolves to its last accepted age, else the age of the record last opened with |
| `Lsm.AfterTearOpens` | src/durability/lsm_store.rs:225-250 | An update appended behind a torn tail: the next open cannot read the log, or opens as over the entries before the tear and at most one more |
| `Lsm.AtMostOneAgeSurvivesATear` | src/durability/lsm_store.rs:225-250 | After a run cut short inside an append and reopened with any records, of all the ages one more update can set but the present one at most one resolves after the next open |
| `Lsm.TornAppendEndsARun` | src/durability/lsm_store.rs:299-312 | A run ended by a crash inside an append reopens to what it would have without that update, or with it once the whole frame is there |
| `Lsm.CreateOverOldDirectoryIff` | src/durability/lsm_store.rs:185-207 | Creating over old generations and reopening agree on every known id if and only if those generations override none of them with another age |
| `Lsm.ScanReadsOverrides` | src/durability/lsm_store.rs:292-297 | A scan has the override of each known id, or failing that its base age |
| `Lsm.EveryRunScans` | src/durability/lsm_store.rs:292-297 | After every run a scan has each id of the list last opened with, at the last age accepted for it in the whole run or else the age listed, and no other |
| `Lsm.ResolveFailsIff` | src/durability/lsm_store.rs:164-176 | A resolution fails exactly when the memtable lacks the id and a missing generation file is met before the id is |
| `Lsm.EveryRunNumbersInOrder` | src/durability/lsm_store.rs:232-237 | The log reads back numbered one by one, across flushes and reopens, and the next entry follows on |
| `Lsm.NumbersOnlyGrow` | src/durability/lsm_store.rs:265-312 | While the store stays open each accepted update takes the next number, a refused one and a flush none |
| `Lsm.FirstOpen` | src/durability/lsm_store.rs:219-250 | Opened over an empty directory the store starts with nothing |
| `LsmStores.LsmStore.ResolveAge` | src/durability/lsm_store.rs:164-176 | The reverse loop over generations computes the resolution, or the missing file's error |
| `LsmStores.LsmStore.Flush` | src/durability/lsm_store.rs:265-282 | Exactly the three states of a flush are passed through, in order |
| `LsmStores.LsmStore.UpdateAge` | src/durability/lsm_store.rs:299-312 | An unknown id is refused before anything is logged; a known one is logged and overrides |
| `LsmStores.LsmStore.ScanAges` | src/durability/lsm_store.rs:292-297 | One resolved age per known id whose resolution succeeds |
| `LsmStores.ReplayMemtable` | src/durability/lsm_store.rs:232-237 | The replay loop rebuilds each id's last logged age |
| `Formats.LittleEndian` | src/codec.rs:22-26 | Numbers are little-endian, byte by byte |
| `Formats.GoldenNumbers` | src/codec.rs:158-167 | The golden vectors of four and eight bytes |
| `Formats.KnownHashes` | src/generic/record_blob.rs:479-485 | The two known answers of the hash |
| `Formats.WalFrame` | src/durability/mod.rs:244-253 | A frame is its length, the number, the id with its length and the age |
| `Formats.ColumnarFile` | src/durability/mmap_store.rs:68-76 | Magic, version, every id, every age, every marker, at their places |
| `Formats.SlotFile` | src/generic/slot_file.rs:10-15 | Magic, version, then slots of an id, a value and a marker |
| `Formats.Headers` | src/durability/record_blob.rs:199-210 | Magic, version, fingerprint, for a tagged file the tag's hash, then the body |
| `Formats.GoldenEdges` | src/generic/edge_blob.rs:539-551 | The pinned body of one pair |
| `Formats.GoldenRecords` | src/durability/record_blob.rs:583-611 | The pinned body of a record and edges |
| `Formats.GoldenFingerprint` | src/durability/record_blob.rs:258-272 | The hash is taken over counts, ids, breeds with their lengths and pairs, and no age |
| `Formats.InsertLogFile` | src/generic/insert_log.rs:130-148 | The log's header carries no fingerprint; an entry is a kind, a length and a payload |
| `Formats.Kinds` | src/generic/insert_log.rs:109-125 | Kind zero is an item, kind one a tombstone |
| `Fnv.MultiplyUndone` | src/durability/record_blob.rs:139-144 | Multiplication by the prime modulo 2^64 is undone by multiplying by its inverse |
| `Fnv.XorUndone` | src/durability/record_blob.rs:139-144 | Exclusive or with the same byte twice gives the state back |
| `Fnv.HashInPieces` | src/durability/record_blob.rs:139-144 | Hashing in pieces is hashing the concatenation |
| `Fnv.OneChangedByteChangesTheHash` | src/durability/record_blob.rs:131-149 | Inputs of equal length that differ in exactly one byte have different hashes |
| `Fnv.Fnv1a64.Update` | src/durability/record_blob.rs:139-144 | The loop advances the state by the hash of its bytes |
| `BlobHeader.HeaderRoundTrip` | src/durability/record_blob.rs:169-211 | A header parses back to its fingerprint and leaves the body |
| `BlobHeader.TaggedHeaderRoundTrip` | src/generic/record_blob.rs:118-166 | The same with the schema tag's hash after it |
| `BlobHeader.OneChangedHeaderByteShows` | src/generic/record_blob.rs:144-166 | One changed byte in a good header: it no longer parses, or parses to another fingerprint |
| `BlobHeader.HeaderVerdicts` | src/durability/record_blob.rs:169-190 | By the bytes: magic and version accepted, another version refused as such, anything else or anything short no blob |
| `BlobHeader.TagVerdicts` | src/generic/record_blob.rs:144-160 | Behind a good plain header: too short for a tag, another tag's hash, or accepted |
| `EdgeBlob.BodyRoundTrip` | src/codec.rs:23-34 | The counted list of id pairs decodes from its own encoding |
| `EdgeBlob.ReadBack` | src/generic/edge_blob.rs:165-186 | What was written reads back, in order |
| `EdgeBlob.ForeignTagIsRefused` | src/generic/edge_blob.rs:165-186 | Under another tag nothing is read unless the two tags hash alike |
| `EdgeBlob.OneChangedByteIsDetected` | src/generic/edge_blob.rs:165-186 | Changing any one byte of an edge file, header or body, never reads as an edge list again |
| `EdgeBlob.CurrentIff` | src/generic/edge_blob.rs:143-150 | A file is current for exactly the lists that share its fingerprint |
| `EdgeBlob.StreamFingerprint` | src/generic/edge_blob.rs:108-112 | Streaming the fields into the hasher gives the fingerprint of the encoded body |
| `EdgeBlob.ReadsExactly` | src/generic/edge_blob.rs:165-195 | A file reads as a list if and only if it is byte for byte the file written for it |
| `EdgeBlob.ReadVerdicts` | src/generic/edge_blob.rs:165-195 | Behind a good header: the body's hash first, then the decoder, each failing as its own cause; a missing file cannot be read |
| `EdgeBlob.CurrentExactly` | src/generic/edge_blob.rs:143-155 | Whatever the file holds, it is current for a list if and only if it starts with that list's own header |
| `InsertLog.RawEntries` | src/generic/insert_log.rs:195-222 | The walk ends, and pushes exactly the complete entries from its position on |
| `InsertLog.CutLogReadsWholeEntries` | src/generic/insert_log.rs:309-329 | A version 2 log cut at any byte past the header reads as exactly the entries wholly before the cut, in order and with their kinds; cut inside the header it is refused |
| `InsertLog.WholeEntriesAreThoseBeforeTheCut` | src/generic/insert_log.rs:195-222 | Those are all that fit before the cut and no more |
| `InsertLog.CutVersion1Reads` | src/generic/insert_log.rs:195-222 | A version 1 log, torn or not, reads as its whole entries, all items |
| `InsertLog.WholeLogReadsBack` | src/generic/insert_log.rs:309-329 | An uncut log reads as every appended entry |
| `InsertLog.TypedLogReadsBack` | src/generic/insert_log.rs:273-305 | A log of items and tombstones reads back as those, in order and with the right kind |
| `InsertLog.UpgradePreservesReading` | src/generic/insert_log.rs:167-190 | Whatever the file holds, an upgrade that succeeds leaves a version 2 file that reads the same |
| `InsertLog.AppendReadsBack` | src/generic/insert_log.rs:130-150 | Appending to nothing, to a whole version 2 log or to any readable version 1 log, torn or not, reads back as the old entries and the new one |
| `InsertLog.AppendAfterCutIsRecoveredIff` | src/generic/insert_log.rs:130-150 | After a version 2 log is cut, every later append is read back behind the survivors if and only if the cut fell between two entries or left no byte |
| `InsertLog.TornEntryLosesTheAppend` | src/generic/insert_log.rs:130-150 | Behind a tear inside an entry no entry of another kind, whatever its payload, is read back in its place |
| `InsertLog.LogFile.ReadLog` | src/generic/insert_log.rs:309-329 | Reads as the reading function says and changes nothing |
| `InsertLog.LogFile.UpgradeIfVersion1` | src/generic/insert_log.rs:167-190 | The log is the old file or the new one at every step |
| `InsertLog.LogFile.AppendEntry` | src/generic/insert_log.rs:130-150 | The file after an append, or the refusal, is the one the append function gives; a crash leaves some first part of header and frame |
| `InsertLog.MissingLogIsEmpty` | src/generic/insert_log.rs:309-318 | A log that is not there reads as empty |
| `InsertLog.VersionVerdicts` | src/generic/insert_log.rs:154-163 | The version declared is the number after the magic, once the file is that long |
| `InsertLog.EntryVerdicts` | src/generic/insert_log.rs:284-300 | Kind zero decodes as an item, kind one as a tombstone, no other kind at all |
| `InsertLog.ReadsWhenAllDo` | src/generic/insert_log.rs:273-303 | A log reads as all its entries' readings in order, or fails as the first that does not decode |
| `InsertLog.AppendVerdicts` | src/generic/insert_log.rs:130-148 | An append is refused for a payload past the length prefix, or for a version 1 log that does not read, with the reader's cause, and for nothing else |
| `InsertLog.ReadsIff` | src/generic/insert_log.rs:309-333 | A file reads if and only if it starts with the magic, version one or two and this tag's hash, and then as the walk of what follows |
| `MergeLogs.MergeLog` | src/generic/mmap_store.rs:732-766 | The loop over the log with its map of positions computes the entry-by-entry fold, repeated ids included |
| `MergeLogs.MergeCopies` | src/generic/mmap_store.rs:732-766 | Of an id's records a fold leaves all but the last, and the last gives way to the log's last word on it |
| `MergeLogs.MergeFinds` | src/generic/mmap_store.rs:732-766 | So the id is found with the log's last word, or with the record before when that word is a tombstone |
| `MergeLogs.FoldingAgainFindsTheSameIff` | src/generic/mmap_store.rs:725-731 | A second fold finds the same under an id if and only if the log does not delete it last or the two records a deletion uncovers in turn are alike |
| `MergeLogs.FoldingAgainCanUncover` | src/generic/mmap_store.rs:725-731 | It happens: three records of one id under a log that deletes it, where the second fold finds another record than the first |
| `MergeLogs.FoldingAgainFindsTheSame` | src/generic/mmap_store.rs:725-731 | With one record of each id a second fold finds the same for every id |
| `MergeLogs.OrderAfterFoldingAgain` | src/generic/mmap_store.rs:732-766 | A second fold moves the records the log deletes and brings back to the end, in order, and leaves the others in front |
| `MergeLogs.FoldingAgainIsNoOpIff` | src/generic/mmap_store.rs:725-731 | For any list, a second fold leaves it as it is if and only if no record is left of an id deleted last and the records brought back stand at the end |
| `MergeLogs.FoldingAgainCanReorder` | src/generic/mmap_store.rs:725-731 | A log that deletes and restores one record before adding another swaps the two when folded twice |
| `SlotFiles.WithValueWritesOneValue` | src/generic/slot_file.rs:108-111 | A value write changes one slot's value, and no id, marker or header byte |
| `SlotFiles.WithoutMarkerRetiresOneSlot` | src/generic/slot_file.rs:195-198 | Clearing a marker retires one slot and touches nothing else |
| `SlotFiles.AppendsAddSlots` | src/generic/slot_file.rs:417-437 | Appended slots become the last ones, in order, all committed |
| `SlotFiles.ImageRoundTrip` | src/generic/slot_file.rs:285-317 | A freshly written file is well formed and reads as its list, all committed |
| `SlotFiles.CutAppendsAreWholeIff` | src/generic/slot_file.rs:217-238 | Appends cut at any byte leave a file of whole slots if and only if the cut is on a slot boundary, holding then the slots before it |
| `SlotFiles.PairsArePositionsAndValues` | src/generic/slot_file.rs:380-395 | The pairs collected are each id's last committed position and the value there |
| `SlotFiles.SlotFile.AppendCommittedSlots` | src/generic/slot_file.rs:417-437 | Each slot lands at the end, the position reported is where it landed, through exactly the states of one byte more at a time |
| `SlotFiles.SlotFile.Rewrite` | src/generic/slot_file.rs:339-357 | The file becomes the image of the list, through exactly these states: the new file beside it empty, then sized, then filled from the front, then renamed |
| `SlotFiles.HeaderVerdicts` | src/generic/slot_file.rs:249-272 | By the bytes: magic and version accepted, another version refused as such, anything else foreign |
| `SlotFiles.TracesAreDuring` | src/generic/slot_file.rs:339-357 | Each state an append or a rewrite leaves behind is one a crash may |
| `SlotStacks.IndexIsTop` | src/generic/slot_file.rs:380-395 | An id is indexed exactly when it has a committed slot, at the one holding the latest committed value |
| `SlotStacks.RewriteTop` | src/generic/slot_file.rs:108-111 | Rewriting an id's indexed slot replaces or drops the top of its stack of values and touches no other id's |
| `SlotStacks.AppendedIndex` | src/generic/mmap_scanned.rs:228-232 | After appending a list the index is the old one overridden by where each pair landed |
| `ScannedField.IndexIsSound` | src/generic/mmap_scanned.rs:104-118 | The index is injective, in range, and points at committed slots carrying the same id |
| `ScannedField.CreateKeeps` | src/generic/mmap_scanned.rs:168-186 | Create establishes that, over any inner store and record list |
| `ScannedField.OpenKeeps` | src/generic/mmap_scanned.rs:203-241 | So does an open over any slots, inner store and record list |
| `ScannedField.StepKeeps` | src/generic/mmap_scanned.rs:258-385 | Insert, delete, replace, update, compact and reopen all keep it |
| `ScannedField.MissingInOrder` | src/generic/mmap_scanned.rs:214-224 | The records to append are those the file does not remember, each once, in the list's order |
| `ScannedMeaning.StepRefines` | src/generic/mmap_scanned.rs:258-385 | Each operation answers as, and does what, a machine of one value stack per id, the inner store's records and the kept ids does |
| `ScannedMeaning.RunRefines` | src/generic/mmap_scanned.rs:203-385 | Every run, reopens over any inner stores and record lists and crashes inside its opens, inserts and compactions included, is a run of that machine |
| `ScannedMeaning.EveryRunReads` | src/generic/mmap_scanned.rs:398-404 | From a create on, crashed or not, every live id reads the machine's record and no other id reads at all |
| `ScannedMeaning.FreshLayerShowsTheList` | src/generic/mmap_scanned.rs:168-186 | Over an inner store built from the same list each id shows its last record, value and all |
| `ScannedMeaning.CompactChangesNoRead` | src/generic/mmap_scanned.rs:280-301 | Compaction changes no get and not the scan sequence, leaves one slot per kept id, and reclaims exactly the others |
| `ScannedMeaning.CompactionCrashReopens` | src/generic/slot_file.rs:339-357 | A crash before or after the rename reopens to the same reads of kept ids |
| `ScannedMeaning.OpenReads` | src/generic/mmap_scanned.rs:203-241 | A supplied id reads the file's last committed value, or the supplied one when the file has none |
| `ScannedMeaning.CrashInOpenReads` | src/generic/mmap_scanned.rs:228-237 | An open cut off on a slot boundary and run again reads, for each id, the value remembered, else the last seed that got appended, else the seed |
| `ScannedMeaning.ReopenReadsTheSame` | src/generic/mmap_scanned.rs:203-241 | Reopening kept ids reads their current values, whatever values are supplied for them |
| `ScannedMeaning.DeletedIdReopens` | src/generic/mmap_scanned.rs:313-319 | A deleted id supplied again takes the supplied value exactly when its stack held one value; otherwise the delete uncovers the buried one |
| `ScannedMeaning.InsertBuriesIff` | src/generic/mmap_scanned.rs:258-267 | An insert leaves a single committed value for its id if and only if the file remembered none |
| `ScannedMeaning.InterruptedInsertReopensIff` | src/generic/mmap_scanned.rs:244-250 | An insert cut off before its slot reads back as inserted if and only if the file remembers no value for the id, or the same one |
| `ScannedMeaning.InterruptedInsertReadsStale` | src/generic/mmap_scanned.rs:244-250 | It happens: a run from a create after which a cut-off insert of another value reads the old one |
| `ScannedMeaning.DeleteUncoversStale` | src/generic/mmap_scanned.rs:313-319 | It happens: a run from a create after which a deleted id supplied again reads its first value |
| `ScannedMeaning.InsertAnswers` | src/generic/mmap_scanned.rs:258-267 | An insert is refused as a duplicate, changing nothing, exactly when the id reads; otherwise the record reads, and no other id's read changes |
| `ScannedMeaning.DeleteAnswers` | src/generic/mmap_scanned.rs:313-319 | A delete is refused, changing nothing, exactly when the id does not read; otherwise it no longer does |
| `ScannedMeaning.ReplaceAnswers` | src/generic/mmap_scanned.rs:332-342 | A replace of an id that reads leaves the new record, refused all the same when this layer does not index the id; any other is refused and changes nothing |
| `ScannedMeaning.UpdateAnswers` | src/generic/mmap_scanned.rs:381-385 | An update is refused, changing nothing, exactly when the id is not indexed; otherwise it reads with the value |
| `MmapScannedStores.SortedPairsAreLive` | src/generic/mmap_scanned.rs:282-291 | Sorted by position, the index is the live slots in order with their ids |
| `MmapScannedStores.MmapScanned.Open` | src/generic/mmap_scanned.rs:203-241 | Bad headers and partial slots are refused with the file untouched; otherwise the layer is the one the open step defines, through exactly the states of appending the slots |
| `MmapScannedStores.MmapScanned.Insert` | src/generic/mmap_scanned.rs:258-267 | The inner store's refusal, or exactly the insert step |
| `MmapScannedStores.MmapScanned.Delete` | src/generic/mmap_scanned.rs:313-319 | The inner store's refusal, or exactly the delete step |
| `MmapScannedStores.MmapScanned.Replace` | src/generic/mmap_scanned.rs:332-342 | The inner store's refusal, or exactly the replace step |
| `MmapScannedStores.MmapScanned.Update` | src/generic/mmap_scanned.rs:381-385 | A refusal for an unknown id, or exactly the update step |
| `MmapScannedStores.MmapScanned.Compact` | src/generic/mmap_scanned.rs:280-301 | Exactly the compact step, reporting the slots the file lost, through exactly the states of a rewrite |
| `MmapScannedStores.MmapScanned.Scan` | src/generic/mmap_scanned.rs:354-372 | Both paths return the values at the live positions in order |
| `MmapScannedStores.MmapScanned.Get` | src/generic/mmap_scanned.rs:398-404 | The inner store's record with this layer's value |
| `RecordBlobs.BodyRoundTrip` | src/codec.rs:23-34 | Records and edges decode from their own encoding |
| `RecordBlobs.HashedTellsApartAllButAges` | src/durability/record_blob.rs:251-272 | The hash is fed the same bytes for exactly the blobs that differ at most in ages: no two lists run together, no age is seen |
| `RecordBlobs.ReadBack` | src/durability/record_blob.rs:331-349 | What was written reads back |
| `RecordBlobs.CurrentIff` | src/durability/record_blob.rs:361-365 | A blob is current for exactly the contents sharing its fingerprint, among them all that differ only in ages |
| `RecordBlobs.OneHashedByteIsDetected` | src/durability/record_blob.rs:361-365 | A one-byte change to the hashed content is never taken as current |
| `RecordBlobs.ChangedAgesAreNotDetected` | src/durability/record_blob.rs:331-349 | A change to seed ages alone passes the header and reads as it is |
| `RecordBlobs.ComputeFingerprint` | src/durability/record_blob.rs:258-272 | The hasher's loops compute the fingerprint |
| `RecordBlobs.ReadsExactly` | src/durability/record_blob.rs:331-349 | A file reads as a blob if and only if it is byte for byte the file written for it |
| `RecordBlobs.ReadVerdicts` | src/durability/record_blob.rs:331-349 | Behind a good header: a body of no blob does not decode, and one of a blob is held against the fingerprint claimed; a missing file cannot be read |
| `RecordBlobs.SplicedReadsIff` | src/durability/record_blob.rs:331-349 | One blob's header over another's body reads if and only if their fingerprints agree |
| `RecordBlobs.OneHashedByteIsRefused` | src/durability/record_blob.rs:342-347 | A body whose hashed bytes differ in one place from those the header was made for is refused as a mismatch |
| `RecordBlobs.CurrentExactly` | src/durability/record_blob.rs:361-365 | Whatever the file holds, it is current for a blob if and only if it starts with that blob's own header |
| `Production.StepRefines` | src/production.rs:185-275 | Each create, open, portable open, update and crash inside one of them, restarted either way, is on the two files the same step of a plain machine |
| `Production.RunRefines` | src/production.rs:185-275 | Over every run of them no open fails and the files are the plain machine's: the ages remembered, the set the blob holds, the set the store was built from, collisions included |
| `Production.EveryRunRefines` | src/production.rs:185-275 | So from a create at an empty path, or from an open that heals a create cut off before its blob |
| `Production.PortableReopenShowsTheSame` | src/production.rs:270-275 | A portable reopen succeeds, changes no byte of either file and shows the same records, ages and indexes: no age comes from the blob |
| `Production.EveryRunReopensPortably` | src/production.rs:185-275 | After any such run, crashed anywhere, whose record sets do not collide, a portable reopen shows the same |
| `Production.OpenLeavesItsOwnBlobIff` | src/production.rs:227-246 | An open leaves a blob that reopens as its own record set if and only if that set does not collide with the one written before |
| `Production.SeedsDoNotShow` | src/durability/record_blob.rs:240-246 | Record sets that differ only in seed ages show the same over the same ages file |
| `Production.CrashBetweenTheFilesHeals` | src/production.rs:227-246 | A crash between the ages file and the blob is healed by the same open run again |
| `Production.CutCreateNeedsItsRecords` | src/production.rs:185-197 | A create cut off before its blob, with no blob there before, opens portably not at all and heals to the whole create when opened with its records |
| `Production.PortableReopenInTheGap` | src/production.rs:227-246 | In that gap a portable reopen shows the file's ages except for ids the interrupted open had dropped, which are seeded from the blob again |
| `Production.SeedComesBack` | src/production.rs:227-246 | It happens: a run from a create after which a record given another age reads its seed |
| `Production.EveryRunShows` | src/production.rs:185-381 | After any such run the store shows each id of the set last opened with, as listed there but with the age the machine remembers, and that set's breeds and edges |
| `ProductionStores.ProductionStore.Create` | src/production.rs:185-197 | Both files and the store are those of the create step, the blob through exactly the states of its rewrite |
| `ProductionStores.ProductionStore.Open` | src/production.rs:227-246 | An ages file that does not open leaves the blob alone; otherwise both files are those of the open step |
| `ProductionStores.ProductionStore.OpenPortable` | src/production.rs:270-275 | An unreadable blob is its own error and opens nothing; the blob is never written |
| `ProductionStores.ProductionStore.UpdateAge` | src/production.rs:376-381 | Exactly the update step, an unknown id refused |
| `ProductionStores.ProductionStore.Get` | src/production.rs:368-370 | The built record's id and breed with the age the ages file holds, or nothing |
| `ProductionStores.ReadBlob` | src/durability/record_blob.rs:331-349 | Header, then decoder, then fingerprint, each failing as its own cause |
| `Sharded.LastOctetRoutes` | src/concurrency/sharded.rs:68-70 | The shard of an id is its last octet modulo sixty-four |
| `Sharded.EveryRunIsAtomic` | src/concurrency/sharded.rs:98-137 | Every interleaving of lock-by-lock actions is a run of one atomic map; each answered call took effect between being made and returning, with that map's answer |
| `Sharded.EffectsFollowRealTime` | src/concurrency/sharded.rs:98-137 | A call answered before another is made, by the same thread or another, takes effect before it |
| `Sharded.EveryScanSeesShardsInTurn` | src/concurrency/sharded.rs:110-119 | A finished scan has one age per record and reports each shard as it was at a moment during the scan, the moments never going back |
| `Sharded.EachAgeWasHeld` | src/concurrency/sharded.rs:110-119 | Each age reported is one its record held at some moment during the scan |
| `Sharded.UndisturbedScanIsSnapshot` | src/concurrency/sharded.rs:110-119 | With no update taking effect since it began a scan is a snapshot |
| `Sharded.ScanNeedNotBeASnapshot` | src/concurrency/sharded.rs:110-119 | Whatever the other records, for any two in different shards there is a run whose scan matches the map at no moment |
| `Sharded.ScansAreSnapshotsIff` | src/concurrency/sharded.rs:110-119 | Every finished scan of every run is a snapshot of one moment of the scan if and only if all the records are in one shard |
| `Sharded.StepKeeps` | src/concurrency/sharded.rs:98-137 | No action lets a writer share a shard, lose a record or disturb a scan that holds a lock |
| `Sharded.EveryReplyIsOwed` | src/concurrency/sharded.rs:98-137 | In every run a get is answered with the last record listed and the last age set before it took effect, an update accepted exactly for ids listed |
| `Sharded.EachAgeWasSet` | src/concurrency/sharded.rs:110-119 | Each age a scan reports is the last set before some moment of the scan, or the one listed |
| `ShardedStores.ShardedStore.constructor` | src/concurrency/sharded.rs:79-88 | Each record is in the shard of its id, a repeated id keeping its last |
| `ShardedStores.ShardedStore.UpdateAge` | src/concurrency/sharded.rs:129-137 | One record of one shard changes, or an unknown id is refused |
| `ShardedStores.AllAgesFound` | src/concurrency/sharded.rs:68-70 | With each id in the shard it routes to, the shards together hold each record once |
| `ShardedStores.ShardedStore.ScanAges` | src/concurrency/sharded.rs:110-119 | One age per record across all shards, none twice and none left out |
| `Actor.EveryRunIsSequential` | src/concurrency/actor.rs:80-103 | In every run each answered call was answered once, to its own caller, with what a sequential store fed in queue order answers; the worker's store is that store |
| `Actor.OrderFollowsRealTime` | src/concurrency/actor.rs:119-134 | A call answered before another is begun comes before it in queue order |
| `Actor.EveryoneCanBeAnswered` | src/concurrency/actor.rs:85-98 | From any reachable state the worker alone can go on to answer every waiting client, correctly |
| `Actor.StepKeeps` | src/concurrency/actor.rs:80-183 | No turn of client or worker mixes up channels, answers twice or answers out of order |
| `Actor.EveryReplyIsOwed` | src/concurrency/actor.rs:80-134 | In every run each returned get has the last record listed with the last age sent for it before, each scan that age at each record's place, each update its acceptance exactly for ids listed |
| `ActorWorkers.ServeRequest` | src/concurrency/actor.rs:86-96 | One request is answered and applied as the sequential store does |
| `ActorWorkers.Work` | src/concurrency/actor.rs:85-98 | The loop answers every request received, in order, as the sequential store would |

## Left out

- Mapped memory, `msync`, `fsync`, permissions and I/O errors: files are byte sequences, and a failure is a crash between two writes. A mapped file is an array the directory and the store share.
- Reordering of unsynced writes by the operating system: a crash leaves the writes made so far, the last perhaps cut short.
- Snapshot, base and generation files: each is an abstract value written in one step, since the code writes them in place; only the log, the ages file, the insert log, the slot file and the blobs are modelled as bytes.
- General `bincode`: only the encodings of log entries, ids, edges and records are written out. The insert log's payloads are arbitrary bytes with arbitrary decoders.
- UTF-8 validity of a decoded breed: breeds are bytes.
- Sequence numbers past 2^64: whole-run theorems of the log-based stores take fewer than 2^64 operations.
- An update or a crash after a slot append was cut inside a slot: the layer's open refuses the file (`SlotFiles.CutAppendsAreWholeIff`, `MmapScannedStores.MmapScanned.Open`), so runs of the field layer are cut on slot boundaries.
- The columnar file's and the slot file's create, which truncate and write in place: a crash inside them is not modelled, as there is no earlier generation to protect.
- Slot file values of other widths: the value is eight bytes wide, which makes a slot twenty-five.
- A process stopped by a failed bounds check, which a corrupted snapshot can bring about, is an error value of its own (`CacheOutOfBounds`).
- The files the sharded and actor stores do not have: they are memory only, and lock poisoning and a worker that has exited are not modelled.
- The interleaving inside one lock: a get or an update under its shard's lock is one action, a scan's reads are one action per record.
- `wal_buffered.rs`, `snapshot_full.rs`, `snapshot_rebuild.rs`, `global_rwlock.rs`, `dashmap_store.rs`, `embedded_store.rs`: easier members of the same families, or wrappers of libraries.
- The rest of `GenericMmapStore` (insert, replace, delete and compact over blob, log and slots together), `link` and the in-memory layers.
- The breed and neighbour queries of the log-based stores, which are those of the mapped store over the same indexes.
- The forwarding queries of the field layer (`filter_eq`, `neighbors`, `children`, `all_ids`) and of the production store.
- The server, TLS, clients, benchmarks and data generators.
