# Reminisce: verified models

Reminisce is a self-hosted photo service with a peer-to-peer backup. This project models the parts of it whose correctness
is easiest to get wrong, and proves what they are for:

- editing the Orientation entry of a JPEG file's Exif block byte by byte (`JpegLayout`, `JpegSegments`, `Tiff`, `IfdWalk`,
  `WalkEnd`, `WalkMarks`, `Splice`, `Relocation`, `SpliceMeaning`, `SpliceTheorem`, `SpliceSamples`, `Rewrite`, `ReadBack`, `ExifOrientation`), and
  orientation values as an algebra on images (`Orientation`);
- grouping near-duplicate images with a union-find structure (`Forest`, `UnionFind`, `Connectivity`, `Duplicates`);
- the rate limiters: token buckets, account lockout, fixed windows (`TokenBuckets`, `LimiterRuns`, `Lockout`, `FixedWindow`);
- erasure-coded backup: node selection, segmented upload, restore, repair, shard migration and orphan sweeps (`Rendezvous`,
  `ErasureCoding`, `ErasureWitness`, `SegmentedBackup`, `ShardRestore`, `Rebalance`, `RebalanceRuns`, `RebalanceFile`,
  `RebalanceFailures`, `RebalanceSweep`, `RecentStores`);
- the SQL script splitter, the PostgreSQL URL parser and the coordinator's connection maps (`SqlSplit`, `SqlRoundTrip`,
  `SqlScripts`, `PgUrl`, `Registry`).

`dafny verify dfyconfig.toml` verifies the whole project.

## Conventions

Bytes are integers below 256; sizes and offsets are unbounded, with `u8`, `u16`, `u32` and `u64` wrap-around written out
where the code can reach it. Time and tokens are `real`, with one clock reading per request. Randomness, hashes, ciphers,
the Reed-Solomon code over equal-sized shards, network answers and database rows are parameters or events of a step
relation. A `HashMap` or `HashSet` traversal takes its elements in any order. Object state that the source updates in
place is a class; protocols of several tasks are step relations with traces or runs.

Some laws hold only under a condition. Each such condition is one a caller can look at beforehand, and a lemma shows what
happens without it:

- inserting the Orientation entry keeps the meaning of a tidy Exif block exactly when every pointer field behind IFD0 holds
  an offset at least 12 bytes below the old block length, and no directory in front of IFD0 holds an offset behind it
  (`SpliceMeaning.MeaningKept`, `SpliceSamples.LengthTestLosesValue`, `SpliceSamples.LowTableLosesValue`). Tidy means that
  no pointer field overlaps another one or anything else that is read, and that what lies in front of the end of IFD0 lies
  in front of IFD0. Meaning includes the offsets: one that should move and does not counts as lost even where it happens to
  reach equal bytes, such as padding;
- a rewritten orientation can be read back, whatever it is, exactly when the last Orientation entry is a SHORT with one or
  two values (`ReadBack.RewrittenYields`, `ReadBack.AlwaysLegible`, `ReadBack.LongNotReadBack`);
- the pointer walk ends exactly when it enters no table again below itself, and then within `256 (|t| + 1)` levels for a
  block of `|t|` bytes (`WalkEnd.EndsUnlessItLoops`, `WalkEnd.WalkEndsInBound`, `WalkEnd.SelfLoopNeverEnds`);
- while no remote delete is overtaken by a later upload of the same copy, migrations and sweeps keep every catalogued shard
  exactly when no two catalog rows share a hash (`RebalanceRuns.SafetyExact`), an upload keeps them safe exactly when no
  delete is on its way to the new copy (`RebalanceRuns.UploadExact`), and a new row keeps them safe exactly when its shard is
  still there, its hash is new, no delete is on its way to it, and no sweep has singled that hash out on a node that holds
  the shard or can get it (`RebalanceRuns.CommitExact`). If deletes may be overtaken, no catalog but the empty one is safe
  (`RebalanceRuns.OvertakingExact`);
- printing and parsing a database URL are inverse exactly on the parts its syntax can carry (`PgUrl.RoundTripExact`);
- a quoted SQL literal is closed by its closing quote exactly when its `$$` pairs match up (`SqlRoundTrip.ReadLiteral`);
- a client evicted from a full shard starts afresh (`LimiterRuns.EvictionObservable`);
- the fixed window keeps its bound on all traces whose requests have fewer than `N` earlier ones of their client within a
  second exactly if `N` is at most `2^32 - 1`, because its `u32` counter wraps around (`FixedWindow.WindowBoundExact`).

## Where code and comments differ

The models follow the code.

- `src/media_utils.rs:172-174` says every offset is fixed up and the image is never corrupted; the patch loop at line 469
  compares with the old block length, so an offset within the last 12 bytes of the block is left behind
  (`SpliceSamples.LengthTestLosesValue`). The walk (lines 377-399) does not enter tables in front of the end of IFD0, so
  offsets that they hold are left behind as well (`SpliceSamples.LowTableLosesValue`).
- `src/media_utils.rs:169` says the value is rewritten in place when the tag exists; the code writes two bytes whatever type
  and count the entry has. In a big-endian LONG they are the wrong half (`ReadBack.LongNotReadBack`), and of three or more SHORTs they
  overwrite the offset.
- `src/media_utils.rs:441-446` appends the Orientation entry behind the last one, where section 2 of TIFF 6.0 wants entries
  in ascending order of tags: IFD0 is in order afterwards exactly if it was before and its last tag is below 0x0112, so never
  in a block with an Exif pointer (`ReadBack.InsertedAscending`).
- `src/media_utils.rs:391-399` follows inline sub-directory pointers without a depth limit, so a table pointing to itself is
  walked forever (`WalkEnd.SelfLoopNeverEnds`).
- `src/p2p_upload.rs:22-58` describes one grace map shared by two functions; each function declares its own, so the orphan
  sweep never finds a recent upload (`RecentStores`).
- `src/db.rs:67-70` says quoted literals are respected; `$$` is recognised inside them (line 115).

## Model

| member | source | states |
|---|---|---|
| JpegSegments.FindExifApp1 | src/media_utils.rs:202-232 | sound and complete: returns the one Exif APP1 segment a marker-by-marker reading arrives at, or nothing if there is none; in a file written as start marker, foreign segments and fill bytes that is the Exif segment right behind them, at the sum of their sizes, and nothing if the start of a scan or the end comes first |
| JpegSegments.ExifFound | src/media_utils.rs:202-230 | behind any foreign segments and fill bytes an Exif segment is found at the sum of their sizes, with its length field plus 2 |
| JpegSegments.NothingAmong | src/media_utils.rs:207-230 | among foreign segments, ended by the file or a start of scan, nothing is found |
| JpegSegments.ExifUnique | src/media_utils.rs:207-230 | reading marker by marker arrives at no more than one Exif segment |
| ByteOrder.OrdersMirror | src/media_utils.rs:248-259 | big-endian words are little-endian words read backwards |
| Tiff.ValueSizeStandard | src/media_utils.rs:275-284 | a size is given exactly for the value types of TIFF 6.0 section 2 and is the exact product unless it exceeds 32 bits |
| IfdWalk.WalkIfd | src/media_utils.rs:359-411 | succeeds exactly when every visited table is well formed, and adds exactly the pointer fields of the walk to the marks |
| IfdWalk.WalkExact | src/media_utils.rs:359-411 | the marks are exactly the fields of visited tables that hold an offset into the moved area, and every table such a field leads to is visited |
| IfdWalk.ReadableIsWalked | src/media_utils.rs:359-411 | a block the reader understands is walked to the end and accepted |
| IfdWalk.HeightIrrelevant | src/media_utils.rs:359-411 | the result of a walk that ends does not depend on the height allowed |
| WalkEnd.WalkEndsInBound | src/media_utils.rs:359-411 | the walk ends at some height exactly if it ends at height 256 (length + 1), the number of table positions and nesting levels there are |
| WalkEnd.FullWalkAt | src/media_utils.rs:359-411 | every height at which the walk ends gives the same marks and verdict |
| WalkEnd.EndsUnlessItLoops | src/media_utils.rs:359-411 | the walk ends exactly if no table that it enters is entered again, at the same nesting level, below itself; tables behind a rejected one are not entered |
| WalkEnd.ForwardWalkEnds | src/media_utils.rs:359-411 | if every table entered lies behind the one it is entered from, the walk ends |
| WalkEnd.SelfLoopNeverEnds | src/media_utils.rs:391-399 | a table whose first entry points to itself is walked without end |
| WalkMarks.WalkByFormat | src/media_utils.rs:359-411 | in terms of tag, type and count numbers alone: a walk that ends accepts the block exactly if every table reached is well formed, visits exactly those, and marks exactly their fields with offsets of large values, Exif (0x8769) and GPS (0x8825) directories and links into the moved area |
| WalkMarks.EntryKinds | src/media_utils.rs:374-402 | an entry is marked and followed exactly by its tag, type and count numbers |
| Splice.LayoutExact | src/media_utils.rs:302-318 | which blocks are taken, and with which byte order, IFD0 and entry count, byte by byte |
| Splice.FindOrientation | src/media_utils.rs:321-328 | finds the last Orientation entry of IFD0, or that there is none |
| Splice.CopyEntries | src/media_utils.rs:427-439 | copies IFD0's entries with exactly the marked offsets 12 higher |
| Splice.PatchRest | src/media_utils.rs:466-478 | for every order of the marks, bytes no mark covers are kept and each mark that overlaps no other is moved as the length test decides |
| Splice.InsertEntry | src/media_utils.rs:420-478 | the new block is the old one with a larger count, the Orientation entry, moved offsets, and everything else kept |
| Splice.SpliceOrientation | src/media_utils.rs:290-482 | either rewrites the last Orientation value in place or inserts an entry; fails exactly on unreadable, oversized or rejected blocks |
| Relocation.LowKept | src/media_utils.rs:383-399 | a directory in front of IFD0 is read as expected after the insertion exactly when neither it nor anything it leads to holds an offset that moves |
| SpliceMeaning.DirectoryKept | src/media_utils.rs:462-478 | a directory behind IFD0 is read back, with everything below it, at its new offset exactly when all pointers below it pass the length test and no directory passed over holds an offset that moves |
| SpliceMeaning.MeaningKept | src/media_utils.rs:344-482 | a reader sees the same directories, tags, types, counts and values at their new offsets and one Orientation field more, exactly when all pointers behind IFD0 pass the length test and no directory passed over holds an offset that moves |
| SpliceTheorem.GrownKeepsMeaning | src/media_utils.rs:344-482 | the same for whole files: the block found in the edited file has that meaning |
| SpliceTheorem.InsertedUnique | src/media_utils.rs:466-478 | if marks do not overlap there is one possible result, so the order of the marks does not matter |
| SpliceSamples.EndReadable | src/media_utils.rs:359-411 | a sample block whose last bytes are a value is well formed, tidy and readable, and the walk marks the Exif pointer and the offset of that value |
| SpliceSamples.LengthTestLosesValue | src/media_utils.rs:469 | in that block the offset is left behind, names other bytes than the value, and the meaning is lost |
| SpliceSamples.LowReadable | src/media_utils.rs:359-411 | a sample block whose Exif directory precedes IFD0 is well formed, tidy and readable, and the walk marks nothing |
| SpliceSamples.LowTableLosesValue | src/media_utils.rs:377-399 | in that block the offset of the Exif directory's value is left behind, names other bytes, and the meaning is lost |
| SpliceSamples.GpsReadable | src/media_utils.rs:386-402 | in a sample block with a GPS directory the walk marks the GPS pointer and the offset of its value |
| SpliceSamples.GpsKept | src/media_utils.rs:344-482 | after an insertion into that block the GPS directory is read at 38, its value at 56, and the Orientation field after it |
| Rewrite.AwayKept | src/media_utils.rs:327-342 | a directory that does not touch the two rewritten bytes is read as before |
| Rewrite.RewriteKeepsRest | src/media_utils.rs:327-342 | a rewrite exchanges one field and nothing else: the same tag, type and count with two new bytes if the value stands in the entry, and what the overwritten offset leads to otherwise |
| ReadBack.RewrittenYields | src/media_utils.rs:82-98 | after a rewrite a reader finds the orientation exactly if the entry is a SHORT that has one or two values, or whose overwritten offset happens to lead to the same number |
| ReadBack.AlwaysLegible | src/media_utils.rs:82-98 | every orientation is read back after a rewrite exactly if the entry is a SHORT with one or two values |
| ReadBack.LongNotReadBack | src/media_utils.rs:327-342 | in a big-endian block with a LONG Orientation entry no rewrite is read back |
| ReadBack.InsertedYields | src/media_utils.rs:441-446 | an inserted entry is always read back, and is the only Orientation entry |
| ReadBack.InsertedAscending | src/media_utils.rs:441-446 | after an insertion the tags of IFD0 ascend exactly if they did before and the last one was below 0x0112 |
| ExifOrientation.ExchangedFound | src/media_utils.rs:414-481 | after exchanging the block the scan finds the segment at the same place with the new length; bytes before and behind are unchanged |
| ExifOrientation.SplicedReadsBack | src/media_utils.rs:290-482 | after a splice the file is 0 or 12 bytes longer, the segment is found again, the rest of the file is untouched, and a reader finds the orientation exactly if there was no Orientation entry or the last one can hold it |
| ExifOrientation.SpliceAgain | src/media_utils.rs:327-342 | splicing the orientation that the last entry already holds changes nothing |
| ExifOrientation.SpliceIdempotent | src/media_utils.rs:290-482 | splicing the same value twice is splicing it once |
| ExifOrientation.InjectExifOrientation | src/media_utils.rs:130-164 | changes the file exactly when it is a JPEG without Exif segment |
| ExifOrientation.InjectedReadsBack | src/media_utils.rs:130-164 | the injected segment is found behind the start marker, yields the orientation, and is the only addition of 36 bytes |
| ExifOrientation.MinimalMeaning | src/media_utils.rs:144-158 | the injected block holds one directory with the Orientation entry alone and no link |
| ExifOrientation.EnsureExifOrientation | src/media_utils.rs:175-198 | changes the file exactly when a change is wanted and possible, by injection or by splice |
| ExifOrientation.EnsuredReadsBack | src/media_utils.rs:175-198 | a changed file differs in one segment only; a reader finds the orientation always after an injection or insertion, after a rewrite exactly if the entry can hold it |
| Orientation.ApplyFollowsStandard | src/media_utils.rs:64-78 | for every image size each orientation shows each stored pixel where TIFF 6.0 section 8 puts it |
| Orientation.TablesRotate | src/media_utils.rs:20-62 | for every image and every recorded value the three tables are rotations by 90, 270 and 180 degrees of the oriented image |
| Orientation.TablesClosed | src/media_utils.rs:20-62 | the tables yield values 1 to 8, take a missing value as upright, and undo each other |
| Forest.DepthLogarithmic | src/services/duplicates.rs:82-96 | no node is more than log2(n) links from its root |
| Forest.HalvingKeepsAll | src/services/duplicates.rs:82-88 | path halving keeps ranks increasing, all roots, and classes of at least 2^rank members |
| Forest.LinkMerges | src/services/duplicates.rs:90-96 | linking two roots by rank merges exactly their classes and keeps the class size bound |
| UnionFind.UnionFind.constructor | src/services/duplicates.rs:78-80 | every element is its own root |
| UnionFind.UnionFind.Find | src/services/duplicates.rs:82-88 | returns the root, changes no root, and takes at most half as many turns as there are links, which are at most log2(n) |
| UnionFind.UnionFind.Union | src/services/duplicates.rs:90-96 | exactly the classes of the two elements become one |
| Connectivity.Symmetric | src/services/duplicates.rs:127-129 | connectedness does not depend on direction |
| Connectivity.OneMorePair | src/services/duplicates.rs:127-129 | adding a pair connects exactly what it bridges |
| Duplicates.IndexHashes | src/services/duplicates.rs:112-122 | numbers every mentioned hash once, in order of its first mention |
| Duplicates.UniteAll | src/services/duplicates.rs:124-129 | two hashes get the same root exactly when the pairs connect them |
| Duplicates.RankPairs | src/services/duplicates.rs:131-141 | per root the greatest similarity of its pairs, at least 0 |
| Duplicates.CollectMembers | src/services/duplicates.rs:143-148 | per root exactly the indices with that root, in order |
| Duplicates.BuildGroups | src/services/duplicates.rs:103-191 | every group is one whole connected component with its greatest similarity, its images in order of first mention; every component with two known images appears; groups are disjoint and sorted |
| TokenBuckets.ShardIndex | src/rate_limit.rs:111-128 | the FNV-1a hash of the octets, modulo 16 |
| TokenBuckets.SampleShard | src/rate_limit.rs:111-128 | 192.168.1.7 hashes to 0x83b3fea5834ce611 and goes to shard 1 |
| TokenBuckets.RateLimiter.Call | src/rate_limit.rs:244-286 | one request changes only its client's shard, by cleanup, room-making and one bucket; tokens stay between 0 and 2000 |
| TokenBuckets.Oldest | src/rate_limit.rs:274-276 | a bucket unused for longest |
| LimiterRuns.IdleIsFull | src/rate_limit.rs:77-91 | a bucket idle for 600 s behaves as a new one for every request class |
| LimiterRuns.AgreeThroughout | src/rate_limit.rs:250-286 | from any point of agreement, limiter and never-forgetting map agree on a client as long as it is not evicted |
| LimiterRuns.ForgettingUnobservable | src/rate_limit.rs:250-286 | on every run a client that is never evicted gets the decisions of one unsharded map that never drops a bucket |
| LimiterRuns.AdmissionBound | src/rate_limit.rs:77-91 | in any stretch of time T a client is admitted at most 2000 + 100 T times, and 10 + T/2 times if it only logs in |
| LimiterRuns.PacedIsAdmitted | src/rate_limit.rs:77-91 | a login 2 s after the client's last request, or another request 10 ms after it, is always admitted |
| LimiterRuns.BurstAdmitted | src/rate_limit.rs:244-286 | on every run, evictions included, the first 2000 requests of a client from the start or after 600 s without any are admitted if all are general, the first 10 if all are logins |
| LimiterRuns.StaleGone | src/rate_limit.rs:254-266 | a request that finds its shard full or not cleaned for 61 s leaves no bucket idle for 600 s |
| LimiterRuns.OthersUntouched | src/rate_limit.rs:254-280 | otherwise a request changes no other client's bucket |
| LimiterRuns.AlwaysSmall | src/rate_limit.rs:256-282 | on every run no shard exceeds 10000 buckets |
| LimiterRuns.EvictionIsLastResort | src/rate_limit.rs:270-280 | eviction takes the longest unused bucket of a shard full of buckets used within 600 s |
| LimiterRuns.EvictionObservable | src/rate_limit.rs:274-286 | the next request of an evicted client is always admitted, and the never-forgetting map admits it exactly if the client's bucket has refilled |
| Lockout.LoginFailures.Allowed | src/rate_limit.rs:327-352 | answers from the fresh failures of the key and leaves the trimmed or swept store |
| Lockout.LoginFailures.RecordFailure | src/rate_limit.rs:355-367 | adds the failure, trims the key and drops empty accounts |
| Lockout.LoginFailures.ClearFailures | src/rate_limit.rs:370-377 | removes the key |
| Lockout.LockoutExact | src/rate_limit.rs:327-377 | on every trace login is allowed exactly when the key is not empty and fewer than 8 failures since the last clear are younger than 900 s in the full history |
| Lockout.StoreBounded | src/rate_limit.rs:340-349 | after a check there are at most 500 accounts, or each has only failures younger than 900 s; up to 500 accounts the others are left alone |
| Lockout.StoreTidy | src/rate_limit.rs:361-366 | after a failure no account is empty and the account's own failures are younger than 900 s |
| FixedWindow.Limiter.Allow | coordinator/src/handler.rs:35-48 | prunes, opens or continues the client's window, counts and decides |
| FixedWindow.PruningUnobservable | coordinator/src/handler.rs:39-41 | the prune never changes a decision |
| FixedWindow.TableBounded | coordinator/src/handler.rs:39-41 | after a request there are at most 100001 clients, or all others' windows began within the last 60 s; up to 100000 clients the others are left alone |
| FixedWindow.WindowBound | coordinator/src/handler.rs:35-48 | at most 20 (1 + ceil(L)) requests of a client are admitted in any half-open interval of L seconds, if each has fewer than 2^32 - 1 earlier ones of the client within a second |
| FixedWindow.WindowBoundExact | coordinator/src/handler.rs:35-48 | for every N, that bound holds on all ordered traces whose requests have fewer than N recent earlier ones exactly if N is at most 2^32 - 1 |
| FixedWindow.BurstsExceed | coordinator/src/handler.rs:46-47 | of 21 bursts of 2^32 requests, a second apart, 441 requests are admitted in 20.5 seconds, against a bound of 440 |
| FixedWindow.RefusedOnlyWhenBusy | coordinator/src/handler.rs:42-47 | a request is refused only if its client made 20 requests within the last second |
| FixedWindow.BurstBound | coordinator/src/handler.rs:46-47 | n requests of one client at one instant keep the bound of 40 exactly up to n = 2^32 + 19 |
| FixedWindow.BurstAdmitted | coordinator/src/handler.rs:42-47 | of n requests in bursts of 2^32, at one instant or a second apart, 21 are admitted for every full turn of the counter and at most 20 of the rest |
| Rendezvous.SelectsTop | src/p2p_upload.rs:77-84 | the selection is duplicate-free, by decreasing score, and holds exactly the nodes that fewer than `count` others precede |
| Rendezvous.RankIsAhead | src/p2p_upload.rs:82 | a node's place is the number of nodes with a higher score, or the same score and an earlier place in the list |
| Rendezvous.AddingDisplacesAtMostOne | src/p2p_upload.rs:73-84 | adding a node anywhere leaves the selection as it is, or puts the newcomer in and drops at most the last |
| Rendezvous.PlacementBalanced | src/p2p_upload.rs:300-304 | round robin gives each of m nodes at least floor(n/m) and at most ceil(n/m) of n shards |
| ErasureCoding.ProcessRestores | np2p/src/storage/mod.rs:22-50 | five shards of ceil(enc/3) bytes, any three of which restore the data |
| ErasureCoding.ProcessEncrypts | np2p/src/storage/mod.rs:22-50 | the first three shards are the ciphertext under the given nonce context, filled up with zeros, the others their parity |
| ErasureCoding.RestoreRefuses | np2p/src/storage/erasure.rs:58-72 | nothing is restored from fewer than three shards or from another number of places than five |
| ErasureWitness.ContractMet | np2p/src/storage/erasure.rs:1-90 | there are a cipher and a 3 + 2 code over the field of four elements that meet the contract assumed of them |
| SegmentedBackup.ReadFull | src/p2p_upload.rs:449-458 | short reads do not matter: the buffer is filled or the file has ended |
| SegmentedBackup.SendChunks | src/p2p_upload.rs:371-375 | the queued messages of at most 16 MiB concatenate to what was to be sent; all but the last are full |
| SegmentedBackup.StreamOneShard | src/p2p_upload.rs:423-427 | the stored shard is the concatenation of the queue |
| SegmentedBackup.UploadSegmented | src/p2p_upload.rs:331-388 | each shard's stream carries its sub-shards of all segments in order, and the encrypted sizes are recorded |
| SegmentedBackup.SegmentEncrypted | src/p2p_upload.rs:361-376 | each segment's shards hold its own 256 MiB of the file, encrypted under the number of the segment as a `u32` |
| SegmentedBackup.SegmentsCover | src/p2p_upload.rs:361-366 | there are as many segments as it takes to hold the file |
| SegmentedBackup.RestoreSegmented | src/p2p_restore.rs:243-269 | restores segment by segment from slices at the accumulated offsets |
| SegmentedBackup.BackupRoundTrip | src/p2p_restore.rs:243-269 | from any three surviving shards of a segmented upload the restore gives back exactly the file |
| SegmentedBackup.RepairShard | src/p2p_audit_worker.rs:446-491 | re-sharding an unmodified file reproduces the streamed shard byte for byte; a modified file is refused |
| ShardRestore.FetchShards | src/p2p_restore.rs:100-135 | keeps for each index the last answer whose hash matches its row |
| ShardRestore.RestoreFile | src/p2p_restore.rs:74-155 | fails without rows or with fewer than three verified shards, else restores in one piece or segment by segment as the file's record says; an uploaded file is restored exactly if rows of at least three indices with proper hashes are answered by bytes of those hashes |
| ShardRestore.HashAccepted | src/p2p_restore.rs:271-279 | a shard hash is accepted exactly if it is 64 hexadecimal digits, of either case |
| ShardRestore.RestoreExact | src/p2p_restore.rs:74-155 | whatever nodes return, the result is the original file or nothing, for files uploaded in one piece and in segments |
| Rebalance.StepKeeps | src/shard_rebalance_worker.rs:104-310 | every step of cycles, sweeps, late deletes and timely uploads, failed or not, keeps the safety invariant and the recorded hashes |
| RebalanceRuns.MigrationRuns | src/shard_rebalance_worker.rs:228-241 | an undisturbed migration leaves the row naming the new node, which holds the bytes, and the old copy gone |
| RebalanceFile.CycleRuns | src/shard_rebalance_worker.rs:185-256 | a cycle over one file runs through all its shards, whether each is in place, moved, or fails at the integrity check or the upload |
| RebalanceFile.FileSettled | src/shard_rebalance_worker.rs:208-255 | afterwards each shard is where its own course takes it: at its target with the old copy gone, or untouched |
| RebalanceFile.FileMigrated | src/shard_rebalance_worker.rs:208-255 | if none fails every row names its target, which holds the bytes, and every old copy is gone |
| RebalanceFailures.AnswerLost | src/shard_rebalance_worker.rs:229-246 | an upload that arrives unacknowledged leaves its copy behind and the next shard is dealt with |
| RebalanceFailures.UpdateFails | src/shard_rebalance_worker.rs:230-234 | a failing row update ends the file, touches no copy and no other row |
| RebalanceFailures.OldCopyLeft | src/shard_rebalance_worker.rs:238-242 | a failing or late delete leaves the old copy and the next shard is dealt with |
| RebalanceFailures.StuckTillCrash | src/shard_rebalance_worker.rs:108-121 | once the task of a cycle is dropped with the flag set, no cycle starts and no row moves until the process restarts |
| RebalanceSweep.SweepRuns | src/p2p_audit_worker.rs:238-287 | a sweep deletes exactly those of the listed copies whose hashes are recorded nowhere, whatever their number |
| RebalanceRuns.RunsAreSafe | src/shard_rebalance_worker.rs:104-310 | on every run with failures, late deletes and crashes anywhere, in which rows are inserted in time and no delete is overtaken, each row's node holds bytes of the recorded hash, hashes never change, one cycle at most is active |
| RebalanceRuns.SafetyExact | src/shard_rebalance_worker.rs:215-247 | all runs of cycles and sweeps in which no delete is overtaken are safe exactly when no two rows share a hash |
| RebalanceRuns.SharedHashLosesShard | src/shard_rebalance_worker.rs:228-241 | two rows with one hash: migrations alone lose a shard |
| RebalanceRuns.CommitExact | src/p2p_audit_worker.rs:241-287 | from every state that satisfies the invariant, all runs after inserting a row are safe exactly if the insertion is timely |
| RebalanceRuns.UploadExact | src/shard_rebalance_worker.rs:228-241 | from every state that satisfies the invariant, all runs after an acknowledged upload are safe exactly if no delete is on its way to the new copy |
| RebalanceRuns.LateDeleteLosesShard | src/shard_rebalance_worker.rs:228-241 | a row that is moved away and back loses its shard when the first move's delete lands afterwards |
| RebalanceRuns.OvertakingExact | src/shard_rebalance_worker.rs:104-310 | if deletes may be overtaken, all runs of cycles and sweeps are safe only for the empty catalog |
| RebalanceRuns.LateCommitLosesShard | src/p2p_audit_worker.rs:254-287 | a row inserted for a hash that a sweep has singled out loses its shard |
| RebalanceRuns.UploadCanBeDoomed | src/p2p_audit_worker.rs:241-275 | a sweep that lists and queries between upload and insert singles the new shard out |
| RecentStores.RecentStores.NoteRecentStore | src/p2p_upload.rs:27-41 | entries within the grace period stay, the new one is added unless more than 50000 of them do, and there are never more than 50001 |
| RecentStores.RecentStores.IsRecentlyStored | src/p2p_upload.rs:45-58 | always answers no |
| SqlSplit.SplitSqlStatements | src/db.rs:71-163 | the loop computes the statements of the scan |
| SqlScripts.ScriptSplit | src/db.rs:71-163 | of statements with comments anywhere outside quotes, white space around and empty ones between, exactly the trimmed, comment-free, non-empty texts come out in order |
| SqlScripts.TrimExact | src/db.rs:144-161 | trimming takes white space from both ends and nothing else |
| SqlScripts.AsciiSpaces | src/db.rs:144-161 | which characters below 128 are white space |
| SqlRoundTrip.SplitUndoesJoin | src/db.rs:71-163 | splitting the semicolon-join of well-formed statements gives back exactly the statements |
| SqlRoundTrip.ReadLiteral | src/db.rs:115-139 | a literal is left at its closing quote exactly when its `$$` pairs match up |
| SqlRoundTrip.OddLiteralSwallows | src/db.rs:115-126 | with an odd number of pairs the statement swallows its terminator |
| SqlRoundTrip.CommentUnobservable | src/db.rs:85-112 | a balanced nested block comment behind a top-level terminator never changes the statements |
| SqlRoundTrip.LineCommentUnobservable | src/db.rs:98-104 | nor does a line comment there |
| SqlRoundTrip.AlwaysNeat | src/db.rs:142-162 | every script, however malformed, yields only non-empty statements without white space at their ends |
| PgUrl.RoundTripExact | src/db_backup_worker.rs:275-316 | parsing a printed URL gives back its parts exactly when the syntax can carry them, passwords with `@` and `:` included |
| PgUrl.FormsParsed | src/db_backup_worker.rs:275-316 | with or without user, password, port, path and query, under both schemes, a URL is read as its parts, with user and database `postgres` and port 5432 for what is left out |
| PgUrl.SchemeRefused | src/db_backup_worker.rs:276-279 | exactly the URLs of other schemes are refused as such |
| PgUrl.PortsRead | src/db_backup_worker.rs:299-307 | a port may have a plus sign, and anything that is no number is refused |
| PgUrl.ParsedIsGood | src/db_backup_worker.rs:275-316 | every accepted URL yields such parts |
| Registry.ConnectionMap.Register | coordinator/src/main.rs:246 | enters the connection under its node |
| Registry.ConnectionMap.Cleanup | coordinator/src/main.rs:252-257 | removes the entry only if it is still this connection's |
| Registry.MapFollowsHistory | coordinator/src/main.rs:246-257 | over every interleaving an entry is the node's latest registration until that connection's own cleanup, and absent otherwise |
| Registry.CleanupAfterClose | coordinator/src/main.rs:248-257 | a connection is cleaned up only after it has been registered and has closed |
| Registry.ConnectionLife | coordinator/src/main.rs:246-257 | a new connection can always be registered, closed and cleaned up, and then leaves nothing behind |
| Registry.NoLeak | coordinator/src/main.rs:289-299 | once all tasks have finished the map is empty |

## Left out

- HTTP handlers, authentication, configuration, metrics and telemetry, the query builder and the user interface: plumbing.
- The AI service, its client and worker, image decoding and encoding, embeddings: foreign libraries and floating point.
- BLAKE3, ChaCha20-Poly1305, the Reed-Solomon crate, Ed25519 and QUIC: parameters with stated contracts.
- Floating point: tokens and similarities are `real`, so rounding and NaN are not modelled.
- Client address resolution, path classification and username normalisation: requests carry address and class, lockout keys are normalised already.
- Exif reading by the external library in `ensure_exif_orientation`: its answer is a parameter; reading back is stated for a TIFF reader that takes the first value of a SHORT field, as the code does with that library's answer.
- Splice.SpliceOrientation: asks that the walk ends, which `WalkEnds` decides at the greatest height there is, because the code does not return on a block whose tables point in a circle.
- Offsets in inline values other than the two sub-directory tags: the code does not treat them as pointers.
- SegmentedBackup.UploadSegmented: which streams the nodes accept is left open; a shard whose stream fails counts as lost.
- Data and parity counts other than 3 and 2, which `restore_segmented` fixes.
- Uploads and catalog updates that take effect after their sender has given up: only deletes arrive late.
- Repair running beside a migration of the same row, and removal of rows of deleted files: nothing in the code orders them.
- FixedWindow.WindowBound: needs that no request comes within a second of 2^32 - 1 earlier ones of its client; no weaker bound of this kind will do, see `FixedWindow.WindowBoundExact`.
- In-memory upload: one call of the storage engine. Negative sizes and counts other than the segment count in a file's record.
- Backup scheduling, snapshot pruning and peer persistence.
