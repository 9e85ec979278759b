# A model of the LevelDB storage engine

The repository vendors LevelDB under `event_system/ios/pods/leveldb-library`. This project models
that engine in Dafny and proves what it is for: reads return the newest visible version, snapshots
are stable, acknowledged writes survive a crash of the process, iterators walk one sorted view, and
the on-disk formats give back what was put in. `dafny verify dfyconfig.toml` checks everything.

How the layers fit together:

- **The multi-version map.** `Mvcc.Read` says what a client reads at a snapshot from a set of
  (user key, sequence number, kind, value) entries. Everything above is stated against it.
- **The log-structured merge tree.** `Version` defines files, levels and the level invariant
  (`VersionOk`): order and disjointness inside levels, recency inside level 0 and across levels.
  `Lookup` refines reads to the search LevelDB performs. `Picking`, `Compaction`, `Edits` and
  `Interleaving` cover choosing inputs, the drop rules, installing results and flushes that land
  while a compaction runs; `Choosing` says which level is due. `Engine` and `EngineInvariant` are the
  state machine of the open database and its inductive invariant; `Reopening` and `Recovery` the steps
  of opening it, with a crash possible after each; `EngineTheorems` what follows for every run.
- **Write path.** `WriteBatches` is the format of batches; `GroupCommit` is a state machine over all
  interleavings of writers; `Log` is the write-ahead log, writer and reader, down to bytes, and
  `LogDamage` what its reader makes of bytes that no writer left; `Skiplist` is the memtable's list with
  readers running between the stores of an insertion.
- **Read path.** `TwoLevel`, `Merger` and `DbIter` are the iterator stack; `Iteration` and
  `EngineTheorems.IterateInRun` put it on top of the engine.
- **The manifest.** `EditCodec` is the format of version edits, `ManifestReplay` the version builder,
  `Manifest` the reading of a manifest and its opening snapshot; `VersionSets` joins LogAndApply and
  Recover over the bytes of the log.
- **Tables and the cache.** `Coding`, `Block`, `FilterBlock`, `Bloom`, `Table` and `TableBytes` are the
  table format; `HashTable` and `LruCache` the block cache.

Some properties do not hold of the code as it stands; the model keeps the code and says exactly when
they hold.

- `SetupOtherInputs` closes the inputs of the upper level under boundary files, but not those of the
  next level. `Hazards.CompactionResurrects` is a version that meets the level invariant and in which
  the compaction so picked drops a deletion marker while an older value stays behind.
  `Compaction.ReadsPreservedExactly` states the exact condition, `Interleaving.NothingResurrected` a
  condition on the input files that suffices. The engine's step that installs a compaction carries the
  exact condition as its guard (`Engine.Harmless`).
- `DoCompactionWork` may flush a memtable while it runs. `Hazards.FlushIntoGap` shows a manual
  compaction with a gap between its inputs and a flush that lands in it.
  `Interleaving.FlushBesideCompaction` states exactly when a flush is safe; automatic compactions
  always meet it (`EngineTheorems.CoveredFlushIsClear`). The engine's flush step carries a sufficient
  condition on the input files as its guard (`Interleaving.ClearIsSafe`).
- `log::Reader` uses the stored type byte of a record as its own result code. A record with an accepted
  checksum and type 5 therefore reads as the end of the log, without a report (`Log.SilentEnd`).
- `VersionSet::Recover` marks the recorded log numbers as used before it overwrites the next file
  number, so that the marks have no effect; `VersionSets.VersionSet.Recover` keeps this order.

User keys are `real` in the engine modules: the proofs use nothing but the order, and every countable
total order embeds in it. In `Coding`, `WriteBatches` and `Table` keys are byte strings under the byte order.

## Model

| member | source | states |
|---|---|---|
| `DbFormat.SeekIndex` | event_system/ios/pods/leveldb-library/db/memtable.cc:101-105 | seeking in a sorted run ends on the first entry at or after the target: everything before is smaller, the entry itself is not |
| `DbFormat.InsertAllSorted` | event_system/ios/pods/leveldb-library/db/memtable.cc:76-99 | inserting the entries of a batch one by one keeps the memtable strictly sorted by (user key, decreasing packed number) and adds exactly those entries |
| `Mvcc.RunGetIsNewest` | event_system/ios/pods/leveldb-library/db/memtable.cc:101-135 | a point lookup in a memtable or table returns the newest version at or below the snapshot, and misses only if none is visible |
| `Mvcc.ReadStable` | event_system/ios/pods/leveldb-library/db/snapshot.h:16-37 | entries above a snapshot number never change what a read at that snapshot returns |
| `Version.FindFile` | event_system/ios/pods/leveldb-library/db/version_set.cc:87-105 | binary search over disjoint files finds the split point: all earlier files end before the key, no later one does |
| `Version.SomeFileOverlapsRange` | event_system/ios/pods/leveldb-library/db/version_set.cc:107-156 | the linear and the binary-search form both answer exactly whether some file overlaps the range, open ends included |
| `Version.LevelMissIsSilent` | event_system/ios/pods/leveldb-library/db/version_set.cc:304-321 | in a level of disjoint files, when the one file found does not know the key, no file of the level shows it |
| `Version.LevelHitIsNewest` | event_system/ios/pods/leveldb-library/db/version_set.cc:304-321 | in a level of disjoint files, the hit in the one file found is the newest visible version in the whole level, even if versions straddle files |
| `Lookup.HitIsNewest` | event_system/ios/pods/leveldb-library/db/version_set.cc:281-322 | among the files that may hold the key, level 0 newest first and then one file a level, the first that knows the key yields the newest visible entry of all levels, and if none does nothing is visible |
| `Lookup.ProbesAre` | event_system/ios/pods/leveldb-library/db/version_set.cc:281-322 | the files searched are those whose range holds the key, level 0 from the greatest number down and then one file at most of each level |
| `Lookup.VersionGet` | event_system/ios/pods/leveldb-library/db/version_set.cc:324-400 | stopping at the first file that knows the key yields the newest visible entry over all levels and a miss means that none is visible; the read is charged to the first file that may hold the key exactly if a second one had to be searched, and that file has a next level |
| `Lookup.ReadSample` | event_system/ios/pods/leveldb-library/db/version_set.cc:415-451 | a sampled key charges the first of the files that may hold it exactly if there are at least two |
| `Choosing.MaxBytesForLevel` | event_system/ios/pods/leveldb-library/db/version_set.cc:41-52 | ten megabytes up to level 1 and ten times as much with each further level |
| `Choosing.Finalize` | event_system/ios/pods/leveldb-library/db/version_set.cc:1026-1062 | the level chosen is the first of greatest score among those with a level below, and its score is that of the level |
| `Choosing.DueIsNonempty` | event_system/ios/pods/leveldb-library/db/version_set.cc:1247-1270 | a level whose score is at least 1 has a file to start from |
| `Choosing.ScoreSaysDue` | event_system/ios/pods/leveldb-library/db/version_set.cc:1026-1062 | a score of 1 or more says that a level is due: four files in level 0; ten megabytes in level 1, and ten times as much with each level below, up to level 5 |
| `Choosing.EnoughFiles` | event_system/ios/pods/leveldb-library/db/version_set.cc:1039-1053 | files of some least size make a level due by their number, and files of some greatest size keep it from being due |
| `Picking.TotalAdds` | event_system/ios/pods/leveldb-library/db/version_set.cc:59-65 | the sizes of two lists of files add up |
| `Choosing.Stats.UpdateStats` | event_system/ios/pods/leveldb-library/db/version_set.cc:402-413 | a charge takes one allowed seek from its file, and the file is remembered exactly if none is yet and it has run out |
| `Choosing.Stats.RecordReadSample` | event_system/ios/pods/leveldb-library/db/version_set.cc:415-451 | the first of two files that may hold the sampled key is charged, on the same terms |
| `Choosing.Stats.PickCompaction` | event_system/ios/pods/leveldb-library/db/version_set.cc:1247-1299 | nothing is picked exactly if level 0 has fewer than four files, none of the levels 1 to 5 is at its limit, ten megabytes and ten times as much with each level, and no file has run out of seeks; a due level comes first; whatever is picked has a level below it and is a good pick without gaps |
| `Lookup.Get` | event_system/ios/pods/leveldb-library/db/db_impl.cc:1110-1155 | searching memtable, immutable memtable and version in turn reads exactly what the multi-version map over all three reads |
| `Picking.GetOverlappingInputs` | event_system/ios/pods/leveldb-library/db/version_set.cc:498-538 | the restart loop ends; outside level 0 it returns the files that meet the range; in level 0 those that meet the least range around it that no met file sticks out of, and it never opens a gap |
| `Picking.FindLargestKey` | event_system/ios/pods/leveldb-library/db/version_set.cc:1301-1317 | the largest key of a nonempty file list |
| `Picking.FindSmallestBoundaryFile` | event_system/ios/pods/leveldb-library/db/version_set.cc:1319-1339 | the boundary file with the least smallest key, and none exactly when there is no boundary file |
| `Picking.AddBoundaryInputs` | event_system/ios/pods/leveldb-library/db/version_set.cc:1355-1378 | the loop ends, adds files one boundary after the other, and leaves no file of the level that continues the last user key |
| `Picking.ChainFacts` | event_system/ios/pods/leveldb-library/db/version_set.cc:1355-1378 | adding boundary files keeps the given files first, adds no duplicate, stays inside the level and keeps a contiguous stretch contiguous |
| `Picking.GetRange` | event_system/ios/pods/leveldb-library/db/version_set.cc:1182-1201 | the least and the greatest key over the inputs |
| `Picking.SeedLeavesNewer` | event_system/ios/pods/leveldb-library/db/version_set.cc:1380-1388 | files left behind in the input level hold only newer versions of the keys they share with the inputs |
| `Picking.Expand` | event_system/ios/pods/leveldb-library/db/version_set.cc:1390-1424 | the inputs grow to the files of the level in the whole range, closed under boundary files, exactly if these are more, stay below the byte limit and meet as many files of the next level; they stay a good pick without gaps |
| `Picking.SetupOtherInputs` | event_system/ios/pods/leveldb-library/db/version_set.cc:1380-1439 | the inputs are the seed closed under boundary files, the next-level files in their user key range, and the widening of both; what stays behind in the level is newer, what stays in the next level does not interleave; grandparents are the files two levels down in the range; the pointer is the largest key |
| `Picking.SeedFrom` | event_system/ios/pods/leveldb-library/db/version_set.cc:1285-1294 | the picked file alone, or in level 0 the files of the least closed range around it; a seed without gaps |
| `Picking.PickInputs` | event_system/ios/pods/leveldb-library/db/version_set.cc:1247-1299 | the inputs grow from the charged file, or else from the first file that ends after the compaction pointer, wrapping around; they are a good pick without gaps |
| `Picking.CompactRange` | event_system/ios/pods/leveldb-library/db/version_set.cc:1441-1472 | a manual compaction picks nothing exactly when no file of the level meets the range; otherwise it sets up the inputs of all files of the closed range in level 0, or of the first files in the range up to where they reach the size limit |
| `Compaction.BaseLevelScan.IsBaseLevelForKey` | event_system/ios/pods/leveldb-library/db/version_set.cc:1510-1529 | for keys that never decrease the stateful per-level pointers answer as a full scan of the deeper levels would |
| `Compaction.HiddenByPrevious` | event_system/ios/pods/leveldb-library/db/db_impl.cc:940-973 | the loop looks at the previous entry only, yet this is the same as some newer version at or below the smallest snapshot hiding the entry |
| `Compaction.HiddenIsUnseen` | event_system/ios/pods/leveldb-library/db/db_impl.cc:940-973 | rule (A) drops exactly what no snapshot at or above the smallest one can see among the inputs |
| `Compaction.ShouldDrop` | event_system/ios/pods/leveldb-library/db/db_impl.cc:940-973 | the drop decision is: hidden for every snapshot by the previous version of the key, or a marker with no older data in deeper levels |
| `Compaction.DoCompactionWork` | event_system/ios/pods/leveldb-library/db/db_impl.cc:914-1016 | the outputs are nonempty, sorted end to end and hold exactly the surviving entries; one ends where ShouldStopBefore or a full builder says so, and nowhere else |
| `Compaction.ReadAfter` | event_system/ios/pods/leveldb-library/db/db_impl.cc:940-973 | a compaction that resurrects nothing leaves the read of every key at every snapshot at or above the smallest one unchanged |
| `Compaction.ReadsPreservedExactly` | event_system/ios/pods/leveldb-library/db/db_impl.cc:940-973 | reads of a key are preserved if and only if the key is not resurrected: no dropped marker was hiding an older value that stays outside the inputs |
| `Edits.PickLevelForMemTableOutput` | event_system/ios/pods/leveldb-library/db/version_set.cc:470-495 | a flushed table is pushed down exactly until a file of the next level meets it, too many bytes meet it two levels below, or level 2; it meets no file in its level or above |
| `Edits.PlaceAllFacts` | event_system/ios/pods/leveldb-library/db/version_set.cc:672-711 | adding files with new numbers keeps a level in file order and adds exactly those files |
| `Edits.FlushKeepsVersion` | event_system/ios/pods/leveldb-library/db/db_impl.cc:500-542 | adding the newest table at the chosen level keeps the level invariant |
| `Edits.EntryInOneFile` | event_system/ios/pods/leveldb-library/db/version_set.cc:672-730 | under the level invariant an entry is in one file only |
| `Edits.ReplaceKeepsVersion` | event_system/ios/pods/leveldb-library/db/db_impl.cc:869-885 | replacing inputs by outputs made of their entries keeps the level invariant if the outputs fit between the files left in their level |
| `Edits.CompactionKeepsVersion` | event_system/ios/pods/leveldb-library/db/db_impl.cc:869-885 | replacing the inputs of a good pick by any outputs made of their entries keeps the level invariant |
| `Edits.ReplaceContents` | event_system/ios/pods/leveldb-library/db/db_impl.cc:869-885 | after the replacement the version holds the entries of all other files and of the outputs, and nothing else |
| `Interleaving.NothingResurrected` | event_system/ios/pods/leveldb-library/db/version_set.cc:1380-1439 | if the next-level inputs end on a user key boundary, no key is resurrected, also when flushes landed meanwhile |
| `Interleaving.AddKeepsPick` | event_system/ios/pods/leveldb-library/db/db_impl.cc:917-928 | a table flushed beside the inputs of a running compaction leaves them a good pick |
| `Interleaving.CoveredIsClear` | event_system/ios/pods/leveldb-library/db/db_impl.cc:917-928 | a table placed by PickLevelForMemTableOutput cannot land between inputs without gaps |
| `Interleaving.FlushBesideCompaction` | event_system/ios/pods/leveldb-library/db/db_impl.cc:917-928 | a flush into the output level of a running compaction is safe, however that compaction cuts its survivors into tables, if and only if the table does not lie between two survivors |
| `Interleaving.ClearIsSafe` | event_system/ios/pods/leveldb-library/db/db_impl.cc:917-928 | a table on one side of all input files never lies between two survivors |
| `Hazards.CompactionResurrects` | event_system/ios/pods/leveldb-library/db/version_set.cc:1380-1439 | in this version, which satisfies the level invariant, every run of SetupOtherInputs from the given file ends with these inputs, and compacting them brings a deleted value back |
| `Hazards.FlushIntoGap` | event_system/ios/pods/leveldb-library/db/db_impl.cc:917-928 | in this version every manual compaction of level 0 takes these two files with a gap between them, a table flushed meanwhile rests in level 1 in that gap, and the result overlaps there |
| `EngineInvariant.LogWriteKeepsInv` | event_system/ios/pods/leveldb-library/db/db_impl.cc:1215-1225 | logging a batch keeps the engine invariant |
| `EngineInvariant.ApplyWriteKeepsInv` | event_system/ios/pods/leveldb-library/db/db_impl.cc:1233-1246 | inserting the batch and publishing its sequence number keeps the invariant: every readable snapshot reads what the history says |
| `EngineInvariant.SwitchKeepsInv` | event_system/ios/pods/leveldb-library/db/db_impl.cc:1356-1376 | switching memtable and log keeps the invariant |
| `EngineInvariant.FlushKeepsInv` | event_system/ios/pods/leveldb-library/db/db_impl.cc:544-575 | installing the table of the immutable memtable and retiring its log keeps the invariant, also during a compaction |
| `EngineInvariant.MoveKeepsInv` | event_system/ios/pods/leveldb-library/db/db_impl.cc:727-737 | a trivial move keeps the invariant |
| `EngineInvariant.OpenOutputKeepsInv` | event_system/ios/pods/leveldb-library/db/db_impl.cc:795-818 | beginning an output table under a new pending number keeps the invariant |
| `EngineInvariant.FinishOutputKeepsInv` | event_system/ios/pods/leveldb-library/db/db_impl.cc:820-867 | finishing an output table keeps the invariant; it stays on disk as long as it is pending |
| `EngineInvariant.InstallKeepsInv` | event_system/ios/pods/leveldb-library/db/db_impl.cc:869-885 | installing a compaction keeps the invariant, in particular all reads at live snapshots |
| `EngineInvariant.RemoveKeepsInv` | event_system/ios/pods/leveldb-library/db/db_impl.cc:222-287 | removing tables neither live nor pending, and logs and manifests older than those in use, keeps the invariant |
| `EngineInvariant.TakeSnapshotKeepsInv` | event_system/ios/pods/leveldb-library/db/snapshot.h:57-70 | taking a snapshot keeps the invariant |
| `EngineInvariant.ReleaseSnapshotKeepsInv` | event_system/ios/pods/leveldb-library/db/snapshot.h:79-86 | releasing any snapshot keeps the invariant |
| `Recovery.LogsToReplay` | event_system/ios/pods/leveldb-library/db/db_impl.cc:332-371 | the logs from the recorded log number on hold exactly what is in no table, with increasing sequence numbers |
| `Recovery.ReplayKeepsVersion` | event_system/ios/pods/leveldb-library/db/db_impl.cc:420-462 | turning the log entries into level-0 tables, cut anywhere, keeps the level invariant and adds exactly those entries |
| `Recovery.CrashLeavesDisk` | event_system/ios/pods/leveldb-library/db/db_impl.cc:289-378 | at whatever step the process dies, the manifest that CURRENT names, its tables and the logs from its log number on hold all that was written |
| `Recovery.ReplayTableKeepsOk` | event_system/ios/pods/leveldb-library/db/db_impl.cc:420-462 | turning a further stretch of the logs into a level-0 table keeps the files sufficient for opening again |
| `Recovery.CreateLogKeepsOk` | event_system/ios/pods/leveldb-library/db/db_impl.cc:1478-1505 | so does creating the new log, beside the logs of the memtables |
| `Recovery.WriteManifestKeepsOk` | event_system/ios/pods/leveldb-library/db/version_set.cc:803-833 | so does writing the new manifest, complete or not |
| `Recovery.SwitchCurrentKeepsOk` | event_system/ios/pods/leveldb-library/db/filename.cc:123-140 | so does switching CURRENT: the new manifest with the new log alone holds all that the old manifest and the logs did |
| `Recovery.FinishOpenKeepsOk` | event_system/ios/pods/leveldb-library/db/db_impl.cc:1478-1519 | the opened database satisfies the invariant of the engine |
| `Recovery.CanOpen` | event_system/ios/pods/leveldb-library/db/db_impl.cc:1478-1519 | from all files that satisfy the invariant of closed databases steps lead to an open one with the same history |
| `EngineTheorems.NextKeepsInv` | event_system/ios/pods/leveldb-library/db/db_impl.cc:697-776 | every step of the engine keeps the invariant |
| `EngineTheorems.StepKeepsOk` | event_system/ios/pods/leveldb-library/db/db_impl.cc:289-378 | every step of the engine, of opening and every crash keeps the invariant |
| `EngineTheorems.RunInv` | event_system/ios/pods/leveldb-library/db/db_impl.cc:697-776 | the invariant holds in every state of every run, open, closed or in the middle of opening |
| `EngineTheorems.GetInRun` | event_system/ios/pods/leveldb-library/db/db_impl.cc:1110-1155 | in every state of every run, Get at a readable snapshot returns what the history of acknowledged writes says there, and without one what all of it says |
| `EngineTheorems.IterateInRun` | event_system/ios/pods/leveldb-library/db/db_impl.cc:1157-1167 | in every state of every run, an iterator at any readable snapshot lists exactly the pairs the history says, in key order |
| `EngineTheorems.SnapshotIsolation` | event_system/ios/pods/leveldb-library/db/snapshot.h:16-37 | while a snapshot is held no step changes what any key reads at it |
| `EngineTheorems.AcknowledgedSurvives` | event_system/ios/pods/leveldb-library/db/db_impl.cc:289-378 | an acknowledged entry stays part of what later states read, across crashes, half-finished recoveries and file removals |
| `EngineTheorems.OwedIsWritten` | event_system/ios/pods/leveldb-library/db/db_impl.cc:1215-1246 | what a state owes its clients is made of the batches logged before it, each whole, and of nothing else, also across crashes |
| `EngineTheorems.LastWriteWins` | event_system/ios/pods/leveldb-library/db/db_impl.cc:1233-1246 | right after a batch is applied its keys read as its last updates of them say, and all other keys as before |
| `EngineTheorems.SnapshotIsFresh` | event_system/ios/pods/leveldb-library/db/snapshot.h:57-70 | a snapshot just taken reads all that was acknowledged |
| `EngineTheorems.CanReopen` | event_system/ios/pods/leveldb-library/db/db_impl.cc:289-378 | from every state of every run, should the process die there, steps lead to an open database with all that was written |
| `EngineTheorems.NothingNeededIsRemoved` | event_system/ios/pods/leveldb-library/db/db_impl.cc:222-287 | in every state of every run, also while opening, CURRENT names a complete manifest, every table of its version is on disk with its contents, and tables and remaining logs together read as all that was written |
| `EngineTheorems.BoundaryClosedIsHarmless` | event_system/ios/pods/leveldb-library/db/version_set.cc:1355-1388 | in a reachable state a compaction whose next-level inputs are closed under boundary files meets the condition for preserving reads |
| `EngineTheorems.CoveredFlushIsClear` | event_system/ios/pods/leveldb-library/db/db_impl.cc:917-928 | in a reachable state a flush beside an automatically picked compaction always meets the condition for being safe |
| `Log.Writer.AddRecord` | event_system/ios/pods/leveldb-library/db/log_writer.cc:34-80 | the file grows by exactly the layout of the record, fragmented at block ends with zero-filled trailers, also for empty records |
| `Log.Writer.EmitPhysicalRecord` | event_system/ios/pods/leveldb-library/db/log_writer.cc:82-108 | the file grows by one framed physical record and the block offset moves behind it |
| `Log.WriteAll` | event_system/ios/pods/leveldb-library/db/log_writer.cc:34-80 | writing a list of records produces exactly their layout |
| `Log.PiecesFill` | event_system/ios/pods/leveldb-library/db/log_writer.cc:42-77 | every fragment of a record but the last goes up to the end of its block |
| `Log.UnmaskMask` | event_system/ios/pods/leveldb-library/util/crc32c.h:22-38 | unmasking a masked checksum gives it back |
| `Log.CrcSealIsExact` | event_system/ios/pods/leveldb-library/db/log_reader.cc:243-257 | four stored bytes are accepted if and only if they are the checksum of type and payload, rotated by 15 bits with the constant added |
| `Log.CrcSealIsLawful` | event_system/ios/pods/leveldb-library/db/log_writer.cc:93-96 | the stored checksum is accepted on reading, for any checksum function |
| `Log.ReadsPiece` | event_system/ios/pods/leveldb-library/db/log_reader.cc:189-271 | at the place where a fragment was written the reader parses that fragment, skipping the block trailer; if the file ends inside, it reports end of file |
| `Log.AssembleWhole` | event_system/ios/pods/leveldb-library/db/log_reader.cc:71-171 | the fragments of a record reassemble to it without a report |
| `Log.AssemblePart` | event_system/ios/pods/leveldb-library/db/log_reader.cc:71-171 | some but not all fragments of a record yield nothing and no report |
| `Log.LogRoundTrip` | event_system/ios/pods/leveldb-library/db/log_reader.cc:56-174 | for every list of records and every byte at which the file is cut, reading returns exactly the records wholly before the cut and reports nothing |
| `Log.CompleteIsLongest` | event_system/ios/pods/leveldb-library/db/log_reader.cc:56-174 | the records returned are the longest prefix of the written ones that fits before the cut |
| `Log.AllComplete` | event_system/ios/pods/leveldb-library/db/log_reader.cc:56-174 | uncut, all records are returned |
| `Log.Reader.ReadBlock` | event_system/ios/pods/leveldb-library/db/log_reader.cc:189-214 | fetching a block keeps what will be read next |
| `Log.Reader.ReadPhysicalRecord` | event_system/ios/pods/leveldb-library/db/log_reader.cc:189-271 | on any bytes the buffered reader yields the record, bad stretch or end of file that the specification reads at its position, and reports the dropped sizes |
| `Log.Reader.ReadRecord` | event_system/ios/pods/leveldb-library/db/log_reader.cc:56-174 | on any bytes, also corrupt ones and stored types 5 and 6, each call returns the next record of the specification, with its reports, and leaves the rest |
| `Log.SilentEnd` | event_system/ios/pods/leveldb-library/db/log_reader.cc:134-150 | a record with stored type 5 ends the log without a report, whatever follows it, and nothing else keeps the reader from going on to the end |
| `Log.EofBytes` | event_system/ios/pods/leveldb-library/db/log_reader.cc:217-271 | the bytes on which that happens: a header of type 5 whose payload is in the buffer and whose checksum is accepted |
| `LogDamage.Walks` | event_system/ios/pods/leveldb-library/db/log_reader.cc:189-271 | on any bytes, all the reader sees stands in the file one behind the other: records whose stored four bytes are accepted for type and payload, stretches to the end of a block behind a refused, too long or zero header, and nothing between them but block trailers |
| `LogDamage.ReturnsRecords` | event_system/ios/pods/leveldb-library/db/log_reader.cc:56-174 | the records returned are exactly the stretches FULL and FIRST MIDDLE* LAST in what is seen, up to the first that looks like the end of the file |
| `LogDamage.NothingIsLost` | event_system/ios/pods/leveldb-library/db/log_reader.cc:56-174 | every byte seen before the end is in a record returned or in a size reported, but for a last record that is not finished |
| `LogDamage.BadIsReported` | event_system/ios/pods/leveldb-library/db/log_reader.cc:134-150 | every bad stretch that is not zero is reported with its size |
| `LogDamage.RejectedIsReported` | event_system/ios/pods/leveldb-library/db/log_reader.cc:243-257 | where a checksum is refused the rest of the block is given up and reported |
| `LogDamage.RecordsAreStored` | event_system/ios/pods/leveldb-library/db/log_reader.cc:56-174 | whatever the bytes, every record returned is stored in the file, in fragments FULL or FIRST MIDDLE* LAST under accepted checksums, one right behind the other, and each record behind the one before |
| `LogDamage.IntactPrefix` | event_system/ios/pods/leveldb-library/db/log_reader.cc:56-174 | if the first bytes of a log are as they were written, the records wholly among them come back first |
| `LogDamage.IntactRest` | event_system/ios/pods/leveldb-library/db/log_reader.cc:189-257 | records written from a block boundary on come back last, whatever stands before it, unless an accepted record there has type 5 |
| `LogDamage.ReadLog` | event_system/ios/pods/leveldb-library/db/log_reader.cc:56-174 | a file of any bytes read to its end: what is returned is stored in it, and nothing is lost without a report |
| `Merger.UnionMixed` | event_system/ios/pods/leveldb-library/table/merger.cc:179-189 | the merged sequence is sorted and holds the entries of all children and no others |
| `Merger.MergingIterator.SeekToFirst` | event_system/ios/pods/leveldb-library/table/merger.cc:31-37 | stands on the first merged entry, or is invalid if there is none |
| `Merger.MergingIterator.SeekToLast` | event_system/ios/pods/leveldb-library/table/merger.cc:39-45 | stands on the last merged entry, or is invalid if there is none |
| `Merger.MergingIterator.Seek` | event_system/ios/pods/leveldb-library/table/merger.cc:47-53 | stands on the first merged entry at or after the target |
| `Merger.MergingIterator.Next` | event_system/ios/pods/leveldb-library/table/merger.cc:55-79 | moves one entry forward in the merged sequence from either direction; the other children end strictly after the current key |
| `Merger.MergingIterator.Prev` | event_system/ios/pods/leveldb-library/table/merger.cc:81-108 | moves one entry back in the merged sequence from either direction; the other children end strictly before the current key |
| `Merger.MergingIterator.FindSmallest` | event_system/ios/pods/leveldb-library/table/merger.cc:148-161 | picks the child on the next merged entry, or none at the end |
| `Merger.MergingIterator.FindLargest` | event_system/ios/pods/leveldb-library/table/merger.cc:163-176 | picks the child on the previous merged entry, or none at the start |
| `DbIter.ViewIsReads` | event_system/ios/pods/leveldb-library/db/db_iter.cc:34-46 | the iterator's view lists a pair exactly when a point read at the same snapshot returns it |
| `DbIter.ViewRises` | event_system/ios/pods/leveldb-library/db/db_iter.cc:34-46 | the view is strictly increasing in user keys |
| `DbIter.DBIter.Next` | event_system/ios/pods/leveldb-library/db/db_iter.cc:141-175 | the index into the view grows by one, in either direction of travel before |
| `DbIter.DBIter.FindNextUserEntry` | event_system/ios/pods/leveldb-library/db/db_iter.cc:177-207 | ends on the first entry to show at or after the starting point, or at the end |
| `DbIter.DBIter.Prev` | event_system/ios/pods/leveldb-library/db/db_iter.cc:209-234 | the index into the view shrinks by one, or the iterator becomes invalid at the first entry |
| `DbIter.DBIter.FindPrevUserEntry` | event_system/ios/pods/leveldb-library/db/db_iter.cc:236-276 | ends on the last entry to show before the starting point with its key and value saved, or becomes invalid |
| `DbIter.DBIter.Seek` | event_system/ios/pods/leveldb-library/db/db_iter.cc:278-290 | stands on the first shown user key at or after the target; all earlier ones are smaller; it is valid just if there is one |
| `DbIter.DBIter.SeekToFirst` | event_system/ios/pods/leveldb-library/db/db_iter.cc:292-301 | index 0 of the view |
| `DbIter.DBIter.SeekToLast` | event_system/ios/pods/leveldb-library/db/db_iter.cc:303-308 | the last index of the view, if any |
| `DbIter.DBIter.Key` | event_system/ios/pods/leveldb-library/db/db_iter.cc:64-67 | the key shown is that of the view at the index, in both directions |
| `DbIter.DBIter.GetValue` | event_system/ios/pods/leveldb-library/db/db_iter.cc:68-71 | the value shown is that of the view at the index, in both directions |
| `Iteration.LevelRunSorted` | event_system/ios/pods/leveldb-library/db/version_set.cc:237-244 | the files of a deeper level end to end are one sorted run |
| `TwoLevel.TwoLevelIterator.Seek` | event_system/ios/pods/leveldb-library/table/two_level_iterator.cc:82-87 | stands on the first entry of all blocks at or after the target, or past the end |
| `TwoLevel.TwoLevelIterator.SeekToFirst` | event_system/ios/pods/leveldb-library/table/two_level_iterator.cc:89-94 | stands on the first entry of the blocks end to end, empty blocks skipped |
| `TwoLevel.TwoLevelIterator.SeekToLast` | event_system/ios/pods/leveldb-library/table/two_level_iterator.cc:96-101 | stands on the last entry of the blocks end to end |
| `TwoLevel.TwoLevelIterator.Next` | event_system/ios/pods/leveldb-library/table/two_level_iterator.cc:103-126 | moves one entry on across blocks, empty ones skipped |
| `TwoLevel.TwoLevelIterator.Prev` | event_system/ios/pods/leveldb-library/table/two_level_iterator.cc:109-139 | moves one entry back across blocks, or becomes invalid at the first entry |
| `TwoLevel.NewConcatenatingIterator` | event_system/ios/pods/leveldb-library/db/version_set.cc:222-227 | over the files of a deeper level the two-level iterator runs over the level end to end |
| `Iteration.SourcesPile` | event_system/ios/pods/leveldb-library/db/db_impl.cc:1072-1097 | the runs an iterator merges are sorted, share no internal key and hold exactly the store |
| `Iteration.NewIterator` | event_system/ios/pods/leveldb-library/db/db_impl.cc:1157-1167 | the iterator's view is what reading every key at the snapshot gives, in key order |
| `GroupCommit.BuildBatchGroup` | event_system/ios/pods/leveldb-library/db/db_impl.cc:1270-1316 | the group is the longest queue prefix that obeys the sync rule and the size limit; its batch is the members' batches end to end, each at the place the sizes before it add up to, and nothing else; alone, a batch is taken as it is |
| `GroupCommit.OneEndToEnd` | event_system/ios/pods/leveldb-library/db/db_impl.cc:1304-1312 | there is one way only to put the batches end to end |
| `GroupCommit.GroupFits` | event_system/ios/pods/leveldb-library/db/db_impl.cc:1279-1303 | a first batch of up to 128 kilobytes takes at most as much more with it, a larger one no more than makes up a megabyte |
| `GroupCommit.LeftBehind` | event_system/ios/pods/leveldb-library/db/db_impl.cc:1290-1303 | the first writer left behind asks for a sync that the leader does not do, or its batch is too big |
| `GroupCommit.NextKeepsInv` | event_system/ios/pods/leveldb-library/db/db_impl.cc:1195-1266 | every step of writers, leader, log and readers keeps the queue, log, memtable and group invariants |
| `GroupCommit.RunInv` | event_system/ios/pods/leveldb-library/db/db_impl.cc:1195-1266 | the invariant holds in every state of every interleaving |
| `GroupCommit.InOneGroup` | event_system/ios/pods/leveldb-library/db/db_impl.cc:1249-1258 | every writer that left the queue was in exactly one group, in order of arrival |
| `GroupCommit.GroupsApart` | event_system/ios/pods/leveldb-library/db/db_impl.cc:1212-1217 | writers and sequence ranges of an earlier group come before those of a later one |
| `GroupCommit.AllOrNothing` | event_system/ios/pods/leveldb-library/db/db_impl.cc:1215-1246 | at the published sequence number the memtable shows all of a finished group or nothing of it, whatever the group in progress inserted |
| `GroupCommit.NothingElse` | event_system/ios/pods/leveldb-library/db/db_impl.cc:1215-1246 | at the published sequence number only updates of finished successful groups are visible |
| `GroupCommit.AcknowledgedIsLogged` | event_system/ios/pods/leveldb-library/db/db_impl.cc:1215-1258 | each update of an acknowledged write is in one log record, at its place among the batches of its group end to end, and in the memtable under the matching sequence number, and on stable storage if the write asked for sync |
| `GroupCommit.VisibleIsAcknowledged` | event_system/ios/pods/leveldb-library/db/db_impl.cc:1215-1258 | up to the published number the memtable holds the updates of acknowledged writes and nothing else, each under exactly one number, in order of arrival |
| `GroupCommit.FailedSyncIsLast` | event_system/ios/pods/leveldb-library/db/db_impl.cc:1219-1231 | after a failed sync no update is logged or applied any more |
| `GroupCommit.FinishesOnce` | event_system/ios/pods/leveldb-library/db/db_impl.cc:1249-1265 | a writer's status never changes and a returned call stays returned |
| `GroupCommit.LogIsGapless` | event_system/ios/pods/leveldb-library/db/db_impl.cc:1215-1246 | the log covers the sequence numbers without a gap if and only if no append of a group with updates failed |
| `WriteBatches.WriteBatch.Put` | event_system/ios/pods/leveldb-library/db/write_batch.cc:98-103 | the batch carries one more update, at its end |
| `WriteBatches.WriteBatch.Delete` | event_system/ios/pods/leveldb-library/db/write_batch.cc:105-109 | the batch carries one more deletion, at its end |
| `WriteBatches.WriteBatch.Append` | event_system/ios/pods/leveldb-library/db/write_batch.cc:144-148 | the batch carries the updates of the other batch after its own, and their number |
| `WriteBatches.WriteBatch.SetSequence` | event_system/ios/pods/leveldb-library/db/write_batch.cc:94-96 | the same updates under another sequence number |
| `WriteBatches.OpExactly` | event_system/ios/pods/leveldb-library/db/write_batch.cc:52-75 | on any bytes, one turn of the loop takes the update that stands there, tag, key and value, or none |
| `WriteBatches.ScanExactly` | event_system/ios/pods/leveldb-library/db/write_batch.cc:42-75 | the updates handed out stand end to end behind the header, up to the end of the string or to where no update stands |
| `WriteBatches.Iterate` | event_system/ios/pods/leveldb-library/db/write_batch.cc:42-81 | on any bytes the handler gets these updates, under consecutive numbers, and a wrong count or a bad update is reported after that |
| `WriteBatches.InsertInto` | event_system/ios/pods/leveldb-library/db/write_batch.cc:116-136 | the memtable gets the updates under consecutive numbers from that of the header on; it succeeds just if they are all there is, and as many as the count says |
| `WriteBatches.InsertsWhatItCarries` | event_system/ios/pods/leveldb-library/db/write_batch.cc:42-136 | inserting a batch gives back the number and exactly the updates it was built from |
| `ManifestReplay.Builder.Apply` | event_system/ios/pods/leveldb-library/db/version_set.cc:629-669 | compaction pointers and each level's deletions and additions are recorded as one edit after the other says |
| `VersionSets.PointedAt` | event_system/ios/pods/leveldb-library/db/version_set.cc:629-635 | the last pointer an edit has for a level stays, and a level without one keeps its own |
| `ManifestReplay.SaveLevel` | event_system/ios/pods/leveldb-library/db/version_set.cc:675-697 | the merge keeps exactly the files that are not deleted, in file order |
| `ManifestReplay.Builder.SaveTo` | event_system/ios/pods/leveldb-library/db/version_set.cc:672-730 | the same for every level of the new version |
| `ManifestReplay.StepAgrees` | event_system/ios/pods/leveldb-library/db/version_set.cc:629-730 | applying one more edit to the builder and to the version built so far agree if and only if the edit does not re-add a number under which another file was deleted |
| `ManifestReplay.ReplayAgrees` | event_system/ios/pods/leveldb-library/db/version_set.cc:862-987 | for histories that add each number once, the builder that saw all edits keeps just the files of the last version |
| `ManifestReplay.ReplayRecovers` | event_system/ios/pods/leveldb-library/db/version_set.cc:862-987 | what a builder saves after all the edits is the very version that was current when the last of them was applied |
| `EditCodec.EncodeTo` | event_system/ios/pods/leveldb-library/db/version_edit.cc:41-84 | the string is the tagged fields of the edit in order |
| `EditCodec.EncodedBytes` | event_system/ios/pods/leveldb-library/db/version_edit.cc:12-84 | tag by tag: the comparator under 1, the log numbers under 2 and 9, next file and last sequence under 3 and 4, then pointers, deletions and additions |
| `EditCodec.EntryBytes` | event_system/ios/pods/leveldb-library/db/version_edit.cc:63-83 | the bytes of a pointer under tag 5, of a deletion under 6 and of an addition under 7 |
| `EditCodec.DecodeFrom` | event_system/ios/pods/leveldb-library/db/version_edit.cc:105-203 | on any bytes the loop over tags yields the edit its fields make up, or the complaint at the first bad field, unknown tag or unreadable rest |
| `EditCodec.FieldExactly` | event_system/ios/pods/leveldb-library/db/version_edit.cc:86-198 | on any bytes one turn of the loop takes the field that stands there, by its tag, with level below 7 and keys not empty, or none |
| `EditCodec.DecodesExactly` | event_system/ios/pods/leveldb-library/db/version_edit.cc:105-203 | on any bytes decoding succeeds if and only if they are such fields from beginning to end, and yields what these record |
| `EditCodec.LastFieldRecords` | event_system/ios/pods/leveldb-library/db/version_edit.cc:119-193 | a later counter or comparator replaces an earlier one, and lists grow at their ends |
| `EditCodec.EditRoundTrip` | event_system/ios/pods/leveldb-library/db/version_edit.cc:41-203 | decoding undoes encoding, for every edit whose numbers have 64 bits, whose keys are not empty and whose levels exist |
| `EditCodec.ReencodesSame` | event_system/ios/pods/leveldb-library/db/version_edit.cc:41-203 | whatever bytes an edit was read from, it can be encoded, and reads back as the same edit |
| `Manifest.ManifestRoundTrip` | event_system/ios/pods/leveldb-library/db/version_set.cc:891-945 | a manifest cut at any byte reads without a corruption as the edits whose records are wholly before the cut |
| `Manifest.AcceptsExactly` | event_system/ios/pods/leveldb-library/db/version_set.cc:909-923 | either every record decodes to an edit for this comparator, or the failure is that of the first record that does not |
| `Manifest.LastValueCounts` | event_system/ios/pods/leveldb-library/db/version_set.cc:925-944 | a counter has the value of the last edit that sets it |
| `Manifest.MakeSnapshot` | event_system/ios/pods/leveldb-library/db/version_set.cc:1064-1092 | the snapshot lists comparator, compaction pointers and all files level by level |
| `Manifest.SnapshotInstalls` | event_system/ios/pods/leveldb-library/db/version_set.cc:1064-1092 | applied to an empty version the snapshot gives the version it was made of |
| `Manifest.PointersReturn` | event_system/ios/pods/leveldb-library/db/version_set.cc:1064-1092 | and the compaction pointers it was made of |
| `Manifest.ReadManifest` | event_system/ios/pods/leveldb-library/db/version_set.cc:891-945 | on any bytes the loop over records fails exactly if the log reader reports a corruption or a record is refused; otherwise builder and counters hold what the edits say |
| `VersionSets.VersionSet.LogAndApply` | event_system/ios/pods/leveldb-library/db/version_set.cc:777-860 | the next version holds the files added and those not deleted; the edit, with log numbers, next file number and last sequence filled in as they are, is appended to the manifest, which begins with a snapshot if new; the manifest always leads from nothing to the current version, pointers and counters |
| `VersionSets.VersionSet.Recover` | event_system/ios/pods/leveldb-library/db/version_set.cc:862-987 | on any bytes it fails exactly if the log is corrupt, a record is refused or a counter is missing; otherwise it installs what the edits make of the current version and the last value of each counter |
| `VersionSets.CutDecides` | event_system/ios/pods/leveldb-library/db/version_set.cc:862-987 | on a manifest cut at any byte Recover takes the edits wholly before the cut and fails just if one of the counters is not among them |
| `VersionSets.Reopen` | event_system/ios/pods/leveldb-library/db/version_set.cc:862-987 | opened again from a manifest cut at any byte, version, pointers and last sequence are those after the last edit wholly written; uncut, they are those logged last, with the same log numbers, and the next file number logged names the new manifest |
| `Coding.Fixed32RoundTrip` | event_system/ios/pods/leveldb-library/util/coding.h:54-89 | decoding a fixed 32-bit integer undoes encoding |
| `Coding.Fixed32Value` | event_system/ios/pods/leveldb-library/util/coding.h:54-60 | the least significant byte comes first |
| `Coding.VarintRoundTrip` | event_system/ios/pods/leveldb-library/util/coding.cc:21-102 | decoding a variable-length integer undoes encoding, wherever it lies in a buffer |
| `Coding.VarintBytes` | event_system/ios/pods/leveldb-library/util/coding.cc:21-64 | seven bits a byte, lowest first, the top bit set on all bytes but the last, and no byte more than it takes |
| `Coding.ReadsExactly` | event_system/ios/pods/leveldb-library/util/coding.cc:86-131 | on any bytes, what is read is the first stretch within five, or ten, bytes of which only the last has the top bit clear, and nothing if there is none |
| `Coding.ReadsLong` | event_system/ios/pods/leveldb-library/util/coding.cc:55-142 | decoding a variable-length 64-bit integer undoes encoding |
| `Coding.ReadsSlice` | event_system/ios/pods/leveldb-library/util/coding.cc:72-164 | decoding a length-prefixed string undoes encoding |
| `Coding.SliceExactly` | event_system/ios/pods/leveldb-library/util/coding.cc:155-164 | on any bytes, a string is read just if its length and that many bytes stand there |
| `Coding.BelowTrans` | event_system/ios/pods/leveldb-library/util/comparator.cc:27-29 | the byte order is transitive |
| `Coding.BelowTotal` | event_system/ios/pods/leveldb-library/util/comparator.cc:27-29 | the byte order is total and irreflexive |
| `Coding.FindShortestSeparator` | event_system/ios/pods/leveldb-library/util/comparator.cc:31-52 | when the first differing byte leaves room, the result lies strictly between start and limit and ends at that byte; otherwise it is the start |
| `Coding.FindShortSuccessor` | event_system/ios/pods/leveldb-library/util/comparator.cc:54-66 | the result is strictly above the key and ends at its first byte other than 0xff; a key of 0xff bytes only is returned as it is |
| `Table.InternalSeparator` | event_system/ios/pods/leveldb-library/db/dbformat.cc:65-82 | the separator has a shorter user key strictly between the two and sorts before all versions of it exactly when the user key can be shortened so; otherwise it is the start key |
| `Table.InternalSuccessor` | event_system/ios/pods/leveldb-library/db/dbformat.cc:84-97 | the successor has a larger, shorter user key exactly when the user key can be shortened so; otherwise it is the key itself |
| `Table.TableBuilder.Add` | event_system/ios/pods/leveldb-library/table/table_builder.cc:94-123 | the last block holds one more item, or it is the first of a new block if the block is full; the table stays ordered, indexed and filed in the filter |
| `Table.TableBuilder.Flush` | event_system/ios/pods/leveldb-library/table/table_builder.cc:125-139 | the current block is written and its index entry becomes due; the contents stay the same |
| `Table.TableBuilder.Finish` | event_system/ios/pods/leveldb-library/table/table_builder.cc:198-253 | the finished table holds exactly the items added, every index key divides its block from all later ones and is as short as the user keys allow, and the filter lets every key through; its bytes are the business of `TableBytes` |
| `Table.HomeOfFirst` | event_system/ios/pods/leveldb-library/table/table.cc:214-242 | if the first item at or after a key has its user key, it is in the one block the shortened index leads to |
| `Table.FoundIsFirst` | event_system/ios/pods/leveldb-library/table/table.cc:214-242 | index seek, filter and one block seek come upon the first item of the table at or after the key whenever it has the key's user key, and never upon a wrong item |
| `TableBytes.KeyRoundTrip` | event_system/ios/pods/leveldb-library/db/dbformat.cc:21-24 | parsing an encoded internal key gives it back |
| `TableBytes.BuildBlock` | event_system/ios/pods/leveldb-library/table/block_builder.cc:61-105 | the block builder's bytes for a list of items are a block that holds them |
| `TableBytes.SeekInBlock` | event_system/ios/pods/leveldb-library/table/block.cc:164-202 | over the bytes of a block the iterator under the internal key order ends on the item that a seek in the list of items ends on |
| `TableBytes.ReadsRawBlock` | event_system/ios/pods/leveldb-library/table/format.cc:64-139 | a block is read back from where it was written, compressed or not, checksum verified or not |
| `TableBytes.ReadBlockChecks` | event_system/ios/pods/leveldb-library/table/format.cc:64-139 | on any bytes a block is handed out exactly if it and its trailer are in the file, the checksum of contents and type is accepted or not asked for, and the type is plain, or compressed and the contents uncompress |
| `TableBytes.PackedSaves` | event_system/ios/pods/leveldb-library/table/table_builder.cc:158-170 | a compressed block is kept just if that saves more than an eighth |
| `TableBytes.FooterRoundTrip` | event_system/ios/pods/leveldb-library/table/format.cc:31-62 | decoding a footer undoes encoding it |
| `TableBytes.FooterChecks` | event_system/ios/pods/leveldb-library/table/format.cc:42-62 | a footer is accepted just with the magic number at its end |
| `TableBytes.InternalGet` | event_system/ios/pods/leveldb-library/table/table.cc:214-242 | over the bytes of the file, with block iterators on index and data block, the lookup hands out just what the lookup in the specified table finds |
| `FilterBlock.NoFalseNegative` | event_system/ios/pods/leveldb-library/table/filter_block.cc:77-104 | the reader matches every key of every list at the offsets that fall to it, including empty filters between |
| `FilterBlock.AsksOneFilter` | event_system/ios/pods/leveldb-library/table/filter_block.cc:77-104 | a finished block asks the filter that the offset falls to, one for two kilobytes, and no other |
| `FilterBlock.FilterBlockBuilder.AddKey` | event_system/ios/pods/leveldb-library/table/filter_block.cc:29-33 | the key is filed under the current block offset |
| `FilterBlock.FilterBlockBuilder.StartBlock` | event_system/ios/pods/leveldb-library/table/filter_block.cc:21-27 | earlier keys stay filed under their own offsets |
| `FilterBlock.FilterBlockBuilder.GenerateFilter` | event_system/ios/pods/leveldb-library/table/filter_block.cc:51-75 | the pending keys, recovered from the flattened buffer, become the next filter |
| `FilterBlock.FilterBlockBuilder.Finish` | event_system/ios/pods/leveldb-library/table/filter_block.cc:35-49 | the block is the filters, their offsets and the trailer, and every key added matches it at the offset of its data block |
| `Bloom.CreateFilter` | event_system/ios/pods/leveldb-library/util/bloom.cc:28-54 | setting bits in place produces the specified filter |
| `Bloom.KeyMayMatch` | event_system/ios/pods/leveldb-library/util/bloom.cc:56-80 | probing until a missing bit decides exactly whether all probed bits are set, with 32-bit wrap-around |
| `Bloom.NoFalseNegative` | event_system/ios/pods/leveldb-library/util/bloom.cc:28-80 | every key a filter was built from matches it |
| `Bloom.MatchesExactly` | event_system/ios/pods/leveldb-library/util/bloom.cc:56-80 | a key matches if and only if each bit its probes look at is looked at by a probe of one of the filter's keys |
| `Bloom.FilterShape` | event_system/ios/pods/leveldb-library/util/bloom.cc:28-42 | as many bits a key as configured, at least 64, in whole bytes, with the number of probes behind them |
| `Bloom.BloomIsLawful` | event_system/ios/pods/leveldb-library/util/bloom.cc:17-85 | the Bloom policy meets the law that filter blocks rely on |
| `Block.DecodesEncoded` | event_system/ios/pods/leveldb-library/table/block.cc:55-75 | decoding an entry header undoes encoding it, on the one-byte path and on the general one |
| `Block.BlockBuilder.Add` | event_system/ios/pods/leveldb-library/table/block_builder.cc:71-105 | the block holds one more pair; every pair at a multiple of the restart interval is a restart point that shares nothing, and all others share as much as they can with the pair before |
| `Block.BlockBuilder.Finish` | event_system/ios/pods/leveldb-library/table/block_builder.cc:61-69 | the bytes are those of the pairs, the restart array and its length |
| `Block.ParsesPair` | event_system/ios/pods/leveldb-library/table/block.cc:225-252 | parsing at the offset of a pair yields its lengths, key remainder and value, ending at the next pair |
| `Block.BlockIter.ParseNextKey` | event_system/ios/pods/leveldb-library/table/block.cc:225-252 | reconstructs the next key from the prefix kept and stands on that pair, or past the end |
| `Block.BlockIter.Next` | event_system/ios/pods/leveldb-library/table/block.cc:138-141 | moves to the next pair |
| `Block.BlockIter.Prev` | event_system/ios/pods/leveldb-library/table/block.cc:143-162 | moves to the previous pair, across restart points, or past the end from the first |
| `Block.BlockIter.Seek` | event_system/ios/pods/leveldb-library/table/block.cc:164-202 | binary search over restart points and a scan end on the first pair whose key is not below the target |
| `Block.BlockIter.SeekToFirst` | event_system/ios/pods/leveldb-library/table/block.cc:204-207 | stands on the first pair |
| `Block.BlockIter.SeekToLast` | event_system/ios/pods/leveldb-library/table/block.cc:209-214 | stands on the last pair, if any |
| `Skiplist.SkipList.FindGreaterOrEqual` | event_system/ios/pods/leveldb-library/db/skiplist.h:260-281 | finds the first entry at or after the target and, on every level in use, the last node before it |
| `Skiplist.SkipList.FindLessThan` | event_system/ios/pods/leveldb-library/db/skiplist.h:283-302 | finds the last entry before the target, or the head |
| `Skiplist.SkipList.FindLast` | event_system/ios/pods/leveldb-library/db/skiplist.h:304-322 | finds the last entry, or the head |
| `Skiplist.SkipList.Insert` | event_system/ios/pods/leveldb-library/db/skiplist.h:336-368 | for any height the contents become those with the entry inserted in key order, and the new node is in every lane below that height and in no other; every level stays a sorted sublist of the one below; all it does are single stores of the kind that readers survive |
| `Skiplist.PublishKeepsOk` | event_system/ios/pods/leveldb-library/db/skiplist.h:362-367 | after each single link store the list is well formed |
| `Skiplist.OldOrNew` | event_system/ios/pods/leveldb-library/db/skiplist.h:344-367 | after each store the list holds what it held before, or that and one new entry |
| `Skiplist.ReaderSurvives` | event_system/ios/pods/leveldb-library/db/skiplist.h:349-367 | what a reader reached stays reached whatever the writer stores meanwhile |
| `Skiplist.SearchIsExact` | event_system/ios/pods/leveldb-library/db/skiplist.h:260-281 | in every interleaving of a search with the stores of insertions, the search ends on the first entry at or after its target in the list as it stands then |
| `Skiplist.Iterator.Next` | event_system/ios/pods/leveldb-library/db/skiplist.h:206-210 | the index into the contents grows by one |
| `Skiplist.Iterator.Prev` | event_system/ios/pods/leveldb-library/db/skiplist.h:212-221 | the index into the contents shrinks by one, without back links |
| `Skiplist.Iterator.Seek` | event_system/ios/pods/leveldb-library/db/skiplist.h:223-226 | the index of the first entry at or after the target |
| `HashTable.HandleTable.Lookup` | event_system/ios/pods/leveldb-library/util/cache.cc:75-77 | answers as the map from keys to handles |
| `HashTable.HandleTable.Insert` | event_system/ios/pods/leveldb-library/util/cache.cc:79-93 | updates the map at the key and returns the handle replaced; there are never more handles than buckets |
| `HashTable.BucketIsRemainder` | event_system/ios/pods/leveldb-library/util/cache.cc:114-121 | for a power of two of buckets the mask is the remainder |
| `HashTable.HandleTable.Remove` | event_system/ios/pods/leveldb-library/util/cache.cc:95-103 | removes the key from the map and returns its handle |
| `HashTable.HandleTable.Resize` | event_system/ios/pods/leveldb-library/util/cache.cc:123-147 | rehashing preserves the map |
| `LruCache.RefKeepsOk` | event_system/ios/pods/leveldb-library/util/cache.cc:218-224 | taking a reference keeps lists, counts, usage and deletions consistent |
| `LruCache.UnrefKeepsOk` | event_system/ios/pods/leveldb-library/util/cache.cc:226-238 | dropping a client reference keeps them consistent; the deleter runs exactly when the last reference goes |
| `LruCache.FinishEraseKeepsOk` | event_system/ios/pods/leveldb-library/util/cache.cc:308-317 | removing an entry from the cache keeps them consistent and lowers the usage by its charge |
| `LruCache.LRUCache.Insert` | event_system/ios/pods/leveldb-library/util/cache.cc:267-304 | the new handle takes the key over; what clients hold under other keys stays; deleted are exactly the replaced entry if idle and the idle entries that were given back first; in the end the usage fits the capacity or no idle entry is left, and no more was evicted than needed |
| `LruCache.LRUCache.EvictOldest` | event_system/ios/pods/leveldb-library/util/cache.cc:294-301 | evicts the idle entry that clients gave back before all other idle ones, and deletes it once |
| `LruCache.LRUCache.Lookup` | event_system/ios/pods/leveldb-library/util/cache.cc:253-260 | returns the cached handle of the key, if any, with one more reference |
| `LruCache.LRUCache.Release` | event_system/ios/pods/leveldb-library/util/cache.cc:262-265 | gives one client reference back; with the last one a cached handle goes to the end of the idle list and any other is deleted |
| `LruCache.LRUCache.Erase` | event_system/ios/pods/leveldb-library/util/cache.cc:319-322 | the key leaves the table; a handle still held lives on |
| `LruCache.LRUCache.Prune` | event_system/ios/pods/leveldb-library/util/cache.cc:324-334 | deletes exactly the idle entries, oldest first |

## Left out

- The Dart console and Flutter application, platform runners and Firebase headers: user interface and declarations.
- I/O errors of tables and manifest, corrupted internal keys and paranoid checks: file operations of the engine succeed; failing log appends and syncs are modelled in `GroupCommit` only, where a failed append leaves no readable record.
- Machine crashes: the crash model is that of the process, in which completed appends persist. A record torn by the crash counts as not appended, which `Log.LogRoundTrip` and `VersionSets.CutDecides` justify.
- In the engine a manifest is complete or unreadable; `VersionSets` has its bytes. The files of a version edit stand for the tables that a catalogue finds by their metadata.
- Old versions kept alive by iterators: `RemoveObsoleteFiles` keeps the files of the current version and pending outputs; the version reference list is not modelled.
- `reuse_logs`, and the encoding of memtable entries: `WriteBatches` ends with the calls of MemTable::Add, and `Skiplist` starts from entries.
- Batches of 2^31 updates and more, whose count is negative in the code.
- Log reading from a nonzero initial offset: every caller passes 0.
- Scores are real numbers instead of doubles. File sizes, byte limits and the places where outputs are cut are parameters.
- The sequence number limit: a write step requires room below 2^56 - 1; the code has no check.
- Iterator status codes, and cursors of children over anything but sorted runs with distinct internal keys. The merging iterator's children are cursors over runs, which `TwoLevel` and `Block` justify one by one.
- The compressor and the checksum function are parameters. `TableBuilder` lays out lists of items, `TableBytes` relates them to bytes; the metaindex block is not modelled. `Block` reads well-formed blocks only, so the corruption branches of its parser do not occur.
- Filter blocks and blocks of 4 GiB and more, where the 32-bit offsets of the format wrap around.
- C++ memory orderings: readers and writers are sequentially consistent interleavings of single loads and stores.
- The linked lists of `LruCache` and the nodes of `Skiplist` are sequences and arena indices instead of heap objects; freed memory is not reused in the model. The sharding of the cache and its destructor are omitted.
- The repair tool, statistics, properties and the C interface.
- VersionSets.VersionSet.LogAndApply: requires that the numbers an edit adds are new to their level, which is how file numbers are handed out, and that it describes its tables truly.
- WriteBatches.WriteBatch.Put: keys and values are below 4 GiB; the code cuts longer lengths to 32 bits.
- Merger.MergingIterator.Next: requires distinct internal keys across children, as the engine guarantees (`Iteration.SourcesPile`).
