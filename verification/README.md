# LevelDB and nanopb, modelled in Dafny

The Pods of this repository carry LevelDB, an ordered key-value store built as a log-structured merge tree, and nanopb,
a protocol buffer codec for C.  This project models both and proves what they are for: a read answers as the history of
writes says, a file or log reads back as what was written, and concurrent callers see whole operations.

`dafny verify dfyconfig.toml` checks everything.

## How the model is built

An `Entry` is one write: a user key, a sequence number, put or delete, and a value.  The meaning of a read is a function
of a set of entries (`Lookup.Answer`): the newest entry of the key at or below the sequence, where a deletion counts as
nothing.  Everything else is proved against that.

- **The tree.** `Versions` holds the levels of table files and the point lookup.  `Inputs`, `CompactionInputs`,
  `CompactionSetup`, `InputMerge`, `Compactions` and `Outputs` are the steps of a compaction.  `CompactionReads` and
  `CompactionOrder` say what a compaction does to reads and to the shape of a version, `Edits` the same for the three kinds
  of version edit.  `VersionBuilder` folds edits into versions.
- **The database.** `DatabaseState` has the invariant and the safety property, `Batches` what a
  batch of writes does to reads, `Database` the object whose methods are
  writes, memtable switches, flushes, compactions, snapshots and reads.  `EditLogs`, `EditRecords`, `Manifest` and
  `Reopening` carry a run of that object through its manifest, as bytes, to recovery.
- **Iterators.** `Cursors` is the iterator contract over one sorted run; `Merger` (with `Runs`), `TwoLevel` and
  `BlockIterators` meet it over several children, over blocks behind an index, and over the bytes of a block.
  `UserIterator` hides old versions and deletions in both directions.  `Sources` and `Scans` put them together to a scan.
- **Tables.** `Comparators`, `Blocks`, `Bloom`, `FilterBlocks`, `TableFormat` and `TableBuilders` write a table file;
  `BlockIterators`, `Tables` and `TableReads` read it.  `TableReads` connects a lookup in the file's bytes with the
  search among entries that the tree modules use.
- **Logs.** `LogFormat` and `LogReader` are the record format, `Coding` and `Checksums` its numbers, `WriteBatches` the
  batches in it and their replay.
- **Concurrency.** `WriteQueues` is the queue of concurrent writers as a state machine, `SkipLists` the memtable's list
  with one writer and lock-free readers.
- **Cache.** `HandleTables` and `LruCaches` are the hash table and the reference-counted LRU cache over linked nodes,
  `CacheStates` what they mean.
- **nanopb.** `PbSchema` describes messages, `PbEncode` and `PbDecode` (over `PbStream` and `PbScalars`) write and read
  them.  `PbValues` says when two messages are the same without naming either; `PbRoundTrip` and `PbOlderReader` put
  writer and reader together, under one schema and under two.

Code that changes objects step by step is a class with methods here too; each method is proved against a function of the
old state.

## Model

| member | source | states |
|---|---|---|
| `Versions.Get` | WeddApp/Pods/leveldb-library/db/version_set.cc:326-421 | A point lookup that goes level by level and stops at the first level that knows the key returns the newest entry of the key at or below the sequence over all levels, and nothing only if no level holds one. |
| `Versions.FindFile` | WeddApp/Pods/leveldb-library/db/version_set.cc:88-106 | The binary search returns the first file whose largest key is at or after the key: every earlier file ends before it, no later one does. |
| `Inputs.SomeFileOverlapsRange` | WeddApp/Pods/leveldb-library/db/version_set.cc:125-157 | True exactly when some file of the list meets the range, by linear scan at level 0 and by one binary search above it. |
| `Inputs.OverlapsIff` | WeddApp/Pods/leveldb-library/db/version_set.cc:108-120 | A file overlaps a range exactly when some user key lies in both. |
| `Inputs.GetOverlappingInputs` | WeddApp/Pods/leveldb-library/db/version_set.cc:519-559 | Above level 0 exactly the files that meet the range, in order. At level 0 the least set of files closed under overlap with itself and the range, however often the scan restarts. |
| `CompactionInputs.PickLevelForMemTableOutput` | WeddApp/Pods/leveldb-library/db/version_set.cc:491-517 | The level is at most 2, no file of that level or above it overlaps the table, and it is the deepest such level that the next level and the grandparent limit allow. |
| `CompactionInputs.AddBoundaryInputs` | WeddApp/Pods/leveldb-library/db/version_set.cc:1345-1401 | A run of a sorted level stays a run, holds what it held, and ends where no file continues its last user key; a set already closed under overlap is left alone. |
| `CompactionSetup.SetupOtherInputs` | WeddApp/Pods/leveldb-library/db/version_set.cc:1403-1462 | Expanded or not, the inputs hold the seed, leave no older entry of an input user key behind at their level, and hold exactly the files of the next level that meet their user-key range; the grandparents are exactly what overlaps two levels down; the compact pointer is the largest input key. |
| `CompactionSetup.PickCompaction` | WeddApp/Pods/leveldb-library/db/version_set.cc:1270-1320 | The inputs are legal and hold the file asked for: the one read too often, or the first one past the compact pointer with wrap-around. |
| `CompactionSetup.CompactRange` | WeddApp/Pods/leveldb-library/db/version_set.cc:1464-1495 | Finds inputs exactly when a file meets the range; they are legal and hold the first files of the query up to the one that reaches the size limit. |
| `InputMerge.MergeInputs` | WeddApp/Pods/leveldb-library/db/version_set.cc:1237-1268 | A merging iterator over one child for each level-0 file and one for each lower level, read to its end, yields all input entries in order; the children share no key. |
| `Compactions.Compaction.IsBaseLevelForKey` | WeddApp/Pods/leveldb-library/db/version_set.cc:1533-1552 | For keys asked in ascending order the moving level pointers answer exactly as a full scan of every deeper level would. |
| `Compactions.DoCompactionWork` | WeddApp/Pods/leveldb-library/db/db_impl.cc:915-1006 | The outputs, whatever the decisions to close one, are nonempty and concatenate to exactly the merged entries that the drop rule keeps, cut where those decisions say. |
| `CompactionReads.DropAtIsDropped` | WeddApp/Pods/leveldb-library/db/db_impl.cc:929-963 | The decision made from the previous entry alone is the rule over all inputs: dropped when an input of the same user key lies between it and the smallest snapshot, or when it is an obsolete tombstone. |
| `CompactionReads.CompactionPreservesReadsIff` | WeddApp/Pods/leveldb-library/db/db_impl.cc:944-961 | For all versions, inputs and snapshots: a compaction preserves every read at or above the smallest snapshot if and only if it uncovers no key (see Findings). |
| `CompactionReads.OutputsAreLean` | WeddApp/Pods/leveldb-library/db/db_impl.cc:929-963 | Nothing is written that no read needs: of the entries of a key at or below the smallest snapshot only the newest input is, and a tombstone that old only where a deeper file covers the key. |
| `CompactionOrder.CompactionKeepsVersionValid` | WeddApp/Pods/leveldb-library/db/db_impl.cc:860-876 | Replacing legal inputs by surviving entries one level down keeps the version valid: sorted disjoint levels, unique numbers, and newer entries of a key above older ones. |
| `CompactionOrder.BoundaryCompleteIsSafe` | WeddApp/Pods/leveldb-library/db/version_set.cc:1407-1411 | If the inputs of the lower level were completed with boundary files as those of the upper level are, no compaction would uncover a key. |
| `Edits.FlushKeepsVersionValid` | WeddApp/Pods/leveldb-library/db/db_impl.cc:515-526 | A memtable newer than everything on disk, installed at a level clear of its range, keeps the version valid. |
| `Outputs.OutputFilesValid` | WeddApp/Pods/leveldb-library/db/db_impl.cc:786-858 | Cutting a sorted run into nonempty pieces gives valid, pairwise disjoint, freshly numbered files with the same entries. |
| `VersionBuilder.LogAndApply` | WeddApp/Pods/leveldb-library/db/version_set.cc:650-755 | One edit through a builder: every level lists, in order of smallest key and number, the old files without the deleted ones and with the added ones. |
| `VersionBuilder.InstalledFiles` | WeddApp/Pods/leveldb-library/db/version_set.cc:612-739 | A level of the new version lists a file exactly when the edit added it there, or it was there and the edit did not delete it; by smallest key, ties by file number. |
| `VersionBuilder.ReplayIsInstallation` | WeddApp/Pods/leveldb-library/db/version_set.cc:650-692 | Replaying any list of edits through one builder gives, level by level, the files that installing them one after another gives. |
| `VersionBuilder.Recover` | WeddApp/Pods/leveldb-library/db/version_set.cc:650-739 | One builder over the empty version that absorbs all edits of a history saves exactly the version that was current after the last of them. |
| `DatabaseState.WriteKeeps` | WeddApp/Pods/leveldb-library/db/db_impl.cc:1207-1236 | One write keeps the invariant and the agreement of all visible reads with the history. |
| `DatabaseState.CompactionKeeps` | WeddApp/Pods/leveldb-library/db/db_impl.cc:860-876 | A compaction keeps the invariant; it keeps the agreement of reads with the history unless it uncovers a key. |
| `Database.Db.Write` | WeddApp/Pods/leveldb-library/db/db_impl.cc:1185-1258 | The operations of a batch get consecutive sequence numbers after the last one. Read your writes, in the history and in what is stored: for every key of the batch the last operation on it answers, the value of a put (also an empty one) or nothing after a delete; other keys, and reads at older sequences, answer as before. |
| `Batches.BatchAnswers` | WeddApp/Pods/leveldb-library/db/write_batch.cc:116-129 | Whatever entries were there, the last operation of a batch on its key is what a read at or after the batch's end answers. |
| `Database.Db.CompactMemTable` | WeddApp/Pods/leveldb-library/db/db_impl.cc:535-566 | The immutable memtable becomes one table of the version at the level the placement rule gives, recorded in one more edit. |
| `Database.Db.BackgroundCompaction` | WeddApp/Pods/leveldb-library/db/db_impl.cc:688-767 | Nothing when the range is empty; else the requested inputs are moved down or rewritten with the outputs given exactly, in one more edit, and the database stays valid. |
| `Database.Db.GetSnapshot` | WeddApp/Pods/leveldb-library/db/db_impl.cc:1166-1169 | The snapshot is the last sequence and joins the live ones; the invariant keeps them in order. |
| `Database.Db.ReleaseSnapshot` | WeddApp/Pods/leveldb-library/db/db_impl.cc:1171-1175 | Exactly that snapshot leaves the list, and every read still allowed keeps its answer. |
| `DatabaseState.FloorIsReadable` | WeddApp/Pods/leveldb-library/db/db_impl.cc:890-894 | The smallest snapshot a compaction uses protects exactly the sequences that a read may use: those at or after some live snapshot or the latest sequence. |
| `Database.Db.Get` | WeddApp/Pods/leveldb-library/db/db_impl.cc:1100-1145 | After any sequence of writes, flushes, compactions and snapshots, a read at or after the latest sequence or that of any live snapshot answers from the newest stored entry; and as the whole history of writes says, as long as no compaction has uncovered a key. |
| `UncoveredKey.KeyIsUncovered` | WeddApp/Pods/leveldb-library/db/version_set.cc:1407-1411 | The concrete compaction of the finding meets the exact condition. |
| `UncoveredKey.DeletedKeyReturns` | WeddApp/Pods/leveldb-library/db/db_impl.cc:949-960 | A run of the database after which a read of a deleted key returns its old value, although it returned nothing before the last compaction. |
| `EditLogs.LogGrows` | WeddApp/Pods/leveldb-library/db/version_set.cc:801-876 | Every edit a flush, a move or a compaction installs keeps the whole list of edits replayable: no file number enters a level twice, and files only move down. |
| `EditRecords.EncodeDecode` | WeddApp/Pods/leveldb-library/db/version_edit.cc:41-205 | Encoding an edit and decoding it into another object gives back the same edit exactly when that object had no compaction pointers before; otherwise those stay in front. |
| `EditRecords.ParsedFits` | WeddApp/Pods/leveldb-library/db/version_edit.cc:87-205 | Whatever the bytes, the items of an edit that is accepted are in range: a level that does not exist is an error. |
| `Manifest.RecoverManifest` | WeddApp/Pods/leveldb-library/db/version_set.cc:924-1000 | From any prefix of a manifest, cut at any byte: the version that was current when the last edit lying wholly in the file had been installed, and each counter with the last value any of these edits set, the previous log number 0 if none did; nothing exactly when a mandatory counter was never set or some edit names another comparator. |
| `Reopening.Reopen` | WeddApp/Pods/leveldb-library/db/version_set.cc:924-1000 | The manifest of any run of the database recovers, from any prefix, a version that was current during the run, and from the whole file the current one; last sequence, log numbers and file numbers are each the last value set. |
| `Merger.MergingIterator.Next` | WeddApp/Pods/leveldb-library/table/merger.cc:55-79 | One step in the sorted merge of the children, also after moving backward. |
| `Merger.MergingIterator.Prev` | WeddApp/Pods/leveldb-library/table/merger.cc:81-113 | One step back in the sorted merge, also after moving forward, off the front when at the first entry. |
| `Merger.MergingIterator.Seek` | WeddApp/Pods/leveldb-library/table/merger.cc:47-53 | The position of the first merged entry at or after the target. |
| `Runs.MergeRuns` | WeddApp/Pods/leveldb-library/table/merger.cc:31-176 | A merging iterator over runs ordered by age, read to its end, yields exactly their entries in order. |
| `TwoLevel.TwoLevelIterator.Seek` | WeddApp/Pods/leveldb-library/table/two_level_iterator.cc:82-87 | The position of the first entry at or after the target in the concatenation of the blocks, empty blocks included. |
| `TwoLevel.TwoLevelIterator.Prev` | WeddApp/Pods/leveldb-library/table/two_level_iterator.cc:109-139 | One step back in the concatenation, over empty blocks. |
| `Sources.ScanShowsReads` | WeddApp/Pods/leveldb-library/db/db_impl.cc:1062-1087 | The visible part of the merge of all memtables, level-0 tables and level concatenations lists (k, v) exactly when a read of k at the same sequence answers v. |
| `UserIterator.Run` | WeddApp/Pods/leveldb-library/db/db_iter.cc:141-301 | Any sequence of Seek, SeekToFirst, SeekToLast, Next and Prev (the last two while valid) moves the user iterator as a cursor moves in the ascending list of visible keys, across tombstones, old versions and changes of direction. |
| `UserIterator.VisibleIsReads` | WeddApp/Pods/leveldb-library/db/db_iter.cc:168-198 | The visible list of a run holds (k, v) exactly when a read of k over the same entries answers v. |
| `Scans.NewIterator` | WeddApp/Pods/leveldb-library/db/db_impl.cc:1147-1157 | The iterator handed to a user walks exactly the keys and values that reads at its sequence answer, ascending, each key once. |
| `Comparators.ShortestSeparator` | WeddApp/Pods/leveldb-library/util/comparator.cc:29-50 | The key is the start, or no longer than it and strictly between start and limit, and is shortened exactly when one byte can be raised below the limit. |
| `Comparators.InternalSeparator` | WeddApp/Pods/leveldb-library/db/dbformat.cc:69-86 | The separator lies at or after start and before limit in internal-key order, and shares the limit's user key only if it is start itself. |
| `Comparators.InternalSuccessor` | WeddApp/Pods/leveldb-library/db/dbformat.cc:88-101 | The successor is the key itself, or a shorter internal key after it with the largest tag. |
| `Comparators.RankIsOrder` | WeddApp/Pods/leveldb-library/util/comparator.cc:25-27 | Byte strings embed in the reals in bytewise order: what the user keys of the database stand for. |
| `Blocks.BlockBuilder.Add` | WeddApp/Pods/leveldb-library/table/block_builder.cc:72-106 | The block gains the entry, prefix-compressed against the previous key, with a restart point after every interval and nowhere else. |
| `Blocks.BlockBuilder.Finish` | WeddApp/Pods/leveldb-library/table/block_builder.cc:62-70 | Below 4 GB the bytes are the block of the entries added, restart array and count included. |
| `BlockIterators.Iter.Seek` | WeddApp/Pods/leveldb-library/table/block.cc:163-201 | Binary search over the restart points and a scan find the first entry of the block at or after the target, over the bytes of the block. |
| `BlockIterators.Iter.Prev` | WeddApp/Pods/leveldb-library/table/block.cc:142-161 | One entry back, by way of a restart point, off the front at the first entry. |
| `BlockIterators.EntryDecodes` | WeddApp/Pods/leveldb-library/table/block.cc:54-77 | The lengths in front of an encoded entry are read back exactly, by the one-byte fast path and by the general one. |
| `Bloom.Policy.CreateFilter` | WeddApp/Pods/leveldb-library/util/bloom.cc:28-54 | The filter appended has exactly the bits set that its keys probe, and ends with the number of probes. |
| `Bloom.Policy.KeysMatch` | WeddApp/Pods/leveldb-library/util/bloom.cc:28-80 | No false negatives: a filter says yes to every key it was made from. |
| `Bloom.Policy.SaysIff` | WeddApp/Pods/leveldb-library/util/bloom.cc:56-80 | A filter says yes exactly to the keys all of whose probes are among those of its keys. |
| `FilterBlocks.FilterBlockBuilder.Finish` | WeddApp/Pods/leveldb-library/table/filter_block.cc:35-75 | The filter block holds one filter for each stretch of 2048 bytes, made from the user keys of the blocks that start there, with their offsets. |
| `FilterBlocks.FilterBlockReader.KeyMayMatch` | WeddApp/Pods/leveldb-library/table/filter_block.cc:90-104 | Answers what the filter of the block's stretch says of the user key; yes past the last filter. |
| `FilterBlocks.NeverHides` | WeddApp/Pods/leveldb-library/table/filter_block.cc:51-104 | The filter of a stretch says yes to every user key added there, and no to everything when nothing was. |
| `TableFormat.FooterRoundTrip` | WeddApp/Pods/leveldb-library/table/format.cc:31-62 | Decoding an encoded footer gives back both handles. |
| `TableFormat.ReadBlock` | WeddApp/Pods/leveldb-library/table/format.cc:64-110 | A block stored with its trailer is read back exactly; a handle past the end of the file is an error; with checksums verified, whatever the file, contents handed out have the matching checksum and no compression. |
| `TableBuilders.TableBuilder.Add` | WeddApp/Pods/leveldb-library/table/table_builder.cc:94-123 | The table so far gains the pair; data blocks, separators, filters and the bytes written stay sound, and a full block is flushed. |
| `TableBuilders.TableBuilder.Finish` | WeddApp/Pods/leveldb-library/table/table_builder.cc:198-253 | Below the format's size limits the file is a table of exactly the pairs added: blocks, index, filter, metaindex and footer lie where the handles say. |
| `Tables.Open` | WeddApp/Pods/leveldb-library/table/table.cc:38-136 | A file built as a table opens; it gets the filter exactly when one was made under a policy of the same name; short files and bad footers are errors. |
| `Tables.Table.InternalGet` | WeddApp/Pods/leveldb-library/table/table.cc:216-244 | Over the bytes of the file, through the shortened index keys and the filter: an entry of the target's user key is handed over if and only if the first entry at or after the target in the whole table has that user key, and it is that entry. |
| `TableReads.TableGet` | WeddApp/Pods/leveldb-library/db/version_set.cc:263-276 | A lookup in a table file ends in the state that a search of the sorted run of its entries reports: found, deleted or not found. |
| `TableReads.BuildTable` | WeddApp/Pods/leveldb-library/db/builder.cc:17-80 | A nonempty run becomes a table of exactly that run, with the first and last key recorded; an empty run becomes no table. |
| `TableReads.ScanIsTwoLevel` | WeddApp/Pods/leveldb-library/table/table.cc:210-214 | The index keys of a table separate its blocks and the blocks concatenate to its entries, so the two-level iterator over it walks exactly the run. |
| `LogReader.RoundTrip` | WeddApp/Pods/leveldb-library/db/log_reader.cc:56-271 | A log written record by record and read back from any prefix gives exactly the records that lie wholly in it, and reports no corruption. |
| `LogReader.ReadLog` | WeddApp/Pods/leveldb-library/db/log_reader.cc:56-271 | Whatever the file: every record handed out is the concatenation of fragments of the file, from a first to a last or a single full one, each with a matching checksum. |
| `LogReader.WholeRecordsIs` | WeddApp/Pods/leveldb-library/db/log_writer.cc:34-108 | The number of whole records of a prefix is pinned: at least m exactly when the bytes of the first m records fit in it. |
| `LogFormat.Writer.AddRecord` | WeddApp/Pods/leveldb-library/db/log_writer.cc:34-108 | The log gains the fragments of the record: block boundaries, padding, types, lengths and masked checksums. |
| `WriteBatches.RecoverLogFile` | WeddApp/Pods/leveldb-library/db/db_impl.cc:382-453 | From any prefix of a log of batches exactly the batches that lie wholly in it are applied, under the sequence numbers they were written with. The number found is at least the one given, covers every applied operation and every batch, and is the one given or the last number of some batch. |
| `WriteBatches.ReplayedAt` | WeddApp/Pods/leveldb-library/db/db_impl.cc:420-439 | Operation k of batch i is applied at its place with sequence number first + k. |
| `WriteBatches.WriteBatch.Iterate` | WeddApp/Pods/leveldb-library/db/write_batch.cc:42-80 | The handler gets the operations of the record in order; the batch is well formed exactly when it decodes to its end with the count of its header. |
| `WriteBatches.WellFormedIff` | WeddApp/Pods/leveldb-library/db/write_batch.cc:42-80 | The bytes behind the header are read to their end, as these operations, exactly when they are the wire forms of these operations end to end. |
| `Coding.VarintRoundTrip` | WeddApp/Pods/leveldb-library/util/coding.cc:81-179 | A varint in front of other bytes is read back exactly and leaves the rest. |
| `WriteQueues.Run` | WeddApp/Pods/leveldb-library/db/db_impl.cc:1185-1306 | Any interleaving of any number of concurrent calls of Write, step by step with the mutex released during the log append, keeps the invariant of the writer queue. |
| `WriteQueues.WriteQueue.BuildBatchGroup` | WeddApp/Pods/leveldb-library/db/db_impl.cc:1260-1306 | The group is the longest prefix of the queue whose writers may join: size limit by the first batch, no sync write behind an unsynced leader. |
| `WriteQueues.GroupFits` | WeddApp/Pods/leveldb-library/db/db_impl.cc:1270-1301 | The record of a group is no larger than its leader's batch alone, or at most 128 KB more than a leader's of up to 128 KB, or at most 1 MB. |
| `WriteQueues.AcknowledgedIsLogged` | WeddApp/Pods/leveldb-library/db/db_impl.cc:1207-1258 | In every reachable state a write that returned success is in the log as part of one record, and was synced if it asked for that. |
| `WriteQueues.VisibleIsFinished` | WeddApp/Pods/leveldb-library/db/db_impl.cc:1209-1236 | Readers see whole groups only: the operations at or below the last sequence are exactly those of finished groups. |
| `WriteQueues.MemIsLogged` | WeddApp/Pods/leveldb-library/db/db_impl.cc:1215-1226 | Whatever is in the memtable is in the log under the same sequence number. |
| `WriteQueues.NeverReused` | WeddApp/Pods/leveldb-library/db/db_impl.cc:1207-1236 | Sequence numbers are handed out once: groups take disjoint ascending ranges. |
| `WriteQueues.ArrivalIsOrder` | WeddApp/Pods/leveldb-library/db/db_impl.cc:1185-1258 | Of two successful writes the one that came first has all its sequence numbers before those of the other, whether one group served both or two. |
| `WriteQueues.SomeoneCanGoOn` | WeddApp/Pods/leveldb-library/db/db_impl.cc:1191-1254 | No wake-up is lost: while a call has not returned, some thread can take a step. |
| `SkipLists.SkipList.Insert` | WeddApp/Pods/leveldb-library/db/skiplist.h:336-368 | The keys gain the new one at its place; after every store the list is valid and no level loses a node. |
| `SkipLists.SkipList.InsertWhileReading` | WeddApp/Pods/leveldb-library/db/skiplist.h:260-368 | With the stores of one insertion and the loads of one search interleaved in any order, the search answers for the keys before the insertion or for the keys after it. |
| `SkipLists.SkipList.FindGreaterOrEqual` | WeddApp/Pods/leveldb-library/db/skiplist.h:260-281 | The node found is the first at or after the key, and the predecessors recorded are the last before it on every level. |
| `HandleTables.HandleTable.Insert` | WeddApp/Pods/leveldb-library/util/cache.cc:78-92 | The table gains the handle; an entry with the same key and hash is replaced and handed back, and none is reported only if there was none. |
| `HandleTables.HandleTable.Resize` | WeddApp/Pods/leveldb-library/util/cache.cc:122-146 | Rehashing in place into the new bucket array keeps exactly the same entries, each in the chain of its hash. |
| `LruCaches.LruCache.Insert` | WeddApp/Pods/leveldb-library/util/cache.cc:266-303 | The entry is cached and held, or only held when the capacity is 0; what it replaces is dropped, then entries nobody holds are evicted until the rest fits, each of them last released before every unheld entry that stays; over the linked lists, reference counts and hash table. |
| `LruCaches.LruCache.Release` | WeddApp/Pods/leveldb-library/util/cache.cc:225-264 | One handle is given back: a cached entry whose last handle it was becomes the one released last of all unheld ones, an uncached one is freed, others stay. |
| `LruCaches.LruCache.Lookup` | WeddApp/Pods/leveldb-library/util/cache.cc:252-259 | Hands out a handle on the cached entry with exactly this key and hash, or says that none is cached. |
| `LruCaches.LruCache.Erase` | WeddApp/Pods/leveldb-library/util/cache.cc:318-321 | The cached entry with exactly this key and hash leaves the cache, or none is cached. |
| `CacheStates.State.InsertedMeans` | WeddApp/Pods/leveldb-library/util/cache.cc:266-303 | After an insertion the client holds the new entry, the replaced one is gone, what is over the capacity is all held, and every entry that left is held or freed, none other. |
| `CacheStates.State.DroppedMeans` | WeddApp/Pods/leveldb-library/util/cache.cc:305-316 | An entry the cache lets go of is freed exactly when no client holds it. |
| `CacheStates.State.ReleasedMeans` | WeddApp/Pods/leveldb-library/util/cache.cc:225-237 | A handle given back frees its entry exactly when it was the last one and the entry is not cached; what is cached stays. |
| `LruCaches.LruCache.Destroy` | WeddApp/Pods/leveldb-library/util/cache.cc:205-215 | With no handle outstanding on cached entries, everything still cached is freed. |
| `CacheStates.State.EvictedIs` | WeddApp/Pods/leveldb-library/util/cache.cc:293-300 | Eviction frees the shortest front of the LRU list after which the rest fits, or all of it. |
| `CacheStates.State.AllFreed` | WeddApp/Pods/leveldb-library/util/cache.cc:205-237 | Once the cache is empty and every handle given back, every entry ever made has been freed, each once. |
| `PbRoundTrip.RoundTrip` | WeddApp/Pods/nanopb/pb_decode.c:934-1094 | Encoding a message of any schema with nested, repeated, packed, optional and union fields and decoding it gives back the same message: every present value as it was, every absent field at its preset or zero. A proto3 zero is not sent, so a preset would take its place. |
| `PbValues.DefaultIsZero` | WeddApp/Pods/nanopb/pb_encode.c:240-300 | A proto3 value that is not a struct is left out exactly when it is the zero of its type; byte strings of a fixed length are always sent. |
| `PbValues.NormIsSame` | WeddApp/Pods/nanopb/pb_encode.c:240-300 | What decoding yields is, field by field and through nested structs, the value encoded, or the preset or zero of a field that was absent. |
| `PbOlderReader.ReadOlder` | WeddApp/Pods/nanopb/pb_decode.c:991-994 | A message written under a larger schema and read under a smaller one gives exactly the fields the smaller one knows: entries of unknown fields are skipped, wherever they lie. |
| `PbDecode.Decode` | WeddApp/Pods/nanopb/pb_decode.c:934-1094 | Whatever the input, if it is accepted: every required field up to the 64 tracked occurs in it; every value lies in the range of its field and no array or string is longer than its storage; at most one member of a union is chosen; each fixed-count array is complete or untouched; each value that is not in an array is its default or stands behind its field's tag in the input; and the input was read to its end or to a zero tag. |
| `PbDecode.DecodeItem` | WeddApp/Pods/nanopb/pb_decode.c:1334-1562 | Whatever the input, a value that is accepted is what the bytes consumed stand for. |
| `PbScalars.DecodeInt` | WeddApp/Pods/nanopb/pb_decode.c:1345-1380 | A signed integer is accepted exactly when some number in the field's range has the bits of the varint ahead, sent with sign extension or, up to 32 bits, without; it is that number. |
| `PbScalars.DecodeSInt` | WeddApp/Pods/nanopb/pb_decode.c:1406-1428 | A zigzag integer is accepted exactly when some number in the field's range has that zigzag form; it is that number. |
| `PbDecode.FieldIter.Find` | WeddApp/Pods/nanopb/pb_common.c:87-104 | The cyclic search from the current field finds a field with the tag exactly when the message has one. |
| `PbEncode.SizeThenEncode` | WeddApp/Pods/nanopb/pb_encode.c:528-579 | Sizing and encoding agree: encoding into a buffer of the measured size or more succeeds exactly when sizing does, and writes that many bytes. |
| `PbEncode.EncodeSubmessage` | WeddApp/Pods/nanopb/pb_encode.c:717-765 | A submessage is written as its length and its bytes; the two passes over it agree and a short buffer fails cleanly. |
| `PbStream.IStream.DecodeVarint` | WeddApp/Pods/nanopb/pb_decode.c:255-276 | Succeeds exactly when a varint of at most ten bytes lies ahead, with its value modulo 2^64, and consumes just that. |
| `PbStream.IStream.SkipField` | WeddApp/Pods/nanopb/pb_decode.c:321-334 | Skipping consumes exactly what the wire type says: a varint of any length, 8 bytes, a length and as many bytes, or 4 bytes; other wire types fail. |

## Findings

**A compaction can bring a deleted key back.**  `SetupOtherInputs` completes the inputs of the upper level with boundary
files, but not those of the lower level (version_set.cc:1407-1411).  A file of the lower level outside the inputs may then
hold older entries of the last user key of the inputs.  The compaction loop drops a tombstone of that key when no deeper
level holds the key (db_impl.cc:949-960), and the older entry in the file left out becomes the newest.

- The exact condition is `CompactionReads.Uncovers`: the newest entry of some key at the smallest snapshot is a tombstone
  among the inputs, no deeper level covers the key, and the newest entry of that key in the lower level's untouched files
  is a value.  `CompactionReads.CompactionPreservesReadsIff` proves that reads are preserved if and only if no key is
  uncovered, for all versions, inputs and snapshots.
- `UncoveredKey.DeletedKeyReturns` is a run of the database that meets it: put key 2; take a snapshot; delete key 2 and
  put key 1; flush; compact level 2, which cuts its output between the tombstone and the value; release the snapshot; put
  key 1; flush; compact level 2 again.  A read of key 2 finds nothing before the last step and the old value after it.
- `CompactionOrder.BoundaryCompleteIsSafe` proves that completing the lower level's inputs in the same way would exclude
  it.
- `Database.Db.Get` answers as the history says as long as no compaction of the run has uncovered a key; the ghost field
  `uncovered` says whether one has.

**The comment at db_impl.cc:952-958 does not describe the code.**  It reasons that entries of the same key with smaller
sequence numbers in the layers being compacted are dropped by the next turns of the loop.  That leaves out the files of
the lower level that are not compacted; the model follows the code.

**Decoding a version edit into a used object keeps its compaction pointers.**  `VersionEdit::Clear` (version_edit.cc:26-39)
resets every field except the compaction pointers, so `DecodeFrom` appends to those already there.
`EditRecords.EncodeDecode` proves that encoding and decoding is the identity if and only if the target has none.

## Left out

- Database.Db.Get: user keys of the tree modules are reals, an order embedding of byte strings (`Comparators.RankIsOrder` gives it for the bytewise order); a file is read as a search among its entries, which `TableReads.TableGet` justifies for the file's bytes.
- Database.Db.Write: sequence numbers stop one below the largest; the source does not check, the model requires it.
- Database.Db.BackgroundCompaction: every background job is one atomic step, and a flush in the middle of a compaction is a step of its own; when to cut an output and how large files are is arbitrary.
- InputMerge.MergeInputs: the merging iterator is read to its end before the loop starts, and a level is the concatenation of its files, where the source opens a two-level iterator.
- Scans.NewIterator: the user iterator runs over a cursor on the drained merge; `Merger` proves that the merging iterator moves as that cursor does.
- VersionBuilder.Recover: decoded edits only; the counters, the comparator check and missing fields are in `Manifest.RecoverManifest`.
- Manifest.RecoverManifest: all records are read before the first is applied, and a table is opened by a given function.
- Reopening.Reopen: the manifest is the one written since the database was created; the snapshot edit that starts a new manifest is not modelled.
- WriteBatches.RecoverLogFile: memtables flushed in the middle of a long log are not modelled; batch counts stay below 2^31.
- LogReader.RoundTrip: a reader that starts in the middle of a file (initial offset, resynchronising) is not modelled; checksums are a parameter.
- WriteQueues.Run: each step is atomic and memory is sequentially consistent; a null batch (the request for a memtable switch) takes part in the queue without operations.
- SkipLists.SkipList.InsertWhileReading: loads and stores are sequentially consistent; the arena is not modelled.
- TableBuilders.TableBuilder.Finish: promises a table while the file, its index block and its filters stay below the format's 64-bit and 32-bit limits; blocks are stored without compression.
- Tables.Table.InternalGet: the block cache is not consulted (it is modelled by `LruCaches`), and the file is one that was built as a table.
- Bloom.Policy.CreateFilter: the hash is a parameter.
- LruCaches.LruCache.Insert: one shard; the choice of the shard by hash bits is not modelled.
- PbRoundTrip.RoundTrip: callback, pointer and extension fields are not modelled; tags lie below 2^29 and lengths below 2^32; the bits of the fields seen are a set.
- PbDecode.Decode: a value found in the input need not be the last one of its field there; that values in arrays and nested structs stand in the input is not stated, only their ranges.
- PbStream.IStream.DecodeVarint32: the 8-bit count of bits read, which wraps around in a varint of more than 36 bytes, is an unbounded number here.
- PbEncode.SizeThenEncode: buffer streams and size counting only, no user callbacks.
- Damaged input beyond truncation, input and output errors, and what RepairDB salvages.
- Seek statistics and compaction scores: they choose when a compaction runs, and any choice is allowed here.
- The doubly linked list behind snapshots: the model keeps their sequence numbers in a list.
- Environments, file locks, deletion of obsolete files, logging, properties, approximate sizes, the C interface.
- The Swift application and the other Pods.
