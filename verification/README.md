# A model of yubindb in Dafny

yubindb is a log-structured key/value store. This project models its in-memory logic and proves what that
logic is for: reads that agree with a plain versioned map, cursors that agree with sorted lists, exactly which
manifests and logs read back as what was written, filters without false negatives, and an allocator without
overlaps.

Each file under `src/` is one module. Code that works in place is modelled by classes and loops, proved
against functions on sequences; the lemmas then say what those functions guarantee.

| modules | what they cover |
|---|---|
| `Common`, `Coding`, `Keys` | shared types; fixed-width and varint codecs; internal keys and their order |
| `Lookup`, `History` | what a read at a snapshot means; the versioned map and when the stored entries agree with it |
| `Memtable`, `WriteBatch`, `Wal`, `Recovery` | memtable and node layout; batch encoding; log framing and reading; replay of a log |
| `EditCodec`, `Builder`, `Manifest` | version edits; the builder; what a manifest says, also through the log framing |
| `VersionSet`, `Version` | installing edits and recovering from a manifest; reads from table files |
| `Db`, `Runs` | the database with one writer: write, freeze, flush, read, recover; whole runs |
| `Compaction`, `CompactionResults`, `CompactionRun` | the drop rule and the base-level check; the version after a compaction; one compaction as a whole |
| `Merger` | the merging iterator |
| `Block`, `BlockIter`, `Bloom`, `FilterBlock` | block building and reading; filters |
| `Arena` | the bump allocator |

## What the proofs found

The model follows the code. Where the code does not do what it is meant to do, the exact condition under
which it does is proved; most failures are also stated at a concrete input.

- A node's value string is given the length of the value, but prefix and value are copied into it
  (`src/util/key.h:168-176`). The memtable still reads the whole value from behind the string's end; a flush
  writes the string, so it keeps a value only if the value is its own length prefix, repeated
  (`Memtable.FlushedValueKept`, `History.MangledExample`). The model takes the bytes behind the string's end
  to be still there when the memtable reads them.
- All operations of a batch carry the batch's own sequence, because the loop advances another variable
  (`src/db/writebatch.cpp:77`). A deletion behind a put of the same key in one batch therefore has no effect
  (`History.ShadowedExample`).
- The log writer never clears `begin` and gives a length to the flag `end` (`src/db/walog.cpp:10-31`), and the
  reader gives up after any fragment (`src/db/reader.cpp:116`). A record comes back only if it is nonempty and
  fits the room left in its block (`Wal.DeliveredIffAllFit`, `Wal.LongRecordExample`). A nonempty fragment comes
  back as a record of its own. Replay of a write-ahead log passes over a fragment of less than twelve bytes; any
  longer front of a batch adds the batch's leading operations and ends in Corruption; an empty fragment stops
  the reader without notice (`Recovery.CutBatch`). At the end of a log of block-multiple length (the empty one
  included) `ReadPhysicalRecord` runs off its end; the model calls that outcome `Undefined`.
- Manifests go through the same framing. An edit written at a position is read back if and only if it has no
  compact pointer and no field of it is cut: the record fits its block, or some of its fields fill the block
  exactly and the others go on in the next one (`Manifest.EditFramed`). A record that is empty, as the snapshot
  of the empty version is, takes no bytes. A cut within a field makes recovery report Corruption; an edit that
  finds no room for a single byte is dropped with all behind it, without notice (`Manifest.ManifestReadBack`).
  A flushed table whose first or last key has 32753 bytes or more always spoils the manifest
  (`Manifest.LongKeyLost`, `Manifest.LongKeyExample`, `Db.DBImpl.CompactMemTable`); so does the first small edit
  that a block boundary cuts within a field.
- A write whose append to the log fails is not inserted, but its sequence is used and the caller is told `Ok`
  (`src/db/db.cpp:270-297`, `Db.DBImpl.Write`).
- Edits with compact pointers are written with a tag that decoding rejects, so a manifest with one cannot be
  read back (`EditCodec.EditRoundTrip`, `EditCodec.PointerExample`, `Manifest.SnapshotReplays`). An edit that
  adds a number its level already held need not replay either; the trivial move does just that and aborts above
  level 0 (`VersionSet.TrivialMove`).
- The string comparison of `src/util/options.h:74-89` strips eight tag bytes. Some calls pass untagged user
  keys (`src/db/version_set.cpp:84`, `src/db/version_set.cpp:666-667`, `src/db/version_set.h:44`,
  `src/db/db.cpp:624`), and the model makes the same comparison there. On strings of less than eight bytes it
  is undefined; equality of longer ones it decides (`Keys.CmpViewEquality`); their order is that of their bytes
  exactly under `OrderAgrees` (`Keys.UntaggedOrder`). So a read from tables needs a key of eight bytes or more
  (`Version.ShortKeyRead`), and a seek that comes to a shorter one first is undefined too (`Version.TableGet`,
  `Db.OwnRunAnswers`, `Runs.RunThenGet`); a level above 0 may be passed over though it has the key
  (`Version.GetIsNewest`, `Version.LostKey`); and a compaction may drop a tombstone that still hides a value
  (`Compaction.CompactionKeepsReads`, `Compaction.TombstoneLost`).
- The flag `has_cur_userkey` of the compaction loop is never initialised. If it happens to be true, the first
  comparison is made against an empty key and is undefined (`Compaction.DoCompactionWork`).
- In the same loop the flush of a frozen memtable locks a mutex that is held (`src/db/db.cpp:604-609`), and the
  end of an output file deletes the builder but not the pointer to it (`src/db/db.cpp:689`). A run that does
  either is undefined; one that does neither has a single output file (`Compaction.DoCompactionWork`).
- `MakeInputIterator` tests for empty inputs where nonempty ones are meant (`src/db/version_set.cpp:617`): with
  files on both levels there is no iterator, otherwise one without entries (`CompactionRun.EmptyLists`).
  `InstallCompactionResults` adds as many outputs as the level has for a number (`src/db/db.cpp:730`). Where
  such a run is defined it deletes the inputs all the same, so a compaction keeps its reads only if both are as
  meant (`CompactionRun.Compact`).

## Assumptions

- The skip list is a sorted map by internal key in which a new node replaces one with an equal key. The
  library's `skiplist_insert`, which `src/util/skiplistpg.cpp:14` calls, is not shown; two puts of one key in one
  batch, and the strict order of a flushed table, depend on the replacement.
- Table files are the sorted entries they hold, looked up by file number; crc32c and `std::hash` are arbitrary
  functions; `new char[n]` returns an arbitrary 8-aligned address apart from the blocks there are.
- Lengths of live operations fit their 32-bit prefixes, live sequences fit 56 bits, file numbers and allocation
  sizes do not wrap. Replayed logs may hold any bytes.
- A table that was built has a positive size, because `Tablebuilder::Finish` ends it with a footer
  (`src/db/memtable.cpp:164-180`); the guard on the size in `src/db/db.cpp:548` is then always taken.
- For Bloom filters, `bits_key * n + 7` fits 64 bits and the hash count is between 1 and 30, as the
  constructor clamps it.
- One writer holds the lock. Which file operations succeed is a parameter where a failure changes what
  happens next (write, flush, manifest). A failed append to the write-ahead log leaves the file as it was.
- The oldest snapshot of a compaction is a parameter below the maximal sequence, because
  `src/db/db.cpp:590` dereferences `end()`; files beside the inputs on the same two levels hold only newer
  entries of the inputs' keys.
- Opening a new database succeeds in all its file operations.

## Model

| member | source | states |
|---|---|---|
| Runs.RunThenGet | src/db/db.cpp:245-332 | From a new database, after any list of puts, deletes, freezes and flushes (with any outcome of the log appends and of the flushes' file operations), a read at any snapshot up to the last sequence gives what the last logged write to the key at or below that snapshot left, if and only if the read is defined and that write is not a `Put` that the run has flushed with a value that flushing changes. The read is undefined if and only if no memtable answers it and the table of some flush meets a short key while no later flush has an entry for the wanted one: there the seek of `SaveValue` (version_set.h:44) comes to an entry, and it or the wanted key has less than the eight bytes that are stripped from both. In particular a memtable's answer is always defined, and an undefined read involves a short key |
| Runs.FlushedRunsJoined | src/db/db.cpp:504-552 | The writes that the flushes of a run stored, one flush behind the other, are the flushed writes of the run in their order |
| Runs.RunThenRestart | src/db/version_set.cpp:305-388 | After any run that leaves a manifest open, the tables hold exactly the flushed writes and recovering from the manifest's bytes never aborts; it succeeds with the version of the run if and only if every edit in the manifest survives the log framing. Otherwise the state before the first edit that does not survive decides: it reports Corruption, or succeeds with that state's version, which misses a table of the run; a success that reads to the end rules that out |
| Runs.RunStep | src/db/db.cpp:376-391 | Every step keeps the invariant, uses one sequence per put or deletion, extends the history by exactly its own write if that was logged, and moves writes between memtable, frozen memtable and tables exactly as the layers of the run say |
| Runs.RunSteps | src/db/db.cpp:234-552 | After any list of steps from an empty database the invariant holds and the writes are where the layers of the run say |
| Runs.RunNotShadowed | src/db/db.cpp:234-244 | With one operation per batch no deletion is hidden by a put of its own batch |
| History.ReadIsPromised | src/db/db.cpp:299-332 | For any ordered history, with any cut between flushed and unflushed writes, what the layers give equals the versioned map if and only if the last write is neither a deletion hidden in its own batch nor a flushed put of a value that flushing changes |
| History.ApplyNewest | src/db/memtable.cpp:54-91 | The newest visible entry of the memtable that a history leaves is the entry of the effective write: the latest one, except that in one batch a put beats a deletion |
| History.EffectiveIsLast | src/db/writebatch.cpp:40-78 | The effective write is the last write unless the last write is a deletion and its batch also puts the key |
| History.EffectiveSplit | src/db/db.cpp:318-325 | If every write of one layer is older than every write of the other, the newer layer answers whenever it can |
| History.ApplyConcat | src/db/db.cpp:504-531 | Two runs of writes, the second newer, leave exactly the union of the entries each leaves on its own |
| History.FlushedNewest | src/db/memtable.cpp:92-105 | Flushing keeps every key, so which entry is the newest visible one does not change |
| History.ShadowedExample | src/db/writebatch.cpp:40-78 | A put followed by a deletion in one batch: the read finds the put value where the versioned map has nothing |
| History.MangledExample | src/util/key.h:168-176 | The one-byte value 7 reads as 7 before its flush and as 1 after it |
| History.BatchApplies | src/db/writebatch.cpp:40-78 | Inserting a batch on top of a history is the history extended by the batch's operations, all under the batch's sequence |
| Db.DBImpl.constructor | src/db/db.cpp:30-233 | `Open` of a new database: after the first manifest, its recovery and the edit that names log 3, the whole invariant holds with an empty history, the next file number is 4 and the open manifest holds an empty snapshot and that edit |
| Db.NewDB | src/db/db.cpp:30-58 | The first manifest is the log of one edit, and its bytes replay to log 0, next file 2 and sequence 0 |
| Db.DBImpl.Write | src/db/db.cpp:245-298 | Stamps the batch with the next sequence, advances the last sequence by its count and returns Ok; the batch is logged and inserted, or neither if its append fails; the invariant holds either way: memtable, frozen memtable, tables and log each hold exactly their part of the history |
| Db.DBImpl.Put | src/db/db.cpp:234-239 | Extends the history by one put under the next sequence if it could be logged; returns Ok in any case |
| Db.DBImpl.Delete | src/db/db.cpp:240-244 | Extends the history by one deletion under the next sequence if it could be logged; returns Ok in any case |
| Db.DBImpl.Freeze | src/db/db.cpp:376-391 | Moves the memtable's writes to the frozen memtable and starts an empty memtable and log; the history is unchanged |
| Db.DBImpl.CompactMemTable | src/db/db.cpp:504-552 | On success the frozen memtable's writes belong to the tables of the installed version: one more file on level 0, with the new number, the given size and the memtable's first and last key, a table with its entries as flushed, one more edit behind those of the manifest, and the log number of the current log. Success means exactly that all file operations do; on failure nothing moves and the error is recorded. The invariant holds either way and the process never aborts. If the first or last key of the frozen memtable is as long as the payload of a log block, the manifest cannot be read back afterwards |
| Db.DBImpl.WriteLevel0Table | src/db/db.cpp:532-582 | A new, nonempty table under a fresh number holds the frozen entries as flushed, and its file has that number, the size and the bounds of the entries; reads of the current version are untouched |
| Db.DBImpl.Install | src/db/version_set.cpp:389-445 | Installing the flush edit succeeds exactly if its file operations do; then the tables hold the flushed writes too, level 0 lists one more file, and the manifest one more edit. Manifest, levels and numbers stay in order; a key as long as a block's payload keeps the manifest from being read back |
| Db.DBImpl.Get | src/db/db.cpp:299-332 | A defined result at a snapshot is what the layered entries give, and equals the versioned map exactly under the two named conditions. It is undefined if and only if no memtable answers and the table of some flush meets a short key while no later flush has an entry for the wanted key |
| Db.DBImpl.RecoverLog | src/db/db.cpp:144-195 | Recovering the current log gives what replaying the records that the framing leaves of it gives; if every batch fits its block, that is exactly the running memtable and the last logged sequence |
| Db.FlushKeepsVersion | src/db/version_set.cpp:246-303 | A table whose entries are newer per key, listed on level 0 under the greatest number, keeps the version invariant and adds exactly its entries |
| Db.FlushedNewer | src/db/memtable.cpp:92-105 | Tables flushed later hold only newer entries of the keys they share with earlier ones |
| Db.OwnRunAnswers | src/db/version_set.cpp:57-127 | A key of eight bytes or more that has an entry in the table of some flush is read, whatever other keys are short, unless a later flush meets a short key |
| Db.ShortReadIs | src/db/version_set.cpp:57-127 | With files on level 0 only, the read meets a short key exactly if it does in the tables of the flushes, the latest one that has an entry for the key being the last one searched |
| Compaction.CompactionKeepsReads | src/db/db.cpp:602-658 | For every sorted input, every key and every snapshot not older than the oldest one, the visible result over newer entries, outputs and deeper levels equals the one over newer entries, inputs and deeper levels, if and only if no tombstone that was dropped is the newest visible entry of the key and hides a value of the deeper levels |
| Compaction.AgreementKeepsReads | src/db/version_set.cpp:660-676 | No dropped tombstone hides anything if `Keys.OrderAgrees` holds for every key asked about and the bounds of the files two or more levels below |
| Compaction.DoCompactionWork | src/db/db.cpp:597-664 | The loop over the merging iterator, with any answers of `ShouldStopBefore`, any output sizes and any frozen memtables, is defined if and only if each of its turns is: its comparisons of user keys are (the first one is not made against the empty key because the uninitialised flag holds true, and no compared key has less than eight bytes), no memtable waits for its flush, and no output file is ended. Then it outputs exactly the entries the drop rule keeps, in order, to one file |
| Compaction.Turn | src/db/db.cpp:603-656 | One turn: undefined where the flush would lock the mutex twice or a finished output file leaves its builder dangling; otherwise the state of the loop is that for one entry more |
| Compaction.LongDefined | src/db/db.cpp:602-658 | With the flag false and keys of at least eight bytes everywhere, every step is defined |
| Compaction.Decide | src/db/db.cpp:618-636 | One entry is dropped if and only if the previous entry of its key is already visible to all snapshots, or it is a deletion all snapshots see and the deeper levels, asked with their cursors, answer that no file has its key; undefined exactly if a comparison made for that is |
| Compaction.Compaction.IsBaseLevelForKey | src/db/version_set.cpp:660-676 | Each level from two below on moves its cursor to the first file that does not seem to end before the key, under the comparison that strips eight bytes from both user keys, and answers by that file alone; the first level with a file for the key, or an undefined comparison (a key of less than eight bytes), ends the search |
| Compaction.AskedRight | src/db/version_set.cpp:660-676 | Over non-decreasing queries these answers are those of looking at every file bytewise, if `Keys.OrderAgrees` holds for the key and the bounds of all these files |
| Compaction.WrongAnswer | src/db/version_set.cpp:666-667 | A file with the bounds 00..01 and 00..02 (eight bytes each): asked for the latter, the level answers that it has no file for it |
| Compaction.TombstoneLost | src/db/db.cpp:631-635 | With that file two levels below, compacting a deletion of that key drops it and brings the deleted value back |
| Compaction.Compaction.constructor | src/db/version_set.cpp:637-647 | Fresh cursors stand at the first file of every level |
| Compaction.CursorDecides | src/db/version_set.cpp:664-673 | In the bytewise order, the first file that ends at or after the key decides its level: earlier ones end before it, later ones start after it |
| Compaction.StopDecides | src/db/version_set.cpp:664-673 | Under the comparison of the code the same file is found, with the same answer, if `Keys.OrderAgrees` holds for the key and the bounds of the level's files |
| Compaction.OldOnce | src/db/db.cpp:629-630 | The output holds at most one entry of a key that every snapshot can see |
| Compaction.KeptSorted | src/db/db.cpp:637-648 | The output is sorted by internal key |
| Compaction.DroppedLeavesNothing | src/db/db.cpp:631-635 | When the newest visible entry is a dropped tombstone, nothing else visible of its key is kept |
| CompactionResults.ResultsKeepVersion | src/db/db.cpp:726-736 | Replacing the input files of a compaction by files that hold exactly the kept entries, one level deeper, keeps the version invariant; for every key and every snapshot from the oldest one on the newest visible entry of the version resolves to the same result if and only if no dropped tombstone hid a deeper value. That all outputs are installed is assumed here and decided in `CompactionRun.Compact` |
| CompactionResults.ResultsKeepReads | src/db/version_set.cpp:49-127 | One user key and one snapshot of the above: the newest visible entry over the new version and its tables means what the one over the old ones does, under the same condition |
| CompactionResults.EditReplaces | src/db/version_set.cpp:246-303 | Saving the edit that deletes the inputs and adds the outputs under unused numbers gives exactly that replacement, level by level |
| CompactionResults.OutputFile | src/db/db.cpp:643-648 | One output file with the recorded first and last key satisfies the invariant of tables and holds exactly the kept entries |
| CompactionRun.Compact | src/db/db.cpp:583-736 | One compaction from its input tables to the next version. It is undefined exactly if the test for empty inputs leaves no iterator, a turn of the loop is undefined, or there are fewer outputs than the number of the level. Otherwise it aborts exactly if an installed output overlaps with a file that stays on the next level, and else it is installed exactly if the file operations succeed. The output file, its number and its table are those of the kept entries; an installed version has it in place of the inputs; the version stays valid in any case. If the inputs are merged and there are as many outputs as the number of the level, reads are as before if and only if no dropped tombstone hid a deeper value; otherwise an installed run loses exactly the reads whose newest entry is one of the inputs |
| CompactionRun.InputsMerge | src/db/version_set.cpp:612-636 | The lists of nonempty inputs (one for each level-0 file, else one for the level) can be merged, and their merge is sorted and holds exactly the entries of the input files |
| CompactionRun.EmptyLists | src/db/version_set.cpp:617-617 | The test as coded takes the empty inputs: nothing is merged, and with files on both levels there is no list at all |
| CompactionRun.MakeInputIterator | src/db/version_set.cpp:612-636 | A merging iterator over exactly the selected lists, or none |
| CompactionRun.InstallCompactionResults | src/db/db.cpp:726-736 | The first `level` outputs replace the inputs on the next version. Undefined exactly if there are fewer; aborted exactly if a level above 0 would then overlap; otherwise installed exactly if the file operations succeed, with one edit more in the manifest, and failed with the version as it was and the manifest closed. The compact pointer of the level is set in all but the first case |
| CompactionRun.ClashesIff | src/db/version_set.cpp:275-287 | A level above 0 overlaps after a compaction if and only if one of its outputs overlaps with another one or with a file that stays on the level it goes to |
| CompactionRun.Conclude | src/db/db.cpp:660-671 | The end of the run: the output file, if something is kept, under the next number, and the edit, with the outcomes and promises of `CompactionRun.Compact` |
| CompactionRun.AddInputDeletions | src/db/version_set.cpp:653-659 | The two loops delete exactly the inputs on their levels |
| CompactionRun.InputsDropped | src/db/db.cpp:730-734 | Deleting the inputs without adding outputs keeps the version valid, and a key keeps its newest visible entry if and only if that is not one of the inputs |
| Merger.Merageitor.SeekToFirst | src/db/iterator.h:181-187 | From any state, the cursor over the sorted merge of all children is at 0 |
| Merger.Merageitor.SeekToLast | src/db/iterator.h:189-195 | The cursor is at the last entry of the merge, or invalid if it is empty |
| Merger.Merageitor.Seek | src/db/iterator.h:197-203 | The cursor is at the first merged entry not below the target |
| Merger.Merageitor.Next | src/db/iterator.h:205-222 | From any valid state and either direction, the cursor moves on by one |
| Merger.Merageitor.Prev | src/db/iterator.h:224-243 | From any valid state and either direction, the cursor moves back by one, from the first entry to invalid |
| Merger.Merageitor.Key | src/db/iterator.h:245-248 | The key is that of the merged entry at the cursor |
| Merger.Merageitor.Value | src/db/iterator.h:250-253 | The value is that of the merged entry at the cursor |
| Merger.Merageitor.TurnForward | src/db/iterator.h:207-218 | The switch to forward puts every other child at its first entry after the current one |
| Merger.Merageitor.TurnReverse | src/db/iterator.h:226-239 | The switch to reverse puts every other child at its last entry before the current one |
| Merger.Merageitor.FindSmallest | src/db/iterator.cpp:105-118 | With every child at its first entry from position c on, the current child holds merged entry c |
| Merger.Merageitor.FindLargest | src/db/iterator.cpp:120-133 | With every child at its last entry before position c, the current child holds merged entry c - 1 |
| Merger.Merageitor.Owner | src/db/iterator.cpp:105-133 | Exactly one child holds each merged position; passing it moves that child and no other |
| Merger.MergeAllCorrect | src/db/iterator.h:165-175 | The merge of sorted lists with distinct keys is sorted and has exactly their entries |
| Merger.Merageitor.constructor | src/db/iterator.h:167-175 | A new merging iterator stands for the merge of its children and is not valid |
| Merger.IteratorWrapper.Next | src/db/iterator.h:65-69 | The cached key and validity stay those of the wrapped iterator |
| Block.Blockbuilder.Add | src/db/block.cpp:67-95 | The buffers are those of the list with the entry added, for any restart interval of at least 1 |
| Block.Blockbuilder.Finish | src/db/block.cpp:96-103 | The contents are the image of the list of added entries: entries, restart offsets, their number |
| Block.Blockbuilder.Reset | src/db/block.cpp:54-61 | The builder is empty again |
| Block.RestartsAtMultiples | src/db/block.cpp:71-79 | Restart points are exactly every interval-th entry |
| BlockIter.BuildThenRead | src/db/block.cpp:67-103 | Any list of entries, built with any restart interval and read through the iterator, comes back forwards by Next and backwards by Prev |
| BlockIter.ImageReadable | src/db/block.h:75-88 | Every built image opens, and each entry and restart point reads back as what was added |
| BlockIter.NewIterator | src/db/block.h:115-126 | The finished bytes of any list give a cursor over exactly that list |
| BlockIter.DecodeEncoded | src/db/block.h:93-113 | An encoded entry header is decoded back on the one-byte fast path and on the varint path |
| BlockIter.FastIsSlow | src/db/block.h:93-113 | On any bytes, the one-byte fast path of the entry decoder gives what decoding three varints gives |
| BlockIter.Iter.SeekToFirst | src/db/block.h:213-216 | The cursor is at entry 0 |
| BlockIter.Iter.SeekToLast | src/db/block.h:217-221 | The cursor is at the last entry |
| BlockIter.Iter.Next | src/db/block.h:253-256 | The cursor moves on by one; key and value are those of the new entry |
| BlockIter.Iter.Prev | src/db/block.h:257-272 | The cursor moves back by one across restart boundaries, even when the restart index lags by one |
| BlockIter.Iter.ParseNextKey | src/db/block.h:157-183 | From the end of entry i - 1 the next entry is parsed with its whole key |
| BlockIter.Iter.FindRestart | src/db/block.h:223-242 | The binary search ends at the last restart point below the target, or at the first one if there is none |
| BlockIter.Iter.Seek | src/db/block.h:222-252 | In a block of increasing internal keys the cursor stops at the first entry not below the target |
| Version.Get | src/db/version_set.cpp:49-127 | A defined result is the newest visible entry over all files of the levels that are not passed over, even when a key spans two files of a level. It is undefined exactly if some level comes to a short key and no level above it has an answer |
| Version.GetIsNewest | src/db/version_set.cpp:77-92 | What the read looks at has the newest visible entry of the whole version if and only if the level that holds it is not passed over, because the found file seems to start after the key (version_set.cpp:84) |
| Version.RightSkip | src/db/version_set.cpp:84-86 | Passing over a level loses nothing if `Keys.OrderAgrees` holds for the key and the first key of the found file |
| Version.LostKey | src/db/version_set.cpp:84-86 | A valid version with one file on level 1, bounds 00..01 and 00..02 (eight bytes each): the value of the latter is stored and visible, and the read misses it |
| Version.FindFile | src/db/version_set.cpp:30-44 | The index of the first file that ends at or after the key |
| Version.SearchLevel0 | src/db/version_set.cpp:64-76 | Searching the overlapping files newest first finds the newest visible entry of level 0. It is undefined exactly if a file whose range has the key meets a short one and no newer file has the key visible |
| Version.SearchLevel | src/db/version_set.cpp:77-92 | A chained level is passed over exactly if line 84, which strips eight bytes from both user keys, puts the key before the found file; otherwise that one file is enough to find the level's newest visible entry. That is right whenever `Keys.OrderAgrees` holds for the two keys. Undefined exactly if there is a found file and the key or its first key has less than eight bytes, or it is searched and meets a short key |
| Version.FilesAfter | src/db/version_set.cpp:77-92 | Entries of the key in files behind the found one are older, and invisible if it has none visible |
| Version.TableGet | src/db/version_set.h:38-51 | The saver state is that of the first table entry not below the key, and undefined exactly if there is one and it or the key has less than eight bytes |
| Version.LongRead | src/db/version_set.cpp:49-127 | A read of a key of eight bytes or more in a version without short keys is defined |
| Version.ShortKeyRead | src/db/version_set.cpp:49-127 | A read of a key of less than eight bytes that some file has visible is undefined |
| Lookup.FindIsNewest | src/util/skiplistpg.cpp:25-39 | Seeking (key, snapshot tag) in a sorted run finds the newest visible entry of the key, or there is none |
| Builder.SaveLevelCorrect | src/db/version_set.cpp:246-303 | The saved level is sorted by smallest key and number and holds base and added files minus deleted ones, each as often as listed |
| Builder.SaveLevelOnce | src/db/version_set.cpp:246-303 | Each file is listed once if and only if no surviving base file is added again under its key |
| Builder.ChainedIffDisjoint | src/db/version_set.cpp:275-287 | On a sorted level, the neighbour check finds no overlap if and only if no two files overlap |
| Builder.ReplayStep | src/db/version_set.cpp:334-358 | For one level, accumulating an edit and saving once equals applying it to the saved level if and only if the edit is compatible with the accumulated state |
| Builder.FreshIsCompatible | src/db/version_set.cpp:219-245 | An edit that adds no number the level has ever held is compatible |
| Builder.AddFilesCorrect | src/db/version_set.cpp:236-244 | Adding files un-deletes their numbers and keeps the first file of each key |
| VersionSet.VersionBuilder.Apply | src/db/version_set.cpp:219-245 | Each level accumulates exactly the deletions and additions that the edit has for it; its compact pointer becomes the last one that the edit has for it, and stays without one |
| Manifest.LastPointerWins | src/db/version_set.cpp:222-226 | Of several compact pointers for one level in an edit the last one is taken |
| Manifest.PointerStays | src/db/version_set.cpp:222-226 | A level for which the edit has no compact pointer keeps the one it had |
| VersionSet.VersionBuilder.SaveTo | src/db/version_set.cpp:246-289 | Aborts if and only if some level above 0 would overlap; otherwise gives the saved levels |
| VersionSet.VersionBuilder.SaveOneLevel | src/db/version_set.cpp:251-287 | The merge loop gives the sorted merge without deleted files, and is clean exactly if the result is chained |
| VersionSet.VersionBuilder.MaybeAddFile | src/db/version_set.cpp:290-303 | A file is appended unless deleted; the overlap assertion decides whether the list stays chained |
| VersionSet.VersionSet.LogAndApply | src/db/version_set.cpp:389-445 | Aborts exactly if a level above 0 would overlap. Otherwise, exactly if the file operations succeed, installs the next version and appends the completed edit, behind a snapshot (of the version before and the compact pointers after) in a new manifest; if they fail the version stays and the manifest is closed. The compact pointers are those after the edit in any case. The manifest's bytes then read to the end and replay, in one builder from nothing, to that version and these scalars if and only if every edit in it survives the log framing (none has a compact pointer, no field is cut) and the edit reuses no file number |
| VersionSet.VersionSet.Recover | src/db/version_set.cpp:334-388 | From the bytes of any manifest: all records that the reader gets, in one builder, give the accumulated levels and the last scalars. Ok exactly if all of them decode and the three scalars occur; then it aborts exactly if a level above 0 overlaps. If it is not Ok, log number and last sequence stay. It reports `short`, and nothing else is said of the result, exactly if a record before the first undecodable one names a file key of less than eight bytes, which has no room for a tag |
| VersionSet.RecoverFromManifest | src/db/version_set.cpp:305-388 | From the manifest bytes of a valid running version set: if every edit survives the log framing, its version and log number come back; otherwise the first edit that does not decides, and the result is Corruption or the state before that edit, levels and scalars: Ok exactly if that has the three scalars, and aborted exactly if it also has an overlap above level 0 |
| VersionSet.GrowingDecides | src/db/version_set.cpp:334-388 | A manifest whose edits only add files to level 0, each with a new one: reading it never meets an overlap, and succeeds with all the files only if every edit survives |
| VersionSet.VersionSet.GivesIff | src/db/version_set.cpp:305-388 | The bytes of the open manifest give the current version if and only if all its edits survive the framing and accumulate to that version |
| VersionSet.VersionSet.WriteManifest | src/db/version_set.cpp:409-433 | The manifest grows by exactly the edit, behind a snapshot of the current version if it is new; Ok exactly if all file operations succeed |
| Manifest.ManifestReadBack | src/db/version_set.cpp:334-358 | For any edits appended to a new manifest, replaying what the reader gets of its bytes gives the state after all of them, read to the end, if and only if each survives at its place; the first that does not decides the outcome |
| Manifest.ManifestReplays | src/db/version_set.cpp:334-358 | The same from any position and state: the outcome is the state after all edits, the state before the first one that finds no room, or Corruption at the first one that is cut within a field or has a compact pointer |
| Manifest.ReadsFront | src/db/version_set.cpp:334-358 | Recovery that does not fail gives the state after a front of the edits, which is all of them if and only if they survive |
| Manifest.EditFramed | src/db/walog.cpp:7-37 | Replaying the fragments of one edit applies all of it if and only if it has no compact pointer and its fields fit the block, or fill blocks exactly and go on behind; with no room the reader stops in front of it; otherwise it is Corruption |
| Manifest.OneEdit | src/db/version_set.cpp:219-245 | An edit whose deletions come before its additions does to every level what its fields do as edits of their own |
| Manifest.FittingSurvive | src/db/walog.cpp:20-31 | Pointer-free edits whose records are empty or fit their blocks survive |
| Manifest.LongKeyLost | src/db/version_edit.cpp:49-57 | An edit that adds a file with a key as long as the payload of a block does not survive, wherever it is written |
| Manifest.LongKeyExample | src/db/version_set.cpp:424-425 | Flushing one key of 33000 bytes from a new database leaves a manifest whose recovery is Corruption: the empty snapshot takes no bytes, the edit of `Open` comes back, and the edit of the flush is cut within its first key |
| Manifest.EditAdds | src/db/version_set.cpp:334-358 | With one more edit, the accumulated level saves to the installed level if and only if the edit is compatible |
| Manifest.SnapshotReplays | src/db/version_set.cpp:446-469 | The edit of a snapshot gives exactly the version it was taken of; its record survives if and only if no compact pointer is set and no field is cut |
| VersionSet.TrivialMove | src/db/db.cpp:491-498 | Deleting and adding one file on the same level lists it twice, which overlaps above level 0, and is not compatible with manifest replay |
| EditCodec.EditRoundTrip | src/db/version_edit.cpp:22-147 | An edit decodes back to itself exactly when it has no compact pointers, known levels and nonempty keys; any other encoded edit is rejected |
| EditCodec.PointerExample | src/db/version_edit.cpp:37-41 | An edit with one compact pointer, key 7 on level 1, encodes to bytes that are rejected |
| EditCodec.DecodableFront | src/db/version_edit.cpp:76-147 | A front of an encoded edit decodes only if it ends between two fields and holds no compact pointer |
| EditCodec.DecodeConsumesAll | src/db/version_edit.cpp:137-139 | Decoding any bytes succeeds only if they are a run of whole fields to the very end |
| EditCodec.EncodeTo | src/db/version_edit.cpp:22-58 | The encoding loop appends exactly the fields of the edit, in order |
| EditCodec.DecodeFrom | src/db/version_edit.cpp:76-147 | The decoding loop terminates on any bytes and computes the specified decoding |
| Bloom.CreateThenMatch | src/util/bloom.cpp:22-68 | For every key list, bits setting, hash function and existing bytes, a key matches the appended filter if and only if every one of its probes is a probe of some inserted key; in particular each inserted key does |
| Bloom.NoFalseNegatives | src/util/bloom.cpp:44-68 | A filter in which exactly the probed bits of the keys are set matches a key if and only if its probes are covered by theirs, and so every one of the keys |
| Bloom.BloomFilter.CreateFiler | src/util/bloom.cpp:22-43 | Appends a filter behind any existing bytes, of max(64, bits * n) bits rounded up to bytes and the probe count, in which a bit is set if and only if some key probes it |
| Bloom.BloomFilter.MarkKey | src/util/bloom.cpp:34-41 | Sets, in place and with 32-bit wrap-around, exactly the probed bits of one key and no other |
| Bloom.BloomFilter.KeyMayMatch | src/util/bloom.cpp:44-68 | True exactly if all probed bits are set, with the bit count recovered from the length |
| FilterBlock.FilterBlockbuilder.StartBlock | src/db/filterblock.cpp:9-14 | After starting offset b there are exactly b / 2048 filters, each of exactly the keys added under its offsets |
| FilterBlock.FilterBlockbuilder.AddKey | src/db/filterblock.cpp:15-18 | The key is logged under the latest started offset |
| FilterBlock.FilterBlockbuilder.CreateNewfilter | src/db/filterblock.cpp:19-35 | The pending keys become one more filter, and the earlier filters keep their bytes |
| FilterBlock.FilterBlockbuilder.Finish | src/db/filterblock.cpp:36-47 | For every offset and key the reader of the contents answers: yes behind the last filter; no for a filter without keys; otherwise yes if and only if the keys added under the filter's offsets cover the probes of the key. So it matches every key ever added, under the offset that was the latest when it was added |
| FilterBlock.FinishedAnswer | src/db/filterblock.cpp:48-73 | On finished contents the trailer and the offset array lead to the filter of an offset: the answer is yes behind the last filter, no for an empty one, and else whether its keys cover the probes |
| FilterBlock.FilterBlockReader.KeyMayMatch | src/db/filterblock.cpp:59-73 | On any contents gives the answer of `ReaderMatches`, about which `FilterBlock.FinishedAnswer` says what it is on finished contents |
| Recovery.WriteThenRead | src/db/walog.cpp:7-37 | Of the records appended to a new log the reader gets, until it gives up, the leading full pieces; these are the records if and only if each is nonempty and fits its block |
| Wal.LogReadBack | src/db/reader.cpp:36-118 | Records appended to an empty log are read back exactly if and only if each is nonempty and fits its block; the end is end-of-file exactly when the length is not a multiple of the block size |
| Wal.LongRecordExample | src/db/walog.cpp:22-31 | A single record of 32762 bytes comes back as two records |
| Wal.BehindFitting | src/db/reader.cpp:36-118 | Behind records that fit, the reader stops if the first fragment of the next record is empty; otherwise it gets that fragment as a record, and then what it would get if the rest of the record had been written there as a record of its own |
| Wal.SplitLayout | src/db/walog.cpp:7-37 | For records of any size, the fragments fit their blocks and their payloads put together are the record |
| Wal.NoPieceCrossesABlock | src/db/walog.cpp:14-21 | No physical record crosses a block, no header starts in the last six bytes, and the file holds each record at its header |
| Wal.ReadBack | src/db/reader.cpp:119-178 | Reading any written pieces delivers exactly the leading full ones, then stops or ends |
| Wal.RecordIsOnFile | src/db/reader.cpp:119-178 | Whatever the bytes of a file are, the checking reader gets a record at a position if and only if the whole image of that record, with its checksum, is where it looks, inside the block |
| Wal.DeliveredAreOnFile | src/db/reader.cpp:36-118 | Every record that a replay of any bytes delivers has its image on the file as one full physical record |
| Wal.DeliveredIffAllFit | src/db/walog.cpp:22-31 | All records are delivered if and only if each is nonempty and fits |
| Wal.WalWriter.Appendrecord | src/db/walog.cpp:7-37 | The loop terminates and appends exactly the padded, framed fragments of the record |
| Wal.WalWriter.Flushphyrecord | src/db/walog.cpp:38-61 | Appends one physical record and advances the block offset |
| Wal.Reader.ReadPhysicalRecord | src/db/reader.cpp:119-178 | From any buffer state, one call is the specified read at the absolute file position |
| Wal.Reader.ReadRecord | src/db/reader.cpp:36-118 | Succeeds exactly on a full record and returns its payload |
| WriteBatch.OpsRoundTrip | src/db/writebatch.cpp:13-24 | Any list of operations is read back exactly from its bytes |
| WriteBatch.Batch.AddPut | src/db/writebatch.cpp:13-18 | The buffer encodes the operations with the put appended, and the count one more |
| WriteBatch.Batch.AddDelete | src/db/writebatch.cpp:20-24 | The buffer encodes the operations with the deletion appended, and the count one more |
| WriteBatch.Batch.SetSequence | src/db/writebatch.cpp:34-36 | Only the sequence of the encoded batch changes |
| WriteBatch.Batch.InsertInto | src/db/writebatch.cpp:38-87 | On any bytes, adds the operations up to the first malformed one; Ok exactly if all could be read and the count agrees |
| WriteBatch.InsertBuilt | src/db/writebatch.cpp:38-87 | A batch built by puts and deletions inserts exactly these, in order, and reports Ok |
| Recovery.RecoverLogFile | src/db/db.cpp:144-195 | For a log file of any bytes, the memtable, the highest sequence and the state are what replaying the records that the reader gets gives |
| Recovery.FittingLogReplays | src/db/db.cpp:144-195 | Replaying the log of any batches that fit rebuilds the memtable of the live run and the highest sequence, and the reader comes to the end |
| Recovery.BatchesReplay | src/db/db.cpp:163-178 | Replaying the records of batches makes exactly the `Add` calls of the live run |
| Recovery.CutBatch | src/db/db.cpp:163-178 | The first batch that does not fit: with room for its header it is found malformed after a strict front of its operations was added, which ends the recovery; with no room it and all behind it are dropped without notice; with room for one to eleven bytes the recovery goes on as if the rest of the batch had been logged as a record of its own at the next block |
| Recovery.FrontReplays | src/db/writebatch.cpp:38-87 | Any front of a batch that ends behind its header adds a strict front of its operations and reports Corruption |
| Wal.LogGrows | src/db/walog.cpp:7-37 | Appending a record to the log of a list of records gives the log of the longer list |
| Recovery.HighestOfRising | src/db/db.cpp:173-176 | For batches numbered one behind the other, the maximum found is the end of the last one |
| Memtable.Memtable.Add | src/db/memtable.cpp:54-70 | The node written into the arena and read back is the entry; the contents gain it in key order |
| Memtable.Memtable.Get | src/db/memtable.cpp:71-91 | Answers exactly if the first entry not below the lookup key is for the same user key, with its value or its deletion |
| Memtable.Memtable.Flush | src/db/memtable.cpp:92-105 | Hands over every entry in order, each value cut as the node layout leaves it, and the smallest and largest key |
| Memtable.FlushedValueKept | src/util/key.h:168-176 | Flushing keeps a value if and only if the value is its own length prefix, repeated |
| Memtable.NodeOfArenaEntry | src/util/key.h:162-176 | Key and value read from a node buffer are those that were written |
| Memtable.UpsertCorrect | src/util/skiplistpg.cpp:8-16 | Inserting keeps the run sorted, adds the entry and replaces only an entry with the same key |
| Coding.EncodeVarint32 | src/util/common.cpp:17-43 | The branches give the base-128 encoding |
| Coding.EncodeVarint64 | src/util/common.cpp:51-60 | The loop gives the base-128 encoding |
| Coding.VarintLength | src/util/common.cpp:73-80 | The length is that of the encoding |
| Coding.GetVarint32Ptr | src/util/common.cpp:82-98 | In 32-bit registers, with the inline fast path, computes the scanned value modulo 2^32 or fails |
| Coding.GetVarint64Ptr | src/util/common.cpp:112-127 | In 64-bit registers computes the scanned value modulo 2^64 or fails |
| Coding.Varint32RoundTrip | src/util/common.cpp:100-110 | A 32-bit varint in front of anything is read back, and the rest left over |
| Coding.Varint64RoundTrip | src/util/common.cpp:129-139 | A 64-bit varint in front of anything is read back, and the rest left over |
| Coding.LengthPrefixedRoundTrip | src/util/common.cpp:150-159 | A length-prefixed string in front of anything is read back, and the rest left over |
| Coding.Fixed32RoundTrip | src/util/common.h:40-58 | A fixed 32-bit number is read back |
| Coding.Fixed64RoundTrip | src/util/common.h:46-65 | A fixed 64-bit number is read back |
| Coding.TruncatedRead | src/db/filterblock.cpp:63-64 | A 64-bit read assigned to 32 bits is the 32-bit read at the same place |
| Keys.KeyOrder | src/util/key.h:76-92 | Internal keys are strictly and totally ordered |
| Keys.CmpFacts | src/util/key.h:76-92 | The order is by user key ascending, then by tag descending |
| Keys.UserOrder | src/db/version_set.cpp:68-69 | Bytewise comparison of user keys is a strict total order |
| Keys.CmpViewIsCmp | src/util/options.h:74-89 | On tagged keys the byte comparison is the order of the keys they encode |
| Keys.CmpViewEquality | src/util/options.h:74-89 | On any strings of at least eight bytes it decides equality |
| Keys.UntaggedOrder | src/util/options.h:74-89 | For all keys of at least eight bytes: passed untagged, they are compared as their bytes are (and `< 0` and `<= 0` at version_set.cpp:84 and 666-667 mean bytewise below and not above) if and only if `OrderAgrees`: their fronts without eight bytes differ within both; or one front starts the other and the bytes behind it put its key below too; or the fronts are equal and the first and the last differing byte differ in opposite directions |
| Keys.UntaggedOrderFails | src/util/options.h:74-89 | Two keys with equal fronts, and two of which one front starts the other, that it orders against their bytes |
| Keys.DecodeEncode | src/util/key.h:31-39 | An internal key is read back from its bytes |
| Arena.Arena.Allocate | src/util/arena.h:38-47 | A request that fits is the next bytes of the current block: blocks and usage stay, pointer and remaining count move by exactly that. Any other opens exactly one block, of the request's size if that is above 4096/4 and else of 4096 bytes, which becomes current; usage grows by its size plus 8. In any case the range is apart from all others and inside one owned block, and every block left behind wastes less than 4096/4 + 8 bytes |
| Arena.Arena.AllocateAligned | src/util/arena.cpp:28-43 | The same at an 8-aligned address, with the bytes skipped for the alignment counted in whether the request fits |
| Arena.Arena.AllocateFallback | src/util/arena.cpp:13-26 | Exactly one block more: a large request gets it all and leaves the current one in use, a small one takes its first bytes and makes it current |
| Arena.Arena.AllocateNewBlock | src/util/arena.cpp:45-51 | The block is new and disjoint, and the usage grows by its size plus 8 |

## Left out

- Group commit, waiting and the mutex hand-off: `BuildBatchGroup` assigns its local pointer and `WriteBatch::Append` copies only up to a NUL byte; one writer is modelled, and the waiting branches of `MakeRoomForwrite` are not.
- Synchronous writes: a failed `Sync` behind a successful append leaves a batch in the log that is not in the memtable.
- Compaction picking and input setup (`GetOverlappFiles`, `GetRange`, `SetupOtherInputs`, `Finalize`): the input set is taken as given. `SetupOtherInputs` always records a compact pointer, which a manifest cannot read back.
- Compaction.DoCompactionWork: failed operations on the output file and the shutdown flag. Nothing in the source calls `DoCompactionWork`.
- CompactionRun.Compact: the output file is written in full; which test for empty inputs is made is a parameter, and the code's is one of its two values.
- Table index assembly, two-level iteration, `ReadBlock`, `Footer` and compression: a table is the sorted run of its entries above the block level.
- `LruCache` and `TableCache`: file lookup is a map.
- POSIX files, threads, logging, file-name parsing and `DeleteObsoleteFiles`.
- The error paths of `Block::Iter` on malformed blocks: the cursor theorems are about blocks that the builder made.
- The shortcut of `NewMergingIterator` for one child, which stands for itself.
- The write of a level-0 table in the middle of log recovery, and the tail of `RecoverLogFile`, which discards the rebuilt memtable; `Recover` never sets the current version, so its recovered version is a result here.
- Reading past the last filter offset: `FilterBlockReader` reads eight bytes where four are meant, three of them behind the block for its last offset; the value is cut to four bytes.
- The rounding of `bits * 0.69` in double precision: the hash count is computed over the reals.
- The link between memtable nodes and the arena: `Memtable.Add` builds the bytes of a node, `Arena` hands out the ranges.
- VersionSet.VersionSet.Recover: what the builder's comparisons do with a file key of less than eight bytes is undefined and not modelled; no manifest of stored edits has one.
- Memtable.UpsertCorrect: the replacement of an equal key is an assumption about a library.
- Runs.RunThenGet: runs have at most 2^32 steps, so sequences and file numbers cannot wrap.
