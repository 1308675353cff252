# Verification of the storage, encoding and handshake cores

The application is a thin layer over three libraries kept under `ios/Pods`. This project models the parts of those
libraries whose meaning is simple and whose implementation is not, and proves that the one is the other. Everything is
plain Dafny 4.11; `dafny verify dfyconfig.toml` checks all of it.

## What is modelled

**LevelDB as a multi-version map.** `InternalKeys` says what a read must return from a flat set of versioned entries.
`Versions` is the level-by-level search, `Compactions` the merge loop with its two drop rules, `CompactionInputs` the
choice of inputs, `LevelInvariant` what the levels keep, `Boundaries` when a compaction changes a read, and `Database`
a class whose every operation (write, memtable switch, flush, compaction, trivial move, snapshots) keeps the level
invariant, and keeps reads at live snapshots equal to the whole write history but for the one case `Boundaries` names.
`Manifest`, `VersionEdits`, `EditRefusals` and `Recovery` are the version builder, the edit's wire form and what of it is
refused, and recovery of a version from the bytes of a manifest cut anywhere. Files hold their
entries as lists here; how a list becomes a table file is in `Blocks`, `Comparators`, `Blooms`, `FilterBlocks` and
`Tables`. User keys in the level modules are compared and nothing else, so they are real numbers there: any bytewise
order embeds in them. `DbIter` and `MergingIterator` are the cursors.

**LevelDB under concurrency and failure.** `GroupCommit` and `WriteQueue` are the writers' queue as a state machine,
`SkipLists` the single-writer list whose readers take no lock (one load or store a step, sequentially consistent),
`LogFormat`, `LogReader`, `LogTruncation`, `LogFailures` and `LogKinds` the write-ahead log, under truncation, with
appends that fail, and with record types no writer uses, `WriteBatches` the batch format,
`ObsoleteFiles` the collection of files as a state machine with crashes. `HandleTables` and `LruCaches` are the block
cache with its two intrusive lists. `Coding`, `Crcs` and `CrcValues` are the integers and the checksum
underneath, `Rotations` its mask and the probes of a filter bit by bit.

**DTLS handshake messages.** `DtlsFragments`, `DtlsReceiver` and `DtlsSender` follow section 4.2.3 of RFC 6347:
fragmentation under an MTU, the ring of incoming messages, and reassembly from any delivery. `DtlsFlights` puts them
together for a flight with a change of cipher in it.

**nanopb.** `NanopbFields` is the descriptor table and the iterator over it, `NanopbWire` integers, tags and strings,
`NanopbEncode` the two-pass encoder, `NanopbDecode` the decoder, `NanopbRoundTrip` the two together,
`NanopbUnknown` what happens to fields of other tables, and `NanopbRefusals` exactly what is refused.

## How it is stated

Code that changes things step by step is a class or a loop here, proved equal to a function or a predicate on values;
the theorems are about those. Hash functions, the log's checksum, sizes of files and when a key is one to stop an output
before are parameters, so what is proved holds for all of them. So is the success of each write in the log writer, the
writers' queue, the collection of files and the sending of a flight; elsewhere writes succeed, as "Left out" says.

## What turned out not to hold

Where the code does not do what one would expect, the condition under which it does is proved, and an instance where
it does not:

- The lower inputs of a compaction are not closed over user keys, while output files may split one. Dropping a
  tombstone can then make a deleted key readable again (`Resurrection.DeletedKeyComesBack`, in a version a run leads
  to, `Resurrection.ReachedByRun`); it does exactly if the file after the lower inputs begins with a value the
  tombstone was hiding (`Boundaries.InvisibleIffCovered`), and not if the lower inputs are closed.
- A file number deleted on a level and added to it again for another file revives the old file on replay
  (`Manifest.ReAddedNumberRevivesOldFile`); replay and history agree exactly when that does not happen
  (`Manifest.ReplayIffHistory`).
- `VersionEdit::Clear` keeps compaction pointers, so decoding into a used edit is not exact
  (`VersionEdits.RoundTripExact`).
- A DTLS fragment of the message right after the window passes the test that ignores messages too far ahead, fails
  the next one, and ends the connection with an internal error (`DtlsReceiver.OnePastTheWindow`); which deliveries
  end a connection at all is `DtlsReceiver.NeverRefused`.
- A failed append to the log stops neither the log nor the database, but the writer has moved on in its block and the
  file has not: an update acknowledged after it may not be read back, and without a report
  (`LogFailures.TornHeaderHidesTheNext`, `LogFailures.NothingLeftHidesTheNext`). What was appended before is read
  (`LogFailures.BeforeFirstFailure`); everything is if failed appends left all they tried (`LogFailures.NothingMissing`),
  or nothing and the block does not end (`LogFailures.HarmlessWithinBlock`). Neither is necessary, since damaged bytes
  may happen to have the right checksum. Such updates are the ones at risk in `ObsoleteFiles.NothingNeededIsDeleted`.
- A log trailer is written without asking whether that succeeded, and a record behind one that was not may be
  acknowledged and not read (`LogFailures.LostTrailerHidesTheRecord`).
- A log record whose header carries type 5 or 6 is taken for the reader's own end-of-file and bad-record codes
  (`LogKinds.KindFiveHidesTheRest`, `LogKinds.KindSixGoesUnreported`); a file is read as its records call for exactly
  if no record of type 5 comes up and none of type 6 outside a fragmented record (`LogKinds.LogAsCalled`).
- nanopb writes a text without a NUL whole, and refuses to read it back (`NanopbRoundTrip.MessageBack`). Its 32-bit
  reader takes some numbers from 2^63 on for others (`NanopbWire.TakenForAnother`); which it takes is
  `NanopbWire.Varint32Loose`, and which rightly `NanopbWire.TakenRightly`. A signed field of four bytes takes numbers
  that do not fit it for others (`NanopbRefusals.TakenForFive`); it takes exactly those that fit for what they are
  (`NanopbRefusals.VarIntTaken`).
- A collection of obsolete files between the end of a flush and the logging of its edit would delete the new table;
  one background job at a time is what excludes it (`ObsoleteFiles.CollectionWhileLoggingLosesTheTable`).

## Model

| member | source | states |
|---|---|---|
| InternalKeys.NewestExists | ios/Pods/leveldb-library/db/memtable.cc:100-134 | if any version of a key is visible at a snapshot, there is a newest one |
| InternalKeys.NewestDecides | ios/Pods/leveldb-library/db/memtable.cc:100-134 | with unique sequence numbers, any newest visible version is the answer of a read, and its absence is the answer when there is none |
| InternalKeys.RunGetIsNewest | ios/Pods/leveldb-library/db/memtable.cc:100-134 | seeking a sorted run to (key, snapshot) stops exactly at the newest version visible there, or nowhere if there is none |
| InternalKeys.InsertContents | ios/Pods/leveldb-library/db/memtable.cc:75-98 | adding an entry to a memtable adds that entry and no other |
| InternalKeys.InsertKeepsSorted | ios/Pods/leveldb-library/db/memtable.cc:75-98 | a memtable stays sorted by internal key under insertion of a new key |
| Versions.FindFile | ios/Pods/leveldb-library/db/version_set.cc:88-106 | binary search finds the boundary: all files before it end before the key, none from it on does |
| Versions.SomeFileOverlapsRange | ios/Pods/leveldb-library/db/version_set.cc:122-157 | the linear and the binary-search path both answer whether some file meets the user-key range |
| Versions.SortNewestFirstDescends | ios/Pods/leveldb-library/db/version_set.cc:278-280 | level-0 candidates are searched in descending file number |
| Versions.SearchLevel0 | ios/Pods/leveldb-library/db/version_set.cc:349-364 | level 0 searched newest file first yields the newest visible version in the level, or shows there is none |
| Versions.SearchSortedLevel | ios/Pods/leveldb-library/db/version_set.cc:365-381 | on a sorted level the one file FindFile names yields the newest visible version in the level, or shows there is none |
| Versions.LevelDecides | ios/Pods/leveldb-library/db/version_set.cc:326-421 | under the level invariant the first level with a visible version holds the newest of all |
| Versions.Get | ios/Pods/leveldb-library/db/version_set.cc:326-421 | the level-by-level search returns what the flat set of all entries says at the snapshot |
| Compactions.Compaction.IsBaseLevelForKey | ios/Pods/leveldb-library/db/version_set.cc:1533-1552 | the remembered scan position answers, for nondecreasing keys, what a full scan of all deeper levels would |
| Compactions.CompactionState.DropEntry | ios/Pods/leveldb-library/db/db_impl.cc:925-952 | an entry is dropped exactly if it is shadowed at the smallest snapshot, or is a tombstone at or below it with no deeper file holding the key |
| Compactions.CompactionState.FinishOutput | ios/Pods/leveldb-library/db/db_impl.cc:811-858 | closing an output file appends what was built as one file, loses and duplicates nothing, and never leaves an empty file |
| Compactions.DoCompactionWork | ios/Pods/leveldb-library/db/db_impl.cc:890-985 | the outputs in order are the input entries that the drop rules keep, and each output but the last ends exactly where it is full or the next key is one to stop before |
| Compactions.ShadowedByPrevious | ios/Pods/leveldb-library/db/db_impl.cc:926-952 | remembering only the last sequence number seen for the key decides whether any newer version hides this one |
| Compactions.KeptSorted | ios/Pods/leveldb-library/db/db_impl.cc:890-985 | what a compaction keeps is still sorted |
| Compactions.KeptIsRest | ios/Pods/leveldb-library/db/db_impl.cc:890-985 | outputs hold exactly the input entries that were not dropped |
| Compactions.DroppedNewest | ios/Pods/leveldb-library/db/db_impl.cc:932-952 | a dropped newest version is a tombstone, and a reader then sees exactly what was left outside the inputs |
| Compactions.CompactionInvisible | ios/Pods/leveldb-library/db/db_impl.cc:890-963 | replacing inputs by outputs changes no read at any snapshot at or above the smallest if and only if no dropped tombstone hid a version left outside the inputs |
| CompactionInputs.GetOverlappingInputs | ios/Pods/leveldb-library/db/version_set.cc:519-559 | the files meeting the range, in order; at level 0 the range is grown to the least one that no file straddles |
| CompactionInputs.EmptyRange | ios/Pods/leveldb-library/db/version_set.cc:519-559 | grown or not, a range finds nothing if and only if no file meets it as it was given |
| CompactionInputs.OverlappingIsSlice | ios/Pods/leveldb-library/db/version_set.cc:519-559 | on a sorted level the overlapping files are consecutive |
| CompactionInputs.FindSmallestBoundaryFile | ios/Pods/leveldb-library/db/version_set.cc:1344-1362 | the file that continues the last user key soonest, or none if no file continues it |
| CompactionInputs.AddBoundaryInputs | ios/Pods/leveldb-library/db/version_set.cc:1378-1401 | inputs are extended, file by file, by the one that continues the last user key soonest, until none does |
| CompactionInputs.BoundariesSelect | ios/Pods/leveldb-library/db/version_set.cc:1378-1401 | extended this way, any choice of consecutive files ends where the next file starts a new user key |
| CompactionInputs.SetupOtherInputs | ios/Pods/leveldb-library/db/version_set.cc:1403-1462 | the upper inputs are a clean cut that contains the files asked for, and the lower inputs are exactly the next level's files in their range; the upper ones are the grown ones exactly if growing adds upper and no lower files and stays within the limit |
| CompactionInputs.GrowingKeepsParents | ios/Pods/leveldb-library/db/version_set.cc:1425-1458 | if the grown upper inputs have as many files below them as before, they have the same ones |
| CompactionInputs.PickInputs | ios/Pods/leveldb-library/db/version_set.cc:1284-1317 | exactly the file, or at level 0 every file of the range grown from it: a choice the next step accepts |
| CompactionInputs.ManualInputs | ios/Pods/leveldb-library/db/version_set.cc:1464-1495 | the files of the range, none exactly if no file meets it, cut off right behind the file that reaches the size limit; every choice it hands on is one the next step accepts |
| LevelInvariant.BeforeTheCut | ios/Pods/leveldb-library/db/version_set.cc:1378-1462 | a file outside a clean cut lies wholly before the inputs or shares no user key with them |
| LevelInvariant.CompactionKeepsLevels | ios/Pods/leveldb-library/db/version_set.cc:1403-1462 | with the inputs chosen above, a compaction or trivial move leaves levels sorted, disjoint, and newer above older |
| LevelInvariant.OneHome | ios/Pods/leveldb-library/db/version_set.cc:1403-1462 | under the level invariant no entry is stored in two files |
| LevelInvariant.CompactionContents | ios/Pods/leveldb-library/db/db_impl.cc:860-876 | installing outputs for inputs removes from the version the dropped entries and nothing else |
| LevelInvariant.FlushKeepsLevels | ios/Pods/leveldb-library/db/version_set.cc:491-516 | a flushed memtable keeps the level invariant at any level where nothing above or at it overlaps |
| LevelInvariant.FlushContents | ios/Pods/leveldb-library/db/db_impl.cc:491-533 | a flush adds the memtable's entries to the version and nothing else |
| Boundaries.NewestBeyond | ios/Pods/leveldb-library/db/version_set.cc:1403-1462 | if the newest version of a key at a snapshot is among the inputs and nothing of the key is deeper, the newest one left behind is the first entry of the file right after the lower inputs |
| Boundaries.InvisibleIffCovered | ios/Pods/leveldb-library/db/db_impl.cc:890-985 | a compaction changes no read at a live snapshot if and only if the one file right after its lower inputs does not begin with a value that a tombstone among the inputs was hiding |
| Boundaries.ClosureSuffices | ios/Pods/leveldb-library/db/version_set.cc:1403-1462 | if the lower inputs are closed over user keys as the upper ones are, there is no such boundary file |
| Database.PickLevelForMemTableOutput | ios/Pods/leveldb-library/db/version_set.cc:491-516 | the level reached exactly: 0 if level 0 overlaps, otherwise as deep as nothing overlaps and the overlap two levels down allows |
| Database.LogAndApply | ios/Pods/leveldb-library/db/version_set.cc:801-884 | the new version is ordered and holds on each level what one builder pass over the edit saves |
| Database.IsTrivialMove | ios/Pods/leveldb-library/db/version_set.cc:1515-1523 | exactly one upper file, nothing below it, and the overlap two levels down within its bound |
| Database.ChooseInputs | ios/Pods/leveldb-library/db/version_set.cc:1270-1324 | from any file the inputs for an automatic compaction are good ones that contain it, made as the source makes them: the file with those it must come with, the boundary files, the files below, and the upper ones grown where that adds no file below and stays within the limit |
| Database.OldestIsSmallest | ios/Pods/leveldb-library/db/snapshot.h:46-86 | the head of the snapshot list is its minimum, and at most the last sequence number |
| Database.CompactedReads | ios/Pods/leveldb-library/db/db_impl.cc:860-985 | a compaction takes away from what is stored exactly what it drops; reads at live snapshots survive if and only if it uncovers nothing |
| Database.ReadsAfter | ios/Pods/leveldb-library/db/db_impl.cc:860-985 | reads that gave the whole history at live snapshots still do after a compaction if and only if it uncovered nothing, and always if its lower inputs were closed over user keys |
| Database.ReadInOrder | ios/Pods/leveldb-library/db/db_impl.cc:1100-1145 | memtable, immutable memtable and version asked in turn give what the flat set of everything stored gives |
| Database.DB.GetSnapshot | ios/Pods/leveldb-library/db/db_impl.cc:1166-1169 | a snapshot is the last sequence number, appended to the list; structure and reads are kept |
| Database.DB.ReleaseSnapshot | ios/Pods/leveldb-library/db/db_impl.cc:1171-1175 | releasing any one snapshot leaves the others in order; structure and reads are kept |
| Database.DB.Get | ios/Pods/leveldb-library/db/db_impl.cc:1100-1145 | after any sequence of the operations here a read at the present or a live snapshot returns what everything stored says, and what the whole write history says unless a compaction uncovered an old version |
| Database.DB.Add | ios/Pods/leveldb-library/db/write_batch.cc:119-130 | an update takes the next sequence number and joins memtable and history; structure and reads are kept |
| Database.DB.Write | ios/Pods/leveldb-library/db/db_impl.cc:1200-1231 | a batch takes the sequence numbers right after the last one, in order, in memtable and history; structure and reads are kept |
| Database.DB.SwitchMemTable | ios/Pods/leveldb-library/db/db_impl.cc:1345-1367 | a full memtable becomes the immutable one; everything held and read is kept |
| Database.DB.CompactMemTable | ios/Pods/leveldb-library/db/db_impl.cc:535-566 | the memtable becomes one new file on the level picked for it, every other list is the same; everything held and read is kept |
| Database.DB.Compact | ios/Pods/leveldb-library/db/db_impl.cc:878-1035 | for any inputs SetupOtherInputs gives: they are gone from both levels, new files one level down hold their entries less the dropped ones, and the version has lost the dropped entries and nothing else; reads at live snapshots are kept if and only if nothing is uncovered |
| Database.DB.TrivialMove | ios/Pods/leveldb-library/db/db_impl.cc:717-735 | the file is gone from its level and on the next, every other list is the same; what is held and what is read are unchanged |
| Database.DB.BackgroundCompaction | ios/Pods/leveldb-library/db/db_impl.cc:688-767 | from any file: the completed inputs are moved exactly if there is one upper and no lower file and the overlap two levels down is within the bound, and then that file alone changes its level; otherwise they are merged, the inputs gone, the outputs one level down with all entries but the dropped; reads are kept, after a merge if and only if nothing is uncovered |
| Resurrection.InputsAreGood | ios/Pods/leveldb-library/db/version_set.cc:1403-1462 | there is a version where the chosen lower inputs end in the middle of a user key |
| Resurrection.LowerIsNotClosed | ios/Pods/leveldb-library/db/version_set.cc:1403-1462 | they are not closed over user keys |
| Resurrection.DeletedKeyComesBack | ios/Pods/leveldb-library/db/db_impl.cc:944-952 | on those inputs the drop rules make a deleted key readable again |
| Resurrection.BeyondIsUncovered | ios/Pods/leveldb-library/db/db_impl.cc:932-952 | there the file after the lower inputs begins with what the dropped tombstone was hiding |
| Resurrection.ReachedByRun | ios/Pods/leveldb-library/db/db_impl.cc:491-566 | two flushes, a compaction under a live snapshot and a third flush lead from the empty version to that one |
| Manifest.OrderedUnique | ios/Pods/leveldb-library/db/version_set.cc:594-606 | an ordered file list is determined by its members |
| Manifest.Builder.Apply | ios/Pods/leveldb-library/db/version_set.cc:650-692 | an edit's deletions and then its additions, level by level, with a later addition overriding an earlier deletion, also for numbers used before |
| Manifest.SaveLevel | ios/Pods/leveldb-library/db/version_set.cc:702-734 | merging added files into base files gives one ordered list with deleted numbers left out |
| Manifest.Builder.SaveTo | ios/Pods/leveldb-library/db/version_set.cc:695-754 | every level of the saved version is ordered and holds base and added files less the deleted ones |
| Manifest.ReplayEqualsHistory | ios/Pods/leveldb-library/db/version_set.cc:924-998 | if no (level, number) is added twice, one builder fed every edit saves what installing the edits one at a time gives |
| Manifest.ReplayIffHistory | ios/Pods/leveldb-library/db/version_set.cc:650-692 | for all edits, replay and history give a level the same files if and only if no file has its number deleted and later added again for another file with no deletion after; replay never loses a file |
| Manifest.HistoryLoses | ios/Pods/leveldb-library/db/version_set.cc:801-884 | installing edits one by one loses exactly the files whose number an edit deletes without a later edit adding the file again |
| Manifest.ReplayForgets | ios/Pods/leveldb-library/db/version_set.cc:650-692 | one builder leaves out a number that was ever deleted, unless an edit after the last deletion adds the number again |
| Manifest.ReAddedNumberRevivesOldFile | ios/Pods/leveldb-library/db/version_set.cc:676-691 | an instance: a file deleted and its number added again for another is back after replay |
| Manifest.SnapshotThenEditsRecovers | ios/Pods/leveldb-library/db/version_set.cc:1088-1116 | a manifest of a snapshot record and later edits recovers the files reached by installing those edits |
| Manifest.RecoveredVersionIsCurrent | ios/Pods/leveldb-library/db/version_set.cc:886-1011 | two ordered versions with the files of replay and of history are the same version if no number is added twice |
| Manifest.Replay | ios/Pods/leveldb-library/db/version_set.cc:924-998 | one builder fed a whole list of edits saves on each level, in order, the files of the accumulated state |
| Manifest.History | ios/Pods/leveldb-library/db/version_set.cc:816-821 | edit by edit, every version made of the one before, the last one holds the files of installing all |
| Manifest.NumbersOnceIsEnough | ios/Pods/leveldb-library/db/version_set.cc:801-884 | edits whose file numbers come from one counter can be replayed and installed |
| Manifest.RecoverAndCompare | ios/Pods/leveldb-library/db/version_set.cc:886-1011 | the version replayed from a snapshot and its edits equals the one the edits led to if and only if no deleted file comes back with its number |
| VersionEdits.ItemRoundTrip | ios/Pods/leveldb-library/db/version_edit.cc:41-85 | each tagged item is read back, whatever follows it |
| VersionEdits.DecodeItems | ios/Pods/leveldb-library/db/version_edit.cc:107-205 | items are applied in the order they were written |
| VersionEdits.DecodeInto | ios/Pods/leveldb-library/db/version_edit.cc:107-205 | decoding restores the edit in whatever order the deleted files were written, behind compaction pointers the target already had |
| VersionEdits.RoundTripExact | ios/Pods/leveldb-library/db/version_edit.cc:26-39 | since Clear keeps compaction pointers, the round trip is exact if and only if the target held none |
| VersionEdits.VersionEdit.EncodeTo | ios/Pods/leveldb-library/db/version_edit.cc:41-85 | the bytes written are those of the edit's items, in field order |
| VersionEdits.VersionEdit.DecodeFrom | ios/Pods/leveldb-library/db/version_edit.cc:107-205 | fields and error message are those of item-by-item decoding into a cleared edit |
| VersionEdits.WriteAndRead | ios/Pods/leveldb-library/db/version_edit.cc:41-205 | a fresh edit that decodes an encoding equals the edit encoded |
| EditRefusals.EditCut | ios/Pods/leveldb-library/db/version_edit.cc:107-211 | an encoding cut anywhere is refused, with what went before it applied, unless the cut falls between items, and then exactly the items before it are read |
| EditRefusals.UnknownTag | ios/Pods/leveldb-library/db/version_edit.cc:189-193 | a tag that is not one of the eight stops the reading with that message, after the items before it |
| EditRefusals.UnknownLevel | ios/Pods/leveldb-library/db/version_edit.cc:97-105 | so does a level the database does not have, with the message of the item it stands in |
| Recovery.Recover | ios/Pods/leveldb-library/db/version_set.cc:920-998 | from the bytes of any manifest: a failure if and only if a corruption is reported, a record is no edit or for another comparator, or a counter is missing; otherwise what one builder makes of the edits, and the last value of each counter |
| Recovery.LogEdits | ios/Pods/leveldb-library/db/version_set.cc:841-857 | every edit becomes one log record that decodes to it |
| Recovery.WriteCutRecover | ios/Pods/leveldb-library/db/version_set.cc:801-1011 | a manifest written edit by edit, cut at any byte and recovered gives the version and counters current after the last edit wholly in the file: always if numbers come from one counter, otherwise exactly if no deleted file comes back |
| DbIter.LiveIsRead | ios/Pods/leveldb-library/db/db_iter.cc:168-198 | the entries a cursor shows are exactly the answers of reads at its snapshot |
| DbIter.DBIter.FindNextUserEntry | ios/Pods/leveldb-library/db/db_iter.cc:168-198 | the forward scan stops at the first visible, undeleted key past the one skipped, or shows there is none |
| DbIter.DBIter.FindPrevUserEntry | ios/Pods/leveldb-library/db/db_iter.cc:227-267 | the backward scan stops before the last visible, undeleted key, with its key and value saved, or shows there is none |
| DbIter.DBIter.Next | ios/Pods/leveldb-library/db/db_iter.cc:141-166 | the next visible key, from either direction |
| DbIter.DBIter.Prev | ios/Pods/leveldb-library/db/db_iter.cc:200-225 | the previous visible key, from either direction |
| DbIter.DBIter.Seek | ios/Pods/leveldb-library/db/db_iter.cc:269-281 | the first visible key at or after the target |
| DbIter.DBIter.SeekToFirst | ios/Pods/leveldb-library/db/db_iter.cc:283-292 | the first visible key |
| DbIter.DBIter.SeekToLast | ios/Pods/leveldb-library/db/db_iter.cc:294-299 | the last visible key |
| DbIter.Play | ios/Pods/leveldb-library/db/db_iter.cc:141-299 | for any sequence of moves with any changes of direction, key, value and validity are those of the cursor over the visible keys |
| MergingIterator.Merger.FindSmallest | ios/Pods/leveldb-library/table/merger.cc:148-161 | from children all at one cut of the order, the least key of the union after it |
| MergingIterator.Merger.FindLargest | ios/Pods/leveldb-library/table/merger.cc:163-176 | from children all under one cut of the order, the greatest key of the union before it |
| MergingIterator.Merger.SeekToFirst | ios/Pods/leveldb-library/table/merger.cc:31-37 | the least key of the union |
| MergingIterator.Merger.SeekToLast | ios/Pods/leveldb-library/table/merger.cc:39-45 | the greatest key of the union |
| MergingIterator.Merger.Seek | ios/Pods/leveldb-library/table/merger.cc:47-53 | the least key of the union at or after the target |
| MergingIterator.Merger.Next | ios/Pods/leveldb-library/table/merger.cc:55-79 | the least key of the union above the current one, also after a change of direction |
| MergingIterator.Merger.Prev | ios/Pods/leveldb-library/table/merger.cc:81-108 | the greatest key of the union below the current one, also after a change of direction |
| MergingIterator.StepsInvert | ios/Pods/leveldb-library/table/merger.cc:55-108 | a step back undoes a step forward and the other way round |
| MergingIterator.Play | ios/Pods/leveldb-library/table/merger.cc:31-108 | for any sequence of moves and changes of direction the merger stands where a cursor over the union does |
| MergingIterator.MovesOneWay | ios/Pods/leveldb-library/table/merger.cc:31-108 | each move of that cursor leads to one place |
| GroupCommit.GroupUnique | ios/Pods/leveldb-library/db/db_impl.cc:1260-1306 | a queue has one group |
| GroupCommit.GroupExists | ios/Pods/leveldb-library/db/db_impl.cc:1260-1306 | every queue whose front writer has a batch has a group |
| GroupCommit.GroupKeepsRules | ios/Pods/leveldb-library/db/db_impl.cc:1268-1300 | no sync write rides behind a non-sync one; a group of more than one batch stays within a megabyte, and behind a batch of at most 128 kilobytes grows by no more than that |
| GroupCommit.Consider | ios/Pods/leveldb-library/db/db_impl.cc:1281-1303 | a writer joins exactly if it is no sync write behind a non-sync one and fits; its updates then follow those joined before |
| GroupCommit.BuildBatchGroup | ios/Pods/leveldb-library/db/db_impl.cc:1260-1306 | the group is the one maximal prefix of the queue, its updates are joined in order, and no caller's batch is disturbed |
| WriteQueue.StepKeepsInv | ios/Pods/leveldb-library/db/db_impl.cc:1185-1258 | every step of every thread keeps the queue, the log and the memtable in agreement |
| WriteQueue.RunKeepsInv | ios/Pods/leveldb-library/db/db_impl.cc:1185-1258 | so does every run under every interleaving |
| WriteQueue.EachCallOnce | ios/Pods/leveldb-library/db/db_impl.cc:1206-1243 | in every run the memtable holds every update of every call that returned OK once, in queue order, then part of the group being written, and nothing of failed calls |
| WriteQueue.Acknowledged | ios/Pods/leveldb-library/db/db_impl.cc:1206-1231 | in every run a call that returned OK has its updates in one piece of one record handed to the log without an error, under consecutive sequence numbers, synced if it asked for that |
| WriteQueue.RunsInOrder | ios/Pods/leveldb-library/db/db_impl.cc:1206-1231 | the sequence numbers of two calls are disjoint and in queue order |
| WriteQueue.RunGrows | ios/Pods/leveldb-library/db/db_impl.cc:1185-1258 | nothing a reader can see is ever changed, and new updates have larger sequence numbers |
| WriteQueue.SnapshotAtomic | ios/Pods/leveldb-library/db/db_impl.cc:1100-1110 | a snapshot taken at any moment sees a call's updates all or not at all |
| WriteQueue.NoDeadlock | ios/Pods/leveldb-library/db/db_impl.cc:1185-1197 | while a call is out, some thread can move without a new call or a stray wake-up |
| WriteQueue.EveryStepCounts | ios/Pods/leveldb-library/db/db_impl.cc:1239-1256 | every such step brings the queue nearer to empty, so every call returns |
| SkipLists.SearchIsRight | ios/Pods/leveldb-library/db/skiplist.h:260-281 | a search that ends is right about the list as it was at its last load |
| SkipLists.FillKeeps | ios/Pods/leveldb-library/db/skiplist.h:356-367 | storing into a node not yet published at a level disturbs nothing |
| SkipLists.PublishKeeps | ios/Pods/leveldb-library/db/skiplist.h:356-367 | one publishing store keeps every level a sorted sublist of the one below, and adds the key when the level is the lowest |
| SkipLists.WalkVisits | ios/Pods/leveldb-library/db/skiplist.h:260-281 | walking a level visits every node published there beyond the start, and no other |
| SkipLists.WalkSorted | ios/Pods/leveldb-library/db/skiplist.h:260-281 | and visits them in key order |
| SkipLists.StepKeeps | ios/Pods/leveldb-library/db/skiplist.h:336-368 | after every single load and store of writer and readers the list is in order and every reader stands where it may |
| SkipLists.StepKeys | ios/Pods/leveldb-library/db/skiplist.h:336-368 | the contents change at one kind of store only, by the one key being inserted |
| SkipLists.LoadIsRight | ios/Pods/leveldb-library/db/skiplist.h:260-281 | a concurrent search that finishes is right about the list at the instant of its last load |
| SkipLists.RunKeeps | ios/Pods/leveldb-library/db/skiplist.h:336-368 | in every run, for all interleavings and heights, the list stays in order and loses no key |
| SkipLists.SkipList.FindGreaterOrEqual | ios/Pods/leveldb-library/db/skiplist.h:260-281 | the first node at or after the key, and the node before it on every level |
| SkipLists.SkipList.FindLessThan | ios/Pods/leveldb-library/db/skiplist.h:284-302 | the last node before the key, or the head |
| SkipLists.SkipList.FindLast | ios/Pods/leveldb-library/db/skiplist.h:305-322 | the last node, or the head |
| SkipLists.SkipList.Contains | ios/Pods/leveldb-library/db/skiplist.h:370-378 | whether the key is there |
| SkipLists.SkipList.Insert | ios/Pods/leveldb-library/db/skiplist.h:336-368 | for any height the list holds exactly one key more, linked on exactly its levels, and the height of the list is raised if it is higher |
| ObsoleteFiles.StepKeeps | ios/Pods/leveldb-library/db/db_impl.cc:223-278 | writes, failed writes, switches, flushes, compactions, readers, failures and collections all keep what recovery needs, also when a working compaction goes on after a failure |
| ObsoleteFiles.FlushRecovers | ios/Pods/leveldb-library/db/db_impl.cc:535-566 | whatever version the manifest may hold, with the edit of a flush behind it nothing acknowledged is lost |
| ObsoleteFiles.CompactionRecovers | ios/Pods/leveldb-library/db/db_impl.cc:860-876 | and with the edit of a compaction nothing but what that compaction dropped |
| ObsoleteFiles.RunKeeps | ios/Pods/leveldb-library/db/db_impl.cc:223-278 | so does every run |
| ObsoleteFiles.NothingNeededIsDeleted | ios/Pods/leveldb-library/db/db_impl.cc:223-278 | at every moment of every run the tables of current and held versions and the logs behind both memtables are there; whatever version the manifest is read as, every acknowledged update is in its tables or in the readable part of a log it needs, but for those a compaction dropped and those acknowledged behind a failed append to their log and not flushed since |
| ObsoleteFiles.NothingAtRisk | ios/Pods/leveldb-library/db/db_impl.cc:1206-1231 | in a run without a failed append to a log no update is at risk |
| ObsoleteFiles.CollectedExactly | ios/Pods/leveldb-library/db/db_impl.cc:223-278 | a collection keeps exactly live and pending tables and logs from the current number on |
| ObsoleteFiles.CollectionWhileLoggingLosesTheTable | ios/Pods/leveldb-library/db/db_impl.cc:491-566 | a collection while a flush is being logged would delete its table, which is why one background job runs at a time |
| LogFormat.UnmaskMask | ios/Pods/leveldb-library/util/crc32c.h:26-39 | unmasking inverts masking |
| Rotations.MaskRotates | ios/Pods/leveldb-library/util/crc32c.h:26-33 | a masked checksum is the checksum turned right by 15 bits, bit by bit, plus the constant, in 32 bits |
| LogFormat.Writer.AddRecord | ios/Pods/leveldb-library/db/log_writer.cc:34-108 | whatever becomes of each fragment and trailer, the file gets what reached it, the writer moves on in its block as if all of it had, and only a fragment that fails is reported; without failures the record stands where the file ended |
| LogFormat.SoundAttempt | ios/Pods/leveldb-library/db/log_writer.cc:34-108 | without failures an append writes the record's fragments and leaves the writer in its block where the file ends |
| LogFormat.ReopenedWriterAgrees | ios/Pods/leveldb-library/db/log_writer.cc:27-30 | a writer reopened at the length of the file writes what the original would have |
| LogFormat.LogAppend | ios/Pods/leveldb-library/db/log_writer.cc:34-80 | the log of one record more is the log with that record's bytes where it ended |
| LogReader.Reader.ReadPhysicalRecord | ios/Pods/leveldb-library/db/log_reader.cc:189-271 | block by block reading gives the physical record that stands at the position in the file, or end, or corruption with or without a report |
| LogReader.Reader.ReadRecord | ios/Pods/leveldb-library/db/log_reader.cc:56-173 | the next logical record, its end position and the number of reports are those of assembling physical records from the position |
| LogReader.ReadLog | ios/Pods/leveldb-library/db/log_reader.cc:56-173 | all records of a file and the reports made on the way |
| LogTruncation.RecordRead | ios/Pods/leveldb-library/db/log_reader.cc:56-173 | a record all of whose bytes are there is read back with no report |
| LogTruncation.RecordCut | ios/Pods/leveldb-library/db/log_reader.cc:189-222 | a record cut at any byte is ignored with no report |
| LogTruncation.TruncationSafe | ios/Pods/leveldb-library/db/log_reader.cc:56-271 | for all records and every length, the first n bytes give back exactly the records lying wholly within them, in order, with no corruption reported |
| LogTruncation.WriteCutRead | ios/Pods/leveldb-library/db/log_writer.cc:23-108 | the same for writer and reader together, the writer reopened after every record |
| LogFailures.WriteAll | ios/Pods/leveldb-library/db/log_writer.cc:34-108 | one writer, append after append, whatever fails: the bytes and the reports are those of the specification |
| LogFailures.BeforeFirstFailure | ios/Pods/leveldb-library/db/log_reader.cc:56-173 | for all records and failures, those appended before anything failed were acknowledged and are read back first, whatever follows |
| LogFailures.NothingMissing | ios/Pods/leveldb-library/db/log_reader.cc:56-173 | if every failed append left all it had tried to write, exactly the records tried to their end are read back, in order, all acknowledged ones among them, with one report for each that was broken off with something in it and had another behind it |
| LogFailures.HarmlessWithinBlock | ios/Pods/leveldb-library/db/log_writer.cc:34-108 | behind a sound log, failed appends that left nothing cost no acknowledged record until the writer comes to the end of its block |
| LogFailures.TornHeaderHidesTheNext | ios/Pods/leveldb-library/db/log_reader.cc:189-222 | an instance: an append that fails after its header hides the next, which was acknowledged, without a report |
| LogFailures.NothingLeftHidesTheNext | ios/Pods/leveldb-library/db/log_writer.cc:42-51 | an instance: after a failed append that left nothing the next is padded as for another block and is not read, unless the checksum of a byte is what zeros stand for |
| LogFailures.LostTrailerHidesTheRecord | ios/Pods/leveldb-library/db/log_writer.cc:45-51 | an instance: a trailer that is not written goes unnoticed, and the record behind it, acknowledged, is not read |
| LogKinds.ReadAsCalled | ios/Pods/leveldb-library/db/log_reader.cc:91-171 | from any place on, reading gives a prefix of the records called for and never more reports, with all of both exactly if no record of kind 5 comes up and none of kind 6 outside a fragmented record |
| LogKinds.LogAsCalled | ios/Pods/leveldb-library/db/log_reader.cc:56-271 | reading a file gives what its records call for if and only if that is so from its start |
| LogKinds.KindFiveHidesTheRest | ios/Pods/leveldb-library/db/log_reader.cc:140-147 | an instance: a sound record of kind 5 hides the one after it and nothing is reported |
| LogKinds.KindSixGoesUnreported | ios/Pods/leveldb-library/db/log_reader.cc:149-155 | an instance: a sound record of kind 6 is dropped and not reported |
| WriteBatches.OpRoundTrip | ios/Pods/leveldb-library/db/write_batch.cc:98-109 | an update is read back, whatever follows it |
| WriteBatches.OpsRoundTrip | ios/Pods/leveldb-library/db/write_batch.cc:42-80 | a list of updates is read back whole and in order |
| WriteBatches.WriteBatch.Put | ios/Pods/leveldb-library/db/write_batch.cc:98-103 | the batch represents its updates and one more |
| WriteBatches.WriteBatch.Append | ios/Pods/leveldb-library/db/write_batch.cc:144-148 | the updates of another batch follow those already here |
| WriteBatches.Iterate | ios/Pods/leveldb-library/db/write_batch.cc:42-80 | updates are handed over one by one up to a malformed one, which decides the message; OK exactly if all parse and the header's count agrees |
| WriteBatches.InsertInto | ios/Pods/leveldb-library/db/write_batch.cc:119-137 | every update goes in once, in order, under consecutive sequence numbers from the batch's own |
| HandleTables.MoveOne | ios/Pods/leveldb-library/util/cache.cc:122-146 | moving one handle to its new bucket leaves the rest of its old chain linked and no handle linked twice |
| HandleTables.MaskedIsAnd | ios/Pods/leveldb-library/util/cache.cc:116-118 | the bucket of a hash is its bitwise and with the length less one, for lengths that are powers of two |
| HandleTables.HandleTable.FindPointer | ios/Pods/leveldb-library/util/cache.cc:114-120 | the slot that points at the matching handle, or the end of its bucket's chain |
| HandleTables.HandleTable.Lookup | ios/Pods/leveldb-library/util/cache.cc:74-76 | the handle of that key, as a map would answer |
| HandleTables.HandleTable.Insert | ios/Pods/leveldb-library/util/cache.cc:78-92 | the map with that key bound anew, and what it displaced; the table grows only if there are more handles than buckets |
| HandleTables.HandleTable.Remove | ios/Pods/leveldb-library/util/cache.cc:94-102 | the map without that key, and what was taken out |
| HandleTables.HandleTable.Resize | ios/Pods/leveldb-library/util/cache.cc:122-146 | relinking every chain in place changes no answer; the length is the least power of two from four on that is not below the number of handles |
| LruCaches.AppendRing | ios/Pods/leveldb-library/util/cache.cc:244-250 | appending links an entry in as the newest of a circular list |
| LruCaches.RemoveRing | ios/Pods/leveldb-library/util/cache.cc:239-242 | unlinking takes one entry out and keeps the order of the others |
| LruCaches.ReffedOk | ios/Pods/leveldb-library/util/cache.cc:217-223 | taking a reference adds one to references and clients of the entry, moves it to the in-use list if it was idle, changes nothing else, and keeps the invariant |
| LruCaches.UnreffedOk | ios/Pods/leveldb-library/util/cache.cc:225-237 | giving one back takes one off, deletes the entry with its last reference or makes it idle, changes nothing else, and keeps the invariant |
| LruCaches.ErasedOk | ios/Pods/leveldb-library/util/cache.cc:307-316 | taking an entry out of the cache lowers usage by its charge and keeps the invariant |
| LruCaches.UseThenRelease | ios/Pods/leveldb-library/util/cache.cc:252-264 | a looked-up entry cannot be evicted until released, and is then the last to go |
| LruCaches.LRUCache.Lookup | ios/Pods/leveldb-library/util/cache.cc:252-259 | the entry the table has for the key, with one reference and one client more, in use and out of reach of eviction, all else the same; nothing changes if there is none |
| LruCaches.LRUCache.Release | ios/Pods/leveldb-library/util/cache.cc:261-264 | one reference and one client less; the entry is deleted exactly if that was the last reference, and idle, last in line, if the cache alone holds it; all else the same |
| LruCaches.LRUCache.Erase | ios/Pods/leveldb-library/util/cache.cc:318-321 | the table without the key; its entry out of the cache and usage less its charge, deleted exactly if no client holds it, all else the same |
| LruCaches.LRUCache.Trim | ios/Pods/leveldb-library/util/cache.cc:294-300 | idle entries go, longest unused first, while over capacity and no longer |
| LruCaches.LRUCache.Insert | ios/Pods/leveldb-library/util/cache.cc:266-303 | a fresh entry held by the caller; what it displaces is deleted if idle; usage ends within capacity or nothing is idle; evictions are the oldest idle entries and no more than needed; deleted are exactly these |
| LruCaches.LRUCache.Prune | ios/Pods/leveldb-library/util/cache.cc:323-333 | every idle entry is deleted in order of age, and only those |
| LruCaches.LRUCache.Destroy | ios/Pods/leveldb-library/util/cache.cc:205-215 | every deleter has run once, for exactly the handles without references |
| Blocks.EntryParses | ios/Pods/leveldb-library/table/block_builder.cc:93-101 | an entry's three lengths and bytes are read back, whatever follows |
| Blocks.DecodeEntry | ios/Pods/leveldb-library/table/block.cc:54-74 | the one-byte fast path reads what the general path would |
| Blocks.ExtendedLaid | ios/Pods/leveldb-library/table/block_builder.cc:72-106 | an entry added with any legal prefix sharing leaves a readable block |
| Blocks.BlockBuilder.Add | ios/Pods/leveldb-library/table/block_builder.cc:72-106 | the block represents its pairs and one more; keys share all they have in common with the one before except at the restarts, which come every interval |
| Blocks.BlockBuilder.Finish | ios/Pods/leveldb-library/table/block_builder.cc:62-70 | the bytes are those of the pairs with their restart array |
| Blocks.BlockUnique | ios/Pods/leveldb-library/table/block_builder.cc:72-106 | pairs and restart interval determine the bytes of the block |
| Blocks.BlockIter.ParseNextKey | ios/Pods/leveldb-library/table/block.cc:224-251 | the iterator is on the next pair with its whole key and value, or past the end |
| Blocks.BlockIter.SeekToFirst | ios/Pods/leveldb-library/table/block.cc:203-206 | on the first pair |
| Blocks.BlockIter.SeekToLast | ios/Pods/leveldb-library/table/block.cc:208-213 | on the last pair, wherever the last restart point is |
| Blocks.BlockIter.Next | ios/Pods/leveldb-library/table/block.cc:137-140 | on the next pair |
| Blocks.BlockIter.Prev | ios/Pods/leveldb-library/table/block.cc:142-161 | on the pair before, or past the end from the first: the inverse of Next at every position |
| Blocks.BlockIter.Seek | ios/Pods/leveldb-library/table/block.cc:163-201 | on the first pair at or after the target |
| Blocks.FirstUnique | ios/Pods/leveldb-library/table/block.cc:163-201 | a seek has one answer |
| Blocks.BuildAndIterate | ios/Pods/leveldb-library/table/block_builder.cc:62-106 | for any pairs and restart interval, iterating the finished block yields exactly the pairs added |
| Comparators.Compare | ios/Pods/leveldb-library/util/comparator.cc:25-27 | the sign of the answer is the bytewise order |
| Comparators.SeparatorBetween | ios/Pods/leveldb-library/util/comparator.cc:29-50 | the shortened key is the start itself, or strictly between start and limit and no longer than start |
| Comparators.SeparatorExact | ios/Pods/leveldb-library/util/comparator.cc:29-50 | at the first byte where the two differ the separator goes one up and stops, if that stays below the limit; otherwise, or if one is a prefix of the other, it is the start |
| Comparators.FindShortestSeparator | ios/Pods/leveldb-library/util/comparator.cc:29-50 | the in-place edit computes that separator |
| Comparators.SuccessorAfter | ios/Pods/leveldb-library/util/comparator.cc:52-64 | the short successor is the key itself or above it |
| Comparators.SuccessorExact | ios/Pods/leveldb-library/util/comparator.cc:52-64 | the first byte that is not 0xff goes one up and ends the key; a key of such bytes stays |
| Comparators.FindShortSuccessor | ios/Pods/leveldb-library/util/comparator.cc:52-64 | the in-place edit computes that successor |
| Comparators.InternalSeparatorBetween | ios/Pods/leveldb-library/db/dbformat.cc:69-86 | on internal keys the separator is at or after the first key and before the second, and shorter than the first whenever its user key can be shortened |
| Comparators.InternalSuccessorAfter | ios/Pods/leveldb-library/db/dbformat.cc:88-101 | on internal keys the successor is at or after the key, and shorter whenever its user key can be shortened |
| Blooms.SetInBits | ios/Pods/leveldb-library/util/bloom.cc:49-50 | setting a bit sets that bit and changes no other |
| Rotations.ProbesApart | ios/Pods/leveldb-library/util/bloom.cc:44-51 | the probes of a key are equally far apart in 32-bit arithmetic, by its hash turned right by 17 bits |
| Blooms.CreateFilter | ios/Pods/leveldb-library/util/bloom.cc:28-54 | a bit is set exactly if some probe of some key hits it; the size is the bits called for in whole bytes, at least eight; what was in the buffer stays |
| Blooms.KeyMayMatch | ios/Pods/leveldb-library/util/bloom.cc:56-80 | yes exactly if every probe is marked, or the filter is of a kind that must not exclude |
| Blooms.NoFalseNegative | ios/Pods/leveldb-library/util/bloom.cc:28-80 | for every hash function and size, a filter admits all its keys |
| FilterBlocks.FilterBlockReader.KeyMayMatch | ios/Pods/leveldb-library/table/filter_block.cc:90-103 | the filter of the offset's range decides; damaged offsets count as a match |
| FilterBlocks.FilterBlockBuilder.StartBlock | ios/Pods/leveldb-library/table/filter_block.cc:21-27 | keys pending so far are the next filter's list, and ranges with no keys get empty ones |
| FilterBlocks.FilterBlockBuilder.GenerateFilter | ios/Pods/leveldb-library/table/filter_block.cc:51-75 | one filter of exactly the pending keys, in order |
| FilterBlocks.FilterBlockBuilder.Finish | ios/Pods/leveldb-library/table/filter_block.cc:35-49 | a reader of the finished block says yes exactly if the filter of the offset's keys has a bit at every probe, or there is no filter for that offset; so it admits every key of its range |
| Tables.TakenIndexed | ios/Pods/leveldb-library/table/table_builder.cc:94-123 | the deferred index key lies at or after every key of its block and before every key of the next |
| Tables.TableBuilder.Add | ios/Pods/leveldb-library/table/table_builder.cc:94-123 | one entry more, in the current block, which is closed exactly if full; a waiting index entry is made with the shortest separator of its block and this key |
| Tables.TableBuilder.Flush | ios/Pods/leveldb-library/table/table_builder.cc:125-139 | a block that is not empty is closed, and its index entry waits for the next key; no entry changes |
| Tables.TableBuilder.Finish | ios/Pods/leveldb-library/table/table_builder.cc:198-253 | the finished table holds exactly the entries added, block by block, is correctly indexed, the last block by the short successor of the last key, and its filter admits every key |
| Tables.TwoSeeks | ios/Pods/leveldb-library/table/two_level_iterator.cc:82-87 | seeking in the index and then in one block finds the place in the whole table |
| Tables.OneBlockAnswers | ios/Pods/leveldb-library/table/table.cc:216-244 | what one block and the filter say is what the whole table says |
| Tables.PastTheBlock | ios/Pods/leveldb-library/table/table.cc:216-244 | when the block has nothing at or after the key, the next block starts with another user key |
| Tables.InternalGet | ios/Pods/leveldb-library/table/table.cc:216-244 | it reports an entry of the key's user key if and only if the first entry at or after the key in the whole table is one, and reports that one |
| Tables.TwoLevelIterator.Seek | ios/Pods/leveldb-library/table/two_level_iterator.cc:82-87 | the first entry of the table at or after the target |
| Tables.TwoLevelIterator.SeekToFirst | ios/Pods/leveldb-library/table/two_level_iterator.cc:89-94 | the first entry of the table |
| Tables.TwoLevelIterator.SeekToLast | ios/Pods/leveldb-library/table/two_level_iterator.cc:96-101 | the last entry of the table |
| Tables.TwoLevelIterator.Next | ios/Pods/leveldb-library/table/two_level_iterator.cc:103-107 | the next entry of the table, across blocks |
| Tables.TwoLevelIterator.Prev | ios/Pods/leveldb-library/table/two_level_iterator.cc:109-113 | the entry before, across blocks |
| Coding.Fixed32Bytes | ios/Pods/leveldb-library/util/coding.cc:9-18 | the four bytes of a 32-bit word, lowest first |
| Coding.Fixed32RoundTrip | ios/Pods/leveldb-library/util/coding.cc:9-18 | a 32-bit word is read back, whatever follows |
| Coding.Fixed64RoundTrip | ios/Pods/leveldb-library/util/coding.cc:20-33 | a 64-bit word is read back, whatever follows |
| Coding.VarintDigits | ios/Pods/leveldb-library/util/coding.cc:81-90 | each byte of a varint holds the seven bits of its place, with the top bit set on all but the last |
| Coding.VarintShortest | ios/Pods/leveldb-library/util/coding.cc:47-90 | no encoding that is read as a number is shorter than the one written for it |
| Coding.Varint32RoundTrip | ios/Pods/leveldb-library/util/coding.cc:112-140 | a 32-bit varint is read back, whatever follows |
| Coding.Varint64RoundTrip | ios/Pods/leveldb-library/util/coding.cc:142-169 | a 64-bit varint is read back, whatever follows |
| Coding.LengthPrefixedRoundTrip | ios/Pods/leveldb-library/util/coding.cc:171-190 | a string is read back if and only if its length fits in 32 bits |
| Coding.EncodeVarint32 | ios/Pods/leveldb-library/util/coding.cc:47-73 | the branches for one to five bytes all write the same encoding |
| Coding.EncodeVarint64 | ios/Pods/leveldb-library/util/coding.cc:81-90 | the loop writes the same encoding |
| Coding.VarintLength | ios/Pods/leveldb-library/util/coding.cc:103-110 | the length it reports is the length written |
| Coding.GetVarint32Ptr | ios/Pods/leveldb-library/util/coding.h:90-102 | fast path and fallback loop read at most five bytes and agree with the recursive reader |
| Coding.GetVarint64Ptr | ios/Pods/leveldb-library/util/coding.cc:142-157 | the loop reads at most ten bytes and agrees with the recursive reader |
| Crcs.ExtendConcat | ios/Pods/leveldb-library/db/log_writer.cc:93-95 | extending twice is extending once by the concatenation, which writer and reader rely on |
| Crcs.WordStep | ios/Pods/leveldb-library/util/crc32c.cc:313-321 | four bytes at once are four bytes one at a time |
| Crcs.Step4IsZero16 | ios/Pods/leveldb-library/util/crc32c.cc:294-300 | one stride step extends a partial result by sixteen zero bytes and takes in a word |
| Crcs.RotateStep | ios/Pods/leveldb-library/util/crc32c.cc:350-358 | moving the oldest partial result on takes in the next word of the data |
| Crcs.Strided | ios/Pods/leveldb-library/util/crc32c.cc:332-366 | four interleaved strides reach the byte-at-a-time result |
| Crcs.Extend | ios/Pods/leveldb-library/util/crc32c.cc:276-377 | for every buffer, length and alignment the portable routine equals the byte loop, whose values CrcValues gives |
| Crcs.PolyTablesOk | ios/Pods/leveldb-library/util/crc32c.cc:20-241 | tables made by polynomial division satisfy the equations the strides need |
| CrcValues.SourceTable | ios/Pods/leveldb-library/util/crc32c.cc:20-63 | dividing by the polynomial gives the eight entries of the byte table that span it, and the others are their sums |
| CrcValues.ByteIsEightBits | ios/Pods/leveldb-library/util/crc32c.cc:287-291 | one step through the byte table is eight divisions by the polynomial |
| CrcValues.ZeroByteValue | ios/Pods/leveldb-library/util/crc32c.cc:276-292 | the checksum of one zero byte is 0x527d5351, so the register is complemented on entry and on exit |
| CrcValues.TestBufferValue | ios/Pods/leveldb-library/util/crc32c.cc:267-274 | the checksum of the bytes the source checks an accelerated routine with is the value it expects |
| CrcValues.ExtendAffine | ios/Pods/leveldb-library/util/crc32c.cc:276-377 | the checksum of the sum of two strings of one length is the sum of theirs and that of as many zeros |
| CrcValues.BurstDetected | ios/Pods/leveldb-library/util/crc32c.cc:276-377 | a change within four bytes in a row, whatever stands around them, always changes the checksum |
| DtlsFragments.FragmentRoundTrip | ios/Pods/BoringSSL-GRPC/src/ssl/d1_both.cc:458-472 | header and body of a fragment are read back, whatever follows |
| DtlsFragments.MarkBits | ios/Pods/BoringSSL-GRPC/src/ssl/d1_both.cc:202-235 | marking a range sets exactly its bits |
| DtlsFragments.AllSet | ios/Pods/BoringSSL-GRPC/src/ssl/d1_both.cc:237-246 | the bytewise test tells whether every bit of the message is set |
| DtlsFragments.CompleteIffAll | ios/Pods/BoringSSL-GRPC/src/ssl/d1_both.cc:237-250 | a message is complete exactly when every byte has come in |
| DtlsFragments.Reassembly | ios/Pods/BoringSSL-GRPC/src/ssl/d1_both.cc:210-250 | for pieces in any order with loss, overlap and repetition: complete exactly if they cover the message, and then equal to it (section 4.2.3 of RFC 6347) |
| DtlsReceiver.SlotDecides | ios/Pods/BoringSSL-GRPC/src/ssl/d1_both.cc:271-276 | two numbers of one window that share a slot are equal, so the assertion there never fails |
| DtlsReceiver.OnePastTheWindow | ios/Pods/BoringSSL-GRPC/src/ssl/d1_both.cc:264-270 | the message right after the window is an internal error, while those further on are ignored |
| DtlsReceiver.Receiver.GetIncomingMessage | ios/Pods/BoringSSL-GRPC/src/ssl/d1_both.cc:264-294 | a fragment gets its slot if it is in the window and agrees with what the slot holds, else the alert says why, for every number |
| DtlsReceiver.Receiver.TakeFragment | ios/Pods/BoringSSL-GRPC/src/ssl/d1_both.cc:361-401 | refusal, neglect or absorption, as the header and the ring call for |
| DtlsReceiver.Receiver.OpenHandshake | ios/Pods/BoringSSL-GRPC/src/ssl/d1_both.cc:349-404 | all fragments of a record are taken in until one is refused |
| DtlsReceiver.Receiver.OpenRecords | ios/Pods/BoringSSL-GRPC/src/ssl/d1_both.cc:349-404 | records are taken in one after the other until one is refused, and nothing after that |
| DtlsReceiver.Receiver.GetMessage | ios/Pods/BoringSSL-GRPC/src/ssl/d1_both.cc:407-423 | the complete message whose turn it is, or none |
| DtlsReceiver.Receiver.NextMessage | ios/Pods/BoringSSL-GRPC/src/ssl/d1_both.cc:425-437 | the window moves by one and its slot is free |
| DtlsReceiver.NeverRefused | ios/Pods/BoringSSL-GRPC/src/ssl/d1_both.cc:361-388 | whatever is delivered, none is refused if and only if each fragment lies in its message, is not of the message right after the window and agrees with its slot at the start, and no two disagree: all of which can be seen before delivery |
| DtlsReceiver.SlotFollows | ios/Pods/BoringSSL-GRPC/src/ssl/d1_both.cc:264-294 | while nothing is refused, a message's slot is what its own fragments make it, whatever else is delivered |
| DtlsReceiver.SlotComplete | ios/Pods/BoringSSL-GRPC/src/ssl/d1_both.cc:349-404 | while nothing is refused, a message of the window is complete exactly if its fragments cover it, and is then the one sent |
| DtlsReceiver.AnyOrder | ios/Pods/BoringSSL-GRPC/src/ssl/d1_both.cc:349-404 | fragments of the messages of a handshake in any order, with loss, overlap and repetition: none is refused, and a message of the window is complete exactly if its fragments cover it, and is then the one sent |
| DtlsReceiver.RecordsDeliver | ios/Pods/BoringSSL-GRPC/src/ssl/d1_both.cc:349-404 | opening well-formed records is delivering their fragments, alert and all, however they are spread over records |
| DtlsSender.Sender.SealNextMessage | ios/Pods/BoringSSL-GRPC/src/ssl/d1_both.cc:634-724 | the rest of the message if it fits, else a fragment that fills the packet to its last byte; no progress exactly if not even the least fits |
| DtlsSender.Sender.SealNextPacket | ios/Pods/BoringSSL-GRPC/src/ssl/d1_both.cc:729-770 | records that follow on from each other within the MTU, with no room left for even the least of what comes next; nothing exactly if the MTU is too small for the next message |
| DtlsSender.Sender.SendFlight | ios/Pods/BoringSSL-GRPC/src/ssl/d1_both.cc:772-817 | whatever writes fail: the packets are those whose writes succeeded, each as full as it can be, following on from each other; what was not accepted is rolled back; it ends blocked exactly if a message that fits is left and the next write fails, and too small exactly if the next does not fit |
| DtlsSender.Sender.Retransmit | ios/Pods/BoringSSL-GRPC/src/ssl/d1_both.cc:826-835 | the same again from the start of the flight |
| DtlsSender.Partition | ios/Pods/BoringSSL-GRPC/src/ssl/d1_both.cc:634-724 | between two positions exactly the bytes between them are sent of each message, once, in order |
| DtlsSender.WholeFlight | ios/Pods/BoringSSL-GRPC/src/ssl/d1_both.cc:772-817 | a whole flight carries every message whole |
| DtlsSender.ScriptHolds | ios/Pods/BoringSSL-GRPC/src/ssl/d1_both.cc:562-580 | consecutive numbering gives every handshake message of a flight a number of its own |
| DtlsSender.WireArrives | ios/Pods/BoringSSL-GRPC/src/ssl/d1_both.cc:458-472 | if the bytes of every record sent are among those opened, its fragment is among those delivered |
| DtlsSender.EndToEnd | ios/Pods/BoringSSL-GRPC/src/ssl/d1_both.cc:349-404 | a flight of at most seven messages in one epoch, or one message in an encrypted one, whose records all arrive, among any other fragments of it in any order: opening them ends with no alert and every handshake message complete and equal to the one sent |
| DtlsFlights.OnlyTheFlight | ios/Pods/BoringSSL-GRPC/src/ssl/d1_both.cc:349-404 | and nothing else is in the window |
| DtlsFlights.ReadMessages | ios/Pods/BoringSSL-GRPC/src/ssl/d1_both.cc:407-437 | messages that are there are read in order, and leave the window empty |
| DtlsFlights.ReceiveFlight | ios/Pods/BoringSSL-GRPC/src/ssl/d1_both.cc:349-437 | a flight with a change of cipher before its last message, opened in two epochs from any arrival: no alert, and the messages read are those sent, in order |
| NanopbFields.FieldIter.Next | ios/Pods/nanopb/pb_common.c:20-76 | the iterator moves to the next field and its memory, staying put inside a union, and counts required fields |
| NanopbFields.FieldIter.Seek | ios/Pods/nanopb/pb_common.c:78-97 | the search goes once round the table from where it stands, and stays there if there is no such tag |
| NanopbFields.FindIsUnique | ios/Pods/nanopb/pb_common.c:78-97 | with distinct tags it does not matter where the search starts |
| NanopbFields.ZeroByDefault | ios/Pods/nanopb/pb_decode.c:839-909 | a proto3 field whose value is not written because it is zero is zero after defaults are set, at every depth |
| NanopbWire.Varint32Exact | ios/Pods/nanopb/pb_decode.c:187-247 | of numbers below 2^63 the 32-bit reader takes exactly those below 2^32, and takes them back |
| NanopbWire.Varint32Loose | ios/Pods/nanopb/pb_decode.c:218-227 | from 2^63 on, the 32-bit reader takes a number exactly if bit 31 is set and the groups of seven bits from bit 35 to 62 are each all zeros or all ones, and gives its low 32 bits |
| NanopbWire.TakenRightly | ios/Pods/nanopb/pb_decode.c:218-227 | what is taken is the right negative number if and only if bits 32 to 62 are all set |
| NanopbWire.TakenForAnother | ios/Pods/nanopb/pb_decode.c:218-227 | an instance: a number with bits 32 to 62 clear is read as another |
| NanopbWire.CastKeeps | ios/Pods/nanopb/pb_decode.c:1353-1371 | a narrowing cast keeps a number if and only if it fits |
| NanopbWire.ZigzagRoundTrip | ios/Pods/nanopb/pb_encode.c:630-639 | zigzag coding is inverted, and gives small magnitudes small codes |
| NanopbWire.StringRoundTrip | ios/Pods/nanopb/pb_decode.c:372-385 | a delimited string is taken back if and only if its length fits in 32 bits |
| NanopbEncode.OStream.Write | ios/Pods/nanopb/pb_encode.c:103-125 | counting never fails and never stores; storing fails exactly if it would pass the limit |
| NanopbEncode.OStream.WriteVarint | ios/Pods/nanopb/pb_encode.c:608-628 | the loop with its corrected last byte writes the varint |
| NanopbEncode.OStream.WriteSubmessage | ios/Pods/nanopb/pb_encode.c:717-765 | it fails only if the message cannot be encoded or the whole does not fit: that its size changed between the passes cannot happen |
| NanopbEncode.OStream.WriteArray | ios/Pods/nanopb/pb_encode.c:147-236 | packed or not, the entries in order; a packed size counted beforehand is the size written |
| NanopbEncode.OStream.WriteCell | ios/Pods/nanopb/pb_encode.c:341-426 | a field is written if it is required, flagged, not zero, counted, or chosen in its union |
| NanopbEncode.OStream.WriteMessage | ios/Pods/nanopb/pb_encode.c:528-550 | counting and storing send the same bytes at every depth, and storing succeeds exactly if they fit |
| NanopbEncode.GetEncodedSize | ios/Pods/nanopb/pb_encode.c:567-576 | the size reported is the length of the encoding |
| NanopbDecode.IStream.ReadVarint32Loop | ios/Pods/nanopb/pb_decode.c:187-247 | the loop agrees with the recursive 32-bit reader on value, rest and refusal |
| NanopbDecode.IStream.ReadVarint64Loop | ios/Pods/nanopb/pb_decode.c:255-275 | the loop reads at most ten bytes and agrees with the recursive reader |
| NanopbDecode.IStream.SkipFieldOf | ios/Pods/nanopb/pb_decode.c:278-334 | it skips what the recursive definition skips, and refuses what it refuses; that this is the whole value is NanopbUnknown.ValueSkipped |
| NanopbUnknown.ValueSkipped | ios/Pods/nanopb/pb_decode.c:278-334 | what the encoder writes for any value of any type is skipped by its wire type, to the byte |
| NanopbUnknown.TagSkipped | ios/Pods/nanopb/pb_decode.c:980-989 | behind a tag the table does not have the value is skipped and nothing else changes, or decoding fails if it cannot be |
| NanopbUnknown.GroupRefused | ios/Pods/nanopb/pb_decode.c:329 | groups and the wire types not assigned are refused |
| NanopbUnknown.FieldSkipped | ios/Pods/nanopb/pb_decode.c:980-989 | a field with a tag the table does not have leaves no trace |
| NanopbUnknown.CellSkipped | ios/Pods/nanopb/pb_decode.c:980-989 | nor does an array of it, packed or not |
| NanopbDecode.IStream.MakeSubstream | ios/Pods/nanopb/pb_decode.c:372-385 | a substream holds exactly the string, and the rest is left to its parent |
| NanopbDecode.IStream.CloseSubstream | ios/Pods/nanopb/pb_decode.c:387-400 | the parent goes on right after the string, read or not |
| NanopbDecode.IStream.ReadScalar | ios/Pods/nanopb/pb_decode.c:1328-1564 | each decoder stores the value, or refuses it because it does not fit its field |
| NanopbDecode.IStream.ReadCell | ios/Pods/nanopb/pb_decode.c:406-483 | required, optional, array and union members are stored over what was there |
| NanopbDecode.IStream.CheckRequired | ios/Pods/nanopb/pb_decode.c:1033-1073 | it succeeds exactly if each of the first 64 required fields was seen |
| NanopbDecode.IStream.ReadMessage | ios/Pods/nanopb/pb_decode.c:928-1076 | the loop with its iterator, bit set and array counter decodes what the recursive definition says, and refuses what it refuses |
| NanopbRoundTrip.CellsWrite | ios/Pods/nanopb/pb_decode.c:466-478 | reading one member of a union disturbs no other field, because no other member was written |
| NanopbRoundTrip.PackedBack | ios/Pods/nanopb/pb_decode.c:425-454 | packed entries come back in order |
| NanopbRoundTrip.UnpackedBack | ios/Pods/nanopb/pb_decode.c:455-464 | tagged entries come back in order |
| NanopbRoundTrip.MessageBack | ios/Pods/nanopb/pb_decode.c:928-1090 | for every well-formed descriptor tree, decoding an encoding succeeds if and only if every text written ends inside its buffer; then all bytes are used and the message agrees on every present field at every depth |
| NanopbUnknown.UnknownFieldsIgnored | ios/Pods/nanopb/pb_decode.c:928-1090 | with fields of other tables before, between and after its own a message is decoded as without them; it ends with its bytes, or at a zero tag, with what follows left unread |
| NanopbUnknown.LastWins | ios/Pods/nanopb/pb_decode.c:406-424 | of a field that comes twice the last value counts |
| NanopbRefusals.MessageWritten | ios/Pods/nanopb/pb_encode.c:147-166 | a structure can be encoded if and only if at every depth its numbers are of known sizes, its byte arrays fit their buffers and its arrays are no longer than they may be |
| NanopbRefusals.UVarIntTaken | ios/Pods/nanopb/pb_decode.c:1376-1398 | an unsigned number is taken if and only if it fits the field |
| NanopbRefusals.SVarIntTaken | ios/Pods/nanopb/pb_decode.c:1400-1422 | a zigzag number is taken if and only if it fits the field |
| NanopbRefusals.VarIntTaken | ios/Pods/nanopb/pb_decode.c:1339-1374 | a signed number is taken for what it is if and only if it fits the field; a field of four bytes takes any, for its low 32 bits, and shorter fields refuse what fits 32 bits and not them |
| NanopbRefusals.TakenForFive | ios/Pods/nanopb/pb_decode.c:1339-1374 | an instance: five more than 2^32 is five to a field of four bytes |
| NanopbRefusals.StringTaken | ios/Pods/nanopb/pb_decode.c:1441-1564 | bytes are taken if and only if their buffer holds them, text if it holds the NUL too, bytes of fixed length if they are as many or none |
| NanopbRefusals.MessageTaken | ios/Pods/nanopb/pb_decode.c:1018-1076 | a message is taken if and only if all its fields are, its last fixed array is complete and the tags of the first 64 required fields have been read |
| NanopbRefusals.ArrayTooLong | ios/Pods/nanopb/pb_decode.c:425-464 | an array longer than its field is refused, packed or not |
| NanopbRefusals.FullArrayTooShort | ios/Pods/nanopb/pb_decode.c:998-1031 | an array of fixed count with too few entries is refused |
| NanopbRoundTrip.StoreAndRead | ios/Pods/nanopb/pb_encode.c:528-576 | encoder and decoder together: storing succeeds exactly if the encoding fits the buffer, and what is read agrees with what was stored |

## Left out

- Database.DB.CompactMemTable: is one step; a flush in the middle of a running compaction is not modelled.
- Manifest.Builder.Apply: asks that two files of a level with the same number and the same smallest key be the same file; a number is the name of one file.
- Manifest.SaveLevel: asks that no added file has the number and the smallest key of a base file, which the source asserts for all levels but the first.
- Recovery.Recover: the internal keys that byte strings stand for, and what table files hold, are parameters; CURRENT, the lock and the reuse of a manifest are not modelled.
- Database.DB.Write: asks that sequence numbers stay below the largest a reader can name; the source does not check.
- Compactions.DoCompactionWork: takes keys that parse; the source keeps a key that does not. Which keys to stop an output before, and when one is full, are given.
- CompactionInputs.SetupOtherInputs: the level's compaction pointer and the grandparents are not kept, since they only affect later choices.
- LogReader.Reader.ReadRecord: reads from the start of the file with checksums on; resynchronising from an initial offset has no clean meaning.
- LogTruncation.TruncationSafe: is about cutting a log, not about damage inside it.
- WriteBatches.WriteBatch.Put: asks that key and value lengths fit in 32 bits, as their length prefixes do.
- Blocks.BlockBuilder.Add: asks that the block stay below 2^32 bytes, as its offsets do.
- Blocks.BlockIter.ParseNextKey: is about blocks a builder wrote; the corruption status of damaged blocks is not modelled.
- FilterBlocks.FilterBlockBuilder.Finish: promises nothing once the filters pass 2^32 bytes, as their offsets then wrap.
- Tables.TableBuilder.Finish: keeps index and data blocks as lists of entries and block sizes as numbers given; their bytes are those of `Blocks`.
- VersionEdits.DecodeInto: asks that strings be shorter than 2^32 and levels exist, as the wire form does.
- LruCaches.LRUCache.Destroy: asks that no caller holds a reference, as the source asserts.
- SkipLists.SkipList.Insert: asks that the key is not there yet, as the source asserts; heights are chosen by the caller.
- ObsoleteFiles.StepKeeps: every table or log name is a number; temporary files and manifests are not collected in the model. An append that loses only its trailer counts as failed. What is read of a manifest some of whose records failed is a run of its edits from the first on, with or without the failed ones; bytes that pass for another record by their checksum are not modelled.
- WriteQueue.Acknowledged: is about what was handed to the log; what a reader finds behind a failed append is `LogFailures`.
- LogFailures.NothingMissing: gives what suffices for reading everything back; that it is necessary fails where damaged bytes happen to have the right checksum.
- DtlsFlights.ReceiveFlight: one message follows the change of cipher, since the receiver takes in only the message whose turn it is once records are encrypted; the check of the change itself is not modelled.
- WriteQueue.EveryStepCounts: leaves out stray wake-ups, of which there is no end, and faults.
- LogKinds.LogAsCalled: counts reports and does not weigh them by the bytes they name.
- DtlsReceiver.Receiver.TakeFragment: the read sequence number is not bounded, so its wrap-around is not modelled.
- DtlsSender.Sender.SendFlight: sealing succeeds and adds a fixed overhead to a record.
- Crcs.Extend: takes any tables that satisfy the stride equations; that the constants of the four stride tables do is not computed, only that tables made by division do.
- NanopbUnknown.UnknownFieldsIgnored: is about unknown fields among those of one message; inside a submessage it applies to that message in turn.
- NanopbRoundTrip.MessageBack: asks that the encoding be shorter than 2^32 bytes, since lengths are read in 32 bits, and that field numbers are below 2^29, since tags are.
- NanopbDecode.IStream.ReadVarint32Loop: its bit position is not bounded, where an 8-bit counter wraps after 36 bytes.
- NanopbDecode.IStream.ReadMessage: takes and returns the structure as a value; entries of an array beyond its count, and a text buffer beyond its NUL, are not kept.
- nanopb callbacks, extensions, pointer fields and the options without 64-bit integers.
- Setting defaults writes a zero count into the head of an array that has no counter; the model leaves such an array without entries until they are read.
- `size_t` and other counts in memory are unbounded here, except where a wire form cuts them.
- File input and output, environments, loggers, compression, the table cache's opening of files, and database repair.
- Seek sampling, compaction scores and statistics: they decide when work happens, not what it does.
- The skip-list iterator, which is the searches modelled, and the sharding of the cache over sixteen of the ones modelled.
- Weak memory order, mutexes and condition variables: steps are atomic.
- DTLS record protection, timers, the change-cipher-spec check and alerts on the wire; TLS and the rest of BoringSSL.
- The Flutter, Swift and Kotlin code of the application, which has no logic of its own.
