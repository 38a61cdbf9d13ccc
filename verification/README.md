# LevelDB and nanopb, modelled and proved

The Firebase libraries that the iOS application links keep their local state in LevelDB and speak
Protocol Buffers through nanopb. This project models the parts of both libraries that carry an
argument, in the form the C++ and C code has (classes with fields where objects are updated, loops
where there are loops), and proves what they are for. `dafny verify dfyconfig.toml` checks
everything.

**Order.**  Internal keys are a user key, a sequence number and a type, by user key ascending and
then newest first. All LevelDB modules share this order (`Comparator`, `Dbformat`).

**Versions and compaction.**  A version is seven levels of tables. `Versions` proves that
`Version::Get` reads what all tables together hold. `Overlapping`, `Boundary` and `Compactions`
choose inputs; `DropRule` and `OutputCuts` are the merge loop; `VersionBuilder` and `Install` apply
the edit and show that levels stay sorted and disjoint; `Visibility` and `LiveSnapshots` decide when
a reader can notice; `VersionRuns` and `DatabaseRuns` put it together for whole runs of writes,
flushes, compactions and moves. The result is an equivalence rather than a plain "invisible":
`SetupOtherInputs` applies `AddBoundaryInputs` to the lower level only
(`db/version_set.cc:1384-1388`), so a level+1 file that continues the last user key of the level+1
inputs can stay behind. If the newest entry of that user key at the oldest live snapshot is a
deletion marker among the inputs, no deeper table covers the key, and the file left behind starts
with a value for it, the marker is dropped as obsolete and the old value comes back.
`CompactionInvisibleIff` proves that this is the only case, `DeletedValueReturns` that a run from
the empty database reaches it, and `UnsplitUpperIsInvisible` that it cannot occur when nothing is
left behind. The condition is on files and entries at hand before the compaction starts.

**Writers and readers.**  `WriterQueues` is a step machine for group commit over a queue, a log, a
memtable and LastSequence, with separate events for arriving, leading, logging, syncing, each single
insert and completing. `Durability` is the life of memtables and logs: `MakeRoomForWrite`, flushes,
removal of obsolete logs, errors, crashes and recovery. What it proves is again an equivalence.
`EmitPhysicalRecord` advances `block_offset_` even when the write failed
(`db/log_writer.cc:96-107`), the file object drops what it could not write
(`util/env_posix.cc:326-345`), and `DBImpl::Write` stops later writes for a failed sync only
(`db/db_impl.cc:1223-1243`). After a failed append the writer's blocks are not the reader's, and a
later write can be acknowledged and yet be lost in a crash. `LogDamage` has such an input,
`Recovery.ReadBackIff` proves that a batch is sure to be read back exactly if no append to its log
failed before it, and `Durability.KeptIff` carries this over to whole runs. `SkipLists`,
`SkipListReaders` and `SkipListOps` model the memtable's list with readers that interleave with
single stores of the writer.

**Iterators.**  `DBIters`, `Mergers`, `TwoLevels` and `BlockIters` each prove that the stateful
two-way iterator is a plain cursor over a simple sequence, across any turns.

**Formats.**  `Coding`, `WriteBatches`, `LogFormat`, `LogContents`, `LogRuns` and `LogReaders` (what
any file of bytes, damaged or not, says to a reader; records survive any cut of the file), `Blocks`,
`Bloom` and `FilterBlocks`, and on top of these `TableFormats`, `Tables` and `TableReaders`: `BuildAndGet`
goes from entries to the bytes of a table file, with blocks, filter, metaindex, index and footer,
and back to a lookup.

**Cache.**  `CacheLists`, `HandleTables` and `LRUCaches`: the hash table, the two circular lists,
the reference counts and the deleters agree in every reachable state.

**nanopb.**  `PbWire`, `PbMessages` and `PbRoundTrip` define what is written and read for a
descriptor and prove the round trip; `PbEncode`, `PbDecode`, `PbSeen` and `PbCommon` are the stream
code, proved to compute just that; `PbCodec` joins both directions. `PbLaws` gives the wire form byte
by byte, and what each field does that a decoder meets, known or not. The encoder writes length
prefixes of any size and the decoder reads 32 bits of them; `PbLimits` proves that the round trip
holds exactly for messages whose inner lengths are below 2^32.

Reading a contract: methods of stateful classes say what the new state is and that `Valid()` (or
`Inv()`) is kept; in the block iterator the field `intact` says whether the bytes at hand are what
the builder wrote, and the clauses without it hold for any bytes.

## Model

| member | source | states |
|---|---|---|
| Comparator.OrderByRank | FirebaseLogin/Pods/leveldb-library/util/comparator.cc:27-29 | the byte-wise order is a strict total order: some injective map of byte strings into the reals carries Less to < |
| Comparator.Compare | FirebaseLogin/Pods/leveldb-library/util/comparator.cc:27-29 | the sign of the result says which string comes first; zero only for equal strings |
| Comparator.FindShortestSeparator | FirebaseLogin/Pods/leveldb-library/util/comparator.cc:31-52 | the result is start, or a string no longer than start that lies strictly between start and limit; where the two first differ and limit's byte is more than one above start's, it is start cut after that byte raised by one, and otherwise start |
| Comparator.FindShortSuccessor | FirebaseLogin/Pods/leveldb-library/util/comparator.cc:54-66 | the result is the key or a string no longer and strictly after it: the key cut after its first byte other than 0xff, raised by one, or the key if all its bytes are 0xff |
| Dbformat.InternalOrder | FirebaseLogin/Pods/leveldb-library/db/dbformat.cc:47-63 | internal keys are totally ordered by user key ascending and packed sequence and type descending |
| Dbformat.CompareInternal | FirebaseLogin/Pods/leveldb-library/db/dbformat.cc:47-63 | the sign of the result decides the internal order; zero only for the same key |
| Dbformat.FindShortestInternalSeparator | FirebaseLogin/Pods/leveldb-library/db/dbformat.cc:65-82 | the result is not before start and, if start comes before limit, before limit; start with its user key cut at the first difference, if the byte there can grow and the key gets shorter, under sequence number 2^56-1 and the value type; otherwise start |
| Dbformat.SeparatorIsShort | FirebaseLogin/Pods/leveldb-library/db/dbformat.cc:65-82 | of user keys p+x+a and p+y+b that first differ in the bytes x and y, the first becomes p and x+1 exactly if a is not empty and x+1 is below y |
| Dbformat.PrefixIsKept | FirebaseLogin/Pods/leveldb-library/util/comparator.cc:40-42 | if one user key starts the other, nothing is shortened |
| Dbformat.FindShortInternalSuccessor | FirebaseLogin/Pods/leveldb-library/db/dbformat.cc:84-97 | the result is not before the key; the user key is cut after its first byte other than 0xff, raised by one, if that makes it shorter, under sequence number 2^56-1 and the value type; otherwise the key is kept |
| DBIters.DBIter.constructor | FirebaseLogin/Pods/leveldb-library/db/db_iter.cc:48-57 | a new iterator over a sorted run of internal entries is not valid |
| DBIters.DBIter.FindNextUserEntry | FirebaseLogin/Pods/leveldb-library/db/db_iter.cc:177-207 | from a scan position the loop stops at the first entry of the snapshot view at or after the place asked for, or past the end |
| DBIters.DBIter.FindPrevUserEntry | FirebaseLogin/Pods/leveldb-library/db/db_iter.cc:236-276 | the backward scan ends on the last entry of the view before the place it started from, or leaves the iterator not valid |
| DBIters.DBIter.Next | FirebaseLogin/Pods/leveldb-library/db/db_iter.cc:141-175 | one step forward in the snapshot view, whichever direction the iterator was moving in |
| DBIters.DBIter.Prev | FirebaseLogin/Pods/leveldb-library/db/db_iter.cc:209-234 | one step back in the snapshot view, whichever direction; not valid past the front |
| DBIters.DBIter.Seek | FirebaseLogin/Pods/leveldb-library/db/db_iter.cc:278-290 | lands on the first entry of the view with a user key at or past the target |
| DBIters.DBIter.SeekToFirst | FirebaseLogin/Pods/leveldb-library/db/db_iter.cc:292-301 | lands on the first entry of the view |
| DBIters.DBIter.SeekToLast | FirebaseLogin/Pods/leveldb-library/db/db_iter.cc:303-308 | lands on the last entry of the view |
| DBIters.ViewIsSnapshot | FirebaseLogin/Pods/leveldb-library/db/db_iter.cc:33-47 | the view is the snapshot as a sorted map: user keys increase strictly, and a key is in it with a value exactly when its newest entry at or below the sequence number is that value |
| DBIters.Drive | FirebaseLogin/Pods/leveldb-library/db/db_iter.cc:141-308 | any mix of seeks and steps with any direction switches ends where the same moves lead a plain cursor over the sorted map, and shows its key and value |
| Versions.FindFile | FirebaseLogin/Pods/leveldb-library/db/version_set.cc:87-105 | the binary search finds the first file of an ordered level whose largest key is at or past the key |
| Versions.SomeFileOverlapsRange | FirebaseLogin/Pods/leveldb-library/db/version_set.cc:121-156 | true exactly when some file's user-key range meets the range; open ends and overlapping files included |
| Versions.Probe | FirebaseLogin/Pods/leveldb-library/db/version_set.cc:262-275 | seeking one table for a user key and a snapshot gives its newest readable entry, or none |
| Versions.OneFile | FirebaseLogin/Pods/leveldb-library/db/version_set.cc:304-321 | a readable entry of a user key is in the file the binary search picks, or that file ends with a newer readable one |
| Versions.LevelAnswer | FirebaseLogin/Pods/leveldb-library/db/version_set.cc:304-321 | one probed file answers for a whole ordered level |
| Versions.OverlappingNewestFirst | FirebaseLogin/Pods/leveldb-library/db/version_set.cc:285-302 | the level-0 files whose range has the user key, exactly those, by descending file number |
| Versions.Level0Answer | FirebaseLogin/Pods/leveldb-library/db/version_set.cc:285-302 | the first hit among the level-0 files, newest first, is the newest readable entry of level 0 |
| Versions.Get | FirebaseLogin/Pods/leveldb-library/db/version_set.cc:324-400 | stopping at the first hit from level 0 down gives what a reader of the key at the snapshot sees in all files together |
| Overlapping.GetOverlappingInputs | FirebaseLogin/Pods/leveldb-library/db/version_set.cc:498-538 | the inputs are exactly the files meeting the final range; in level 0, where the search restarts, that range is the least one that covers the request and contains every file it meets, in deeper levels it is the request; the search ends |
| Overlapping.OutsideShrinks | FirebaseLogin/Pods/leveldb-library/db/version_set.cc:522-536 | each restart leaves fewer files that could push an end of the range, so the restarts end |
| Boundary.FindLargestKey | FirebaseLogin/Pods/leveldb-library/db/version_set.cc:1303-1317 | the largest of the files' largest keys; nothing for no files |
| Boundary.GetRange | FirebaseLogin/Pods/leveldb-library/db/version_set.cc:1182-1201 | the least and the greatest key of a set of files |
| Boundary.FindSmallestBoundaryFile | FirebaseLogin/Pods/leveldb-library/db/version_set.cc:1321-1339 | among the files that start after the key with the same user key, one that starts earliest; none exactly if there is no such file |
| Boundary.AddBoundaryInputs | FirebaseLogin/Pods/leveldb-library/db/version_set.cc:1355-1378 | the inputs gain the chain of boundary files, each found from the end of the one before, and the loop ends |
| Boundary.BoundaryAdvances | FirebaseLogin/Pods/leveldb-library/db/version_set.cc:1361-1377 | every boundary file found leaves fewer files that start after the current largest key |
| Boundary.RunGoesOn | FirebaseLogin/Pods/leveldb-library/db/version_set.cc:1356-1378 | every file of the run of files that share user keys at their ends continues the one before it |
| Boundary.ChainIsRun | FirebaseLogin/Pods/leveldb-library/db/version_set.cc:1341-1378 | from a run of an ordered level the chain is the stretch of files up to the first place where no user key is split |
| Boundary.NoOlderOutsideRun | FirebaseLogin/Pods/leveldb-library/db/version_set.cc:1341-1354 | afterwards no file outside the run holds an older entry of a user key held inside it |
| Compactions.BoundaryUnsplits | FirebaseLogin/Pods/leveldb-library/db/version_set.cc:1384-1386 | whatever a compaction starts from, adding boundary files leaves no user key split in the lower level |
| Compactions.GrowthKeepsUpper | FirebaseLogin/Pods/leveldb-library/db/version_set.cc:1396-1419 | growing the lower inputs drops no file and, if the number of files met above stays the same, so do the files |
| Compactions.VersionSet.SetupOtherInputs | FirebaseLogin/Pods/leveldb-library/db/version_set.cc:1380-1439 | inputs_[1] is exactly the set of level+1 files meeting the range of the extended lower inputs; the lower inputs grow to the files meeting all inputs, with their boundary files, exactly if those are more, together with the upper inputs smaller than 25 file sizes, and meet the same number of upper files, and stay as they are otherwise; no user key is split in the lower level; grandparents are the files two levels down that meet all inputs; the compaction pointer moves to the largest lower key |
| Compactions.VersionSet.Grow | FirebaseLogin/Pods/leveldb-library/db/version_set.cc:1396-1419 | growing the lower inputs: to more files or not at all; what they meet above stays the same and no user key is split |
| Compactions.SizesAdd | FirebaseLogin/Pods/leveldb-library/db/version_set.cc:59-65 | the total of file sizes adds up, file by file |
| Compactions.VersionSet.PickCompaction | FirebaseLogin/Pods/leveldb-library/db/version_set.cc:1247-1299 | for the level that is too large the compaction starts from file i, where i is the first index with no compaction pointer or with the file's largest key past the pointer, or 0 if there is none; else from the file sought too often; its inputs are those that follow from that start, in level 0 from all files that overlap with it, and are well chosen |
| Compactions.VersionSet.NextFile | FirebaseLogin/Pods/leveldb-library/db/version_set.cc:1262-1273 | the file of least index with no compaction pointer or a largest key past it, or file 0 if there is none |
| Compactions.VersionSet.CompactRange | FirebaseLogin/Pods/leveldb-library/db/version_set.cc:1441-1472 | no compaction only when no file of the level meets the range; otherwise well-chosen inputs that follow from all files of level 0 meeting the range, or of a deeper level from the first n, n being the least number whose sizes reach the limit, or all |
| Compactions.VersionSet.TrimInputs | FirebaseLogin/Pods/leveldb-library/db/version_set.cc:1453-1464 | n is the least number of first files whose sizes reach the limit, or all of them if the sizes do not |
| Compactions.VersionSet.TrimIsRun | FirebaseLogin/Pods/leveldb-library/db/version_set.cc:1450-1465 | cutting the inputs short leaves a run of the level |
| DropRule.Merge.CursorDecides | FirebaseLogin/Pods/leveldb-library/db/version_set.cc:1510-1529 | with every passed file ending before the key, the file at the cursor decides whether any file of its level has the key in range |
| DropRule.Merge.IsBaseLevelForKey | FirebaseLogin/Pods/leveldb-library/db/version_set.cc:1510-1529 | with user keys asked in nondecreasing order, true exactly when no file two or more levels down has the key in its range |
| DropRule.Merge.ShouldStopBefore | FirebaseLogin/Pods/leveldb-library/db/version_set.cc:1531-1553 | stops exactly when the sizes of the grandparent files passed since the last stop exceed the limit |
| OutputCuts.StaysOpen | FirebaseLogin/Pods/leveldb-library/db/version_set.cc:1531-1553 | the bytes counted since the last stop bound the grandparents spanned by the output under construction |
| OutputCuts.Extends | FirebaseLogin/Pods/leveldb-library/db/db_impl.cc:984-1007 | adding an entry that the check let through keeps the output within both limits |
| OutputCuts.PaysForOne | FirebaseLogin/Pods/leveldb-library/db/version_set.cc:1546-1552 | an output ended before it is large enough is paid for by more than ten file sizes of grandparents passed since the one before |
| DropRule.Merge.Classify | FirebaseLogin/Pods/leveldb-library/db/db_impl.cc:939-973 | an entry is dropped exactly when a newer entry of its user key hides it from every live snapshot, or it is an obsolete deletion marker |
| DropRule.DropsExactly | FirebaseLogin/Pods/leveldb-library/db/db_impl.cc:944-982 | of a sorted merge an entry is dropped exactly if any newer entry for its user key is visible at the oldest snapshot, or it is a deletion marker visible there and no file two or more levels deeper has its user key in range |
| DropRule.Merge.FinishedGood | FirebaseLogin/Pods/leveldb-library/db/db_impl.cc:820-867 | closing an output loses no entry and keeps outputs in order with fresh numbers |
| DropRule.Merge.DoCompactionWork | FirebaseLogin/Pods/leveldb-library/db/db_impl.cc:887-1046 | the output files, end to end, are exactly the merged entries that the drop rule keeps, in order, in well-formed files with fresh increasing numbers; each ends at the first entry that makes it large enough, if not before, and spans no more grandparent bytes than allowed; those but the last that are ended before they are large enough are so few that, each costing ten file sizes and one byte, the grandparents pay for them |
| Visibility.DroppedNewest | FirebaseLogin/Pods/leveldb-library/db/db_impl.cc:956-973 | an entry that some live reader sees as newest is dropped only if it is an obsolete deletion marker, seen at the oldest live snapshot too |
| Visibility.InvisibleIffNothingUncovered | FirebaseLogin/Pods/leveldb-library/db/db_impl.cc:947-973 | replacing the inputs by what is kept changes no read at any snapshot from the oldest live one on, for any user key, exactly when no dropped marker uncovers an older value outside the inputs |
| VersionBuilder.Builder.constructor | FirebaseLogin/Pods/leveldb-library/db/version_set.cc:598-604 | a builder on a base version starts with nothing deleted and nothing added |
| VersionBuilder.Builder.Apply | FirebaseLogin/Pods/leveldb-library/db/version_set.cc:629-669 | on every level deletions are recorded, and each new file is put in order and no longer counted as deleted |
| VersionBuilder.Builder.SaveTo | FirebaseLogin/Pods/leveldb-library/db/version_set.cc:672-715 | every level of the new version is the merge of its surviving base files and its added files |
| VersionBuilder.Builder.SaveLevel | FirebaseLogin/Pods/leveldb-library/db/version_set.cc:676-697 | the loop over the added files with its binary search in the base produces that merge |
| VersionBuilder.Builder.MaybeAddFiles | FirebaseLogin/Pods/leveldb-library/db/version_set.cc:717-730 | files whose number is deleted are left out, all others stay in order |
| VersionBuilder.SaveMembers | FirebaseLogin/Pods/leveldb-library/db/version_set.cc:672-715 | a file is saved exactly when it is in the base or added, and its number is not deleted |
| VersionBuilder.SaveInOrder | FirebaseLogin/Pods/leveldb-library/db/version_set.cc:672-715 | the saved list is ordered by smallest key, then number |
| VersionBuilder.BatchIsStepwise | FirebaseLogin/Pods/leveldb-library/db/version_set.cc:566-731 | all edits in one builder with one save give the same file list as an intermediate version after each edit, when a file number comes to a level at most once |
| Install.OneSided | FirebaseLogin/Pods/leveldb-library/db/version_set.cc:1380-1390 | all merged entries lie on one side of every level+1 file that is not an input |
| Install.InstalledDisjoint | FirebaseLogin/Pods/leveldb-library/db/db_impl.cc:869-885 | replacing the inputs by any partition of merged entries keeps both levels sorted and, below level 0, disjoint by internal key |
| Install.InstalledAbove | FirebaseLogin/Pods/leveldb-library/db/db_impl.cc:869-885 | entries in a higher level stay newer, for each user key, than entries in any deeper level |
| Install.InstalledGood | FirebaseLogin/Pods/leveldb-library/db/db_impl.cc:869-885 | a well-chosen compaction turns a good version into a good version |
| LiveSnapshots.ContentsAfter | FirebaseLogin/Pods/leveldb-library/db/db_impl.cc:869-885 | the new version holds what the old one held less what the drop rule dropped |
| LiveSnapshots.CompactionInvisibleIff | FirebaseLogin/Pods/leveldb-library/db/db_impl.cc:947-973 | no reader at the oldest live snapshot or later can tell that the compaction happened, exactly when it does not uncover the value that starts a level+1 boundary file left out of the inputs |
| LiveSnapshots.UnsplitUpperIsInvisible | FirebaseLogin/Pods/leveldb-library/db/version_set.cc:1384-1388 | if the level+1 inputs have no boundary file left out, every compaction is invisible |
| LiveSnapshots.NoticeableExample | FirebaseLogin/Pods/leveldb-library/db/version_set.cc:1384-1388 | a good version and inputs as the code chooses them where a reader does notice, so the condition is needed; Reappearance shows that a run reaches it |
| VersionRuns.InstallCompactionResults | FirebaseLogin/Pods/leveldb-library/db/db_impl.cc:869-885 | logging the edit of a compaction takes the inputs out of their levels and puts the outputs into the next, and changes nothing else |
| VersionRuns.Compact | FirebaseLogin/Pods/leveldb-library/db/db_impl.cc:743-752 | merging, dropping and installing give a good version again, and what a reader notices is decided as above for any memtable contents |
| VersionRuns.PickLevelForMemTableOutput | FirebaseLogin/Pods/leveldb-library/db/version_set.cc:470-495 | the table is pushed down one level at a time, to level 2 at most, and stops exactly where the next level has an overlapping file or the one after it too many overlapping bytes; below level 0 it overlaps no file of its level or any above |
| VersionRuns.AddedGood | FirebaseLogin/Pods/leveldb-library/db/db_impl.cc:500-542 | adding that table keeps the version good and adds exactly its entries |
| VersionRuns.CompactMemTable | FirebaseLogin/Pods/leveldb-library/db/db_impl.cc:544-575 | flushing a memtable gives a good version whose contents are the old ones and the memtable's |
| DatabaseRuns.WriteStep | FirebaseLogin/Pods/leveldb-library/db/db_impl.cc:1214-1246 | a write keeps the database good and changes no read at a snapshot before it |
| DatabaseRuns.FlushStep | FirebaseLogin/Pods/leveldb-library/db/db_impl.cc:544-575 | a flush keeps the database good and the stored entries the same |
| DatabaseRuns.MergeStep | FirebaseLogin/Pods/leveldb-library/db/db_impl.cc:743-752 | a compaction keeps the database good, and a reader notices it exactly in the noticeable case |
| DatabaseRuns.MoveStep | FirebaseLogin/Pods/leveldb-library/db/db_impl.cc:727-742 | a trivial move keeps the database good and the stored entries the same |
| DatabaseRuns.StepKeeps | FirebaseLogin/Pods/leveldb-library/db/db_impl.cc:697-776 | every write, flush, compaction and move keeps the database good and every read at a snapshot it respects |
| DatabaseRuns.RunIsGood | FirebaseLogin/Pods/leveldb-library/db/db_impl.cc:697-776 | every state of a run whose first state is good is good: deeper levels sorted and disjoint, newer entries above older ones |
| DatabaseRuns.ReachableIsGood | FirebaseLogin/Pods/leveldb-library/db/db_impl.cc:697-776 | so every state of every run from the empty database is good |
| DatabaseRuns.SnapshotIsStable | FirebaseLogin/Pods/leveldb-library/db/db_impl.cc:697-776 | in a run from a good state that respects a snapshot, the snapshot reads the same for every user key at the end as at the start |
| Reappearance.DeletedValueReturns | FirebaseLogin/Pods/leveldb-library/db/version_set.cc:1384-1388 | a run from the empty database (puts, a delete, flushes, two compactions) that reaches the noticeable case: a key deleted before the last compaction reads as its old value after it |
| SkipLists.RaiseKeeps | FirebaseLogin/Pods/leveldb-library/db/skiplist.h:347-358 | publishing a larger max_height_ before the node is harmless |
| SkipLists.OwnLinkKeeps | FirebaseLogin/Pods/leveldb-library/db/skiplist.h:361-367 | storing the new node's own link disturbs no level |
| SkipLists.PublishKeeps | FirebaseLogin/Pods/leveldb-library/db/skiplist.h:361-367 | publishing the node in one level puts it exactly where it belongs there |
| SkipLists.WriterKeeps | FirebaseLogin/Pods/leveldb-library/db/skiplist.h:337-368 | after every single store of Insert each level is a sorted part of the level below |
| SkipListReaders.ReadStays | FirebaseLogin/Pods/leveldb-library/db/skiplist.h:262-322 | a search stays on a node it may have passed; its last read decides its answer for the list as it stands then |
| SkipListReaders.WriterDisturbsNone | FirebaseLogin/Pods/leveldb-library/db/skiplist.h:337-368 | no store of the writer takes a search off its track |
| SkipListReaders.RunStaysGood | FirebaseLogin/Pods/leveldb-library/db/skiplist.h:8-27 | every state of every interleaving of one writer with any number of searches is good |
| SkipListReaders.SearchIsExact | FirebaseLogin/Pods/leveldb-library/db/skiplist.h:262-322 | in every interleaving a search that ends has the lower bound, the predecessor or the last node of the list as it stood at its last read |
| SkipListReaders.StaysLinked | FirebaseLogin/Pods/leveldb-library/db/skiplist.h:16-27 | a node once linked into a level stays there, with its key |
| SkipListReaders.SearchNeverMisses | FirebaseLogin/Pods/leveldb-library/db/skiplist.h:8-27 | a key in the list before a search for it ends is found: no concurrent insert hides it |
| SkipListOps.LevelIsSorted | FirebaseLogin/Pods/leveldb-library/db/skiplist.h:337-368 | following the links of a level visits exactly the nodes linked into it, in strict key order |
| SkipListOps.LevelsAreSublists | FirebaseLogin/Pods/leveldb-library/db/skiplist.h:337-368 | each level is part of the one below it, in every reachable state |
| SkipListOps.LowestLevelIsAll | FirebaseLogin/Pods/leveldb-library/db/skiplist.h:337-368 | between inserts the lowest level lists every node once |
| SkipListOps.SkipList.constructor | FirebaseLogin/Pods/leveldb-library/db/skiplist.h:324-334 | a head of full height with null links: an empty list |
| SkipListOps.SkipList.FindGreaterOrEqual | FirebaseLogin/Pods/leveldb-library/db/skiplist.h:260-281 | the lower bound of the key, and in prev the last node before the key in every level in use |
| SkipListOps.SkipList.FindLessThan | FirebaseLogin/Pods/leveldb-library/db/skiplist.h:283-302 | the last node before the key, or the head |
| SkipListOps.SkipList.FindLast | FirebaseLogin/Pods/leveldb-library/db/skiplist.h:304-322 | the last node, or the head |
| SkipListOps.SkipList.Contains | FirebaseLogin/Pods/leveldb-library/db/skiplist.h:370-378 | true exactly when the key was inserted |
| SkipListOps.SkipList.Insert | FirebaseLogin/Pods/leveldb-library/db/skiplist.h:336-368 | the keys are the old ones and the new one, the list invariant holds, and the trace it returns leads from the old memory to the new one by steps of the concurrent machine's writer only |
| SkipListOps.SkipList.Splice | FirebaseLogin/Pods/leveldb-library/db/skiplist.h:361-367 | linking the node bottom-up ends in a list with all levels sorted, by steps of the concurrent machine's writer only |
| Mergers.MergeExists | FirebaseLogin/Pods/leveldb-library/table/merger.h:13-20 | sorted children always have a merged order: by key, equal keys in child order |
| Mergers.UnionIsSorted | FirebaseLogin/Pods/leveldb-library/table/merger.h:13-20 | with pairwise distinct keys the merged order is the sorted union of the children |
| Mergers.MergingIterator.constructor | FirebaseLogin/Pods/leveldb-library/table/merger.cc:16-25 | a new iterator is not valid |
| Mergers.MergingIterator.Current | FirebaseLogin/Pods/leveldb-library/table/merger.cc:110-118 | the current child's entry is the one at the iterator's place in the merged order |
| Mergers.MergingIterator.FindSmallest | FirebaseLogin/Pods/leveldb-library/table/merger.cc:148-161 | picks the child holding the next entry of the merged order, or none at the end |
| Mergers.MergingIterator.FindLargest | FirebaseLogin/Pods/leveldb-library/table/merger.cc:163-176 | picks the child holding the previous entry of the merged order, or none at the front |
| Mergers.MergingIterator.SeekToFirst | FirebaseLogin/Pods/leveldb-library/table/merger.cc:31-37 | lands on the first entry of the merged order |
| Mergers.MergingIterator.SeekToLast | FirebaseLogin/Pods/leveldb-library/table/merger.cc:39-45 | lands on the last entry of the merged order |
| Mergers.MergingIterator.Seek | FirebaseLogin/Pods/leveldb-library/table/merger.cc:47-53 | lands on the first entry of the merged order at or past the target |
| Mergers.MergingIterator.PlacePast | FirebaseLogin/Pods/leveldb-library/table/merger.cc:63-75 | on turning forward every other child stands past all entries with keys up to the current one |
| Mergers.MergingIterator.PlaceBefore | FirebaseLogin/Pods/leveldb-library/table/merger.cc:89-104 | on turning back every other child stands on its last entry before the current key |
| Mergers.MergingIterator.Next | FirebaseLogin/Pods/leveldb-library/table/merger.cc:55-79 | one step forward in the merged order; after a turn, to the first entry with another key, which is one step when keys are distinct |
| Mergers.MergingIterator.Prev | FirebaseLogin/Pods/leveldb-library/table/merger.cc:81-108 | one step back in the merged order; after a turn, to the last entry with another key, which is one step when keys are distinct |
| Mergers.Drive | FirebaseLogin/Pods/leveldb-library/table/merger.cc:31-176 | over children with distinct keys any mix of moves and turns ends where the same moves lead a plain cursor over the sorted union |
| Mergers.ScanForward | FirebaseLogin/Pods/leveldb-library/table/merger.cc:31-79 | a pure forward scan yields the entries in merged order, shared keys or not |
| Mergers.ScanBackward | FirebaseLogin/Pods/leveldb-library/table/merger.cc:39-108 | a pure backward scan is the reverse of the pure forward scan, shared keys or not |
| TwoLevels.SeekDivides | FirebaseLogin/Pods/leveldb-library/table/two_level_iterator.cc:82-87 | the entries at or past a target start inside the block the index seek finds, or with the next block |
| TwoLevels.TwoLevelIterator.constructor | FirebaseLogin/Pods/leveldb-library/table/two_level_iterator.cc:71-78 | a new iterator is not valid and has no block open |
| TwoLevels.TwoLevelIterator.Current | FirebaseLogin/Pods/leveldb-library/table/two_level_iterator.cc:32-39 | the current entry is the one at the iterator's place in the concatenation of all blocks |
| TwoLevels.TwoLevelIterator.InitDataBlock | FirebaseLogin/Pods/leveldb-library/table/two_level_iterator.cc:146-161 | the open block is the one at the index position, opened again only if the handle changed; none past the end |
| TwoLevels.TwoLevelIterator.SkipEmptyDataBlocksForward | FirebaseLogin/Pods/leveldb-library/table/two_level_iterator.cc:115-126 | skips used-up and empty blocks and ends on the next entry of the concatenation |
| TwoLevels.TwoLevelIterator.SkipEmptyDataBlocksBackward | FirebaseLogin/Pods/leveldb-library/table/two_level_iterator.cc:128-139 | skips back over empty blocks and ends on the previous entry of the concatenation |
| TwoLevels.TwoLevelIterator.Seek | FirebaseLogin/Pods/leveldb-library/table/two_level_iterator.cc:82-87 | lands on the first entry of all blocks at or past the target |
| TwoLevels.TwoLevelIterator.SeekToFirst | FirebaseLogin/Pods/leveldb-library/table/two_level_iterator.cc:89-94 | lands on the first entry of all blocks, empty blocks at the front included |
| TwoLevels.TwoLevelIterator.SeekToLast | FirebaseLogin/Pods/leveldb-library/table/two_level_iterator.cc:96-101 | lands on the last entry of all blocks, empty blocks at the end included |
| TwoLevels.TwoLevelIterator.Next | FirebaseLogin/Pods/leveldb-library/table/two_level_iterator.cc:103-107 | one step forward in the concatenation |
| TwoLevels.TwoLevelIterator.Prev | FirebaseLogin/Pods/leveldb-library/table/two_level_iterator.cc:109-113 | one step back in the concatenation |
| TwoLevels.Drive | FirebaseLogin/Pods/leveldb-library/table/two_level_iterator.cc:82-139 | any mix of moves ends where the same moves lead a plain cursor over the concatenation |
| CacheLists.RingDrops | FirebaseLogin/Pods/leveldb-library/util/cache.cc:240-243 | joining the two neighbours takes exactly that entry out of the circular list |
| CacheLists.RingGrows | FirebaseLogin/Pods/leveldb-library/util/cache.cc:245-251 | linking an entry in before the head makes it the newest of the list |
| HandleTables.HandleTable.constructor | FirebaseLogin/Pods/leveldb-library/util/cache.cc:70-73 | an empty table |
| HandleTables.HandleTable.FindPointer | FirebaseLogin/Pods/leveldb-library/util/cache.cc:112-121 | the slot that links the entry with this hash and key, or the trailing slot of its bucket |
| HandleTables.HandleTable.Lookup | FirebaseLogin/Pods/leveldb-library/util/cache.cc:75-77 | the member with this hash and key, or nothing exactly when there is none |
| HandleTables.HandleTable.Insert | FirebaseLogin/Pods/leveldb-library/util/cache.cc:79-93 | the members are the old ones and the handle, less the entry with its key, which is returned |
| HandleTables.HandleTable.Remove | FirebaseLogin/Pods/leveldb-library/util/cache.cc:95-102 | the entry with this hash and key leaves, and only it |
| HandleTables.HandleTable.Resize | FirebaseLogin/Pods/leveldb-library/util/cache.cc:123-147 | every member moves to a table with at least as many buckets as members; none is lost or doubled |
| HandleTables.HandleTable.MoveChain | FirebaseLogin/Pods/leveldb-library/util/cache.cc:133-142 | rehashing one old bucket moves exactly its chain |
| LRUCaches.LRUCache.constructor | FirebaseLogin/Pods/leveldb-library/util/cache.cc:198-204 | two empty rings, an empty table and no usage |
| LRUCaches.LRUCache.LRURemove | FirebaseLogin/Pods/leveldb-library/util/cache.cc:240-243 | the entry leaves the list it is in, the order of the others stays |
| LRUCaches.LRUCache.LRUAppend | FirebaseLogin/Pods/leveldb-library/util/cache.cc:245-251 | the entry becomes the newest of the list |
| LRUCaches.LRUCache.Ref | FirebaseLogin/Pods/leveldb-library/util/cache.cc:218-224 | one reference more; an entry only the cache referred to moves to the in-use list |
| LRUCaches.LRUCache.Unref | FirebaseLogin/Pods/leveldb-library/util/cache.cc:226-238 | one reference less; the deleter runs when none is left, and an entry only the cache refers to moves to the LRU list |
| LRUCaches.LRUCache.Lookup | FirebaseLogin/Pods/leveldb-library/util/cache.cc:253-260 | finds the cached entry for the key or nothing, counts the new handle, and moves an idle entry to the in-use list |
| LRUCaches.LRUCache.Release | FirebaseLogin/Pods/leveldb-library/util/cache.cc:262-265 | one handle less; the last handle moves a cached entry to the LRU list, or deletes one that is no longer cached |
| LRUCaches.LRUCache.FinishErase | FirebaseLogin/Pods/leveldb-library/util/cache.cc:306-317 | an entry the table let go of leaves its list and the usage, and is deleted now if no handle is out |
| LRUCaches.LRUCache.Erase | FirebaseLogin/Pods/leveldb-library/util/cache.cc:319-322 | exactly the entry for the key, if there is one, leaves the cache |
| LRUCaches.LRUCache.Admit | FirebaseLogin/Pods/leveldb-library/util/cache.cc:282-292 | the new entry is cached and in use, an entry with its key is erased |
| LRUCaches.LRUCache.Evict | FirebaseLogin/Pods/leveldb-library/util/cache.cc:294-301 | the oldest idle entries go, and no more than needed, until usage fits the capacity or no idle entry is left |
| LRUCaches.OverflowIsLeast | FirebaseLogin/Pods/leveldb-library/util/cache.cc:294-301 | with any fewer of the oldest idle entries gone usage would still exceed the capacity; with that many gone it does not, unless no idle entry is left |
| LRUCaches.LRUCache.Insert | FirebaseLogin/Pods/leveldb-library/util/cache.cc:267-304 | ends within capacity or with an empty LRU list; says which entry was replaced and which were evicted, in order, and that a cache of capacity 0 caches nothing |
| LRUCaches.LRUCache.Prune | FirebaseLogin/Pods/leveldb-library/util/cache.cc:324-334 | every idle entry is deleted, in order; entries in use stay |
| LRUCaches.LRUCache.Destroy | FirebaseLogin/Pods/leveldb-library/util/cache.cc:206-216 | once all handles are back, the destructor leaves every deleter having run exactly once |
| LRUCaches.RefKeeps | FirebaseLogin/Pods/leveldb-library/util/cache.cc:218-224 | taking a reference keeps all counts and both lists in agreement |
| LRUCaches.UnrefKeeps | FirebaseLogin/Pods/leveldb-library/util/cache.cc:226-238 | giving one back keeps them in agreement |
| LRUCaches.EraseKeeps | FirebaseLogin/Pods/leveldb-library/util/cache.cc:306-317 | erasing keeps them in agreement |
| Coding.FixedRoundTrip | FirebaseLogin/Pods/leveldb-library/util/coding.cc:9-19 | a number that fits in n bytes is read back from its n little-endian bytes |
| Coding.FixedBytes | FirebaseLogin/Pods/leveldb-library/util/coding.h:54-62 | the four bytes of a 32-bit number, least first |
| Coding.FixedHalves | FirebaseLogin/Pods/leveldb-library/util/coding.h:64-78 | the eight bytes of a 64-bit number are those of its low and of its high half |
| Coding.UnfixedBytes | FirebaseLogin/Pods/leveldb-library/util/coding.h:81-88 | what four bytes stand for |
| Coding.UnfixedHalves | FirebaseLogin/Pods/leveldb-library/util/coding.h:91-102 | what eight bytes stand for, in halves |
| Coding.VarintBytes | FirebaseLogin/Pods/leveldb-library/util/coding.cc:21-47 | one byte for a number below 128, two below 16384; each further byte carries the next seven bits |
| Coding.UnvarintIsSum | FirebaseLogin/Pods/leveldb-library/util/coding.cc:86-131 | any bytes, canonical or not: the groups of seven bits up to the first byte with its top bit clear add up to the number; nothing if the first five or ten bytes, or all there are, have it set |
| Coding.VarintRoundTrip | FirebaseLogin/Pods/leveldb-library/util/coding.cc:55-64 | decoding undoes encoding, whatever bytes follow, and consumes exactly the varint |
| Coding.VarintCutShort | FirebaseLogin/Pods/leveldb-library/util/coding.cc:116-131 | no proper prefix of a varint decodes |
| Coding.Varint32Length | FirebaseLogin/Pods/leveldb-library/util/coding.cc:21-47 | a 32-bit number takes at most five bytes |
| Coding.Varint64Length | FirebaseLogin/Pods/leveldb-library/util/coding.cc:55-64 | a 64-bit number takes at most ten bytes |
| Coding.EncodeVarint32 | FirebaseLogin/Pods/leveldb-library/util/coding.cc:21-47 | the unrolled encoder writes the base-128 form |
| Coding.EncodeVarint64 | FirebaseLogin/Pods/leveldb-library/util/coding.cc:55-64 | the loop writes the base-128 form |
| Coding.VarintLength | FirebaseLogin/Pods/leveldb-library/util/coding.cc:77-84 | the length of the base-128 form |
| Coding.GetVarint32 | FirebaseLogin/Pods/leveldb-library/util/coding.cc:86-102 | at most five bytes, the low 32 bits of the result, and how much was read; nothing for a varint cut short |
| Coding.GetVarint64 | FirebaseLogin/Pods/leveldb-library/util/coding.cc:116-131 | at most ten bytes, the low 64 bits of the result, and how much was read |
| Coding.LengthPrefixedRoundTrip | FirebaseLogin/Pods/leveldb-library/util/coding.cc:155-164 | a string under 4 GB comes back, with what follows it left over |
| Coding.PrefixedBytes | FirebaseLogin/Pods/leveldb-library/util/coding.cc:72-75 | a short string stands after one byte with its length |
| Coding.PrefixedRead | FirebaseLogin/Pods/leveldb-library/util/coding.cc:145-164 | any bytes: the length, cut to 32 bits, and that many bytes, or nothing if they are not all there |
| WriteBatches.BodyRoundTrip | FirebaseLogin/Pods/leveldb-library/db/write_batch.cc:42-80 | the records of any list of operations read back to that list, consuming the input exactly |
| WriteBatches.BodyAppends | FirebaseLogin/Pods/leveldb-library/db/write_batch.cc:144-148 | the body of a concatenation is the concatenation of the bodies |
| WriteBatches.BatchRoundTrip | FirebaseLogin/Pods/leveldb-library/db/write_batch.cc:42-80 | a batch read back has its sequence number, its count and its operations, with no error |
| WriteBatches.OpsThenRest | FirebaseLogin/Pods/leveldb-library/db/write_batch.cc:42-80 | the operations put in before something else are all handed over, and how it ends depends on the rest only |
| WriteBatches.DamagedOps | FirebaseLogin/Pods/leveldb-library/db/write_batch.cc:50-74 | an unknown tag, a cut key or value of a put and a cut key of a deletion are each reported as what they are |
| WriteBatches.BatchBytes | FirebaseLogin/Pods/leveldb-library/db/write_batch.cc:98-109 | a whole batch of one put and one deletion, byte by byte |
| WriteBatches.Iterate | FirebaseLogin/Pods/leveldb-library/db/write_batch.cc:42-80 | hands over the operations before the end or the first malformed record, and reports too small, bad put, bad delete, unknown tag or wrong count |
| WriteBatches.InsertInto | FirebaseLogin/Pods/leveldb-library/db/write_batch.cc:132-137 | the memtable gains the operations as entries with consecutive sequence numbers from the batch's own on; success exactly for a well-formed batch with the right count |
| WriteBatches.AddAll | FirebaseLogin/Pods/leveldb-library/db/write_batch.cc:116-129 | each operation is one insert, the sequence number rises by one each time |
| WriteBatches.WriteBatch.constructor | FirebaseLogin/Pods/leveldb-library/db/write_batch.cc:29-29 | an empty batch |
| WriteBatches.WriteBatch.Clear | FirebaseLogin/Pods/leveldb-library/db/write_batch.cc:35-38 | an empty batch with a zeroed header |
| WriteBatches.WriteBatch.SetSequence | FirebaseLogin/Pods/leveldb-library/db/write_batch.cc:94-96 | changes the sequence number and nothing else |
| WriteBatches.WriteBatch.Put | FirebaseLogin/Pods/leveldb-library/db/write_batch.cc:98-103 | one put more at the end, of any length, the count with it |
| WriteBatches.WriteBatch.Delete | FirebaseLogin/Pods/leveldb-library/db/write_batch.cc:105-109 | one deletion more at the end, of any length, the count with it |
| WriteBatches.WriteBatch.Append | FirebaseLogin/Pods/leveldb-library/db/write_batch.cc:144-148 | all operations of the other batch come after this one's, also when it is the batch itself |
| WriterQueues.NoSyncRides | FirebaseLogin/Pods/leveldb-library/db/db_impl.cc:1290-1295 | no sync write rides in a group whose leader does not sync |
| WriterQueues.RidersFit | FirebaseLogin/Pods/leveldb-library/db/db_impl.cc:1277-1302 | what rides along keeps the group within its size bound |
| WriterQueues.BuildBatchGroup | FirebaseLogin/Pods/leveldb-library/db/db_impl.cc:1268-1316 | the group is the longest admissible front of the queue: no sync write after a leader that does not sync, every batch within the leader's size plus 128 KB, or 1 MB for a leader above 128 KB, and the next writer, if there is one, would break one of these; the result holds its operations in order and is the leader's own batch exactly if no rider has one, else the temporary batch, so that no caller's batch changes |
| WriterQueues.GroupIsLongest | FirebaseLogin/Pods/leveldb-library/db/db_impl.cc:1268-1316 | the same of the specification, anywhere in the queue, with the sizes added up batch by batch |
| WriterQueues.Include | FirebaseLogin/Pods/leveldb-library/db/db_impl.cc:1304-1311 | the first rider switches the result to the temporary batch, and each adds its operations at the end |
| WriterQueues.QueueIsTail | FirebaseLogin/Pods/leveldb-library/db/db_impl.cc:1268-1316 | the group formed from the queue is the group the step machine's leader takes |
| WriterQueues.StepKeeps | FirebaseLogin/Pods/leveldb-library/db/db_impl.cc:1195-1266 | every arrival, leading, logging, syncing, single insert, completion and background error keeps the invariant of queue, log, memtable and LastSequence |
| WriterQueues.RunKeeps | FirebaseLogin/Pods/leveldb-library/db/db_impl.cc:1195-1266 | so every state of every run satisfies it |
| WriterQueues.RunExtends | FirebaseLogin/Pods/leveldb-library/db/db_impl.cc:1249-1258 | completions, log, memtable and writers only grow at the end: a writer completes once and its status stays |
| WriterQueues.TurnOf | FirebaseLogin/Pods/leveldb-library/db/db_impl.cc:1249-1258 | every completed writer belongs to a turn and has the status its leader returned |
| WriterQueues.GroupIsFair | FirebaseLogin/Pods/leveldb-library/db/db_impl.cc:1268-1316 | the operations of a group are those of its writers in enqueue order, without sync writes under a leader that does not sync, within the size bound |
| WriterQueues.RangesIncrease | FirebaseLogin/Pods/leveldb-library/db/db_impl.cc:1212-1246 | later turns have later writers and larger sequence numbers, without overlap, also after a failed append |
| WriterQueues.SnapshotOfMem | FirebaseLogin/Pods/leveldb-library/db/db_impl.cc:1219-1246 | a snapshot between two turns sees exactly what the turns before it inserted |
| WriterQueues.ReaderSeesWholeBatches | FirebaseLogin/Pods/leveldb-library/db/db_impl.cc:1219-1246 | a reader at LastSequence sees then and ever after exactly the batches that had completed successfully, all of each and nothing of any other |
| WriterQueues.BatchIsWhole | FirebaseLogin/Pods/leveldb-library/db/db_impl.cc:1212-1246 | a successful batch stands in the memtable whole, at consecutive sequence numbers |
| WriterQueues.FailedLeavesNone | FirebaseLogin/Pods/leveldb-library/db/db_impl.cc:1223-1246 | none of the sequence numbers of a failed group is in the memtable |
| WriterQueues.RecordsGiveMem | FirebaseLogin/Pods/leveldb-library/db/db_impl.cc:1223-1243 | the records of the logged turns, replayed one by one, give the memtable, unless a sync failed after its record was written |
| Recovery.RecoveryAgrees | FirebaseLogin/Pods/leveldb-library/db/db_impl.cc:1223-1243 | from the bytes of the log the memtable of turns without a failure is recovered, first and whole, whatever else has come to stand after them in the file; and it is all that is recovered if the log ends there |
| Recovery.ReadBackIff | FirebaseLogin/Pods/leveldb-library/db/log_writer.cc:34-108 | of all turns on a log a writer knows what AddRecord returned: a batch acknowledged is sure to be read back exactly if no append to that log failed before it |
| Recovery.AnyStatuses | FirebaseLogin/Pods/leveldb-library/db/log_writer.cc:34-108 | any sequence of results comes about, with batches of one Put each, and one failure among them suffices to leave the writer astray |
| LogFormat.UnmaskMask | FirebaseLogin/Pods/leveldb-library/util/crc32c.h:29-38 | unmasking undoes masking for every 32-bit checksum |
| LogFormat.MaskIs | FirebaseLogin/Pods/leveldb-library/util/crc32c.h:22-32 | the masked checksum as a number: turned right by 15 bits, plus 0xa282ead8, in 32 bits |
| LogFormat.SumFits | FirebaseLogin/Pods/leveldb-library/util/crc32c.h:29-38 | four stored bytes unmask to a checksum exactly if they are what is written for it |
| LogFormat.HeaderBytes | FirebaseLogin/Pods/leveldb-library/db/log_writer.cc:82-95 | every byte of a physical record: masked checksum, length and type, then the payload |
| LogFormat.EmitCases | FirebaseLogin/Pods/leveldb-library/db/log_writer.cc:34-80 | from any place in a block: zeros where no header fits; type 1 or 4 for what fits in the block; else type 2 or 3 for as much as does, and the rest from the next block on |
| LogFormat.Writer.constructor | FirebaseLogin/Pods/leveldb-library/db/log_writer.cc:23-30 | a writer on a new or reopened log stands at the right place of its block |
| LogFormat.Writer.AddRecord | FirebaseLogin/Pods/leveldb-library/db/log_writer.cc:34-80 | for any number of bytes the file takes before a write fails: the part of the record's fragments (right types, trailers filled with zeros, an empty record as one full fragment) that gets through, where block_offset_ then stands, and success exactly if all got through; without a failure the file is the one for the old records and the new one |
| LogFormat.HoldsGrows | FirebaseLogin/Pods/leveldb-library/db/log_writer.cc:34-80 | a successful append to a log that holds some records makes it hold one more |
| LogFormat.OffsetFollows | FirebaseLogin/Pods/leveldb-library/db/log_writer.cc:106-106 | without a failure block_offset_ is where the file ends in its block |
| LogFormat.Writer.EmitPhysicalRecord | FirebaseLogin/Pods/leveldb-library/db/log_writer.cc:82-108 | what was pending, then the masked checksum over type and payload, the length, the type and the payload, as far as there is room; block_offset_ advances by all of it even then |
| LogFormat.Writer.Append | FirebaseLogin/Pods/leveldb-library/util/env_posix.cc:265-290 | between two flushes everything fits in the buffer |
| LogFormat.Writer.Flush | FirebaseLogin/Pods/leveldb-library/util/env_posix.cc:326-345 | a front part of the buffer gets to the file, all of it exactly on success, and the rest is forgotten |
| LogReaders.Reader.constructor | FirebaseLogin/Pods/leveldb-library/db/log_reader.cc:18-29 | a reader at the start of a file with nothing reported |
| LogReaders.Reader.ParseHeader | FirebaseLogin/Pods/leveldb-library/db/log_reader.cc:216-270 | for any bytes: the fragment whose header stands there, or the end of the file, or a bad record with the rest of the block dropped and reported, as LogContents defines from the file alone |
| LogReaders.Reader.ReadPhysicalRecord | FirebaseLogin/Pods/leveldb-library/db/log_reader.cc:189-271 | for any bytes: block buffering finds the next piece of the file, across block trailers, and reports what that piece loses |
| LogReaders.Reader.ReadRecord | FirebaseLogin/Pods/leveldb-library/db/log_reader.cc:56-174 | for any bytes: the record, the place and the reports that LogContents defines, of which LogRuns.RecordIsRun says what they are |
| LogReaders.Reader.ReadAll | FirebaseLogin/Pods/leveldb-library/db/log_reader.cc:56-174 | for any bytes: all records up to the first that cannot be read, and all reports, as LogRuns.ReplayIsReadings says |
| LogRuns.PieceCases | FirebaseLogin/Pods/leveldb-library/db/log_reader.cc:189-271 | for any bytes: where the next header is looked for, and when what stands there is a fragment, a bad record that costs the rest of its block of 32768 bytes, and is reported unless it is zeros, or the end of the file; with checksums, a fragment only if the stored one is what is written for its type and payload |
| LogRuns.RecordIsRun | FirebaseLogin/Pods/leveldb-library/db/log_reader.cc:56-174 | for any bytes: a record returned is the payload of one FULL, or of a FIRST, any number of MIDDLEs and a LAST, each read where the one before ends with no other between; it is the first such record, and there is none exactly if the file ends before one; what is reported is told fragment by fragment, a record given up being reported whole |
| LogRuns.ReplayIsReadings | FirebaseLogin/Pods/leveldb-library/db/db_impl.cc:424-460 | recovery reads one record after the other, each from where the one before ended, and stops with the first reading that finds none; records and reports are all those, in order |
| LogContents.PhysicalThere | FirebaseLogin/Pods/leveldb-library/db/log_reader.cc:216-270 | a physical record as the writer made it is read as its type and payload, or is taken for the end of a file that ends inside it |
| LogContents.RestThere | FirebaseLogin/Pods/leveldb-library/db/log_reader.cc:56-174 | a record as the writer made it, across any number of blocks, is read back whole, or is the silent end of a file that ends inside it |
| LogContents.ReplayOfPrefix | FirebaseLogin/Pods/leveldb-library/db/log_reader.cc:56-174 | from any byte prefix of what a writer wrote, exactly the records lying wholly inside it come back, in order, and no corruption is reported |
| LogContents.ReplayGrows | FirebaseLogin/Pods/leveldb-library/db/log_reader.cc:189-271 | of any file whatever: appending any bytes to it takes away no record that could be read from it |
| LogContents.WrittenIsRead | FirebaseLogin/Pods/leveldb-library/db/log_reader.cc:56-174 | records written without a failure are read back whatever bytes stand after them |
| LogDamage.KeptBeforeFailure | FirebaseLogin/Pods/leveldb-library/db/log_writer.cc:34-108 | the records before the first failed append are read back, first and in order, at every later moment and from any file cut short after them |
| LogDamage.OkKeepsDrift | FirebaseLogin/Pods/leveldb-library/db/log_writer.cc:96-107 | a successful append leaves the writer as far ahead of the file as it was |
| LogDamage.FailureShifts | FirebaseLogin/Pods/leveldb-library/db/log_writer.cc:96-107 | a failed append puts the writer ahead of the file by what was lost, modulo the block size |
| LogDamage.AstrayLoses | FirebaseLogin/Pods/leveldb-library/db/log_reader.cc:216-258 | after an append that left the writer astray a long record of zeros is appended with success and no reader finds it, whatever the file held and whatever the checksum function |
| LogDamage.DiskFullLoses | FirebaseLogin/Pods/leveldb-library/util/env_posix.cc:326-345 | an input: the disk is full for one record of one byte, then a record is appended with success, and it is not read back |
| Blocks.BlockBuilder.constructor | FirebaseLogin/Pods/leveldb-library/table/block_builder.cc:40-44 | an empty block with one restart point |
| Blocks.BlockBuilder.Add | FirebaseLogin/Pods/leveldb-library/table/block_builder.cc:71-105 | the entry is added sharing all it can with the key before, except that every interval-th is a restart point and shares nothing |
| BlockIters.KeysFit | FirebaseLogin/Pods/leveldb-library/table/block_builder.cc:71-105 | no key or value is longer than the block, so a block below 4 GB stores all lengths whole |
| Blocks.BlockBuilder.SharedWithLast | FirebaseLogin/Pods/leveldb-library/table/block_builder.cc:78-83 | the length of the longest common prefix with the last key |
| Blocks.BlockBuilder.AppendPiece | FirebaseLogin/Pods/leveldb-library/table/block_builder.cc:91-98 | the three lengths, the rest of the key and the value go to the buffer |
| Blocks.BlockBuilder.Finish | FirebaseLogin/Pods/leveldb-library/table/block_builder.cc:61-69 | the block is the entries, the restart array and its length |
| Blocks.PieceBytes | FirebaseLogin/Pods/leveldb-library/table/block_builder.cc:89-98 | an entry with short strings, byte by byte: the shared, unshared and value lengths, the rest of the key, the value |
| Blocks.ContentsBytes | FirebaseLogin/Pods/leveldb-library/table/block_builder.cc:61-69 | the end of a block with two restart points, byte by byte |
| BlockIters.PieceParses | FirebaseLogin/Pods/leveldb-library/table/block.cc:52-75 | decoding an entry gives back the lengths and the bytes it was built from, whatever follows |
| BlockIters.DecodeEntry | FirebaseLogin/Pods/leveldb-library/table/block.cc:52-75 | the short way for one-byte lengths and the long way decode the same header, or reject an entry that does not lie inside the block |
| BlockIters.ArrayReads | FirebaseLogin/Pods/leveldb-library/table/block.cc:20-40 | the restart points and their number are read back from the end of the block |
| BlockIters.Iter.constructor | FirebaseLogin/Pods/leveldb-library/table/block.cc:116-125 | a new iterator is not valid |
| BlockIters.Iter.ParseNextKey | FirebaseLogin/Pods/leveldb-library/table/block.cc:225-252 | of a built block the entry just past the current one, with its whole key, or the end; otherwise an entry inside the block or a corruption |
| BlockIters.Iter.FindRestart | FirebaseLogin/Pods/leveldb-library/table/block.cc:246-249 | the restart index moves to the last restart point before or at the entry |
| BlockIters.Iter.SeekToRestartPoint | FirebaseLogin/Pods/leveldb-library/table/block.cc:105-113 | the next entry parsed is the one at the restart point |
| BlockIters.Iter.Next | FirebaseLogin/Pods/leveldb-library/table/block.cc:138-141 | one entry forward |
| BlockIters.Iter.Prev | FirebaseLogin/Pods/leveldb-library/table/block.cc:143-162 | the immediate predecessor, or not valid before the first |
| BlockIters.Iter.SeekToFirst | FirebaseLogin/Pods/leveldb-library/table/block.cc:204-207 | the first entry |
| BlockIters.Iter.SeekToLast | FirebaseLogin/Pods/leveldb-library/table/block.cc:209-214 | the last entry |
| BlockIters.Iter.LastRestartBefore | FirebaseLogin/Pods/leveldb-library/table/block.cc:165-190 | the binary search ends at the last restart point with a key before the target, or the first of all |
| BlockIters.Iter.Seek | FirebaseLogin/Pods/leveldb-library/table/block.cc:164-202 | the first entry with a key at or past the target |
| BlockIters.Iter.Current | FirebaseLogin/Pods/leveldb-library/table/block.cc:129-136 | key and value are those the block was built with at that place |
| BlockIters.Open | FirebaseLogin/Pods/leveldb-library/table/block.cc:255-265 | a block just finished from strictly increasing keys opens as intact with exactly those entries, for every restart interval of at least 1 |
| BlockIters.ReadBack | FirebaseLogin/Pods/leveldb-library/table/block.cc:138-252 | iterating a built block gives back exactly its entries |
| Tables.TableBuilder.constructor | FirebaseLogin/Pods/leveldb-library/table/table_builder.cc:65-70 | an empty table, with an index block whose every entry is a restart point and a filter block if there is a policy |
| Tables.TableBuilder.Add | FirebaseLogin/Pods/leveldb-library/table/table_builder.cc:94-123 | the table holds what it held and the entry at the end; keys must increase; a block is written exactly when its size has reached the block size |
| Tables.TableBuilder.AddIndexEntry | FirebaseLogin/Pods/leveldb-library/table/table_builder.cc:102-108 | the deferred index entry of a finished block separates it from the key now known; it points at that block, and its key is the block's last, shortened as FindShortestSeparator does; without a block waiting nothing is added |
| Tables.TableBuilder.FinishIndex | FirebaseLogin/Pods/leveldb-library/table/table_builder.cc:229-236 | the last index entry points at the last block under the successor of its last key, cut after the first byte that can grow |
| Tables.TableBuilder.AddEntry | FirebaseLogin/Pods/leveldb-library/table/table_builder.cc:110-117 | the entry goes to the data block and its user key to the filter under the offset at which the block will stand |
| Tables.TableBuilder.Flush | FirebaseLogin/Pods/leveldb-library/table/table_builder.cc:125-139 | the block's bytes are in the file, its index entry deferred, and the filter moved on to the next block's offset |
| Tables.TableBuilder.WriteBlock | FirebaseLogin/Pods/leveldb-library/table/table_builder.cc:141-175 | the packed block, compressed if that saves more than an eighth, goes to the end of the file; its handle leads back to it and the builder starts afresh |
| Tables.TableBuilder.WriteRawBlock | FirebaseLogin/Pods/leveldb-library/table/table_builder.cc:177-194 | contents, type and masked checksum of both go to the end of the file and the handle says where |
| Tables.TableBuilder.Finish | FirebaseLogin/Pods/leveldb-library/table/table_builder.cc:198-253 | the file is a whole table: data blocks at increasing offsets with exactly what was added, a filter without false negatives, a metaindex that leads to it, an index entry for every block, at or past its last key and before the next block's first, and a footer that leads to index and metaindex |
| Tables.TableBuilder.WriteFilter | FirebaseLogin/Pods/leveldb-library/table/table_builder.cc:206-224 | the filter answers yes for every user key in the block at its offset |
| TableFormats.CompareIsLawful | FirebaseLogin/Pods/leveldb-library/db/dbformat.cc:47-63 | the order on bytes is a strict total order |
| TableFormats.CompareEncoded | FirebaseLogin/Pods/leveldb-library/db/dbformat.cc:21-24 | encoded internal keys are ordered as the internal keys are, and encoding is injective |
| TableFormats.HandleRoundTrip | FirebaseLogin/Pods/leveldb-library/table/format.cc:15-29 | a block handle is read back from its encoding, whatever follows |
| TableFormats.StoreRoundTrip | FirebaseLogin/Pods/leveldb-library/table/table_builder.cc:141-175 | what a stored block stands for is what was to be written, compressed or not |
| TableFormats.StaysInFile | FirebaseLogin/Pods/leveldb-library/table/format.cc:64-140 | a block in the file stays there when more is appended |
| TableFormats.ReadBlock | FirebaseLogin/Pods/leveldb-library/table/format.cc:64-140 | a handle past the end of the file is an error, and so is, when verification is asked for, a stored checksum other than the one written for the block and its type; type 0 gives the stored bytes, type 1 what Snappy makes of them, any other is an error; so a block that is in the file is read back from its handle either way |
| TableFormats.FooterRoundTrip | FirebaseLogin/Pods/leveldb-library/table/format.cc:31-62 | the footer has 48 bytes and its handles are read back |
| TableFormats.FooterBytes | FirebaseLogin/Pods/leveldb-library/table/format.cc:31-40 | every byte of a footer: four varints, zeros up to 40 bytes, and 57 fb 80 8b 24 75 47 db |
| TableFormats.FooterMagic | FirebaseLogin/Pods/leveldb-library/table/format.cc:42-50 | a footer is only accepted with just these last eight bytes |
| TableFormats.KeyBytes | FirebaseLogin/Pods/leveldb-library/db/dbformat.cc:15-24 | an internal key is the user key, one byte of type (1 for a value, 0 for a deletion) and seven of the sequence number |
| TableFormats.TrailerBytes | FirebaseLogin/Pods/leveldb-library/table/table_builder.cc:141-197 | a block in the file: compressed, with type 1, if that saves more than an eighth, else as it is with type 0; then the masked checksum of both |
| TableReaders.SeparatorsIncrease | FirebaseLogin/Pods/leveldb-library/table/table_builder.cc:102-108 | index keys increase strictly and come before all later blocks |
| TableReaders.TableDivides | FirebaseLogin/Pods/leveldb-library/table/table.cc:208-212 | the index of a finished table divides its blocks as the two-level iterator needs |
| TableReaders.NothingHere | FirebaseLogin/Pods/leveldb-library/table/table.cc:214-242 | if the block the index points at has no entry at or past the key, the first such entry has a larger user key |
| TableReaders.Table.Open | FirebaseLogin/Pods/leveldb-library/table/table.cc:38-80 | any file opens or is an error; a file that a table builder made opens, on its index |
| TableReaders.Table.ReadMeta | FirebaseLogin/Pods/leveldb-library/table/table.cc:82-135 | the filter found through the metaindex, if any, is the one the builder wrote, and it is found if there is one and a policy for it |
| TableReaders.Table.InternalGet | FirebaseLogin/Pods/leveldb-library/table/table.cc:214-242 | from the bytes of the file: reports the first entry of the table at or past the key, or nothing, and never nothing when that entry has the key's user key, with or without a filter |
| TableReaders.BuildAndGet | FirebaseLogin/Pods/leveldb-library/table/table.cc:214-242 | end to end: entries added to a builder, the file written, opened and asked: the lookup finds the first entry at or past the key, or nothing, and never nothing when that entry has the key's user key |
| Bloom.WithBitSets | FirebaseLogin/Pods/leveldb-library/util/bloom.cc:45-51 | setting a bit of a byte sets that bit and no other |
| Bloom.BitsAddUp | FirebaseLogin/Pods/leveldb-library/util/bloom.cc:45-51 | bit k of a byte counts 2 to the k |
| Bloom.KnownHashes | FirebaseLogin/Pods/leveldb-library/util/hash.cc:22-54 | five known values of the hash, for each number of bytes left over |
| Bloom.DeltaTurns | FirebaseLogin/Pods/leveldb-library/util/bloom.cc:47-47 | the step between probes is the hash turned right by 17 bits |
| Bloom.ProbeIsSum | FirebaseLogin/Pods/leveldb-library/util/bloom.cc:46-52 | probe j is the hash plus j steps, in 32 bits |
| Bloom.BloomFilterPolicy.constructor | FirebaseLogin/Pods/leveldb-library/util/bloom.cc:19-24 | the number of probes is 0.69 times the bits per key, between 1 and 30 |
| Bloom.BloomFilterPolicy.CreateFilter | FirebaseLogin/Pods/leveldb-library/util/bloom.cc:28-54 | what was in dst stays; behind it come the filter, in which exactly the bits that the keys' probes hit are set, of the size the keys call for, and the number of probes |
| Bloom.BloomFilterPolicy.KeyMayMatch | FirebaseLogin/Pods/leveldb-library/util/bloom.cc:56-80 | yes exactly when all probes of the key hit set bits, or the filter uses a reserved encoding; no for a filter of less than two bytes |
| Bloom.NeverMisses | FirebaseLogin/Pods/leveldb-library/util/bloom.cc:28-80 | a filter never says no to a key it was made for |
| FilterBlocks.FilterBlockBuilder.constructor | FirebaseLogin/Pods/leveldb-library/table/filter_block.cc:18-19 | no filter yet |
| FilterBlocks.FilterBlockBuilder.StartBlock | FirebaseLogin/Pods/leveldb-library/table/filter_block.cc:21-27 | afterwards there are as many filters as 2 KB units before the offset, and no key added is lost |
| FilterBlocks.FilterBlockBuilder.AddKey | FirebaseLogin/Pods/leveldb-library/table/filter_block.cc:29-33 | the key joins those of the filter for the current block |
| FilterBlocks.FilterBlockBuilder.GenerateFilter | FirebaseLogin/Pods/leveldb-library/table/filter_block.cc:51-75 | one filter more, for exactly the keys added since the last one; an empty one for none |
| FilterBlocks.FilterBlockBuilder.Finish | FirebaseLogin/Pods/leveldb-library/table/filter_block.cc:35-49 | the block is the filters, their offsets, where these start and the base; a reader of it matches every key under every offset it was added with |
| FilterBlocks.BlockAnswers | FirebaseLogin/Pods/leveldb-library/table/filter_block.cc:90-104 | for a built block the reader consults exactly the filter for the offset, the last one ending at the array-offset word, and cannot say no past the last filter |
| FilterBlocks.OneFilterBytes | FirebaseLogin/Pods/leveldb-library/table/filter_block.cc:35-49 | a block of one filter, byte by byte |
| FilterBlocks.AddedMatch | FirebaseLogin/Pods/leveldb-library/table/filter_block.cc:21-104 | no false negatives for any key added under any offset |
| FilterBlocks.FilterBlockReader.constructor | FirebaseLogin/Pods/leveldb-library/table/filter_block.cc:77-88 | the number of filters and their place as the trailer says, none for contents that are too short or inconsistent |
| FilterBlocks.FilterBlockReader.KeyMayMatch | FirebaseLogin/Pods/leveldb-library/table/filter_block.cc:90-104 | the answer of the filter for the offset; yes where there is none or its bounds are wrong, no for an empty one |
| PbWire.ZigZagRoundTrip | FirebaseLogin/Pods/nanopb/pb_decode.c:1285-1297 | zig-zag decoding undoes the encoding of every 64-bit signed number |
| PbWire.SignRoundTrip | FirebaseLogin/Pods/nanopb/pb_decode.c:1345-1370 | a signed number sign-extended to 64 bits and cast back to 32 or 64 bits is itself, for every field width |
| PbWire.Varint32RoundTrip | FirebaseLogin/Pods/nanopb/pb_decode.c:187-247 | the 32-bit decoder reads back every 32-bit varint, whatever follows |
| PbWire.Varint64RoundTrip | FirebaseLogin/Pods/nanopb/pb_decode.c:255-275 | the 64-bit decoder reads back every 64-bit varint, whatever follows |
| PbWire.ScalarRoundTrip | FirebaseLogin/Pods/nanopb/pb_decode.c:1334-1485 | for every scalar and bytes type a value that was written comes back and exactly its bytes are read |
| PbLaws.ScalarBytes | FirebaseLogin/Pods/nanopb/pb_encode.c:769-871 | the bytes of a value of each type: a signed number as a varint of 64 bits, a zig-zag one as a varint of 2n or -2n-1, four or eight bytes least first, a length and the bytes |
| PbLaws.ZigZagIsPlain | FirebaseLogin/Pods/nanopb/pb_encode.c:630-639 | a zig-zag number n is written as the plain number 2n, or -2n-1 if n is negative |
| PbLaws.ScalarRead | FirebaseLogin/Pods/nanopb/pb_decode.c:1334-1485 | the value of each type that any bytes stand for, and when they stand for none: a number its field cannot hold is an error, an even zig-zag number is half of it and an odd one negative |
| PbLaws.SignedRead | FirebaseLogin/Pods/nanopb/pb_decode.c:1345-1380 | of a plain signed number 64 bits count for a 64-bit field and the low 32 for others, and it must fit the field |
| PbLaws.Varint64IsSum | FirebaseLogin/Pods/nanopb/pb_decode.c:255-275 | any bytes: the groups of seven bits up to the first byte with its top bit clear, one of the first ten, add up to the number, of which 64 bits are kept |
| PbLaws.SignExtendedRead | FirebaseLogin/Pods/nanopb/pb_decode.c:187-247 | the ten bytes of a negative int32 are read as its 32 bits |
| PbLaws.ValueBytes | FirebaseLogin/Pods/nanopb/pb_encode.c:717-765 | a submessage is its length and its fields |
| PbLaws.FieldBytes | FirebaseLogin/Pods/nanopb/pb_encode.c:366-394 | a field is written as the varint of eight times its number plus 0, 1, 2 or 5 for its type, and its value; nothing if it is not set; a packed array as one value with number 2; an error if the array is too long |
| PbCommon.FieldIter.constructor | FirebaseLogin/Pods/nanopb/pb_common.c:8-27 | an iterator on the first field |
| PbCommon.FieldIter.Next | FirebaseLogin/Pods/nanopb/pb_common.c:29-85 | on to the next field, counting required ones passed; false on wrapping round to the first |
| PbCommon.FieldIter.Find | FirebaseLogin/Pods/nanopb/pb_common.c:87-104 | from wherever it stands, finds a field with the tag, or says no only after looking at all |
| PbSeen.SeesOne | FirebaseLogin/Pods/nanopb/pb_decode.c:1021-1026 | setting the bit of a required field among the first 64 keeps the bitmap in step with the fields seen |
| PbSeen.SeenByBits | FirebaseLogin/Pods/nanopb/pb_decode.c:1039-1079 | the counted bits are all set exactly when the first 64 required fields have all been seen; no other bit is set |
| PbSeen.AllSeen | FirebaseLogin/Pods/nanopb/pb_decode.c:1060-1078 | comparing whole words and the remaining bits decides whether all counted bits are set |
| PbDecode.IStream.Read | FirebaseLogin/Pods/nanopb/pb_decode.c:102-137 | exactly count bytes and the stream moved past them, or false and nothing moved |
| PbDecode.IStream.ReadByte | FirebaseLogin/Pods/nanopb/pb_decode.c:141-157 | one byte and the stream moved past it, or false at the end |
| PbDecode.DecodeVarint32Eof | FirebaseLogin/Pods/nanopb/pb_decode.c:187-247 | the value and exactly its bytes for a well-formed varint, sign-extended ones included; an overflow or a cut one fails; eof exactly for an empty stream |
| PbDecode.DecodeVarint | FirebaseLogin/Pods/nanopb/pb_decode.c:255-275 | the low 64 bits of a varint of at most ten bytes, and exactly its bytes |
| PbDecode.SkipVarintOf | FirebaseLogin/Pods/nanopb/pb_decode.c:278-287 | skips exactly one varint, of any length |
| PbDecode.SkipField | FirebaseLogin/Pods/nanopb/pb_decode.c:321-331 | skips exactly one value of the wire type: a varint, eight bytes for 1, a length and that many for 2, four bytes for 5; fails for one that is cut and for every other type |
| PbDecode.DecodeTagOf | FirebaseLogin/Pods/nanopb/pb_decode.c:298-319 | tag and wire type, the end of the message on an empty stream or a zero, or an error |
| PbDecode.MakeSubstream | FirebaseLogin/Pods/nanopb/pb_decode.c:372-385 | a stream over exactly the delimited bytes, the parent left with what follows; fails if they are not all there |
| PbDecode.CloseSubstream | FirebaseLogin/Pods/nanopb/pb_decode.c:387-400 | the parent goes on where the substream ends, read or not |
| PbDecode.DecodeScalarFrom | FirebaseLogin/Pods/nanopb/pb_decode.c:1334-1485 | the value the wire form stands for, checked against the field's width, and exactly its bytes |
| PbDecode.DecodeBytesFrom | FirebaseLogin/Pods/nanopb/pb_decode.c:1447-1485 | the delimited bytes, if they fit the field and the stream |
| PbDecode.SetFieldToDefault | FirebaseLogin/Pods/nanopb/pb_decode.c:845-915 | a field's default: has_ flag off, count 0, submessages by their own defaults |
| PbDecode.SetToDefaults | FirebaseLogin/Pods/nanopb/pb_decode.c:917-928 | every field of the message at its default |
| PbDecode.DecodeValueFrom | FirebaseLogin/Pods/nanopb/pb_decode.c:1525-1547 | a submessage continues from what is there, a new array entry from defaults; exactly its delimited bytes are used |
| PbDecode.DecodePackedFrom | FirebaseLogin/Pods/nanopb/pb_decode.c:425-453 | all values of a packed array, or an error if they overflow the array or a value is bad |
| PbDecode.DecodeFieldFrom | FirebaseLogin/Pods/nanopb/pb_decode.c:406-483 | one occurrence of a field: replaced, marked present, or added to the array, packed or not; an error when the array is full |
| PbDecode.MarkSeen | FirebaseLogin/Pods/nanopb/pb_decode.c:1021-1026 | a required field is marked seen if it is among the first 64 |
| PbDecode.CheckRequired | FirebaseLogin/Pods/nanopb/pb_decode.c:1039-1079 | succeeds exactly when the first 64 required fields have all been seen, the last field of the descriptor included |
| PbDecode.DecodeNoInit | FirebaseLogin/Pods/nanopb/pb_decode.c:934-1082 | fields in any order, unknown ones skipped, a zero tag ending early, required fields checked at the end: the result of the recursive definition over the bytes, of which the rows of PbLaws say what each field does to it |
| PbLaws.UnknownFieldIgnored | FirebaseLogin/Pods/nanopb/pb_decode.c:991-994 | a field of any number the descriptor does not have, with a varint, eight bytes, a delimited string or four bytes as its value, has no effect on the message |
| PbLaws.UnknownFieldRejected | FirebaseLogin/Pods/nanopb/pb_decode.c:321-331 | ... but one whose value is cut, or with another wire type, fails the message |
| PbLaws.KnownScalar | FirebaseLogin/Pods/nanopb/pb_decode.c:416-422 | a required or optional value replaces the one before, whatever its wire type, and a required one counts as seen; one that cannot be read fails the message |
| PbLaws.KnownEntry | FirebaseLogin/Pods/nanopb/pb_decode.c:454-464 | a repeated value under its own tag is added at the end, or fails the message if there is no place |
| PbLaws.KnownPacked | FirebaseLogin/Pods/nanopb/pb_decode.c:424-453 | a packed array is added at the end, after what came before it, or fails the message if it does not fit |
| PbLaws.KnownSubmessage | FirebaseLogin/Pods/nanopb/pb_decode.c:1525-1547 | a submessage is decoded on top of what is there |
| PbLaws.KnownSubmessageEntry | FirebaseLogin/Pods/nanopb/pb_decode.c:1525-1547 | a submessage that is a new array entry is decoded on top of the defaults |
| PbLaws.MessageEnds | FirebaseLogin/Pods/nanopb/pb_decode.c:1039-1079 | at the end of the bytes or a tag of 0 the message fails exactly if a required field with fewer than 64 required ones before it has not been seen |
| PbLaws.FreshMessage | FirebaseLogin/Pods/nanopb/pb_decode.c:845-928 | what each field holds before anything is decoded |
| PbDecode.DecodeMessage | FirebaseLogin/Pods/nanopb/pb_decode.c:1084-1096 | the same from defaults |
| PbEncode.OStream.Write | FirebaseLogin/Pods/nanopb/pb_encode.c:103-124 | all bytes or, when there is no room, none; a sizing stream only counts |
| PbEncode.EncodeVarint | FirebaseLogin/Pods/nanopb/pb_encode.c:608-628 | the base-128 form |
| PbEncode.EncodeSvarint | FirebaseLogin/Pods/nanopb/pb_encode.c:630-639 | the varint of twice the number, or for a negative one of twice its size less one |
| PbEncode.EncodeTag | FirebaseLogin/Pods/nanopb/pb_encode.c:669-673 | the field number and wire type as one varint |
| PbEncode.EncodeString | FirebaseLogin/Pods/nanopb/pb_encode.c:709-715 | the length, then the bytes |
| PbEncode.EncodeScalarTo | FirebaseLogin/Pods/nanopb/pb_encode.c:769-871 | the wire form of a value of any scalar or bytes type; fails for a byte array longer than its field |
| PbEncode.EncodePackedArray | FirebaseLogin/Pods/nanopb/pb_encode.c:163-204 | a packed array with a length, computed or counted in advance, that equals the bytes then written |
| PbEncode.EncodeSubmessage | FirebaseLogin/Pods/nanopb/pb_encode.c:717-765 | the length prefix from the sizing pass equals the bytes the second pass writes: the "submsg size changed" branch cannot be reached |
| PbEncode.EncodeArray | FirebaseLogin/Pods/nanopb/pb_encode.c:147-236 | nothing for no values, an error for more than the array holds, packed if the type allows, else each value under its tag |
| PbEncode.EncodeFieldTo | FirebaseLogin/Pods/nanopb/pb_encode.c:341-426 | a required field always, an optional one if its has_ flag is set, a repeated one by its count |
| PbEncode.Encode | FirebaseLogin/Pods/nanopb/pb_encode.c:528-550 | the fields in descriptor order: all of the message's bytes if it encodes and there is room, counted alike by a sizing stream |
| PbEncode.GetEncodedSize | FirebaseLogin/Pods/nanopb/pb_encode.c:567-576 | the number of bytes a message takes, or nothing if it cannot be encoded |
| PbMessages.DefaultsTyped | FirebaseLogin/Pods/nanopb/pb_decode.c:917-928 | the defaults are values the fields can hold |
| PbRoundTrip.MessageEncodes | FirebaseLogin/Pods/nanopb/pb_encode.c:528-550 | encoding fails exactly for messages with a count or a byte array beyond what its field may hold |
| PbRoundTrip.ValueBack | FirebaseLogin/Pods/nanopb/pb_decode.c:1525-1547 | a value of any type, submessages included, is read back from its encoding |
| PbRoundTrip.PackedBack | FirebaseLogin/Pods/nanopb/pb_decode.c:425-453 | a packed array is read back |
| PbRoundTrip.EachBack | FirebaseLogin/Pods/nanopb/pb_decode.c:454-464 | an array written value by value is read back |
| PbRoundTrip.FieldBack | FirebaseLogin/Pods/nanopb/pb_decode.c:406-483 | whatever a field wrote brings it to the value it was written from, and marks it seen |
| PbRoundTrip.RoundTrip | FirebaseLogin/Pods/nanopb/pb_encode.c:528-550 | pb_decode of pb_encode's output succeeds and restores the message, except that what is under an unset has_ flag comes back as its default; every inner length must fit in 32 bits |
| PbLimits.TooLong | FirebaseLogin/Pods/nanopb/pb_decode.c:187-247 | the 32-bit decoder rejects every varint of 2^32 or more, up to 63 bits |
| PbLimits.RoundTripIff | FirebaseLogin/Pods/nanopb/pb_decode.c:372-385 | decoding what was encoded gives the message back exactly when the length of every packed array and submessage in it is below 2^32, and fails otherwise |
| PbLimits.LargeIsLost | FirebaseLogin/Pods/nanopb/pb_decode.c:187-247 | a message that encodes and is rejected: a submessage with two byte arrays of 2 GB each |
| PbCodec.EncodeThenDecode | FirebaseLogin/Pods/nanopb/pb_decode.c:1084-1096 | encoding into a buffer and decoding from it gives the message back exactly when it is within its fields' bounds, the buffer is large enough and every inner length is below 2^32 |
| Durability.RoundKeeps | FirebaseLogin/Pods/leveldb-library/db/db_impl.cc:1320-1380 | every round of the loop keeps what can be read; a switch happens only with no immutable memtable waiting, and makes the full memtable the immutable one |
| Durability.RoundCases | FirebaseLogin/Pods/leveldb-library/db/db_impl.cc:1320-1380 | what a round does: gives up exactly on an error; sleeps once at 8 level-0 files; leaves if there is room and no switch is forced; waits exactly while the last memtable is unflushed or there are 12 level-0 files; else switches, unforced only when the memtable is full |
| Durability.CommitKeeps | FirebaseLogin/Pods/leveldb-library/db/db_impl.cc:544-575 | committing a flushed memtable with the number of the current log keeps what can be read, and the invariant that all of it would be recovered |
| Durability.RemoveKeeps | FirebaseLogin/Pods/leveldb-library/db/db_impl.cc:222-287 | removing logs below the version's log number loses nothing that recovery would find |
| Durability.SureIsRecoverable | FirebaseLogin/Pods/leveldb-library/db/db_impl.cc:330-378 | what was acknowledged after an append to an intact log can be read and would be found by recovery |
| Durability.StepKeeps | FirebaseLogin/Pods/leveldb-library/db/db_impl.cc:1320-1380 | room making, logging with or without success, inserting, flushing, committing, removing logs, errors and reopening all keep the invariant; but for a crash nothing readable is lost |
| Durability.RunKeeps | FirebaseLogin/Pods/leveldb-library/db/db_impl.cc:1320-1380 | every state of every run from an empty database satisfies it |
| Durability.AcknowledgedIsKept | FirebaseLogin/Pods/leveldb-library/db/db_impl.cc:289-378 | a write acknowledged after an append to a log to which none had failed can be read at every later moment of every run, crashes included, and would survive a crash then; nothing is read or recovered that no writer tried to store |
| Durability.KeptIff | FirebaseLogin/Pods/leveldb-library/db/db_impl.cc:1223-1243 | new writes that are acknowledged are kept whatever happens then exactly if no append to the current log has failed |
| Durability.KeptUntilCrash | FirebaseLogin/Pods/leveldb-library/db/db_impl.cc:1214-1247 | until the next crash all that is acknowledged stays readable, and what has reached a table stays for good |
| Durability.WithoutFailureAllIsSure | FirebaseLogin/Pods/leveldb-library/db/db_impl.cc:1223-1243 | in a run without a failed append everything acknowledged is kept, failed syncs and crashes or not |
| Durability.OnlyAcknowledgedIsRead | FirebaseLogin/Pods/leveldb-library/db/db_impl.cc:1214-1247 | until the first crash exactly the acknowledged writes are read |
| Durability.RoomIsMade | FirebaseLogin/Pods/leveldb-library/db/db_impl.cc:1320-1380 | MakeRoomForWrite sleeps at most once, never when forced, and switches at most once, exactly once when forced |

## Left out

- DropRule.Merge.DoCompactionWork: needs the oldest live snapshot below kMaxSequenceNumber, because the code uses that value for "no entry yet"; an output that is ended early is bounded in number and not placed; `sizeOf` stands for the size the table builder reports.
- DropRule.Merge.Classify: every internal key parses; the branch for keys that do not is left out.
- DropRule.Merge.ShouldStopBefore: file sizes are numbers given with the files.
- LiveSnapshots.CompactionInvisibleIff: memtable entries are assumed newer than all tables for their user key and distinct from them, which DatabaseRuns proves of every run.
- VersionRuns.Compact: the memtable flush that DoCompactionWork may do in its loop is not part of it; the input version stays fixed during the merge.
- Compactions.VersionSet.PickCompaction: the level that is too large and the file sought too often are given; scores, seek counts and read sampling are not modelled.
- Compactions.VersionSet.SetupOtherInputs: the record of the compaction pointer in the edit, and so VersionSet::Builder's handling of it, is left out.
- Versions.Get: which file is charged for a seek is left out.
- Versions.OverlappingNewestFirst: std::sort is an insertion by file number, and which of two files with one number comes first is open.
- Comparator.Compare: only the default byte-wise comparator, not one that an application plugs in.
- SkipListOps.SkipList.Insert: RandomHeight is a parameter; the arena is the sequence of nodes; each link load or store is one atomic step, weaker memory orders are not modelled.
- LRUCaches.LRUCache.Insert: handles are numbered as allocated and their fields are sequences indexed by that number, so links are numbers and not addresses, and freed handles are not reused; sharding and the mutex are left out; usage and reference counts do not wrap.
- LRUCaches.LRUCache.Destroy: requires that no client holds a handle, as the source asserts.
- HandleTables.HandleTable.FindPointer: hash & (length - 1) is the remainder, the length being a power of two.
- Mergers.MergingIterator.constructor: children are cursors over sequences and have no error status.
- DBIters.DBIter.constructor: keys that do not parse, read sampling and the error status are left out; the length threshold at which saved values give back memory has no effect on results.
- WriteBatches.WriteBatch.Put: the count of a batch stays below 2^31; strings of 4 GB and more have their length cut to 32 bits as in the code, and what such a batch reads back as is not stated.
- WriterQueues.StepKeeps: condition variables and a null batch absorbed by a group are left out; whether room was made is a parameter of the step, and Durability has the switch of memtable and log.
- Durability.AcknowledgedIsKept: a crash keeps the bytes appended to a log; what an operating system loses of unsynced files is not modelled. Recovery puts every log into tables and saves the manifest; reusing the last log is left out. Table contents are one set, compactions being DatabaseRuns'. Of a log with a failed append each later record is read back or not, as Recovery.ReadBackIff says; that such a log yields no record nobody wrote rests on its checksums.
- Recovery.RecoveryAgrees: keys and values below 4 GB; one log, without a switch of memtables, which is Durability's.
- LogFormat.Writer.AddRecord: the checksum is any function with Extend(Extend(0, a), b) = Extend(0, a + b); a call is given the number of bytes that the file takes before write(2) fails.
- LogReaders.Reader.ReadAll: reading from an initial offset, with its resynchronisation, and the offset of the last record are left out; errors of reading the file are left out.
- Blocks.BlockBuilder.Add: Reset is left out.
- BlockIters.Open: the entries and the restart array stay below 4 GB, as their 32-bit offsets require.
- BlockIters.Iter.ParseNextKey: in a damaged block the sum of two 32-bit lengths does not wrap.
- Tables.TableBuilder.Add: write errors, ChangeOptions and Abandon are left out; Snappy is a pair of functions of which one undoes the other.
- TableFormats.InternalCompare: keys of fewer than 8 bytes, which the source asserts do not occur, come first.
- TableReaders.Table.InternalGet: the block cache and errors of reading the file are left out; what is found is stated for blocks and filters below 4 GB, whose offsets fit their 32 bits, in a file below 2^64 bytes. The two-level iterator over a table takes its blocks entry by entry.
- FilterBlocks.FilterBlockBuilder.Finish: no false negatives for filter blocks below 4 GB, whose offsets fit their 32 bits.
- FilterBlocks.FilterBlockReader.KeyMayMatch: a base of 64 or more in damaged contents, which the source would shift by, counts as a shift to zero.
- Bloom.BloomFilterPolicy.CreateFilter: the bits per key are not negative; products do not wrap.
- PbLimits.RoundTripIff: encodings of less than 2^63 bytes, more than any object in memory.
- PbCommon.FieldIter.Find: for a message type without fields the code compares the tag with the terminator's tag 0, so a tag 0 with a wire type other than 0 is found and decoded into the terminator's entry; here it is not found, and PbDecode.DecodeNoInit skips it.
- PbDecode.DecodeVarint32Eof: the bit position does not wrap at 256, which takes a varint of over 36 bytes.
- PbDecode.DecodeNoInit: what a failed decode leaves in the message is not modelled; as in the code, the wire type is not checked against the field's type, and required fields after the 64th are not checked.
- PbDecode.DecodeValueFrom: submessages are nested values, replaced as wholes.
- PbEncode.EncodeScalarTo: strings, fixed-length bytes, bytes fields with a default and sizes beyond pb_size_t are left out.
- nanopb callbacks, extensions, pointer fields, oneofs, fixed-count arrays and proto3 fields without a has_ flag.
- The Swift views, the view model, location and Firebase calls: user interface and network.
- Env, files, threads, logging, statistics, Version reference counts and memory management.
- Repair and the manifest's own format.
