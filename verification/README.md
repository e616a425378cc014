# Narrowing memory searches: a verified model

The program searches a byte snapshot of another process for a value and keeps a linked list of the places where it
occurs. Later searches narrow that list against newer snapshots, and a narrowing can be undone. Variables can be dumped
to a file and restored into another run of the process, and the prompt completes input from a dictionary. This project
models that behaviour in Dafny and proves what it is meant to guarantee, and where it does not.

## How the model is organised

| file | models |
|---|---|
| `Memory.dfy` | byte snapshots, occurrences, facts about sequences without repetition |
| `Scan.dfy` | the initial scan of a byte range, and what cutting the range into chunks costs |
| `Splice.dfy`, `Contention.dfy` | worker threads splicing private lists onto the shared head, as a step relation over all interleavings; the worst schedule |
| `RegionThreads.dfy` | the table of thread handles, one slot per region, and the joins |
| `InitialScan.dfy` | regions, tasks and threads put together: the whole initial search under any interleaving |
| `FrameSpec.dfy` | a frame as a value: tracked variables, history records, the commands of a session |
| `Frames.dfy`, `Searching.dfy`, `Sessions.dfy` | the pointer code: lists, the history deque, renarrowing, undo, scanning; whole sessions |
| `UndoStack.dfy`, `LimitOne.dfy`, `SessionRuns.dfy` | what searching, undoing and resetting mean over whole sessions |
| `VmemParser.dfy`, `AddressMap.dfy` | region selection and classification, address translation and (region, offset) records |
| `RemoteHits.dfy` | when a scan of all buffers tracks the same remote variable twice |
| `FrameDump.dfy`, `FrameFile.dfy`, `DumpCommands.dfy` | dumping and restoring frames, the dump file, the two commands over both |
| `Matching.dfy`, `TabComs.dfy`, `LineEditor.dfy` | narrowing a match list, the dictionary search, the line buffer |
| `TabComplete.dfy`, `Screens.dfy` | tab completion as written and as meant; what it shows after each key and when it becomes undefined |
| `StalePass.dfy`, `RawNarrowing.dfy`, `RawOutcomes.dfy`, `RawSessions.dfy` | what unwritten memory can do to a narrowed list, to what a session reads, and to how it ends |

Code that updates objects or arrays in place is a class or a method over an array, proved equal to a function on values
(`FrameSpec.Renarrow`, `Scan.Greedy`, `TabComplete.Complete`, ...); the lemmas then say what those functions guarantee.
The notions these functions rest on are also told without them: a match byte by byte (`FrameSpec.RenarrowBytes`,
`InitialScan.TasksVarsBytes`), a found string as the needle with anything around it (`Matching.ContainsIff`), keys by
their codes (`LineEditor.EditLineKeys`, `TabComplete.CycleKeys`), regions by their codes (`VmemParser.WhichRgn`), and
dump files by byte positions (`FrameFile.FileLayout`, `FrameFile.RecordLayout`).
The snapshot is a parameter of every search, so memory may change arbitrarily between two of them.

## What the code does not guarantee

* A match that crosses a chunk boundary is dropped. The comment at `vmem_access.c:731-737` says it is kept; the check at
  `vmem_access.c:592` drops it, and the model follows the check. `Scan.ChunkedEqualsWholeIff` says exactly when the
  chunks still find what one thread finds.
* A depth limit of 1 breaks the history deque: recycling the only record clears `earliest_hist` while `latest_hist`
  stays, and later undos bring back more than can be undone (`LimitOne.UndoneTooFar`). Over all sessions the frame
  tracks what the journal accounts for exactly with the other limits (`LimitOne.CountsAgreeIff`), and exactly with them
  the chain of records is intact (`UndoStack.ChainIntactIff`). Those of them that are not negative bound the depth
  (`UndoStack.DepthBoundedIff`); a negative limit is never reached, so it bounds nothing. The only value the program
  itself stores is `INT_MAX` (`vmem_access.c:321`); no command sets another one.
* Resetting a frame keeps its history, so the next undo brings back what the latest search rejected
  (`SessionRuns.ResetUndoRefills`; a session that gets there: `SessionRuns.ResetUndoTracksRejected`).
* A scan that follows a search which removed everything can lead to a variable tracked twice, as in the session of
  `SessionRuns.RescanTracksTwice`. `SessionRuns.SessionDistinctIff` says for all sessions when this cannot happen.
* The first byte of a buffer has no remote address (strict comparisons at `vmem_access.c:521`, `525` and `531`) although
  a scan can report it; every other byte has one (`AddressMap.TranslatedIff`, `AddressMap.FirstByteLost`).
* `which_rgn` returns an `int`, so an offset survives a dump exactly when it is below 2^31 (`AddressMap.RestoredIff`;
  an input: `AddressMap.FarOffsetRestoredBefore`). A region that is recorded twice is dumped under the copy found
  first; when that copy has no buffer the variable is restored to NULL (`AddressMap.RecordedAndRestored`; an input:
  `AddressMap.UnselectedCopyLosesVariable`).
* A region that is selected twice is scanned in both buffers, so a search tracks the same variable of the target twice.
  `RemoteHits.RemotesDistinctIff` says exactly when, `RemoteHits.MirroredRemotesDistinctIff` for buffers filled alike.
* The dump of a frame that tracks nothing is written, but adding it writes through a node that was never made
  (`frame_dump.c:74`). `DumpCommands.AddFdumpToM` says exactly when adding a file is defined.
* The table of thread handles has a slot for every region exactly under the condition of `RegionThreads.AllFitIff`;
  `n_disk` stays 0, so with a mapped disk file a handle is always stored outside it.
* The copying pass of `narrow_matches` looks for a sentinel that is written once, at the initial capacity, so it reads
  a word nobody wrote unless exactly 200 entries are removed. `Matching.CopyPassReliableIff` says for which inputs it
  is right whatever such words hold; for a completion list only the removal of 200 entries is
  (`Matching.CompletionReliableIff`). In `Matching.StaleWordDropsMatch` it drops an entry to be kept. Completion is
  modelled with the pass as written, over arbitrary memory: a lost entry leaves a slot unwritten, the last slot is
  overwritten before the list is narrowed again (`ashio.c:501`, `ashio.c:612`), and reading an unwritten slot is the
  outcome `Damaged`. A slot is steady if it lies in front of the last removed entry, or if too few words are left before
  the sentinel for a different entry to get there; exactly these are right whatever memory holds
  (`StalePass.SteadySlot`, `StalePass.UnsteadySlot`).
  `RawNarrowing.ReliableIff` says that memory cannot matter exactly for the sessions that read steady slots only, and
  `RawOutcomes.OutcomesReliableIff` the same of how sessions end. It cannot matter without a narrowing at a tab
  (`RawSessions.NoTabNarrowingIsReliable`). In `RawSessions.TabLetterTabDamaged` the lost input's slot is read, and in
  `RawSessions.WrongEntryChosen` another entry is shown and chosen than was meant.
* Deleting while an empty entry is shown writes before a buffer (`ashio.c:582`), the outcome `Undefined` of
  `TabComplete.Complete`. One session on any dictionary is tab, previous, backspace (`Screens.TabPreviousDelete`).
  `Screens.UndefinedIff` says exactly when it happens; it never does unless tab is pressed on an empty line
  (`Screens.DefinedWithoutEmptySearch`, `Screens.AlwaysDefinedIff`).

## Model

| member | source | states |
|---|---|---|
| Scan.SkipToFirstByte | vmem_access.c:591 | jumping to the next first-byte hit with memchr loses no match of the byte-by-byte greedy scan |
| Scan.GreedyIsPacking | vmem_access.c:591-619 | hits increase, lie inside the range, all match, and are at least the value's size apart |
| Scan.GreedyIsMaximum | vmem_access.c:591-619 | no set of disjoint occurrences in the range is larger than the set of hits |
| Scan.EveryOccurrenceCovered | vmem_access.c:591-619 | every occurrence is a hit or overlaps a hit that starts before it |
| Scan.CutCosts | vmem_access.c:592 | scanning two halves finds at most what one scan finds, and at most one hit fewer |
| Scan.ChunksCost | vmem_access.c:592 | the same for any boundaries: at most one hit lost per inner boundary |
| Scan.CutsTile | vmem_access.c:730-755 | the spawner's chunks tile the region for every length and thread count, lengths below the thread count included |
| Scan.ThreadsCost | vmem_access.c:730-755 | n threads find at most the single-thread hits of a region and at least that number minus n - 1 |
| Scan.ChunkedEqualsWholeIff | vmem_access.c:730-755 | the chunks find exactly the single-thread hits if and only if no single-thread hit straddles a boundary |
| Scan.OneByteChunksExact | vmem_access.c:730-755 | for one-byte values any number of threads finds exactly the single-thread hits |
| Scan.GreedyIsAllOccurrences | vmem_access.c:591-619 | for a value that cannot overlap itself the hits are all occurrences |
| Scan.ChunksFindAllButStraddling | vmem_access.c:730-755 | for such a value the chunks find exactly the occurrences that straddle no boundary |
| Scan.StraddlingMatchIsDropped | vmem_access.c:592 | a concrete match that one thread finds and two threads drop, against the comment in the spawner |
| Splice.RunInvariant | vmem_access.c:358-367 | every interleaving keeps the invariant of the shared list, the private lists, the counter and the retries; its length is paid for by progress and failed exchanges |
| Splice.SharedListSafe | vmem_access.c:358-367 | at every point of every interleaving of any number of workers the shared list is acyclic, null-terminated and the spliced lists, latest first, above the initial one; the counter plus the additions owed is its length |
| Splice.JoinedListComplete | vmem_access.c:796-803 | after all joins the counter is the list's length and no hit is lost, duplicated or invented |
| Splice.FailedExchangesBounded | vmem_access.c:360-366 | W workers fail at most W(W-1)/2 exchanges in any schedule, each one at most W - 1 |
| Splice.RunsAreBounded | vmem_access.c:360-366 | the retry loops terminate: no schedule is longer than 3W + W(W-1)/2 steps |
| Splice.WorkersNeverBlock | vmem_access.c:358-367 | until it is done every worker can take its next step, whatever the others do |
| Splice.RunCanEnd | vmem_access.c:358-367 | every interleaving, however far it has come, can be continued until all workers are done |
| Splice.SomeRunEnds | vmem_access.c:358-367 | every set of workers with disjoint lists has an initial state and a run that finishes them all |
| Contention.FailureBoundTight | vmem_access.c:360-366 | whenever all W workers found something, some schedule fails exactly W(W-1)/2 exchanges |
| RegionThreads.AllFitIff | vmem_access.c:772-792 | every region's slot lies inside the table exactly under a condition on stack, heap, other regions and disk files that can be checked before |
| RegionThreads.DiskNeverFits | vmem_access.c:787-792 | with `n_disk` at 0 a mapped disk file never has a slot; other regions have theirs exactly with stack and heap present |
| RegionThreads.SpawnAndJoin | vmem_access.c:771-803 | under that condition every thread of every region is joined once (none for 0 threads), and only then no handle is stored outside the table |
| InitialScan.Spawn | vmem_access.c:724-755 | the ranges handed to the threads start at the region's start, end at its end, follow each other, and all but the last have the length of the region divided by the thread count; for 0 threads the region itself |
| InitialScan.TasksApart | vmem_access.c:730-755 | over disjoint regions no two threads are given a common byte |
| InitialScan.ThreadsCostAll | vmem_access.c:771-803 | over all regions together at most n - 1 hits per region are lost |
| InitialScan.ThreadedSearch | vmem_access.c:771-803 | the whole threaded search, any interleaving: the frame tracks every hit of every chunk once and nothing else, at most n - 1 fewer per region than single-thread scans, all of the size searched for with every byte of the value there |
| InitialScan.ThreadedIsSequential | vmem_access.c:771-803 | whatever the interleaving, the frame tracks the variables that the threads run one after the other would have left |
| Frames.NarrowHistory.Insert | vmem_access.c:443-454 | the unlinked variable becomes the last of the record, which keeps its count and `last` |
| Frames.NarrowFrame.AddHistorySearch | vmem_access.c:382-400 | the deque of records changes as `FrameSpec.AddRecord` says, at the limit by recycling the oldest record |
| Frames.NarrowFrame.PopLatestHist | vmem_access.c:403-441 | the latest record is returned and unlinked, the others stay chained, both ends stay right |
| Frames.NarrowFrame.RmNextFrameVar | vmem_access.c:457-483 | exactly one variable leaves the tracked list, the one behind `v` or the head, and goes to the end of the record |
| Frames.NarrowFrame.RenarrowFrame | vmem_access.c:660-691 | exactly the tracked variables stay where memory holds every byte of the value, in order; with a history the latest record holds exactly the others, the misses behind the head in order, then a missed head |
| FrameSpec.RenarrowBytes | vmem_access.c:672-690 | in any state: a variable stays tracked exactly if every byte of the value is in the snapshot at its address, and is in the latest record exactly if it was tracked and is not |
| FrameSpec.RecordOrder | vmem_access.c:672-690 | when all fail the record holds the variables behind the head in their order, then the head |
| FrameSpec.LaterByteDiffers | vmem_access.c:678 | a variable of four bytes is removed when only its second byte differs, and kept when none does |
| Frames.NarrowFrame.UndoRenarrow | vmem_access.c:695-710 | the latest record's variables return in front of the tracked list, and the frame does nothing else |
| Frames.NarrowFrame.CombineFrameVar | vmem_access.c:358-367 | undisturbed, splicing puts the private list in front of the tracked list and counts it |
| Frames.NarrowFrame.Reset | varedit.c:305-316 | the tracked list is emptied, the history stays |
| Frames.NodesToValues | vmem_access.c:672-690 | filtering the nodes is filtering the variables they hold |
| Searching.ScanRegion | vmem_access.c:578-619 | the pointer scan builds the greedy hits as a list in reverse, with `last` its final node; every node has the size of the value, lies in the range, and memory holds every byte of the value there |
| Searching.NarrowSubroutine | vmem_access.c:578-632 | its hits end up in front of the frame's list and their number is returned |
| Searching.NarrowMemMap | vmem_access.c:760-804 | a frame that tracks something is narrowed, an empty one scanned over every region, as `FrameSpec.Step` says |
| InitialScan.TaskHitsBytes | vmem_access.c:578-619 | a thread's hits run downwards, at least a value's size apart, inside its range, with every byte of the value there |
| InitialScan.TasksVarsBytes | vmem_access.c:602-618 | a scan tracks only variables of the size searched for (in eight bits), each inside one chunk with every byte of the value there |
| InitialScan.TasksVarsCover | vmem_access.c:591-619 | wherever a chunk holds every byte of the value, a tracked variable starts there or overlaps from the left |
| Sessions.Obey | varedit.c:305-320 | after a search every byte of its value is at every tracked variable, and after a scan all have its size; undoing moves the latest record to the front of the tracked list; resetting empties the tracked list and keeps the records |
| Sessions.Session | vmem_access.c:660-804 | over any sequence of searches, undos and resets all lists stay acyclic, counted and pairwise disjoint, and the frame is the one the commands describe; right after a search every byte of its value is at every tracked variable, and every tracked variable has the size of a value searched for and once held its bytes |
| Sessions.SessionAnyInterleaving | vmem_access.c:660-804 | whatever the interleaving of every scan of a session, the frame's lists are those of that session up to order |
| UndoStack.AddKeepsLatest | vmem_access.c:382-400 | with a limit other than 0 and 1 a new record drops exactly the oldest records beyond the limit, none for a negative one: the first one at the limit, none below |
| UndoStack.RunSound | vmem_access.c:382-441 | in every session with a limit other than 1 the depth counts the records reached from `earliest_hist`, `latest_hist` ends that chain, and a limit that is not negative bounds the depth |
| UndoStack.ChainIntactIff | vmem_access.c:384-397 | the chain of records is intact over all sessions exactly if the limit is not 1 |
| UndoStack.DepthBoundedIff | vmem_access.c:388-395 | a limit that is not negative bounds the depth over all sessions exactly if it is not 1 |
| UndoStack.BreakingRun | vmem_access.c:388-391 | three commands after which a limit of 1 has lost the earliest record, and a fourth after which the depth is above it |
| LimitOne.CountsAgreeIff | vmem_access.c:382-441 | over all sessions the tracked variables are those the journal accounts for exactly if the limit is not 1 |
| LimitOne.UndoneTooFar | vmem_access.c:388-391 | with a limit of 1 a session whose second undo brings back a variable though only one search can be undone |
| UndoStack.RenarrowConserves | vmem_access.c:660-691 | renarrowing loses, duplicates and invents no variable |
| UndoStack.SessionRefinesUndoStack | vmem_access.c:660-710 | over all sessions with a limit other than 1 each variable is tracked as often as it was scanned in, survived all later searches not undone (evicted ones too) and was not dropped by a reset |
| UndoStack.ScanThenSearches | vmem_access.c:660-691 | after one scan and searches, exactly the scanned variables matching every search in force remain |
| UndoStack.SearchesThenUndos | vmem_access.c:695-710 | k searches then j undos give the variables held after k - min(j, k, limit) searches, also when searches removed nothing or everything |
| UndoStack.RescanStaysDistinctIff | vmem_access.c:766-769 | in any state, a new scan of an empty frame and undos never track a variable twice exactly if the records hold none of the newly found ones |
| SessionRuns.SessionDistinctIff | vmem_access.c:660-769 | over all sessions no variable is ever tracked twice, also after any number of undos, exactly if no scan finds a variable that a live record holds |
| SessionRuns.RescanTracksTwice | vmem_access.c:766-769 | a session (scan, lose the variable, scan it again, undo) that tracks one variable twice |
| SessionRuns.SearchesInForceFilter | vmem_access.c:660-710 | in sessions that scan once and are never reset, whatever the mix of searches and undos, tracked is the scan filtered by the searches in force: by every byte of every value searched for |
| SessionRuns.AllScanned | vmem_access.c:660-804 | in every session, with any limit, all variables tracked or recorded were delivered by one of its scans |
| SessionRuns.ResetUndoRefills | varedit.c:305-320 | over all sessions a reset and an undo leave exactly what the latest search in force rejected, or nothing if none can be undone |
| SessionRuns.ResetUndoTracksRejected | varedit.c:305-320 | a session in which reset and undo track a rejected variable again |
| SessionRuns.ScanOrderIrrelevant | vmem_access.c:358-367 | sessions that differ in the order of their scans have the same lists up to order at every point, with any limit |
| VmemParser.GetVmemLocations | vmem_parser.c:62-111 | heap and stack are each the last line described so, whatever the other lines are, and NULL bounds if there is none; the remaining regions are the lines wanted that do not start where the line before ends, in order |
| VmemParser.HeapAndStackSelected | vmem_parser.c:97-104 | a map with a heap line and then a stack line, of which both are selected |
| VmemParser.RemainingSeparated | vmem_parser.c:79-92 | recorded remaining regions increase with a real gap between any two |
| VmemParser.RemainingIsRunOpeners | vmem_parser.c:79-92 | a range is recorded exactly if its line opens a run of touching lines, not at NULL, and is marked or all are wanted |
| VmemParser.SelectionSeparated | vmem_parser.c:79-105 | any two selected regions, stack and heap included, are the same range or share no interior point |
| VmemParser.WhichRgn | vmem_parser.c:19-36 | code 1 for the stack, else 2 for the heap, else 4 + i for the first remaining region i, whichever covers the address, both ends included, with the int offset from its start; else 0 and -1 |
| VmemParser.InteriorClassified | vmem_parser.c:19-36 | an address strictly inside a region is classified into that region or one equal to it |
| AddressMap.GetRemoteAddr | vmem_access.c:518-542 | the offset in the stack buffer if it has the address strictly inside, else in the heap buffer, else in the last other buffer that has, added to that region's start; else 0 |
| AddressMap.RemoteIs | vmem_access.c:518-542 | a local address strictly inside a buffer is translated to the same offset of its region |
| AddressMap.TranslatedIff | vmem_access.c:518-542 | an address in a buffer has a remote address exactly if it is not the buffer's first, and then the one at its offset |
| AddressMap.FirstByteLost | vmem_access.c:521-531 | the first byte of a buffer has no remote address, and is restored to NULL unless an absent region has a buffer |
| AddressMap.FirstByteUntranslated | vmem_access.c:521 | a concrete first byte that has no remote address, while the byte behind it has one |
| AddressMap.RestoredIff | frame_dump.c:33-49 | a record is restored to its offset exactly if its region has a buffer and the offset is below 2^31 |
| AddressMap.RecordedAndRestored | frame_dump.c:24 | dumping and restoring keeps the offset, in the first region equal to the variable's, under exactly that condition |
| AddressMap.RecordSpelled | frame_dump.c:20-26 | an interior variable is recorded with code 1, 2 or 4 + n for the stack, the heap or other region n, its offset (below 2^31) and its size |
| AddressMap.UnselectedCopyLosesVariable | frame_dump.c:24-48 | a heap line selected twice by the parser, of which only the other copy has a buffer: the variable is dumped as a heap variable and restored to NULL |
| AddressMap.FarOffsetRestoredBefore | vmem_parser.c:19-27 | in a heap of 4 GiB an offset of 2^31 is restored before the buffer |
| AddressMap.SameRemoteIff | vmem_access.c:518-542 | two addresses inside buffers have the same remote address exactly if they have the same offset in equal regions |
| AddressMap.RoundTripKeepsRemoteIff | frame_dump.c:24-48 | translating out, classifying, rebuilding and translating again gives the same remote address exactly if the first equal region has a buffer and the offset, as an int, leads from it to that offset of a copy of the region; below 2^31 exactly if it has a buffer |
| RemoteHits.RemotesDistinctIff | vmem_access.c:775-786 | a scan of all buffers, with any number of threads, tracks no remote variable twice exactly if no two buffers of equal regions have hits at the same offset |
| RemoteHits.BuffersSpelled | vmem_access.c:775-786 | scanned is every region that has a buffer, from its base over the region's length |
| RemoteHits.MirroredRemotesDistinctIff | vmem_access.c:775-786 | with buffers filled alike exactly if no region with two buffers has a hit behind its first byte |
| AddressMap.DumpRestoreElsewhere | frame_dump.c:24-48 | under another map of the same shape a strictly interior variable is restored to its offset in the region it was recorded with exactly if that region has a buffer there and the offset is below 2^31; it then translates accordingly and is dumped to the same record |
| FrameDump.FillFramedump | frame_dump.c:11-31 | one record per tracked variable, in list order |
| FrameDump.GetLocalAddress | frame_dump.c:33-49 | code 1 is the stack buffer, 2 the heap, 4 + n other buffer n, each plus the offset in 64 bits; NULL without a buffer, and no value outside the table |
| FrameDump.FdToF | frame_dump.c:55-75 | an empty frame tracks the restored variables in record order, exactly if there is a record and all region codes are in the map |
| FrameDump.FrameRestoredElsewhere | frame_dump.c:11-75 | dumping any frame and loading it under another map keeps order, count and sizes, and every strictly interior variable keeps its offset exactly under that condition, whatever the others are |
| FrameFile.Write | frame_dump.c:89-112 | succeeds exactly if the whole dump fits on the disk; otherwise the file holds what fitted |
| FrameFile.Load | frame_dump.c:116-147 | loads what the file holds, nothing if it is shorter than its header announces |
| FrameFile.FileLayout | frame_dump.h:12-20 | bytes 0-15 of a file are the label, 16-19 the type, 20-23 the count, the least significant byte first |
| FrameFile.RecordLayout | frame_dump.h:4-8 | record i starts at byte 24 + 24 i: four bytes of region, from byte 8 on eight of offset, at byte 16 the size |
| FrameFile.EncodeDecode | frame_dump.c:89-147 | a written dump loads as it was, whatever its padding bytes and whatever follows it |
| FrameFile.WrittenLoadsIff | frame_dump.c:89-147 | what a write left behind loads as the dump exactly if the write reported success, else not at all |
| FrameFile.DecodeEncode | frame_dump.c:116-147 | a file that loads is, up to trailing bytes, the encoding of what it loads as; a negative count loads no records |
| FrameFile.FrameThroughFile | frame_dump.c:11-147 | the same with the records encoded and decoded in between |
| DumpCommands.WriteFrameToFdump | frame_dump.c:149-153 | filling and writing: succeeds exactly if the file opens and the dump fits, and leaves what fitted |
| DumpCommands.AddFdumpToM | frame_dump.c:55-86 | loading and rebuilding: a fresh frame with the restored variables and the marked label exactly if there is a record and all region codes are in the map |
| DumpCommands.DumpHasRecordIff | frame_dump.c:62-74 | a complete dump loads with the record that adding it needs exactly if the frame tracked something |
| DumpCommands.CarryOver | frame_dump.c:149-168 | the same for both commands in two runs of the process: any frame that tracks something arrives when writing reported success |
| Matching.NarrowingIsFinding | ashio.c:501-502 | a cached search for a, its last entry replaced by any b containing a and then narrowed by b, is the fresh search for b |
| Matching.ContainsIff | ashio.c:209 | strstr finds the needle exactly if the string is the needle with anything in front and behind |
| Matching.FindIs | ashio.c:196-216 | found are exactly the needle and the dictionary strings that have it anywhere in them |
| Matching.MatchesInOrder | ashio.c:201-211 | the matches of two lists in a row are those of the first, then those of the second |
| Matching.RemovedIff | ashio.c:236-248 | narrowing removes an entry exactly if it has the needle nowhere in it |
| Matching.FindsAtTheEnd | ashio.c:209 | "bc" is found in "abc", which narrowing by "bc" keeps |
| Matching.RecordRemoved | ashio.c:234-248 | the first pass records exactly the indices of the entries without the needle, however often its array grows |
| Matching.NarrowMatches | ashio.c:233-306 | both passes as written, over arbitrary unwritten memory: how many entries are removed, which are copied into which slot, and which slots stay unwritten; they fail on reading an unwritten slot |
| Matching.NarrowedIsFilter | ashio.c:233-306 | the list left is the order-preserving filter exactly if no stale word is the index of a later entry |
| Matching.CopyPassCorrectIff | ashio.c:278-281 | for given index words the copying pass as written returns that filter exactly if the word behind the recorded indices is not the index of a later entry |
| Matching.CopyPassReliableIff | ashio.c:234-281 | it returns that filter for every content of the unwritten words exactly if 200 entries are removed or nothing follows the last removed one |
| Matching.CompletionReliableIff | ashio.c:501-502 | for a completion list, whose last entry is the input, exactly if 200 entries are removed |
| Matching.StaleWordDropsMatch | ashio.c:278-281 | concrete entries and index words for which the pass drops the entry to be kept |
| TabComs.TabCom.Insert | ashio.c:171-188 | the entry is appended, the count of strings kept, and 2 returned exactly when the array grew |
| TabComs.TabCom.Pop | ashio.c:190-193 | the last entry is removed and returned, the count of strings kept |
| TabComs.Dictionary | ashio.c:171-193 | `n_flattened` is the number of strings in all entries |
| TabComs.TabCom.FindMatches | ashio.c:196-216 | found are exactly the dictionary strings that are the needle with anything in front and behind, in order, then the needle, then NULL, always within the n_flattened + 2 words allocated |
| TabComs.StringsAre | ashio.c:203-207 | string j of an entry starts j block sizes and the offset behind its data, or is pointed to from there when blocks have eight bytes |
| LineEditor.GetlineRaw | ashio.c:53-139 | for all keys the buffer holds the edited line, zero-terminated within its capacity; it reports tab, and cancelling returns none |
| LineEditor.EditLineKeys | ashio.c:76-132 | by key code: 13 enters the line, 9 is a tab, 3 cancels, 8 and 127 take a character back if there is one, every other is appended |
| LineEditor.DeleteKeyDeletes | ashio.c:95 | an input: a, b, 127, Enter is the line a |
| LineEditor.EditLineIsFold | ashio.c:76-132 | the line read is the fold of appends and deletions over the base text |
| LineEditor.DeletingUndoesTyping | ashio.c:93-111 | deleting as often as was typed restores the base text |
| TabComplete.NextPreviousInverse | ashio.c:547-558 | next and previous undo each other from every entry, wrap-around included |
| TabComplete.CycleKeys | ashio.c:531-613 | by key code while an entry is shown: 13 chooses it, 3 cancels, 8 and 127 start over from it without its last character, any other but the movement keys starts over with the key appended |
| TabComplete.AfterShownKeys | ashio.c:531-613 | the same keys on the list as written: a deletion searches afresh, any other key overwrites the last slot and narrows |
| TabComplete.NextChooses | ashio.c:531-550 | moving on j times and Enter chooses the j-th entry from the one shown |
| TabComplete.PreviousChoosesLast | ashio.c:551-558 | back from the first entry is the last one |
| TabComplete.TabNextEnter | ashio.c:479-550 | tab behind any line, next j times and Enter choose the j-th string found for that line |
| TabComplete.ExtendsIff | ashio.c:497-502 | a tab narrows the list at hand exactly if it was made for a line that is not empty and that the present one starts with |
| TabComplete.NarrowList | ashio.c:498-502 | the last entry is overwritten, written or not, and the list narrowed; it fails exactly if another slot was never written |
| TabComplete.CycleMatches | ashio.c:517-620 | the selection loop with its pointer into the list reads, shows and ends as cycling through the slots of that list |
| TabComplete.LowComp | ashio.c:468-630 | for all keys, with no list at hand, one narrowed in place or one still searched for by a thread, over arbitrary unwritten memory and whatever lies behind the copy that lacks its zero (`ashio.c:612-613`), it reads and ends as the recursive form |
| Screens.UndefinedIff | ashio.c:569-582 | completion writes before its buffer exactly if some key deletes while an empty entry is on display |
| Screens.EmptyEntryIff | ashio.c:196-216 | a match list has an empty entry exactly if it was searched for an empty line |
| Screens.DefinedWithoutEmptySearch | ashio.c:479-582 | unless tab is pressed on an empty line completion never writes before its buffer |
| Screens.EmptySearchSlips | ashio.c:551-582 | whatever led to an empty line, tab, previous and backspace write before the buffer |
| Screens.AlwaysDefinedIff | ashio.c:479-582 | of any set of sessions that allows those two keys after a tab, none is undefined exactly if none searches an empty line |
| Screens.TabPreviousDelete | ashio.c:551-582 | an input: tab, previous, backspace, on every dictionary |
| Screens.TabDelete | ashio.c:569-582 | an input: tab, backspace, on the empty dictionary |
| StalePass.SteadySlot | ashio.c:278-281 | a steady slot of a narrowed list holds the right entry whatever unwritten memory holds |
| StalePass.UnsteadySlot | ashio.c:278-281 | any other slot holds a wrong entry, or none, over some memory |
| StalePass.LoseRun | ashio.c:278-281 | some memory loses any run of entries behind the last removed one for which words are left before the sentinel |
| RawNarrowing.SteadyReads | ashio.c:468-630 | a session that reads steady slots only reads the right entries and ends as the reference that searches afresh, over any memory |
| RawNarrowing.UnsteadyReads | ashio.c:468-630 | one that reads another slot does not, over some memory |
| RawNarrowing.ReliableIff | ashio.c:468-630 | over all sessions: whatever memory holds it reads the right entries and ends as the reference exactly if all slots it reads are steady |
| RawNarrowing.HarmlessIsReference | ashio.c:235-281 | so it does over memory in which no stale word is an index, for every session |
| RawOutcomes.OutcomesReliableIff | ashio.c:468-630 | any set of sessions in which the user may look back in the list and choose ends as the reference over any memory exactly if all slots it reads are steady |
| RawSessions.NoTabNarrowingIsReliable | ashio.c:498-502 | a session that never narrows at a tab ends as the reference over any memory |
| RawSessions.TabLetterTabDamaged | ashio.c:498-528 | a session of three keys that reads the slot of its lost input |
| RawSessions.WrongEntryChosen | ashio.c:498-541 | a session of four keys that chooses another entry than was meant |
| TabComplete.Run | ashio.c:635-644 | completion from an empty line reads and ends as that form for every key sequence |

## Left out

- Searching.NarrowMemMap: runs the threads one after the other; `Splice` and `InitialScan.ThreadedIsSequential` cover the other interleavings, on values rather than on heap objects.
- Searching.NarrowSubroutine: undisturbed by other threads; with them it is a worker of `Splice`.
- Frames.NarrowFrame.CombineFrameVar: its exchange meets no other thread and so succeeds at once; the retry loop is in `Splice`.
- Sessions.Session: scans run their threads one after the other on the heap objects; `Sessions.SessionAnyInterleaving` says on values that any interleaving gives the same lists up to order.
- Splice.SharedListSafe: a list node is named by a number and all nodes exist from the start; allocation inside a thread is not modelled. `insert_frame_var` is its one-node case.
- Matching.NarrowMatches: reading behind the index array yields whatever memory holds there; it never faults.
- AddressMap.GetRemoteAddr: buffer addresses are numbers without wrap-around, and `other` is a table with one entry per remaining region; a map whose table was never allocated is dereferenced by the source and not modelled.
- FrameDump.FdToF: what it leaves in the frame when it writes through a node that was never made is not modelled.
- FrameFile.Write: the stream is unbuffered; the source ignores the result of `fclose`, where a buffered stream would report a full disk. `DumpCommands.WriteFrameToFdump` adds the failure to open.
- DumpCommands.AddFdumpToM: the map is populated already.
- TabComs.TabCom.Insert: a string or a pointer in the caller's memory is found by its address alone; bytes and the ends of arrays are not modelled.
- TabComplete.LowComp: the search started in another thread after a deletion runs when it is joined; nothing it reads changes meanwhile. What the program does after reading a slot that was never written is not modelled.
- LineEditor.GetlineRaw: typed NUL characters, end of input, terminal modes, redrawing, the `ignore` loop and the per-key routine are not modelled; running out of keys is the result `LineWaiting`.
- Counters such as `n_tracked`, `undo_depth` and the thread count's products are unbounded integers; only `len` (8 bits), the offset of `which_rgn` (32 bits) and the words of the dump file wrap.
- A comparison that would read behind the end of the snapshot counts as a mismatch; the source would read foreign memory.
- Failing allocations, freeing memory, and records that leak when recycled or undone.
- Reading and writing the other process, mapping files, `/proc` parsing below the level of map lines, and the population of buffers; the snapshot is a parameter.
- Frame labels, `frame_search`, `current_type`, the renaming of a loaded frame, disk variables beyond their slots, value parsing, the memory-lock functions and `tab_complete_internal` (compiled out).
