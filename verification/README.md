# A verified model of the SQL engine's core

A Dafny model of the parts of the C99 SQL engine that are hardest to get right, with proofs of
what each part promises. `dafny verify dfyconfig.toml` checks the whole project.

## How it is laid out

| part | modules | models |
|---|---|---|
| crash-safe paging | `Wal`, `Pool`, `BufferPool`, `CrashSafety`, `Commits`, `Checkpoint`, `Pins`, `PageIds` | the write-ahead log, the CLOCK buffer pool, transactions; a step machine with crashes over them |
| indexes | `Values`, `IndexKeys`, `BTree`, `BTreePages`, `IndexTree`, `IndexScan` | stored keys, the B+ tree as a value, the same tree spelled out in pages, scans |
| heap storage | `Records`, `SlottedPage`, `HeapFile`, `HeapStore` | the record codec, one page's bytes, positions, the heap |
| tables | `Agreement`, `Tables`, `AccessPath`, `Statements` | a heap with its indexes, collectRows, INSERT, DELETE, UPDATE, CREATE INDEX, VACUUM |
| conditions | `LikePatterns`, `Conditions` | LIKE, expressions, three-valued conditions, what the AND spine implies |
| joins | `Joins`, `NestedLoop`, `ProbeTable`, `Hashing`, `HashJoin` | FROM lists, the nested loop, open addressing, the hash join |
| grouping and order | `Grouping`, `Ordering`, `TopN`, `OrderBy`, `SortResult` | GROUP BY, DISTINCT, the comparator, the bounded heap, the in-place sort |
| the rest of the file format | `CatalogChain`, `Dates` | the catalog's page chain, civil dates |
| sessions | `Sessions` | the reader-writer lock held across statements |
| shared | `Common` | page sizes, limits, `Option` and `Result` |

Where the engine updates things in place the model does too: the buffer pool, the index, the
heap, the table, the group table and the catalog's page store are classes; heap pages, the
join's row buffer, result rows, sort keys and bucket tables are arrays; and each method's
postcondition is a function of the old state or the property itself. Concurrency and crashes are
state machines, with the theorems stated over whole runs.

## What is taken as given

- A crash keeps any prefix of the un-synced log followed by a torn tail, and may leave anything in
  a page written since the last fsync. The header write and the truncation of the log each happen
  or do not. A checksum tells a whole log frame from a torn one without fail.
- No allocation and no I/O fails, and a reader-writer lock is one.
- Integers are mathematical except where the engine's width shows: arithmetic in expressions is
  checked against 32 bits, hashes wrap, words in pages are 4 bytes, a text's length is 2.
- Values are ints, dates, texts and NULLs. Texts are bytes without NUL where they meet a C string.
- Condition and expression pools have every edge pointing to a smaller index, and the semantic
  stage has bound columns to existing slots and literals to their column's type.
- An ON reads only tables up to its own, a result column holds one type, and the catalog's page
  list on disk is acyclic.
- `hash & mask` is written as a remainder; that every bucket count is a power of two is proved.

## What does not hold as one might expect

- A checkpoint writes out dirty pages that are in no log (`DatabaseEngine/14_pool.c:805-812`).
  `Checkpoint.CheckpointSafeIff` says exactly when that is harmless; the controller arranges it by
  committing after every successful write. A statement that fails half way does not meet it, and
  its changes reach the file at the next BEGIN (`Checkpoint.FailedStatementIsKept`, a run).
- UNIQUE survives an UPDATE exactly when the new versions differ among themselves: the engine looks
  for equal literals only, so a computed SET can make two rows equal (`Statements.UniqueAfterUpdate`,
  `Statements.LiteralsKeepUnique`, `Statements.ComputedSetCollides`).
- A join's scratch pages are allocated and freed outside any commit, and a checkpoint then records
  the larger page count; this is why `CrashSafety.CrashAtomicity` lets that one number move.
- heapInsert's guard is written with PAGE_SIZE and is 8 bytes loose: a record of 8169 to 8176 bytes
  is accepted and overlaps its own slot (`SlottedPage.GuardIsLoose`, `SlottedPage.OversizeIsLost`),
  and the heap is sound after an insert exactly when that did not happen (`HeapStore.Heap.Insert`).
- The hash join's comment promises the nested loop's order only for unique build keys
  (`DatabaseEngine/06_executor.c:2472-2473`). It keeps it always (`HashJoin.Join`).
- dateToText reduces the year through an unsigned word, so it and textToDate undo each other for
  years 0000 to 9999 and for no others (`Dates.DateRoundTripIff`).
- IN over a list is an OR of equalities; that this is IN needs the list to have the left side's
  type, which the semantic stage sees to (`Conditions.InListIsOr`).

## Model

| member | source | states |
|---|---|---|
| `Wal.ReplayAt` | DatabaseEngine/15_wal.c:350-366 | replaying frames in order leaves a page that is in the log with its newest image there, and every other page as the file had it |
| `Wal.CommittedPrefix` | DatabaseEngine/15_wal.c:299-327 | the frames recovery applies: a prefix that ends in a commit marker, with no marker after it |
| `Wal.WriteFrames` | DatabaseEngine/15_wal.c:350-366 | the second pass of recovery writes exactly the replay of the frames up to the last marker |
| `Wal.Recover` | DatabaseEngine/15_wal.c:278-393 | the two-pass loop (lastGood, finalPages, finalRoot) computes the replay of the committed prefix with the header of its marker, and touches nothing when no marker survived |
| `Wal.RecoveryRestarts` | DatabaseEngine/15_wal.c:270-393 | a recovery interrupted anywhere - any of the pages it writes torn, the header old or new - ends in the same file when it is run again |
| `Pool.SweepAcquires` | DatabaseEngine/14_pool.c:444-483 | a sweep that finds a frame hands out one that was empty or unpinned with nothing the log lacks, writes its page out if dirty, and touches nothing else but reference bits and the hand; one that finds none has only moved those |
| `Pool.SweepFinds` | DatabaseEngine/14_pool.c:444-483 | a sweep with enough ticks left to reach an evictable frame - a second turn if its reference bit is set - finds a frame |
| `Pool.SecondChance` | DatabaseEngine/14_pool.c:449-474 | the hand takes the first frame it comes to that may be taken as it is, so a frame whose reference bit is set outlives the sweep while there is another |
| `Pool.GrowsOnlyWhenFull` | DatabaseEngine/14_pool.c:444-483 | two sweeps grow the pool if and only if no frame is empty or evictable |
| `BufferPool.BufferPool.AcquireFrame` | DatabaseEngine/14_pool.c:444-483 | the CLOCK loop over the fields computes exactly `Pool.Acquire` |
| `BufferPool.BufferPool.Tick` | DatabaseEngine/14_pool.c:449-474 | one tick of the hand either takes the frame under it, flushing it if dirty, or passes it over and clears its reference bit |
| `BufferPool.BufferPool.Pin` | DatabaseEngine/14_pool.c:493-552 | pinning computes `Pool.PinPage`: the resident frame, or the page read into an acquired one, or -1 for a page that is not there |
| `BufferPool.BufferPool.Unpin` | DatabaseEngine/14_pool.c:589-602 | unpinning never takes the count below zero, and a dirty unpin also withdraws the logged mark |
| `Pins.PinsAreCounted` | DatabaseEngine/14_pool.c:493-602 | over every run, the pin count in a frame is the number of pins of its page not yet given back |
| `Pins.PinnedStays` | DatabaseEngine/14_pool.c:444-483 | over every run, while a pin of a page is outstanding the page stays in its frame, that frame is handed to nobody, and it shows what was last written |
| `Pins.PinHolds` | DatabaseEngine/14_pool.c:486-492 | one reader among many: from its pin on, while the others give back no more than they take, the same |
| `Pins.PinReferences` | DatabaseEngine/14_pool.c:500-547 | a page found in the pool gains its reference bit, one read in does not |
| `Pins.TouchedIsSpared` | DatabaseEngine/14_pool.c:449-474 | a page touched again is not the next to be evicted while any other frame may be taken |
| `BufferPool.BufferPool.Allocate` | DatabaseEngine/14_pool.c:639-660 | a zeroed dirty page under the last freed id, or under a new one, with the directory grown to hold it |
| `BufferPool.BufferPool.Free` | DatabaseEngine/14_pool.c:666-691 | the frame is emptied, the directory entry cleared and the id kept for reuse |
| `PageIds.FreedIsReused` | DatabaseEngine/14_pool.c:639-691 | freeing a page and allocating one gives that page back and leaves the list and the size as they were |
| `PageIds.NoIdIsLost` | DatabaseEngine/14_pool.c:639-691 | over every run from a file with no holes, up to a rollback or a crash: each id is in use or on the free list and never both |
| `PageIds.StepAccounts` | DatabaseEngine/14_pool.c:639-660 | the file grows only when no freed id is left |
| `BufferPool.BufferPool.Commit` | DatabaseEngine/14_pool.c:752-793 | the two loops of a commit append one frame per unlogged page with the marker on the last of them, sync, and only then mark the pages logged; nothing happens when nothing is unlogged |
| `Commits.CommitIsSteps` | DatabaseEngine/14_pool.c:752-793 | the one call ends in the state that appending, syncing and only then marking lead to, with the invariant kept |
| `Commits.NothingUnlogged` | DatabaseEngine/14_pool.c:780-792 | when a commit returns the whole log is synced and no page is waiting for it |
| `Commits.CommitIsDurable` | DatabaseEngine/14_pool.c:746-793 | once a commit has returned, every crash recovers every page as last written; the page count and root come with them if and only if a page was unlogged or neither had changed |
| `Commits.CommitEndsRun` | DatabaseEngine/14_pool.c:746-793 | the same after every run |
| `BufferPool.BufferPool.Checkpoint` | DatabaseEngine/14_pool.c:800-823 | every dirty frame is written, then the header, then the file is synced and the log emptied |
| `BufferPool.BufferPool.Rollback` | DatabaseEngine/14_pool.c:350-366 | every dirty frame is forgotten and the page count taken back, never forward |
| `BufferPool.BufferPool.Adopt` | DatabaseEngine/14_pool.c:254-263 | a pool that has adopted a file has nothing resident, nothing free and the file's own size and root |
| `CrashSafety.AcquiredKeepsWriteAhead` | DatabaseEngine/14_pool.c:460-474 | an eviction writes only pages the log has an image of, so the write-ahead rule survives it |
| `CrashSafety.OneMarker` | DatabaseEngine/14_pool.c:757-778 | of the frames a commit appends, the last carries the marker and no other does |
| `CrashSafety.CommitFramesLog` | DatabaseEngine/14_pool.c:766-778 | the frames a commit appends hold exactly the unlogged pages, each with the bytes its frame has |
| `CrashSafety.AppendHolds` | DatabaseEngine/14_pool.c:752-793 | once its frames are in the log, everything a commit covers is recoverable from the log and whatever a crash leaves of the file |
| `CrashSafety.MarkerDecides` | DatabaseEngine/15_wal.c:299-327 | how far a surviving log commits to: through its last frame if the in-flight marker survived, and otherwise to the last synced commit |
| `CrashSafety.CrashShows` | DatabaseEngine/15_wal.c:278-393 | in any reachable state and for any crash, recovery shows the database the machine promises |
| `CrashSafety.PinKeeps` | DatabaseEngine/14_pool.c:493-552 | pinning a live page shows the bytes last written to it, and keeps the invariant |
| `CrashSafety.AllocateKeeps` | DatabaseEngine/14_pool.c:639-660 | an allocated id belongs to no live page, and the invariant holds with the new page in it |
| `CrashSafety.SyncLogKeeps` | DatabaseEngine/14_pool.c:780-792 | syncing the log turns the appended commit into the committed database |
| `CrashSafety.FlushKeeps` | DatabaseEngine/14_pool.c:805-815 | a checkpoint that is safe to start leaves every committed page recoverable while its writes are in flight |
| `CrashSafety.TruncateKeeps` | DatabaseEngine/14_pool.c:817-823 | dropping the log after the file is synced leaves the file alone holding the database |
| `CrashSafety.StepKeeps` | DatabaseEngine/14_pool.c:444-823 | every step - pin, unpin, write, allocate, free, append, sync, flush, truncate, begin, end, rollback, crash and recovery - keeps the invariant: directory and frames mutually inverse, clean frames equal to the file, live pages readable, the write-ahead rule |
| `CrashSafety.RunKeeps` | DatabaseEngine/14_pool.c:444-823 | the invariant holds in every state of every run |
| `CrashSafety.CrashAtomicity` | DatabaseEngine/14_pool.c:752-823 | over every run and every crash point: recovery yields exactly the pages, page count and root of the last synced commit, or of the in-flight one if and only if its marker frame survived; a checkpoint in flight may have moved the recorded page count and nothing else |
| `CrashSafety.Transparency` | DatabaseEngine/14_pool.c:493-552 | over every run, pinning a live page returns a frame with the bytes last written to that page |
| `CrashSafety.TransactionLeavesFile` | DatabaseEngine/14_pool.c:460-462 | no step inside a transaction changes the file or its un-synced part |
| `CrashSafety.RollbackKeeps` | DatabaseEngine/12_persist.c:1114-1141 | ROLLBACK: every page BEGIN knew reads as it did, size and root are back, and the durable file is untouched |
| `CrashSafety.RollbackRestores` | DatabaseEngine/12_persist.c:1080-1141 | over every run from a BEGIN through any writes, allocations and frees to its ROLLBACK, the file never changes and every page ends as it was at BEGIN |
| `CrashSafety.CrashUndoesTransaction` | DatabaseEngine/12_persist.c:1062-1073 | over every run, a crash anywhere inside a transaction recovers to the pages, size and root BEGIN found |
| `Checkpoint.CheckpointSafeIff` | DatabaseEngine/14_pool.c:800-823 | a checkpoint of an idle pool loses nothing to any crash if and only if the pool shows every committed page and each of those that is dirty has an image in the log |
| `Checkpoint.ReadyIsSafe` | DatabaseEngine/10_controller.c:141-152 | a pool in which no committed page has been freed, overwritten or left unlogged meets that condition |
| `Checkpoint.CommitReadies` | DatabaseEngine/10_controller.c:141-152 | committing each successful write before returning puts the pool in that state |
| `Checkpoint.ScratchStaysReady` | DatabaseEngine/10_controller.c:145-150 | reading, and writing or freeing a join's scratch pages, keeps it there |
| `Checkpoint.FailedStatementIsKept` | DatabaseEngine/12_persist.c:1080-1092 | without it the property fails, for every file and every page of it: the run that opens the file, pins the page and changes it without committing ends outside that condition, and the checkpoint BEGIN makes there puts the uncommitted bytes in the durable file |
| `Values.SameIsEqual` | DatabaseEngine/07_storage.c:889-919 | equality without an order and the order agree: valuesSame holds exactly when compareValues is 0 |
| `Values.CompareIsLower` | DatabaseEngine/07_storage.c:874-901 | compareValues is the order of the values: numbers and dates by size, texts by the first byte that differs, unsigned, and then by length |
| `Values.GroupedAlike` | DatabaseEngine/07_storage.c:919-933 | for grouping two values are equal exactly when they are the same value or both NULL |
| `IndexKeys.CompareIsRank` | DatabaseEngine/11_index.c:285-316 | compareKeys is the order of the integers the stored keys stand for, so it is a total preorder; two texts cut at the same length tie whatever their real lengths |
| `IndexKeys.MakeKeyMonotone` | DatabaseEngine/11_index.c:174-212 | cutting a text to 40 bytes is monotone with the full text order |
| `IndexKeys.MakeKeyExact` | DatabaseEngine/11_index.c:174-212 | stored keys order numbers and dates exactly as their values, and texts exactly as their first 40 bytes |
| `BTree.InsertOk` | DatabaseEngine/11_index.c:598-649 | inserting keeps keys sorted, separators bounding their subtrees (left <= separator <= right), uniform depth, and every non-root node between (order-1)/2 and order-1 keys |
| `BTree.InsertEntries` | DatabaseEngine/11_index.c:505-649 | whatever splits on the way, the entries read left to right gain exactly the new one, at the lower bound of its key |
| `BTree.InsertRootOk` | DatabaseEngine/11_index.c:651-684 | the same at the root, with a new root raised when it splits |
| `BTree.BuildOk` | DatabaseEngine/11_index.c:472-684 | over every insertion sequence, duplicates included: the tree is sound, its entries are sorted, and as a multiset they are the entries inserted |
| `BTreePages.InsertOwns` | DatabaseEngine/11_index.c:320-337 | new nodes take unused pages, old nodes keep theirs and no page is shared |
| `BTreePages.InsertFirstLeaf` | DatabaseEngine/11_index.c:505-538 | splits only ever add a leaf to the right, so the leftmost leaf keeps its page |
| `IndexTree.LowerBoundIn` | DatabaseEngine/11_index.c:472-490 | the binary search returns the first position whose key is not below the search key |
| `IndexTree.Index.InsertIntoLeaf` | DatabaseEngine/11_index.c:505-596 | the leaf page, and on a split the new right page chained in after it, are the pages of the tree that `BTree.Insert` produces |
| `IndexTree.Index.SplitInternal` | DatabaseEngine/11_index.c:544-578 | an overfull internal page becomes two pages and the separator that moves up between them |
| `IndexTree.Index.InsertInto` | DatabaseEngine/11_index.c:598-649 | the recursive insert writes exactly the pages of the tree `BTree.Insert` produces, including the leaf chain |
| `IndexTree.Index.Add` | DatabaseEngine/11_index.c:651-684 | an index on pages stays valid - its pages spell a sound tree whose leaf chain lists exactly the leaves left to right - and gains exactly the entry of a value that is not NULL |
| `IndexTree.FreeSubtree` | DatabaseEngine/11_index.c:339-367 | the pages given back are exactly the pages of the tree, each once |
| `IndexTree.Index.Clear` | DatabaseEngine/11_index.c:1007-1021 | an index emptied for a rebuild has given back every page of its tree and is one empty leaf |
| `IndexScan.StopIsFinal` | DatabaseEngine/11_index.c:849-853 | keys ascend, so once a scan may stop nothing later could have been taken |
| `IndexScan.SeekLeaf` | DatabaseEngine/11_index.c:726-744 | the descent reaches a leaf with every entry of the leaves before it strictly below the search key |
| `IndexScan.LeftmostLeaf` | DatabaseEngine/11_index.c:704-721 | the other descent reaches the first leaf |
| `IndexScan.Walk` | DatabaseEngine/11_index.c:835-880 | walking the chain from there returns the rows of exactly the entries the test takes among all entries of the tree, in key order, and reports a full table exactly when there are more than fit |
| `IndexScan.Scan` | DatabaseEngine/11_index.c:752-880 | both scans: exactly the entries the test takes, each once and in key order |
| `IndexScan.ScanNeverMisses` | DatabaseEngine/11_index.c:823-880 | for =, <, <=, > and >=, the stored key of every value that satisfies the comparison is one the scan takes, however short it was cut |
| `IndexScan.PrefixScanNeverMisses` | DatabaseEngine/11_index.c:752-810 | a text that starts with the prefix has a stored key the prefix scan takes, even when the prefix is longer than a key |
| `IndexScan.ScanTakesOnly` | DatabaseEngine/11_index.c:823-880 | an entry a scan takes satisfies the comparison or ties with its literal as a stored key; for =, <= and >= on numbers and dates it always satisfies it |
| `IndexScan.PrefixScanTakesOnly` | DatabaseEngine/11_index.c:752-810 | a prefix scan takes exactly the stored keys that start with what it searches for |
| `LikePatterns.LikeMatch` | DatabaseEngine/06_executor.c:264-292 | the matcher that backtracks only to the last % terminates and agrees with the recursive meaning of % and _ on every text and pattern a C string can hold |
| `LikePatterns.MatchesIffAligned` | DatabaseEngine/06_executor.c:258-292 | that recursive meaning is: the text can be dealt out in order among the pattern's bytes, any run to a %, one byte to a _, and an equal byte to every other |
| `LikePatterns.LikePrefix` | DatabaseEngine/06_executor.c:298-310 | the copied prefix is the pattern's literal head, and every text the pattern matches begins with it |
| `Conditions.DivisionIsExact` | DatabaseEngine/17_expr.c:294-335 | / and % fail together, on a zero divisor and on the one quotient too large for an int, and otherwise are C's truncating division and its remainder |
| `Conditions.BinaryIs` | DatabaseEngine/17_expr.c:373-425 | the first operand that fails decides, then NULL; of two ints the value is the exact sum, difference, product, quotient or remainder of the left with the right, or an error exactly when an int cannot hold it or the divisor is zero |
| `Conditions.NegateIs` | DatabaseEngine/17_expr.c:373-425 | minus negates every int but the least, which is out of range |
| `Conditions.ComparesByValue` | DatabaseEngine/06_executor.c:319-373 | =, <, <=, > and >= follow the order of the values, and every comparison with NULL or across types is UNKNOWN |
| `Conditions.Opposites` | DatabaseEngine/06_executor.c:319-373 | <> is NOT of =, NOT LIKE of LIKE, IS NOT NULL of IS NULL, >= of < and <= of > |
| `Conditions.ThreeValued` | DatabaseEngine/06_executor.c:447-473 | AND is the lesser of its degrees of truth, OR the greater, and NOT reverses the scale |
| `Conditions.KnownIsCertain` | DatabaseEngine/06_executor.c:408-473 | a TRUE or FALSE verdict holds in two-valued logic whichever way each unknown comparison is guessed |
| `Conditions.UncomputableIsUnknown` | DatabaseEngine/06_executor.c:408-446 | an operand that cannot be computed makes its comparison UNKNOWN |
| `Conditions.SubqueryCompares` | DatabaseEngine/06_executor.c:428-440 | a subquery in a comparison stands for its one value, or for NULL when it returned none |
| `Conditions.VerdictIgnoresNullType` | DatabaseEngine/06_executor.c:408-473 | the type a NULL carries, which a record does not keep, changes no verdict |
| `Conditions.ValueInResult` | DatabaseEngine/06_executor.c:386-406 | IN over a subquery: a match is TRUE, no match among values with a NULL is UNKNOWN, otherwise FALSE |
| `Conditions.InListIsOr` | DatabaseEngine/04_parser.c:448-455 | rewriting IN over a list into an OR of equalities gives the same three-valued answer |
| `Conditions.ExprReadsOnlyTo` | DatabaseEngine/17_expr.c:270-290 | an expression gives the same result on two rows that agree as far as exprDeepest says it reads |
| `Conditions.ConditionDeepest` | DatabaseEngine/06_executor.c:516-534 | the least bound on the columns any comparison in the pool reads |
| `Conditions.ConditionReadsOnlyTo` | DatabaseEngine/06_executor.c:408-473 | a condition gives two rows that agree up to that bound the same verdict |
| `Conditions.FindIndexableLeaf` | DatabaseEngine/06_executor.c:541-579 | what it finds is a comparison of an indexed column with a literal, by an operator a tree can be searched by |
| `Conditions.LeafFound` | DatabaseEngine/06_executor.c:541-579 | it finds one if and only if the AND spine has one |
| `Conditions.LeafNarrows` | DatabaseEngine/06_executor.c:541-579 | when the whole condition is TRUE of a row, so is the comparison chosen from its AND spine |
| `Conditions.EquiJoinNeeded` | DatabaseEngine/06_executor.c:2416-2462 | when the condition is TRUE of a combined row, the two columns of the chosen equality hold the same value and it is not NULL |
| `Conditions.EquiJoinFound` | DatabaseEngine/06_executor.c:2416-2462 | an equality is chosen if and only if the AND spine has one between the two tables, and it is that one's columns |
| `Joins.AddConditionSpine` | DatabaseEngine/04_parser.c:783-805 | each condition added extends the AND spine by exactly that part |
| `Joins.SpineHolds` | DatabaseEngine/04_parser.c:783-805 | the combined condition is TRUE exactly when every part is |
| `Joins.ChainIsJoins` | DatabaseEngine/06_executor.c:2300-2387 | testing every inner ON only at the innermost level and a LEFT JOIN's at its own gives the rows, in order, of the joins done one at a time and then filtered, with NULLs exactly where an outer join found no partner |
| `NestedLoop.JoinTables` | DatabaseEngine/06_executor.c:2300-2387 | the recursion over one shared row buffer appends exactly the rows of `Joins.JoinFrom`, although the buffer holds leftovers past the levels already filled |
| `ProbeTable.ProbeEnds` | DatabaseEngine/06_executor.c:2539-2563 | a table with more buckets than entries has an empty one, so no probe goes all the way round |
| `ProbeTable.Store` | DatabaseEngine/06_executor.c:2556-2563 | insert-only linear probing puts an entry behind nothing but older entries and disturbs none of them |
| `ProbeTable.WalkPicks` | DatabaseEngine/06_executor.c:2581-2588 | walking from a hash's own bucket to the first empty one meets every entry of that bucket, once each and in the order they were added |
| `HashJoin.BuildEntries` | DatabaseEngine/06_executor.c:2501-2537 | one entry per build row with a key, in scan order; NULL keys contribute nothing |
| `HashJoin.BuildBuckets` | DatabaseEngine/06_executor.c:2539-2563 | a power-of-two table with room to spare in which every entry can be found |
| `HashJoin.Probe` | DatabaseEngine/06_executor.c:2571-2612 | one probe row yields exactly the pairs the nested loop yields for it, in the same order |
| `HashJoin.Join` | DatabaseEngine/06_executor.c:2482-2623 | for every two-table inner join whose AND spine holds a cross-table column equality, the same sequence of rows as the nested loop, whether or not the build keys are unique |
| `Hashing.EqualKeysHashAlike` | DatabaseEngine/06_executor.c:60-112 | keys that are equal for grouping hash alike, NULLs of any type included |
| `Grouping.ApplyDistinct` | DatabaseEngine/06_executor.c:2230-2280 | rows packed forward in place: what is left is exactly the first occurrence of each row, in order |
| `Grouping.FirstSeenDiffer` | DatabaseEngine/06_executor.c:2230-2280 | no two of the rows kept are equal |
| `Grouping.FirstSeenAre` | DatabaseEngine/06_executor.c:2230-2280 | the rows kept are those at exactly the positions no earlier equal row has, in ascending order |
| `Grouping.GroupTable.FindGroup` | DatabaseEngine/06_executor.c:1507-1531 | the group whose key equals this one, or -1 exactly when there is none; the probe ends |
| `Grouping.GroupTable.Rehash` | DatabaseEngine/06_executor.c:1535-1559 | the table doubles and every group is still findable |
| `Grouping.GroupTable.Reserve` | DatabaseEngine/06_executor.c:1562-1593 | with one more group the table is still less than two thirds full |
| `Grouping.GroupTable.AddGroup` | DatabaseEngine/06_executor.c:1595-1604 | a key that has no group gets the next number, and every other group stays findable |
| `Grouping.GroupRows` | DatabaseEngine/06_executor.c:1743-1772 | groups come out in first-seen order, and two rows share one exactly when their keys are equal |
| `Ordering.CompareLaws` | DatabaseEngine/06_executor.c:1965-1995 | comparing rows by several terms, each up or down and NULLs first, is antisymmetric and transitive |
| `Ordering.CompareRowsMeans` | DatabaseEngine/06_executor.c:1965-1995 | in terms of values: a row goes first when, at the first term that tells the two apart, it has the lower value ascending or the higher descending, NULL lowest of all |
| `Ordering.SortCompareIsBefore` | DatabaseEngine/06_executor.c:1975-1995 | the comparator that carries the first value in the key orders keys as the rows are ordered, ties by arrival, and equates no two rows |
| `Ordering.StableOrderIs` | DatabaseEngine/06_executor.c:2080-2144 | the reference sort lists every row once, each before all it comes before |
| `Ordering.StableOrderByValues` | DatabaseEngine/06_executor.c:2080-2144 | of any two rows of the sorted result the earlier goes first by values, and where no term tells them apart they stand as they arrived |
| `TopN.SiftDown` | DatabaseEngine/06_executor.c:2011-2032 | the subtree becomes a heap again with the same keys in it and nothing beyond it touched |
| `OrderBy.BuildHeap` | DatabaseEngine/06_executor.c:2049-2050 | sifting the inner nodes from last to first makes a heap of the first k keys |
| `OrderBy.KeepBest` | DatabaseEngine/06_executor.c:2045-2058 | after the pass over the rest, the heap holds k distinct rows that come before every row left out |
| `SortResult.Pack` | DatabaseEngine/06_executor.c:2060-2073 | packing forward puts at place j the row key j names, for every j |
| `SortResult.SelectTop` | DatabaseEngine/06_executor.c:2045-2073 | the best k rows, in arrival order, at the front of the result |
| `SortResult.SortOfBest` | DatabaseEngine/06_executor.c:2034-2044 | sorting only those gives the first k rows of the sort of all |
| `SortResult.FollowCycle` | DatabaseEngine/06_executor.c:2125-2140 | following one cycle settles every place on it and disturbs no other, and ends |
| `SortResult.Permute` | DatabaseEngine/06_executor.c:2118-2141 | every row ends where the sort puts it, none lost and none doubled |
| `SortResult.ApplyOrder` | DatabaseEngine/06_executor.c:2080-2144 | for every result, terms and limit: the result is left holding exactly the first rows of the stable sort by all the terms, which is in order by the values themselves, each term in its own direction |
| `Records.RecordSize` | DatabaseEngine/07_storage.c:187-203 | the measured size is the length of the encoding |
| `Records.WriteRecord` | DatabaseEngine/07_storage.c:205-240 | the encoding of the row, where the caller says, and no other byte |
| `Records.ReadRecord` | DatabaseEngine/07_storage.c:242-280 | reading a record back gives the row that was written, up to the type of a NULL |
| `Records.DecodeRecord` | DatabaseEngine/07_storage.c:518-566 | the columns asked for, as written, over a buffer whose other slots keep what they held |
| `SlottedPage.InsertKeeps` | DatabaseEngine/07_storage.c:448-480 | a record with room for itself and its slot overlaps no other record, slot, header or trailer, and disturbs none of them |
| `SlottedPage.DeleteKeeps` | DatabaseEngine/07_storage.c:769-784 | a tombstone leaves every other slot and record as it was |
| `SlottedPage.GuardIsLoose` | DatabaseEngine/07_storage.c:437-438 | of the sizes the guard lets through, the layout of a new page holds exactly for those of at most 8168 bytes |
| `SlottedPage.OversizeIsLost` | DatabaseEngine/07_storage.c:437-480 | a longer one is overlapped by its own slot, and reads back with its own number of columns if and only if it has 8 columns and the longest size, 8176 bytes |
| `SlottedPage.OversizeExample` | DatabaseEngine/07_storage.c:437-480 | one text column of 8163 bytes is such a row: accepted at 8169 bytes, and not one column when read |
| `HeapFile.AddedFacts` | DatabaseEngine/07_storage.c:433-488 | an insert returns a position that was no slot, puts the row there, changes no other position and extends the scan order by that one |
| `HeapFile.DeletedFacts` | DatabaseEngine/07_storage.c:769-784 | a delete empties one position and keeps every slot where it is |
| `HeapStore.Heap.Insert` | DatabaseEngine/07_storage.c:433-488 | too large, or stored behind everything else, on a new page exactly when the last has no room for the record and its slot; the bytes of every page are in the right layout afterwards if and only if the record is not one of the 8169 to 8176 byte ones, which end alone on a new page as `SlottedPage.OversizeIsLost` describes |
| `HeapStore.Heap.ReadAt` | DatabaseEngine/07_storage.c:711-763 | the row at a position as it reads back; a tombstone or a position that is no slot comes back deleted |
| `HeapStore.Heap.DecodeAt` | DatabaseEngine/07_storage.c:647-678 | the same through a scan, decoded only as far as asked |
| `HeapStore.Heap.MarkDeleted` | DatabaseEngine/07_storage.c:769-784 | exactly that position becomes a tombstone; nothing happens where there is no row |
| `HeapStore.Heap.First` | DatabaseEngine/07_storage.c:680-687 | the first slot in scan order, or -1 |
| `HeapStore.Heap.Next` | DatabaseEngine/07_storage.c:689-705 | the slot after this one in scan order, or -1 |
| `HeapStore.Heap.LiveList` | DatabaseEngine/07_storage.c:592-630 | a scan lists the live positions in ascending order, each once, and steps over tombstones |
| `HeapStore.Heap.Compact` | DatabaseEngine/07_storage.c:790-834 | compaction leaves the live rows in scan order and not one tombstone, and reports the slots it reclaimed |
| `Agreement.EntriesFitSlots` | DatabaseEngine/06_executor.c:1119-1138 | entries never outnumber slots, so a scan sized by heapSlots never reports a full table |
| `Agreement.InsertAgrees` | DatabaseEngine/06_executor.c:830-846 | a row and its entry go in together and agreement holds |
| `Agreement.DeleteAgrees` | DatabaseEngine/06_executor.c:1375-1376 | a tombstone may keep its entry |
| `Tables.Table.Store` | DatabaseEngine/06_executor.c:830-846 | a row that fits is stored and entered in every index, one that does not leaves the table alone; the table is sound afterwards, with every index in agreement with the heap, if and only if the record is not of the 8169 to 8176 bytes a page cannot lay out |
| `Tables.Table.CreateIndex` | DatabaseEngine/06_executor.c:741-782 | the backfilled index agrees with the heap |
| `Tables.Table.RebuildIndexes` | DatabaseEngine/11_index.c:1007-1037 | each index is emptied and refilled and agrees with the heap, and every page of its old tree has been given back exactly once |
| `Tables.Table.Vacuum` | DatabaseEngine/06_executor.c:1038-1064 | the live rows in order, no tombstones, every index in agreement with the new positions, and the number of slots reclaimed |
| `AccessPath.PartlyVerdict` | DatabaseEngine/06_executor.c:1103-1108 | a row decoded only as deep as the condition reads, over whatever the buffer held before, gets the verdict of the whole row |
| `AccessPath.AcceptsStored` | DatabaseEngine/06_executor.c:1103-1108 | the verdict on a row as it reads back is the verdict on the row that was stored |
| `AccessPath.TakenInOrder` | DatabaseEngine/11_index.c:835-880 | an index offers its rows in the order of their keys |
| `AccessPath.NeverMissed` | DatabaseEngine/06_executor.c:1112-1138 | a live row the chosen comparison holds for is among the candidates of the index |
| `AccessPath.Candidates` | DatabaseEngine/11_index.c:752-880 | the candidates repeat no row, include every row the comparison holds for, and are never cut short by a full answer |
| `AccessPath.CollectRows` | DatabaseEngine/06_executor.c:1071-1186 | index scan, prefix scan or table scan: exactly the live positions whose fully decoded row makes the condition TRUE, each once; with a LIMIT, as many of them as it asks for; in scan order when nothing on the AND spine can use an index, and in the order of the stored keys when something can |
| `Statements.ValueIsTaken` | DatabaseEngine/06_executor.c:590-648 | TRUE exactly when some other live row holds the value, by the index or by a scan |
| `Statements.CheckConstraints` | DatabaseEngine/06_executor.c:656-694 | passes exactly when NOT NULL, length and UNIQUE hold of every column and the CHECK is not FALSE; the error it gives otherwise names a promise that is broken |
| `Statements.UnknownCutsBothWays` | DatabaseEngine/06_executor.c:686-693 | an UNKNOWN condition passes as a CHECK and fails as a WHERE |
| `Statements.CheckRefusesOnlyFalse` | DatabaseEngine/06_executor.c:686-693 | a CHECK refuses a row only if it is false whichever way its unknown comparisons are guessed |
| `Statements.Insert` | DatabaseEngine/06_executor.c:788-851 | done exactly when the constraints hold and the row fits; otherwise nothing changes; the table is sound afterwards if and only if a row of the sizes a page cannot lay out was not stored; every row goes on keeping NOT NULL, length and CHECK, and a UNIQUE column stays free of duplicates |
| `Statements.Delete` | DatabaseEngine/06_executor.c:1356-1381 | exactly the rows the condition accepts become tombstones, their number is the count, and the indexes still agree |
| `Statements.AssignmentsSwap` | DatabaseEngine/06_executor.c:1195-1228 | SET a = b, b = a exchanges the two columns |
| `Statements.ApplyAssignments` | DatabaseEngine/06_executor.c:1195-1228 | fails if any value fails or has the wrong type; otherwise all values were computed from the old row and then stored |
| `Statements.NewRowIs` | DatabaseEngine/06_executor.c:1195-1228 | column by column: an assigned one holds what its expression computed from the old row, a NULL of the column's type included, and the others are unchanged |
| `Statements.CheckUpdates` | DatabaseEngine/06_executor.c:1263-1307 | the first pass succeeds exactly when every new version can be computed and meets every constraint and no UNIQUE column is given one literal for several rows; every refusal has its reason |
| `Statements.LiteralCollides` | DatabaseEngine/06_executor.c:1297-1307 | refusing one literal for several rows is deserved: some UNIQUE column would hold it in two new versions |
| `Statements.UpdateRows` | DatabaseEngine/06_executor.c:1237-1348 | done exactly when the first pass succeeds and every new version fits, and then exactly the rows the condition accepts, as many as the count says, are replaced behind everything else; a new version that does not fit stops it with the rows before that one replaced; any other refusal changes nothing and has a reason: a row whose new version breaks the promise named, or new versions that collide with each other; every index still agrees |
| `Statements.UpdateKeepsPromises` | DatabaseEngine/06_executor.c:1257-1348 | however far an UPDATE got, every row of the table still keeps NOT NULL, length and CHECK |
| `Statements.UniqueAfterUpdate` | DatabaseEngine/06_executor.c:1263-1348 | after an UPDATE a UNIQUE column is free of duplicates if and only if the new versions differ there among themselves |
| `Statements.LiteralsKeepUnique` | DatabaseEngine/06_executor.c:1290-1307 | they do when the column is not assigned, or assigned only literals |
| `Statements.ComputedSetCollides` | DatabaseEngine/06_executor.c:1297-1307 | they need not when the value is computed: ids 1 and 2 under SET id = id * 0 pass every check and end equal |
| `CatalogChain.ReadChain` | DatabaseEngine/12_persist.c:440-470 | the bytes of the chain in order, unless a page claims more than a page holds |
| `CatalogChain.PageStore.Release` | DatabaseEngine/12_persist.c:414-424 | the rest of a chain is freed, each page once, and nothing else changes |
| `CatalogChain.PageStore.WriteChain` | DatabaseEngine/12_persist.c:361-438 | for every string and every acyclic chain - longer, shorter or absent - the chain afterwards carries exactly the string, reuses the old pages in order, takes freed ids before new ones, frees the surplus exactly once and leaves every other page alone |
| `CatalogChain.NeededIsLeast` | DatabaseEngine/12_persist.c:361-438 | the chain it leaves has no page more than the string needs |
| `CatalogChain.SaveAndLoad` | DatabaseEngine/12_persist.c:361-470 | reading back after writing returns the string |
| `Sessions.StepKeeps` | DatabaseEngine/10_controller.c:64-178 | every step of every session keeps: who is inside has the lock in its mode, who holds for a transaction owns it, and an open transaction has an owner |
| `Sessions.WritersAreAlone` | DatabaseEngine/10_controller.c:98-106 | over every interleaving, two statements inside the engine at once are both reads |
| `Sessions.OpenMeansHeld` | DatabaseEngine/10_controller.c:156-175 | between statements a transaction is open exactly when a session is marked as holding, and that session owns the write lock |
| `Sessions.ReleasesAreOwned` | DatabaseEngine/10_controller.c:54-62 | a lock is only ever given back by the session that has it |
| `Sessions.IdleHasNothing` | DatabaseEngine/10_controller.c:156-175 | a session between statements without a transaction has nothing of the lock, so each acquisition was released once |
| `Sessions.OpenIffBegun` | DatabaseEngine/12_persist.c:1072-1141 | over every run, a transaction is open exactly when some session has begun one and has since neither committed it, nor rolled it back to a file, nor left |
| `Sessions.EndFreesLock` | DatabaseEngine/10_controller.c:156-175 | once the session that ran COMMIT, or a ROLLBACK with a file, has finished - whatever the others did meanwhile - no transaction is open, the lock is free and any session that waits may take it |
| `Sessions.DisconnectFreesLock` | DatabaseEngine/16_wire.c:1411-1422 | so it is when a session leaves in the middle of its transaction |
| `Sessions.LockIffUnblocked` | DatabaseEngine/10_controller.c:98-106 | a waiting session may have the lock if and only if no transaction is open and nobody is inside - or, for a SELECT, nobody but other SELECTs |
| `Sessions.TransactionIsIsolated` | DatabaseEngine/10_controller.c:64-178 | from a BEGIN to its COMMIT, successful ROLLBACK or disconnection, every statement that runs is the same session's |
| `Sessions.RefusedRollbackKeeps` | DatabaseEngine/12_persist.c:1114-1123 | a ROLLBACK refused for want of a file leaves the transaction open and its session holding |
| `Dates.CivilRoundTrip` | DatabaseEngine/07_storage.c:91-115 | every valid proleptic Gregorian date comes back from its day number |
| `Dates.DaysRoundTrip` | DatabaseEngine/07_storage.c:91-115 | every day number comes back from its date, which is valid |
| `Dates.DaysCount` | DatabaseEngine/07_storage.c:91-127 | 1970-01-01 is day 0 and the next calendar day is one more |
| `Dates.OrderPreserved` | DatabaseEngine/07_storage.c:91-115 | dates and day numbers are in the same strict order |
| `Dates.TextToDate` | DatabaseEngine/07_storage.c:134-161 | accepts exactly the full-dates of section 5.6 of RFC 3339 and returns the day each names |
| `Dates.TextRoundTrip` | DatabaseEngine/07_storage.c:134-181 | every full-date is printed back from its day |
| `Dates.DateRoundTripIff` | DatabaseEngine/07_storage.c:163-181 | a day number comes back from its text if and only if its year is 0000 to 9999 |
| `Dates.YearMinusOne` | DatabaseEngine/07_storage.c:171-180 | outside those years the text names another date: the last day of year -1 prints in 7295 |

## Left out

- Floats everywhere: comparison, keys, hashing and aggregates, where signed zero breaks agreement.
- Aggregates (count, sum, min, max), HAVING and projection: what is computed for a group once its rows are known.
- The parser, the lexer and the semantic stage, apart from how ON and WHERE conditions are combined.
- Subqueries as queries: their results are parameters.
- Statements.UpdateRows: asks that no new version of an accepted row has one of the 8169 to 8176 byte encodings; what such a row does to the heap is stated for one insert (`HeapStore.Heap.Insert`), not for the rows replaced after it.
- OrderBy.QSort: stands for the C library's sort; any algorithm that meets its contract would do.
- IndexTree.Index.Add: takes page ids from a counter; `IndexTree.FreeSubtree` says which pages a rebuild or a drop gives back, not that later nodes reuse them.
- CatalogChain.PageStore.WriteChain: asks that page ids stay below 2^31, where an int page id would turn negative and end the chain.
- ALTER TABLE, DROP TABLE, several databases and names.
- CrashSafety.RollbackKeeps: reloading the catalog into memory is not modelled, only the pages it is read from.
- A ROLLBACK whose reload fails, and every other I/O or allocation failure.
- Sessions.TransactionIsIsolated: lets a waiting session wait for ever; fairness is the lock's business.
- Whole-file save and load, older file versions, checksum arithmetic, and sessions without a file, apart from their refusal to roll back.
- Sockets, the wire protocol, printing, dot-commands, arenas and the lifetime of text pointers.
