# MiniDB's storage and locking engine, verified

MiniDB is a single-table SQL store in C. It keeps rows in slotted heap pages, indexes them by id in a
B+ tree that lives in pages of the same file, caches pages in 256 frames, and guards rows with a
strict two-phase lock table. This project models that engine and proves what its statements promise.

The layers are proved one above the other.

* **Pages and their numbers** (`Pages`, `Store`): the page map, the free list that runs through the
  free pages, allocating and freeing.
* **The B+ tree** (`Tree`, `TreeSplit`, `TreeJoin`, `TreeEntries`, `TreeHeight`, `TreeOrder`, `Search`,
  `TreeDescent`, `TreeOverflow`, `TreeInsert`, `TreeUnderflow`, `TreeBorrow`, `TreeDelete`): a tree is a
  set of pages each of which satisfies a condition on itself and the pages it names; every page has a
  half-open interval of keys. Insert and delete are methods over the page map that overwrite pages one
  by one; they are proved against a finite map from keys to row references. Leaf and internal capacity
  are parameters of at least two.
* **The heap** (`SlottedPage`, `HeapFile`, `TableHeap`): slot directories, free-slot chains, the chain of
  heap pages, the hint that says whether a free slot may exist, and scans.
* **Rows** (`Schema`, `Predicates`): column layout, bytes, and the WHERE clause.
* **Statements** (`Database`, `RowIds`, `Executor`, `ScanStatements`, `Tables`, `Queries`, `Runs`): the
  invariant that ties index, heap, rows and header together, every statement that keeps it, and whole
  runs of statements against a finite map from ids to rows.
* **ORDER BY** (`Ordering`, `Sorting`, `TopK`): the comparison, the in-place quicksort and the bounded heap.
* **The page cache** (`CacheState`, `PagerCache`, `CacheRun`): frames, hash chains, eviction, flushing,
  and whole runs of calls against a plain map from page ids to bytes.
* **The lock table** (`LockLists`, `LockTable`, `Statements`): each section that runs under the table's
  mutex is one method, so any sequence of calls is an interleaving; whole interleavings of statements.

Every lemma turns automatic induction off, so that its proof is the one its body gives.

## What the proofs found

* With pages of 65536 bytes the 16-bit arithmetic of the heap makes an empty page look full, so an
  insert takes one page after another and never ends (`SlottedPage.BigPagesNeverTake`). An insert ends
  exactly when the row fits behind the header and one slot in the page size modulo 65536
  (`SlottedPage.FreshPageTakes`). Operating systems with 64 KB pages exist, and the page size is taken
  from the system.
* A range query and a scan with the same condition can differ when a bound lies beyond the signed
  64-bit range, since the tree compares ids unsigned and the scan signed. `Predicates.RangeMeansBounds`
  says exactly when they agree; `Predicates.RangeDiffersBeyond` is a bound for which they do not.
* A comment in `bptree_insert` says that a full leaf means that the path from the root down is latched
  as a whole. The descent lets go of everything above the last safe page, so the path may start there;
  that is all the split needs, and is what is proved (`TreeDescent.FindLeafLatched`).
* `MINIDB_DISABLE_FREE_HINT` changes nothing but speed: the hinted search returns the page that the
  walk without the hint returns (`TableHeap.FindHeapPage`).

## Model

| member | source | states |
|---|---|---|
| Search.LeafFind | src/storage/bptree.c:70-80 | the binary search stops at the first entry whose key is not below the one sought |
| Search.InternalFind | src/storage/bptree.c:86-97 | the number of separators not above the key |
| Search.FindChildIdx | src/storage/bptree.c:751-760 | the slot of a child, or none exactly when the page does not have it |
| Store.Store.AllocPage | src/storage/pager.c:672-696 | the head of the free list, or else the next number; the rest of the list stays a duplicate-free chain of exactly the free pages |
| Store.Store.FreePage | src/storage/pager.c:713-724 | the page becomes the head of the free list |
| TreeDescent.ChildForKey | src/storage/bptree.c:103-111 | the child whose interval holds the key, which names the page as its parent |
| TreeDescent.FindLeaf | src/storage/bptree.c:172-203 | the descent ends at the one leaf whose interval holds the key |
| TreeDescent.Lookup | src/storage/bptree.c:305-320 | a search finds exactly what the map holds under the key |
| TreeDescent.FindLeafLatched | src/storage/bptree.c:220-293 | the latched pages are a line of descent that starts at the root or at a safe page, with no safe page behind it, and no push is dropped |
| TreeHeight.LeafCount | src/storage/bptree.c:46-50 | a tree of height h has at least 2 * (min + 1)^(h-2) leaves |
| TreeHeight.DepthBound | src/storage/bptree.c:126-146 | with 32-bit page numbers the height is at most the 32 places of the latch stack |
| TreeDescent.Height | src/storage/bptree.c:1314-1331 | the height that is reported is the one the tree has |
| TreeDescent.RangeScan | src/storage/bptree.c:366-420 | exactly the rows within the bounds, once each, ascending, or those up to the first after which the receiver stops the scan |
| TreeOrder.InOrder | src/storage/bptree.c:663-695 | the leaf chain is the in-order sequence of leaves, and its entries are all the rows in order |
| TreeSplit.SplitLeafShaped | src/storage/bptree.c:641-700 | cutting a leaf in two and telling the parent keeps intervals, separators, parents and the leaf chain of every page |
| TreeSplit.SplitInternalShaped | src/storage/bptree.c:496-560 | the same for an internal page, whose upper children get the new page as their parent |
| TreeJoin.JoinLeavesShaped | src/storage/bptree.c:1125-1223 | merging two leaves and dropping their separator keeps every other page and the chain right |
| TreeJoin.JoinInternalsShaped | src/storage/bptree.c:938-1006 | the same for two internal pages, whose children all get the surviving page as their parent |
| TreeOverflow.OverflowSplits | src/storage/bptree.c:463-610 | a page with one entry too many is cut into two of legal size, and its parent is the next page on the latch stack |
| TreeOverflow.OverflowAtRoot | src/storage/bptree.c:573-609 | a new root is made only when the page that overflows is the root, and the tree is then whole |
| TreeInsert.PropagateInsert | src/storage/bptree.c:463-610 | a split propagated up the latched pages leaves a well-formed tree with the same rows |
| TreeInsert.Insert | src/storage/bptree.c:617-705 | a fresh key is added to the map; a key that is there is refused and the file is unchanged; the whole tree invariant and the free list hold afterwards |
| TreeDelete.DeleteEntryFromLeaf | src/storage/bptree.c:723-730 | the entries behind the deleted one move up by one |
| TreeUnderflow.LeafReseam | src/storage/bptree.c:1048-1123 | borrowing from a sibling leaf is a merge followed by a split at the other place |
| TreeUnderflow.InternalReseam | src/storage/bptree.c:861-936 | the same for internal pages, through the parent's separator |
| TreeDelete.Merge | src/storage/bptree.c:1125-1223 | merging frees one page, keeps the rows, and leaves at most the parent short of one entry |
| TreeDelete.ShrinkTheRoot | src/storage/bptree.c:790-832 | a root with one child is replaced by it and freed |
| TreeDelete.PropagateDelete | src/storage/bptree.c:790-832 | repair continues up the latched pages until every page has its minimum |
| TreeDelete.FixInternalUnderflow | src/storage/bptree.c:834-1007 | borrow right, borrow left or merge restores the tree; the early returns for a missing parent or child are never taken |
| TreeDelete.FixLeafUnderflow | src/storage/bptree.c:1021-1224 | the same for a leaf |
| TreeDelete.Delete | src/storage/bptree.c:1231-1260 | exactly the key leaves the map, or the call fails and the file is unchanged; order, fences, equal depth, occupancy, chain, parents and free list hold afterwards |
| SlottedPage.ExtentsDisjoint | src/storage/table.c:302-323 | two rows of a page never share a byte |
| SlottedPage.ExtentInside | src/storage/table.c:56-80 | a row lies behind the slot directory and inside the page |
| SlottedPage.RoomIsExact | src/storage/table.c:72-80 | below 65536 bytes the 16-bit measure of free space is exact |
| SlottedPage.FreshPageTakes | src/storage/table.c:240-287 | an empty page can take a row if and only if row size + 24 is at most the page size modulo 65536 |
| SlottedPage.BigPagesNeverTake | src/storage/table.c:72-80 | pages of 65536 bytes never take a row |
| SlottedPage.ReuseKeeps | src/storage/table.c:287-301 | the slot at the head of the free chain is taken, the chain keeps exactly the free slots, no other row changes |
| SlottedPage.AppendKeeps | src/storage/table.c:302-323 | a new slot and its row change no other row and keep the two areas apart |
| SlottedPage.BuryKeeps | src/storage/table.c:397-429 | a tombstone takes one row away, changes no other, and goes on the free chain once |
| HeapFile.ChosenIs | src/storage/table.c:92-150 | the search finds a page exactly when some page of the heap can take the row |
| TableHeap.FindHeapPage | src/storage/table.c:92-150 | the hinted search returns what the walk without the hint would |
| TableHeap.GrowHeap | src/storage/table.c:186-230 | a fresh page at the end of the chain, linked from the one before, with no row changed |
| TableHeap.InsertAt | src/storage/table.c:239-332 | a page that turns out full is replaced by a fresh one at most once, and then the row goes in |
| TableHeap.HeapInsert | src/storage/table.c:181-332 | the row is found at the place returned, the first free slot or a new one of the page the search chooses, which was not live before; every other row is untouched; index and free list are untouched |
| TableHeap.HeapDelete | src/storage/table.c:397-429 | a live row goes and the hint is set, or the call fails and nothing changes |
| TableHeap.HeapFetch | src/storage/table.c:356-375 | the row at a live slot, and nothing for a free one |
| HeapFile.AllRows | src/storage/table.c:450-535 | a scan meets every live row exactly once |
| TableHeap.HeapScan | src/storage/table.c:450-535 | the rows in that order, up to the first after which the callback stops the scan |
| TableHeap.RecoverHeap | src/storage/pager.c:372-393 | reopening finds the end of the chain, sets the hint exactly when a free slot exists, and leaves the choice of page the same |
| Schema.ComputeLayout | src/storage/schema.c:37-47 | offsets and row size are running sums, modulo 65536 |
| Schema.LayoutTiles | src/storage/schema.c:37-47 | the columns tile the row if and only if their sizes sum to less than 65536 |
| Schema.ExtentsDisjoint | src/storage/schema.c:37-47 | no two columns share a byte |
| Schema.Serialize | src/storage/schema.c:66-106 | the buffer is the concatenation of the encoded columns |
| Schema.Deserialize | src/storage/schema.c:118-145 | each value is decoded from the bytes of its column |
| Schema.FieldRoundTrip | src/storage/schema.c:74-103 | an integer comes back as it was; a string as its first bytes, all of them or as many as the column size less one |
| Schema.StoredByte | src/storage/schema.c:74-103 | each byte of a stored column: of an integer in two's complement the k-th from the low end, of a string its k-th byte and zeros behind |
| Schema.RowRoundTrip | src/storage/schema.c:108-145 | the same for whole rows |
| Schema.UpdateIsLocal | src/sql/executor.c:1313-1328 | reading a row, setting one column and writing it back changes that column's bytes alone |
| Predicates.RangeMeansBounds | src/sql/executor.c:399-417 | a row satisfies an id range in a scan just when its id is within the bounds of the tree, exactly if no bound or both lie beyond the signed range or the other bound rules the row out |
| Predicates.RangeDiffersBeyond | src/sql/executor.c:399-417 | a bound for which the two differ on every row |
| Predicates.IntegerFieldMeans | src/sql/executor.c:352-376 | a condition on an integer column holds just when its first column of that name compares so with the number in the literal, for each of the six operators |
| Predicates.StringFieldMeans | src/sql/executor.c:378-390 | the same for a string column, in the order of the first differing byte |
| Predicates.NoSuchField | src/sql/executor.c:419-435 | a condition on a column that does not exist holds of no row |
| Predicates.FindColumn | src/sql/executor.c:914-921 | the first column of that name, or none |
| Ordering.CompareOrders | src/sql/executor.c:769-787 | the comparison is antisymmetric and total, and rows tie exactly when they agree on the column |
| Ordering.CompareTransitive | src/sql/executor.c:769-787 | and transitive, for every column type and both directions |
| Ordering.StrCmpMeans | src/sql/executor.c:782-784 | a string compares below another just when it is what that one starts with or has the smaller byte where they first differ |
| Ordering.LeMeans | src/sql/executor.c:769-787 | ascending means no larger number or no later string, descending the reverse |
| Sorting.Partition | src/sql/executor.c:802-825 | the unguarded inner loops never leave the range; both parts are shorter than it |
| Sorting.Quicksort | src/sql/executor.c:802-833 | whole rows are permuted within the range, into order; nothing outside is touched |
| TopK.SiftUp | src/sql/executor.c:844-856 | restores the heap order from a new last row, permuting rows |
| TopK.SiftDown | src/sql/executor.c:858-882 | restores the heap order from a new root, permuting rows |
| TopK.TopKPush | src/sql/executor.c:884-912 | after each row the heap holds the best of the rows seen so far |
| TopK.SameKeys | src/sql/executor.c:1056-1104 | in order, the rows kept tie one by one with the start of any full sort |
| TopK.TopKRows | src/sql/executor.c:1056-1104 | ORDER BY with a limit returns as many rows as there are up to the limit, in order, with the keys of a full sort |
| RowIds.Compact | src/sql/executor.c:944-949 | repeated ids are dropped in place, leaving the same set in strictly ascending order |
| RowIds.LockCollected | src/sql/executor.c:935-963 | locks are asked for in strictly ascending order of the collected set, up to the first refusal |
| Database.AddedToBoth | src/sql/executor.c:303-320 | a row in the heap and its id in the index keep the two in one-to-one correspondence |
| Database.RemovedFromBoth | src/sql/executor.c:1218-1225 | the same when both go |
| Database.DecodedRow | src/sql/executor.c:965-992 | a stored row decodes to proper values with its id in column 0 and encodes back to itself |
| Database.PagesConserved | src/sql/executor.c:1490-1527 | every page but the header is in exactly one of the heap chain, the tree and the free list |
| Executor.FillValues | src/sql/executor.c:280-301 | literals go to the user columns in order, and what is missing is zero |
| Executor.InsertedRowReads | src/sql/executor.c:280-307 | the row of an INSERT reads back as its id, the literals by column kind, and zero or empty where none was given |
| Executor.ExecInsert | src/sql/executor.c:243-325 | one row more, under the next id; on a lock timeout only the id is gone |
| Executor.ExecIndexDelete | src/sql/executor.c:1205-1229 | the row of the id goes from heap and index, or nothing changes |
| ScanStatements.FetchMatching | src/sql/executor.c:965-992 | a row is returned exactly when the id is on file and its current row satisfies the predicate |
| ScanStatements.CollectIds | src/sql/executor.c:1176-1203 | the ids of exactly the rows that satisfy the predicate |
| ScanStatements.DeletedAll | src/sql/executor.c:1279-1295 | re-checking and deleting one id after another comes to deleting all listed rows that satisfy the predicate |
| ScanStatements.ApplyDelete | src/sql/executor.c:1274-1295 | on whatever the table holds by then, exactly the listed rows that still satisfy the predicate go, and the count is right |
| ScanStatements.ExecDeleteScan | src/sql/executor.c:1246-1300 | all matching rows go, and are counted, or one lock is refused and the table is untouched |
| ScanStatements.NewVersionIsLocal | src/sql/executor.c:1313-1328 | an update keeps the id, every other column and every byte outside the column, and the column then reads as the literal, a string as far as it fits |
| ScanStatements.UpdateTarget | src/sql/executor.c:994-1011 | the first column of the name given, if there is one and it is not the system's |
| ScanStatements.UpdatedAll | src/sql/executor.c:1443-1467 | re-checking and updating one id after another comes to updating all listed rows that satisfy the predicate |
| ScanStatements.ApplyUpdate | src/sql/executor.c:1443-1467 | every row that is changed satisfies the predicate when it is read again |
| ScanStatements.CountsMatching | src/sql/executor.c:1443-1472 | the number of rows reported is the number that satisfied the predicate |
| ScanStatements.ExecUpdateScan | src/sql/executor.c:1411-1473 | the column of that name is set in all matching rows, which are counted, or a lock is refused or there is no such column to set and the table is untouched |
| ScanStatements.ExecIndexUpdate | src/sql/executor.c:1330-1375 | the column of that name is set in the row of the id |
| Tables.CreateDatabase | src/storage/pager.c:287-325 | a new file is an empty, sound database |
| Tables.ExecCreateTable | src/sql/executor.c:180-228 | the id column and the declared ones, laid out, if there is no table yet |
| Tables.CreatedColumns | src/sql/executor.c:192-222 | the columns are the id and the definitions not named "id", in order, with their name, kind and size |
| Tables.ExecDropTable | src/sql/executor.c:1478-1544 | an empty database on a file of the same size, every page but two on the free list |
| Queries.SelectScan | src/sql/executor.c:754-767 | every matching row once, decoded |
| Queries.ExecCount | src/sql/executor.c:1018-1036 | the number of matching rows; without a condition the header's counter is that number |
| Queries.ExecIndexLookup | src/sql/executor.c:498-532 | the row of the id, if there is one |
| Queries.ExecIndexRange | src/sql/executor.c:583-664 | the rows with an id within the bounds in ascending order, or the first of them up to the limit |
| Queries.AccessPathsAgree | src/sql/planner.c:33-41 | a range query finds the same rows through the index as through a scan |
| Queries.ExecOrderBy | src/sql/executor.c:1044-1104 | the matching rows in order, or as many as the limit allows with the keys of a full sort |
| Runs.IndexMeansScan | src/sql/planner.c:45-56 | deleting or updating one id through the index means what the scan would |
| Runs.Execute | src/sql/executor.c:1624-1660 | each statement does to the map from ids to rows what it says, and keeps the database sound |
| Runs.RunAll | src/sql/executor.c:1624-1660 | so does any run of statements |
| Runs.RunFromScratch | src/db.c:148-202 | after any run from a new file, rows and index entries match one to one, ids are below the next id, the counter is right and no page is lost or used twice |
| CacheState.LinkedOK | src/storage/pager.c:92-96 | putting a frame at the front of its bucket keeps every chain exact |
| CacheState.UnlinkedOK | src/storage/pager.c:98-112 | taking one out keeps every chain exact |
| PagerCache.Pager.FindFrame | src/storage/pager.c:131-140 | the frame that holds the page, or none exactly when it is not cached |
| PagerCache.Pager.FrameIndexRemove | src/storage/pager.c:98-112 | the frame is in no chain afterwards and no other frame is touched but for its link |
| PagerCache.Pager.EvictFrame | src/storage/pager.c:158-193 | an unused frame, or the unpinned one used longest ago, written back if dirty; none exactly when all are pinned; nobody sees a difference |
| PagerCache.Pager.GetPage | src/storage/pager.c:451-483 | the page reads as before, has one pin more and the latest tick, and no other page changes |
| PagerCache.OneFewer | src/storage/pager.c:488-496 | writing back a dirty frame leaves one fewer to count |
| PagerCache.Pager.FlushDirty | src/storage/pager.c:508-543 | at most the target number stay dirty, or all that do are pinned; what is written back was used no later than what stays; pinned frames are untouched |
| PagerCache.Pager.MarkDirty | src/storage/pager.c:555-569 | marking, and the flush it sets off when too many frames are dirty, change nothing a reader sees |
| PagerCache.Pager.Unpin | src/storage/pager.c:577-584 | one pin fewer, if there is one |
| PagerCache.Pager.FlushAll | src/storage/pager.c:740-769 | the file then reads like the cache, and page 0 is the header |
| CacheRun.Run | src/storage/pager.c:451-584 | over any run of fetches, writes, marks, releases and flushes every fetch reads what a plain page map holds |
| CacheRun.RunAndClose | src/storage/pager.c:411-424 | and closing leaves a file that reads like that map |
| LockLists.FrontedOK | src/server/lock_table.c:65-86 | an entry put at the front of its global list keeps all lists exact and doubly linked |
| LockLists.PushedOK | src/server/lock_table.c:54-63 | the same for the list of its owner |
| LockLists.SkippedOK | src/server/lock_table.c:88-101 | an entry taken out of its global list is on none, and all others stay linked |
| LockTable.Table.PointConflict | src/server/lock_table.c:143-223 | true exactly when a lock of another thread on the row, or on a range around it, is incompatible |
| LockTable.Table.RangeConflict | src/server/lock_table.c:177-237 | the same for a range |
| LockTable.AgainstMeans | src/server/lock_table.c:143-210 | locks are incompatible just when they have different owners, share a row and are not both shared |
| LockTable.GrantIsSafe | src/server/lock_table.c:262-299 | granting a request that conflicts with nothing keeps overlapping locks of different threads shared |
| LockTable.Table.AcquirePoint | src/server/lock_table.c:240-303 | granted with the lock held, or blocked with nothing changed and a reason; other locks are untouched; a shared lock is raised in place |
| LockTable.Table.ResumePoint | src/server/lock_table.c:262-303 | after a wake-up the request is still blocked if and only if something stands in its way; otherwise the lock is held |
| LockTable.Table.ResumeRange | src/server/lock_table.c:329-362 | the same for a range |
| LockTable.Table.AcquireRange | src/server/lock_table.c:306-362 | the same for a range, unless a held range already covers it |
| LockTable.Table.TimeOut | src/server/lock_table.c:267-272 | a request that times out gains nothing and is no longer counted among the waiting writers |
| LockTable.Table.ReleaseAll | src/server/lock_table.c:365-389 | exactly the caller's locks go |
| LockTable.Unregistered | src/server/lock_table.c:35-52 | the count of waiting writers is the number of blocked exclusive requests |
| LockTable.RangeKeepsWritersOut | src/server/lock_table.c:160-210 | while a range is held no other thread holds a row inside it exclusively, so none inserts there |
| LockTable.WriterIsAlone | src/server/lock_table.c:143-237 | a row held exclusively is held by nobody else, alone or in a range |
| Statements.Sessions.Do | src/db.c:148-202 | one atomic step of a statement: its next row is locked or it waits for some thread that stands in its way, it gives up, or it ends and holds nothing; woken with nobody in its way it gets its row; other threads keep exactly their locks |
| Statements.NoCircleOfWaits | src/sql/executor.c:930-963 | statements never wait for each other in a circle |
| Statements.SomeoneRuns | src/db.c:148-202 | of the statements under way, one is not kept from going on |
| Statements.Sessions.Interleave | src/db.c:148-202 | both hold, with lock safety, after any interleaving of the steps of any statements |

## Left out

- TreeInsert.Insert: asks for 33 page numbers to be left before the 32-bit counter runs out; the program does not check the counter, and what it does when it wraps is not modelled.
- Executor.ExecInsert: the same for page numbers, and ids end at 2^63 - 1, beyond which the signed and unsigned readings of an id part.
- TableHeap.HeapInsert: asks for the page and row sizes with which it terminates, which `SlottedPage.FreshPageTakes` shows to be necessary.
- Tables.ExecCreateTable: asks for column sizes of the declared types and a row that fits a page; the program checks neither, nor that the columns fit the header.
- CacheRun.Run: asks callers to mark what they wrote before their last pin goes and to leave a frame unpinned; the tick counter is assumed not to reach 2^64 - 1.
- RowIds.LockCollected: the library's sort is a function with the property that is asked of it.
- LockTable.Table.ListConflict: stands for four walks that differ in which lists they visit and in one comparison each.
- Lock entries are records at numbered addresses in a map rather than allocated objects; addresses are not used twice.
- Pages are typed values; the byte layout of tree pages, of page headers and of slots is not modelled, so the page map of the tree and heap is not composed with the bytes of the page cache.
- Page latches, pin counts along tree operations, and statements that run inside the tree or heap at the same time: tree and heap are sequential. Scans and range queries collect before they act.
- The engine's reader-writer lock, and with it waits between a statement that defines the table and statements that hold row locks.
- Range locks taken by statements: the parser yields range predicates that the choice of lock does not match, so ranges are proved at the lock table alone.
- I/O errors, failed allocations, clocks and deadlines: reads and writes are whole, and a timeout is a step that may happen to any blocked request.
- The parser and the text of results; a statement starts from its parsed form, and a literal is given by what it reads as for each column type.
- SELECT by a scan with a LIMIT but no ORDER BY, EXPLAIN and statistics.
- Integer overflow of `left + right` in the sort, which needs more than 2^30 rows in memory.
- The server, the HTTP and REPL front ends, benchmarks and PintOS patches.
