# SimpleDB storage and execution core, modelled in Dafny

This project models the core of SimpleDB, a teaching relational database written in Java, and proves properties of that model.

- **Page lock table** (`LockManagers`, `Deadlock`). It keeps:
  - per-page exclusive and shared locks;
  - the pages each transaction holds;
  - a wait-for graph, checked for cycles with Kahn's algorithm.

  `acquire` is one non-blocking pass of its wait loop, which ends granted, must-wait or aborted. The three maps of the class are proved equal to specification functions over a `Table` value. The lock properties are lemmas about those functions:
  - mutual exclusion and registration are preserved;
  - immediate grants;
  - upgrades;
  - conflict edges;
  - release, including the quirk that it drops every holder's lock;
  - `releaseAll`;
  - deadlock detection is exactly "the wait-for graph has a cycle".
- **Heap file** (`HeapFiles`). It works over abstract pages: a file is its byte length plus its whole pages, and each page is a row of slots.
  - `numPages` is length divided by page size, rounded down.
  - `readPage` uses null for out-of-range pages.
  - `writePage` uses the offset rule.
  - `insertTuple` is first-fit: the lowest page with room, or a new page `numPages()` once every page is full.
  - `deleteTuple` acts on the page named by the record id.
  - The page-by-page iterator yields exactly the stored tuples in page and slot order.
- **Schema descriptor** (`TupleDescs`, `Tuples`): construction with null-padded or truncated names, bounds-checked getters, first-match `fieldNameToIndex`, `getSize`, `merge`, the item iterator, `toString`, and `equals`, which compares printed forms.
- **Aggregators** (`Aggregates`, `IntegerAggregators`, `StringAggregators`):
  - Each group's entry equals a reference aggregate of the values merged into it: COUNT, SUM with `int` wrap-around, MIN, MAX, and AVG as `[sum, count]` with Java's truncating division.
  - The string aggregator is COUNT-only.
  - The array-backed result cursor is modelled too.
- **Integer histogram** (`IntHistograms`):
  - the bucket count and width arithmetic as 32-bit Java arithmetic;
  - `addValue`;
  - the bucket index is in range and monotone;
  - the cells add up to the number of values added.
- **Table statistics** (`TableStatistics`):
  - the two-pass constructor over the heap file's tuples: per-column minimum and maximum, distinct values, and histograms built over the exact column range;
  - `totalTuples`, `getDistinctVal` and `estimateScanCost`;
  - the histogram lookup of `estimateSelectivity`;
  - the static statistics registry.
- **Scans and modifications** (`SeqScans`, `Operators`, `Inserts`, `Deletes`):
  - `SeqScan`'s descriptor is renamed `alias.name`.
  - `SeqScan` gates its results on the open flag.
  - `reset` keeps the file it scans.
  - `Insert` and `Delete` drain their child on the first `fetchNext`. They count the successful requests and stop at an `IOException`.

Java's `int` is modelled explicitly (`Common.Wrap32`, `Div32`, `Rem32`). Where the aggregators, the histogram, the tuple descriptor and the table statistics can overflow, the contracts state the wrapped result. `TupleDescs.Merge` states the consequence of its wrapped field count: past `INT_MAX` the count is negative and the array allocation throws `NegativeArraySizeException`. The heap file's page offsets and page count are taken as exact (see "## Left out").

In three places the code behaves in a way a reader might not expect, and the model follows the code as written:

- `release` removes the page's whole lock entry, not just the caller's lock. `ReleaseEndsOtherReaders` exhibits this.
- Wait-for edges added on a must-wait stay in the graph. They are removed only when the same pass aborts, or by `releaseAll`.
- `numPages` rounds down, because the integer division happens before `Math.ceil`.

## Model

| member | source | states |
|---|---|---|
| Common.Wrap32 | lab/src/IntegerAggregator.java:88 | The result is a Java `int`; it equals the exact value when that fits, and differs from it by a multiple of 2^32 otherwise |
| Common.Tally | lab/src/Insert.java:93 | An `int` counter equal to the wrapped count `k`, after `+= 1`, equals the wrapped count `k + 1` |
| Common.Div32 | lab/src/IntegerAggregator.java:146 | Java `int` division: the exact quotient rounded toward zero, except that the one overflow `INT_MIN / -1` gives `INT_MIN` |
| Common.TruncDivRoundsTowardZero | lab/src/IntegerAggregator.java:170 | Truncating division keeps the sign of the exact quotient, drops its fraction (magnitude bounds both ways), and agrees with Euclidean division on non-negative operands |
| Common.Rem32 | lab/src/IntHistogram.java:36 | Java `%` agrees with the mathematical remainder for a non-negative dividend and positive divisor |
| Common.MinOf | lab/src/TableStats.java:128 | The minimum of a non-empty sequence is one of its elements and bounds all of them from below |
| Common.MaxOf | lab/src/TableStats.java:129 | The maximum of a non-empty sequence is one of its elements and bounds all of them from above |
| Tuples.Type.Len | lab/src/TupleDesc.java:190 | An `int` field occupies 4 bytes and a string field `STRING_LEN + 4` = 132; both are positive |
| LockManagers.LocksOnPage.AddExclusiveLock | lab/src/LockManager.java:37-39 | The exclusive holder becomes `tid`; the shared set is unchanged |
| LockManagers.LocksOnPage.AddSharedLock | lab/src/LockManager.java:41-43 | `tid` joins the shared set, the holders grow by exactly `tid`, the exclusive holder is unchanged |
| LockManagers.LocksOnPage.RemoveExclusiveLock | lab/src/LockManager.java:45-49 | Afterwards `tid` is not the exclusive holder; if it was not before, nothing changes; shared set unchanged |
| LockManagers.LocksOnPage.RemoveSharedLock | lab/src/LockManager.java:51-55 | `tid` leaves the shared set and only `tid` does; the exclusive holder is unchanged |
| LockManagers.IsLocked | lab/src/LockManager.java:165-174 | True exactly when the page has an entry with at least one holder of either kind |
| LockManagers.IsLockedBy | lab/src/LockManager.java:176-185 | True exactly when the page has an entry and `tid` holds it exclusively or shared |
| LockManagers.Enter | lab/src/LockManager.java:65-66 | The page and the transaction gain (empty) entries when missing; existing entries and the wait-for graph are unchanged |
| LockManagers.WaitOrAbort | lab/src/LockManager.java:77-111 | Never grants; locks and page sets are untouched and only `tid`'s wait-for entry changes; on must-wait it holds an edge to every one of `others`, on abort it is `tid`'s earlier edges minus `others` (all edges to them are gone, even older ones) |
| LockManagers.UpgradeStep | lab/src/LockManager.java:127-135 | Succeeds exactly when the page has one shared holder, whoever it is; then `tid` is the exclusive holder and not a reader, other pages, page sets and the graph unchanged; otherwise nothing changes |
| LockManagers.Grant | lab/src/LockManager.java:117-124 | The page joins `tid`'s page set; a write request makes `tid` the exclusive holder, a read adds it to the readers; every other page and transaction and the graph are unchanged |
| LockManagers.Decide | lab/src/LockManager.java:69-116 | Which branch a pass takes: already-held only for a holder, the upgrade only for a write request by a reader of a page with one reader, one more reader exactly for a read request by a non-reader on a read-locked page, and a conflict waits for holders other than `tid` |
| LockManagers.Attempted | lab/src/LockManager.java:67-124 | Once the entries exist: the pass keeps the key sets; a grant leaves `tid` holding the page and the graph unchanged; a wait or abort leaves locks and page sets unchanged |
| LockManagers.AcquireStep | lab/src/LockManager.java:64-125 | One pass: the page and transaction get entries; a grant leaves `tid` holding the page; otherwise only the entries were added to locks and page sets |
| LockManagers.ReleaseStep | lab/src/LockManager.java:137-151 | Returns true exactly when the page has an entry, and afterwards exactly that entry is gone |
| LockManagers.ReleaseAllStep | lab/src/LockManager.java:153-163 | The lock entries of exactly `tid`'s pages are removed, and `tid`'s wait-for entry; other transactions' wait-for edges are kept, including those to `tid` |
| LockManagers.DecideConflicts | lab/src/LockManager.java:69-113 | A pass hits a conflict exactly when someone else holds the page, `tid` is not the exclusive holder, and it asks to write or the page is written; it then waits for exactly the other holders |
| LockManagers.DecideGrants | lab/src/LockManager.java:69-124 | A free page is granted at once; a request is already satisfied exactly for the exclusive holder or a reader re-reading; the upgrade branch is taken exactly by the sole reader asking to write |
| LockManagers.EnterValid | lab/src/LockManager.java:65-66 | Adding the empty entries preserves mutual exclusion and registration |
| LockManagers.AcquirePreservesValid | lab/src/LockManager.java:64-125 | Every outcome of one `acquire` pass preserves mutual exclusion and registration |
| LockManagers.GrantValid | lab/src/LockManager.java:117-124 | Granting on a page nobody holds (or one more reader on a read-locked page) preserves the invariants |
| LockManagers.WaitOrAbortValid | lab/src/LockManager.java:77-111 | Recording wait-for edges, or taking them out on abort, preserves the invariants |
| LockManagers.AcquireUnlockedGrants | lab/src/LockManager.java:117-124 | On an unlocked page `acquire` grants at once: writers become the sole exclusive holder, readers the sole reader, and the page joins `transactions[tid]`; the graph is unchanged |
| LockManagers.EnterUnlocked | lab/src/LockManager.java:65-67 | For a page without an entry the pass sees an empty lock set and `tid`'s previous pages |
| LockManagers.ReRequestUnchanged | lab/src/LockManager.java:93-103 | The exclusive holder asking again (any permission) or a reader asking to read again is granted with the table unchanged |
| LockManagers.AcquireUpgradesSoleReader | lab/src/LockManager.java:72-74 | The sole reader asking to write is granted and becomes the exclusive holder with an empty shared set; nothing else changes |
| LockManagers.UpgradeOnlyForSoleReader | lab/src/LockManager.java:127-135 | For a shared holder, `upgrade` succeeds exactly when the shared set is `{tid}` (its size is 1), then makes `tid` the only (exclusive) holder; otherwise nothing changes |
| LockManagers.UpgradePreservesValid | lab/src/LockManager.java:127-135 | Upgrading by a shared holder preserves mutual exclusion and registration |
| LockManagers.SoleWriterValid | lab/src/LockManager.java:129-132 | Making a registered reader the page's sole writer keeps the table valid |
| LockManagers.AcquireConflictEdges | lab/src/LockManager.java:77-111 | On conflict `tid` gets edges to every other holder; it must wait exactly when that graph has no cycle, and on a cycle those edges are removed and the pass aborts; locks and pages are untouched |
| LockManagers.AcquireGrantedHolds | lab/src/LockManager.java:64-125 | After a granted pass `tid` holds the page, and a writer holds it alone |
| LockManagers.ReleaseDropsEntry | lab/src/LockManager.java:137-151 | Without an entry, `release` returns false and changes nothing; otherwise it returns true, the page is unlocked, other pages, `transactions` and the graph are unchanged |
| LockManagers.ReleaseEndsOtherReaders | lab/src/LockManager.java:146 | One transaction's `release` also ends another reader's lock on the page (the code as written) |
| LockManagers.ReleasePreservesValid | lab/src/LockManager.java:137-151 | `release` preserves mutual exclusion and registration |
| LockManagers.ReleaseAllClears | lab/src/LockManager.java:153-163 | After `releaseAll`, `tid` has no graph entry, an empty page set, none of its pages has an entry, all other pages and transactions are unchanged; for an unknown `tid` nothing else changes |
| LockManagers.ReleaseAllFreesEverything | lab/src/LockManager.java:153-163 | After `releaseAll(tid)`, `tid` holds no lock on any page |
| LockManagers.ReleaseAllPreservesValid | lab/src/LockManager.java:153-163 | `releaseAll` preserves the invariants |
| LockManagers.SingleWaitAcyclic | lab/src/LockManager.java:187-226 | A graph with a single edge between two distinct transactions has no cycle |
| LockManagers.UpgradeRaceAbortsSecond | lab/src/LockManager.java:71-91 | Two readers both asking to write: the first must wait behind the second, the second then closes a cycle and is aborted with its edge removed |
| LockManagers.LockManager.constructor | lab/src/LockManager.java:58-62 | All three maps start empty, and the empty table is valid |
| LockManagers.LockManager.Acquire | lab/src/LockManager.java:64-125 | The outcome and the new maps are exactly one pass of `acquire` on the old maps |
| LockManagers.LockManager.AcquireEntered | lab/src/LockManager.java:67-116 | The branch dispatch after the entries exist equals the specification pass |
| LockManagers.LockManager.GrantUnheld | lab/src/LockManager.java:117-124 | Granting on an unheld page updates the maps as the specification grant |
| LockManagers.LockManager.AcquireFromWriter | lab/src/LockManager.java:101-113 | On a written page: already held, or wait / abort behind the writer, as specified |
| LockManagers.LockManager.AcquireAmongReaders | lab/src/LockManager.java:70-100 | On a read-locked page: re-read, one more reader, or the write branch, as specified |
| LockManagers.LockManager.WriteAmongReaders | lab/src/LockManager.java:71-91 | A write request on a read-locked page: upgrade of the sole reader, otherwise wait or abort, as specified |
| LockManagers.LockManager.AwaitReaders | lab/src/LockManager.java:77-91 | Waiting behind the other readers: edges to each, then must-wait or abort as specified |
| LockManagers.LockManager.AwaitHolders | lab/src/LockManager.java:77-111 | Adds edges from `tid` to the given holders, runs deadlock detection, and either keeps them (must wait) or removes them (abort) |
| LockManagers.LockManager.Upgrade | lab/src/LockManager.java:127-135 | Result and new maps equal the specification of `upgrade` |
| LockManagers.LockManager.Release | lab/src/LockManager.java:137-151 | Result and new maps equal the specification of `release` |
| LockManagers.LockManager.ReleaseAll | lab/src/LockManager.java:153-163 | The page-set loop releasing each page leaves the maps equal to the specification of `releaseAll` |
| LockManagers.LockManager.IsPageLocked | lab/src/LockManager.java:165-174 | True exactly when the page has a holder |
| LockManagers.LockManager.IsPageLockedBy | lab/src/LockManager.java:176-185 | True exactly when `tid` holds the page |
| LockManagers.LockManager.DetectDeadlock | lab/src/LockManager.java:187-226 | True exactly when the wait-for graph over the registered transactions has a cycle |
| Deadlock.ZeroIndegrees | lab/src/LockManager.java:191-193 | Every registered transaction starts with indegree 0 (the count over no waiters) |
| Deadlock.CountWaiter | lab/src/LockManager.java:196-200 | Adding one waiter's edges raises each target's indegree by one, so the counts cover one more waiter |
| Deadlock.CountIndegrees | lab/src/LockManager.java:195-201 | Each transaction's indegree is the number of registered transactions waiting for it |
| Deadlock.SeedQueue | lab/src/LockManager.java:203-207 | The queue holds exactly the transactions of indegree 0, once each |
| Deadlock.ReleaseWaitees | lab/src/LockManager.java:217-224 | Dequeuing a waiter lowers its targets' indegrees to the counts over the remaining transactions and enqueues those reaching 0 |
| Deadlock.ConsumeOne | lab/src/LockManager.java:210-225 | One loop pass removes one transaction from the queue, adds it to the counted set and keeps the Kahn invariant |
| Deadlock.DetectDeadlock | lab/src/LockManager.java:187-226 | Kahn's algorithm reports a deadlock exactly when the wait-for graph over the registered transactions has a cycle |
| Deadlock.DequeueStep | lab/src/LockManager.java:210-225 | A dequeued transaction has no unprocessed waiter, is never part of a stuck set, and the indegrees drop by its edges |
| Deadlock.KahnVerdict | lab/src/LockManager.java:226 | When the queue is empty, not all transactions were counted exactly when there is a cycle |
| Deadlock.CycleIsStuck | lab/src/LockManager.java:187-226 | The transactions of a cycle form a non-empty set each waited for from inside it |
| Deadlock.StuckHasCycle | lab/src/LockManager.java:187-226 | A non-empty set each of whose members is waited for from inside it contains a cycle |
| Deadlock.CycleIffStuck | lab/src/LockManager.java:187-226 | A cycle exists exactly when a non-empty stuck set exists |
| HeapFiles.HeapPage.RoomHasEmptySlot | lab/src/HeapFile.java:119 | A page reports free slots exactly when some slot is empty |
| HeapFiles.HeapPage.Place | lab/src/HeapFile.java:120 | Inserting into a page with room keeps its slot count and stores exactly one more tuple |
| HeapFiles.EmptyPage | lab/src/HeapFile.java:127 | A fresh page has the slot count, no tuples and every slot free |
| HeapFiles.FirstWithRoom | lab/src/HeapFile.java:116-124 | The result is the lowest-numbered page with an empty slot; none means every page is full |
| HeapFiles.Inserted | lab/src/HeapFile.java:116-132 | Insertion changes only the first page with room, or, when all are full, appends one page and keeps the others |
| HeapFiles.InsertedCount | lab/src/HeapFile.java:111-133 | An insertion stores exactly one more tuple in the file |
| HeapFiles.DeletedCount | lab/src/HeapFile.java:136-145 | Deleting a stored tuple leaves exactly one tuple fewer |
| HeapFiles.InsertedPacked | lab/src/HeapFile.java:116-132 | Insertions alone keep every page but the last full and the last non-empty |
| HeapFiles.PackedTuples | lab/src/HeapFile.java:116-132 | In such a file the tuple count is the slot count per full page plus the last page's tuples |
| HeapFiles.PackedPageCount | lab/src/HeapFile.java:125-132 | In such a file the page count is the tuple count divided by the slot count, rounded up |
| HeapFiles.PageFits | lab/src/HeapFile.java:78 | `n*pageSize + pageSize <= length` exactly when `n < length / pageSize` |
| HeapFiles.FileTuplesAppend | lab/src/HeapFile.java:182-193 | The file's tuples in iterator order extend, page by page, by the new page's tuples |
| HeapFiles.FileTuplesFrom | lab/src/HeapFile.java:182-193 | The tuples from page `i` on are page `i`'s tuples followed by those of the later pages |
| HeapFiles.HeapFile.constructor | lab/src/HeapFile.java:28-33 | The file holds the given descriptor, geometry and pages, consistently with its length |
| HeapFiles.HeapFile.NumPages | lab/src/HeapFile.java:105-108 | The page count is the length divided by the page size rounded down (bounds both sides), and is the number of whole pages |
| HeapFiles.HeapFile.ReadPage | lab/src/HeapFile.java:70-89 | A page is returned exactly for `0 <= n < numPages()`, and it is page `n`; otherwise null |
| HeapFiles.HeapFile.WritePage | lab/src/HeapFile.java:92-100 | Writing page `n` overwrites it or, at `n == numPages()`, grows the file by one page; no other page changes; a negative number throws before anything changes |
| HeapFiles.HeapFile.InsertTuple | lab/src/HeapFile.java:111-133 | The tuple goes to the lowest page with room, or a new page `numPages()` that grows the file; the result names exactly that one page; no room and no slot at all throws |
| HeapFiles.HeapFile.DeleteTuple | lab/src/HeapFile.java:136-145 | Only the slot named by the record id is emptied and the result names exactly that page; a missing record id, page or tuple throws and changes nothing |
| HeapFiles.HeapFile.Iterator | lab/src/HeapFile.java:148-151 | A fresh iterator over this file, closed and yielding nothing |
| HeapFiles.HeapFileIterator.constructor | lab/src/HeapFile.java:161-164 | The iterator starts closed at page 0 |
| HeapFiles.HeapFileIterator.OpenByPgNum | lab/src/HeapFile.java:166-172 | The cursor is at the start of page `n`'s tuples |
| HeapFiles.HeapFileIterator.Open | lab/src/HeapFile.java:175-178 | Open on a non-empty file yields all stored tuples in page order; an empty file throws and the flag is unchanged |
| HeapFiles.HeapFileIterator.HasNext | lab/src/HeapFile.java:182-193 | True exactly when tuples remain; the remaining tuples do not change; false when closed |
| HeapFiles.HeapFileIterator.AdvancePages | lab/src/HeapFile.java:186-190 | Skipping empty pages keeps the remaining tuples and stops at page `numPages()-1` |
| HeapFiles.HeapFileIterator.Next | lab/src/HeapFile.java:196-202 | Returns the first remaining tuple and drops it; throws `NoSuchElementException` when none remain |
| HeapFiles.HeapFileIterator.Rewind | lab/src/HeapFile.java:205-207 | Restarts at page 0: all stored tuples remain again; an empty file throws and the flag is unchanged |
| HeapFiles.HeapFileIterator.Close | lab/src/HeapFile.java:210-216 | Closed at page 0 with nothing remaining |
| HeapFiles.ScanAll | lab/src/HeapFile.java:175-202 | Opening and draining an iterator yields exactly the file's tuples in page and slot order; an empty file throws |
| HeapFiles.ReadRest | lab/src/HeapFile.java:182-202 | Draining an open iterator yields exactly the tuples it had remaining |
| TupleDescs.Renders | lab/src/TupleDesc.java:238-243 | One printed `name(type)` per item, in order |
| TupleDescs.CopyOf | lab/src/TupleDesc.java:88-90 | Names copied to the new length: truncated, or padded with nulls |
| TupleDescs.TupleDesc.GetFieldName | lab/src/TupleDesc.java:135-141 | Throws `NoSuchElementException` exactly when `i` is out of range, otherwise item `i`'s name |
| TupleDescs.TupleDesc.GetFieldType | lab/src/TupleDesc.java:153-159 | Throws exactly when `i` is out of range, otherwise item `i`'s type |
| TupleDescs.TupleDesc.FieldNameToIndex | lab/src/TupleDesc.java:170-180 | Returns the smallest index whose non-null name equals `name`; throws exactly when there is none |
| TupleDescs.TupleDesc.GetSize | lab/src/TupleDesc.java:186-193 | The wrapped sum of the field lengths, the exact sum when it fits |
| TupleDescs.Create | lab/src/TupleDesc.java:83-109 | One item per type, with the types in order; names all null without `fieldAr`, else `fieldAr` truncated or null-padded |
| TupleDescs.Merge | lab/src/TupleDesc.java:205-216 | Throws `NegativeArraySizeException` exactly when the two field counts together exceed `INT_MAX` (the `int` sum wraps negative); otherwise `td1`'s items in order then `td2`'s, and the field count is the sum |
| TupleDescs.MergeFieldName | lab/src/TupleDesc.java:205-216 | Names of a successful merge are `td1`'s, then `td2`'s shifted by `td1`'s field count |
| TupleDescs.MergeSize | lab/src/TupleDesc.java:205-216 | A successful merge's byte size is the sum of the two sizes |
| TupleDescs.MergeAssociative | lab/src/TupleDesc.java:205-216 | Both groupings of three merges succeed exactly when the three field counts together fit in an `int`, and then give the same descriptor |
| TupleDescs.MergeToString | lab/src/TupleDesc.java:238-244 | A successful merge prints as the two printed descriptors joined by "," |
| TupleDescs.TupleDesc.ToString | lab/src/TupleDesc.java:238-244 | No fields print as the empty string, and one field as its own `name(type)` |
| TupleDescs.TupleDesc.Equals | lab/src/TupleDesc.java:219-224 | Null is never equal; a descriptor is equal to itself |
| TupleDescs.DeepToString | lab/src/TupleDesc.java:223 | The `Arrays.deepToString` form that `equals` compares starts with `[` and ends with `]` |
| TupleDescs.EqualsWhenItemsPrintAlike | lab/src/TupleDesc.java:219-224 | Descriptors whose items print alike are equal both ways |
| TupleDescs.NullNameEqualsNullText | lab/src/TupleDesc.java:219-224 | A null name and the name "null" make different descriptors that `equals` calls equal |
| TupleDescs.TupleDescIterator.constructor | lab/src/TupleDesc.java:54-55 | The iterator starts at index 0 |
| TupleDescs.TupleDescIterator.HasNext | lab/src/TupleDesc.java:58-60 | True exactly when items remain |
| TupleDescs.TupleDescIterator.Next | lab/src/TupleDesc.java:63-65 | Returns the next item and advances; the index advances even when the read is out of range and throws |
| TupleDescs.IterateItems | lab/src/TupleDesc.java:52-68 | Iterating yields exactly the items, in index order |
| Aggregates.AggregateCursor.constructor | lab/src/IntegerAggregator.java:133-135 | Descriptor and array null, index 0 |
| Aggregates.AggregateCursor.Load | lab/src/IntegerAggregator.java:140-141 | `open` sets the descriptor and array and keeps the index |
| Aggregates.AggregateCursor.HasNext | lab/src/IntegerAggregator.java:180-182 | True exactly when `curIndex` is below the array length; a null array throws |
| Aggregates.AggregateCursor.Next | lab/src/IntegerAggregator.java:185-192 | Returns the row at `curIndex` and advances; past the end throws `NoSuchElementException`; a null array throws |
| Aggregates.AggregateCursor.Rewind | lab/src/IntegerAggregator.java:195-197 | The index returns to 0, nothing else changes |
| Aggregates.AggregateCursor.Close | lab/src/IntegerAggregator.java:205-209 | Descriptor and array null, index 0 |
| Aggregates.ReadAll | lab/src/IntegerAggregator.java:180-197 | After a rewind the cursor hands out exactly the array's rows in order, then reports no more |
| IntegerAggregators.GroupMembership | lab/src/IntegerAggregator.java:60-68 | A group has values exactly when some merged tuple falls into it |
| IntegerAggregators.GroupKeyShape | lab/src/IntegerAggregator.java:60-68 | A group key is null exactly when there is no grouping |
| IntegerAggregators.AggregateSnoc | lab/src/IntegerAggregator.java:73-108 | Adding a value: the first gives 1 (COUNT) or the value; then COUNT adds 1, SUM adds the value (wrapping), MAX/MIN take the larger/smaller |
| IntegerAggregators.AvgStateSnoc | lab/src/IntegerAggregator.java:110-118 | AVG's state starts at `[v, 1]`, then adds the value to the sum and 1 to the count (wrapping) |
| IntegerAggregators.SummarizesSnoc | lab/src/IntegerAggregator.java:73-108 | Updating the merged tuple's own group to its new aggregate keeps the map equal to the reference aggregates |
| IntegerAggregators.AvgSummarizesSnoc | lab/src/IntegerAggregator.java:110-118 | Likewise for AVG's `[sum, count]` map |
| IntegerAggregators.MergedIsAggregate | lab/src/IntegerAggregator.java:73-108 | The switch's new value is the reference aggregate of the values with the new one |
| IntegerAggregators.MergeStep | lab/src/IntegerAggregator.java:73-108 | The switch applied to the current entry gives the group's new aggregate and keeps the map summarizing all merged tuples |
| IntegerAggregators.IntegerAggregator.constructor | lab/src/IntegerAggregator.java:35-44 | Both maps empty, nothing merged |
| IntegerAggregators.IntegerAggregator.ReportedValue | lab/src/IntegerAggregator.java:143-148 | A value is reported exactly for an existing group (with a non-zero count for AVG); a missing group unboxes null, a zero count divides by zero |
| IntegerAggregators.IntegerAggregator.MergeTupleIntoGroup | lab/src/IntegerAggregator.java:53-120 | Only the tuple's group entry changes, in `gbHash` for MIN/MAX/SUM/COUNT and in `gbAvgHash` for AVG, to the aggregate of all values merged into that group |
| IntegerAggregators.IntegerAggregator.MergeIntoHash | lab/src/IntegerAggregator.java:73-108 | `gbHash` changes only at the group, to its new reference aggregate |
| IntegerAggregators.IntegerAggregator.MergeIntoAvgHash | lab/src/IntegerAggregator.java:110-118 | `gbAvgHash` changes only at the group, to the group's wrapped `[sum, count]`; `gbHash` unchanged |
| IntegerAggregators.IntegerAggregator.OpenUngrouped | lab/src/IntegerAggregator.java:139-150 | One result row with the null group's value; throws exactly when that value cannot be reported |
| IntegerAggregators.IntegerAggregator.OpenGrouped | lab/src/IntegerAggregator.java:151-176 | One row per group, each group once, row `j` = `(g, value of g)`; throws exactly when some AVG count is 0 |
| IntegerAggregators.IntegerAggregator.FillGroupRows | lab/src/IntegerAggregator.java:152-175 | The key-set loop fills the array with one distinct row per group |
| IntegerAggregators.IntegerAggregator.Open | lab/src/IntegerAggregator.java:138-177 | Without grouping, one row holding the null group's value (the array holds null and the error escapes when that value cannot be reported); with grouping, one row `(g, value of g)` per group, each group once, or `ArithmeticException` when some AVG count is 0; the descriptor is `[INT]` or `[gbfieldtype, INT]` |
| IntegerAggregators.UngroupedSingleGroup | lab/src/IntegerAggregator.java:60-65 | Without grouping the only group is null, and it exists exactly once a tuple was merged |
| IntegerAggregators.GroupedKeys | lab/src/IntegerAggregator.java:66-68 | With grouping, the groups are exactly the group-field values of merged tuples |
| IntegerAggregators.CountIsGroupSize | lab/src/IntegerAggregator.java:92-99 | COUNT: the value is the number of tuples merged into the group (wrapped) |
| IntegerAggregators.SumIsGroupTotal | lab/src/IntegerAggregator.java:83-90 | SUM: the value is the group's total with `int` wrap-around |
| IntegerAggregators.ExtremeIsGroupValue | lab/src/IntegerAggregator.java:74-108 | MAX/MIN: the value is one of the group's values and bounds all of them |
| IntegerAggregators.AvgIsTruncatedMean | lab/src/IntegerAggregator.java:164-174 | AVG: without wrap-around the reported value is the mean rounded toward zero |
| StringAggregators.CountInIgnoresOtherFields | lab/src/StringAggregator.java:43-55 | Counts depend only on the group field; the aggregate field is never read |
| StringAggregators.CountInPositive | lab/src/StringAggregator.java:47-54 | A group's count is positive exactly when a merged tuple carries its value |
| StringAggregators.CountInSnoc | lab/src/StringAggregator.java:47-54 | A merge adds one to its own group's count only |
| StringAggregators.CountsSnoc | lab/src/StringAggregator.java:47-54 | Incrementing the group's entry (from 0 if missing) keeps the map equal to the wrapped counts |
| StringAggregators.StringAggregator.constructor | lab/src/StringAggregator.java:33-36 | Empty map, `aVal` 0, nothing merged |
| StringAggregators.StringAggregator.MergeTupleIntoGroup | lab/src/StringAggregator.java:43-55 | Without grouping `aVal` grows by 1 and the map is unchanged; with grouping only the group's entry grows by 1 (from 0 if missing) |
| StringAggregators.StringAggregator.MergeGrouped | lab/src/StringAggregator.java:47-54 | The group's entry grows by 1 (from 0 if missing), the rest unchanged |
| StringAggregators.StringAggregator.OpenUngrouped | lab/src/StringAggregator.java:74-79 | Exactly one row holding `aVal` |
| StringAggregators.StringAggregator.OpenGrouped | lab/src/StringAggregator.java:80-91 | One row `(g, count of g)` per group, each group once |
| StringAggregators.StringAggregator.FillGroupRows | lab/src/StringAggregator.java:84-90 | The key-set loop fills the array with one distinct row per group |
| StringAggregators.StringAggregator.Open | lab/src/StringAggregator.java:73-92 | Without grouping, the one row holding `aVal`; with grouping, one row `(g, count of g)` per key of the map, each key once |
| StringAggregators.NewStringAggregator | lab/src/StringAggregator.java:28-37 | Throws `IllegalArgumentException` exactly when the operator is not COUNT; otherwise an empty aggregator |
| StringAggregators.UngroupedCount | lab/src/StringAggregator.java:45-46 | Without grouping `aVal` is the number of merged tuples (while it fits an `int`) |
| StringAggregators.GroupedKeys | lab/src/StringAggregator.java:47-54 | With grouping the map's keys are exactly the group values of merged tuples |
| IntHistograms.IntHistogram.constructor | lab/src/IntHistogram.java:30-38 | Cells all 0, count 0, fields as given |
| IntHistograms.IntHistogram.AddValue | lab/src/IntHistogram.java:44-49 | Exactly the chosen bucket's cell grows by 1 (wrapping), `tNum` by 1; a negative bucket index throws and changes nothing |
| IntHistograms.NewIntHistogram | lab/src/IntHistogram.java:30-38 | `min(buckets, max-min+1)` zero cells of width `(max-min+1)/buckets`; a negative count throws `NegativeArraySizeException`, zero throws `ArithmeticException` |
| IntHistograms.RangeSizeOrdered | lab/src/IntHistogram.java:32 | For `min <= max` the `int` range size is positive exactly when `max-min+1` does not overflow |
| IntHistograms.CreationSucceeds | lab/src/IntHistogram.java:32-36 | With `min <= max`, no overflow and at least one requested bucket, a histogram is built |
| IntHistograms.WidthAtLeastOne | lab/src/IntHistogram.java:36 | Every built histogram has width at least 1, and its buckets fit in the range |
| IntHistograms.RangeFits | lab/src/IntHistogram.java:32 | A built histogram with `min <= max` has a range that fits an `int` |
| IntHistograms.BucketInRange | lab/src/IntHistogram.java:46 | For `v >= min` the bucket index is in `[0, buckets-1]`, `(v-min)/width` capped |
| IntHistograms.ValueInRangeHasBucket | lab/src/IntHistogram.java:46 | Every value of `[min, max]` lands in a bucket |
| IntHistograms.BucketMonotone | lab/src/IntHistogram.java:46 | The bucket index does not decrease as the value grows |
| IntHistograms.JustBelowMinLandsInFirstBucket | lab/src/IntHistogram.java:46 | Values less than a width below `min` land in bucket 0, because division truncates toward zero |
| IntHistograms.CellsSumToCount | lab/src/IntHistogram.java:44-49 | While nothing wrapped, the cells add up to the number of values added |
| TableStatistics.ExtremesOfSnoc | lab/src/TableStats.java:126-129 | Folding a value into running min/max gives the min/max of the extended column |
| TableStatistics.RowExtremes | lab/src/TableStats.java:121-131 | The per-field loop over one tuple keeps the maps equal to each int column's min and max |
| TableStatistics.FirstPass | lab/src/TableStats.java:117-132 | The first pass counts the tuples (as an `int`) and leaves each int column's exact minimum and maximum |
| TableStatistics.FieldInColumn | lab/src/TableStats.java:144-149 | Every int value fed to a column's histogram lies in the `[min, max]` it was built with |
| TableStatistics.BuildableIff | lab/src/TableStats.java:147 | A column's histogram can be built exactly when its value range has fewer than `INT_MAX` steps |
| TableStatistics.ClampToInt | lab/src/TableStats.java:261 | A collection size as Java reports it: the count, or `INT_MAX` beyond that |
| TableStatistics.TableStats.constructor | lab/src/TableStats.java:105-112 | Empty histograms and value sets, the first pass's counters, nothing fed yet |
| TableStatistics.TableStats.Adopt | lab/src/TableStats.java:147 | `putIfAbsent`: a field's first histogram is kept, a later one ignored |
| TableStatistics.TableStats.Tick | lab/src/TableStats.java:148-149 | Adding the value to the column's histogram keeps every histogram equal to its fed values |
| TableStatistics.TableStats.NoteInt | lab/src/TableStats.java:145-146 | The value joins its column's distinct-value set |
| TableStatistics.TableStats.Accept | lab/src/TableStats.java:144-149 | Memo and histogram updated for one int field: the fed state moves on by one field |
| TableStatistics.TableStats.FeedInt | lab/src/TableStats.java:143-150 | One int field fed; a column whose histogram cannot be built throws |
| TableStatistics.TableStats.FeedString | lab/src/TableStats.java:151-159 | One string field fed: into its distinct-value set, and its column gets a string histogram |
| TableStatistics.TableStats.EndRow | lab/src/TableStats.java:141 | After a tuple's last field the next tuple starts |
| TableStatistics.TableStats.FeedRow | lab/src/TableStats.java:141-160 | One tuple fed field by field; throws only when some column cannot be histogrammed |
| TableStatistics.TableStats.SecondPass | lab/src/TableStats.java:138-166 | All tuples fed: value sets and histograms hold every column's values; throws only for a column that cannot be histogrammed |
| TableStatistics.TableStats.AllBuildable | lab/src/TableStats.java:147 | A completed statistics object has a buildable histogram for every column |
| TableStatistics.TableStats.TotalTuples | lab/src/TableStats.java:249-252 | The number of tuples scanned, as an `int` |
| TableStatistics.TableStats.EstimateScanCost | lab/src/TableStats.java:182-185 | `pgNum * ioCostPerPage` as an `int` product: exact when it fits, wrapped otherwise |
| TableStatistics.TableStats.GetDistinctVal | lab/src/TableStats.java:259-266 | The number of distinct values of an int or string column; an empty column unboxes null; an out-of-range field throws |
| TableStatistics.TableStats.DistinctAtMostTotal | lab/src/TableStats.java:259-266 | On a non-empty column between 1 and the tuple count |
| TableStatistics.TableStats.EstimateSelectivity | lab/src/TableStats.java:229-244 | The histogram of the constant's type answers exactly when its column has values, else the `-1` sentinel; the int one spans the column's exact extremes and holds all its values |
| TableStatistics.NewTableStats | lab/src/TableStats.java:87-167 | Statistics over exactly the file's tuples; an empty file throws `NullPointerException`, an unbuildable histogram throws |
| TableStatistics.StatsRegistry.constructor | lab/src/TableStats.java:17 | The registry starts empty |
| TableStatistics.StatsRegistry.GetTableStats | lab/src/TableStats.java:21-23 | The stored statistics for the name, none if absent; a null name throws |
| TableStatistics.StatsRegistry.SetTableStats | lab/src/TableStats.java:25-27 | Stores the statistics under the name, so that `getTableStats` returns them; a null name or value throws and changes nothing |
| SeqScans.RenamedFields | lab/src/SeqScan.java:102-116 | The scan's descriptor has the file's field count and types, and field `i` is named `alias.name` |
| SeqScans.RenamedPrefix | lab/src/SeqScan.java:111 | Every name starts with the alias and a dot; a null alias prints as `null.` |
| SeqScans.SeqScan.constructor | lab/src/SeqScan.java:36-43 | Closed, with no iterator, over the given table and alias |
| SeqScans.SeqScan.Reset | lab/src/SeqScan.java:75-79 | New table id and alias (which `getAlias` then returns); the file scanned and the open state stay |
| SeqScans.SeqScan.GetTupleDesc | lab/src/SeqScan.java:102-116 | The loop over the file's items builds the renamed descriptor |
| SeqScans.SeqScan.Open | lab/src/SeqScan.java:85-90 | The scan is open and yields all the file's tuples; an empty file throws and leaves the flag |
| SeqScans.SeqScan.HasNext | lab/src/SeqScan.java:118-124 | True exactly when tuples remain; always false while closed |
| SeqScans.SeqScan.Next | lab/src/SeqScan.java:126-133 | Null while closed; otherwise the next tuple, or `NoSuchElementException` when none remain |
| SeqScans.SeqScan.Close | lab/src/SeqScan.java:135-139 | The flag is cleared first; then the iterator is closed, and a scan never opened throws |
| SeqScans.SeqScan.Rewind | lab/src/SeqScan.java:141-145 | Restarts the file's tuples; a scan never opened throws |
| Operators.LeadingOksSpec | lab/src/Insert.java:89-95 | The counted prefix holds only successes and stops at the first failure |
| Operators.LeadingOksUnique | lab/src/Insert.java:89-95 | The successes before the first failure are the only such count |
| Operators.AllSucceed | lab/src/Insert.java:89-95 | When every request succeeds, all child tuples are counted |
| Operators.Consumed | lab/src/Insert.java:89-95 | The loop takes the successful tuples plus at most the one that failed |
| Operators.DrainShape | lab/src/Insert.java:89-98 | The drain takes the leading successes and, if one fails, that one too; with no failure it takes every tuple |
| Inserts.Insert.constructor | lab/src/Insert.java:32-42 | Count 0, not yet called, descriptor a single INT field (the child's descriptor is not checked) |
| Inserts.Insert.GetTupleDesc | lab/src/Insert.java:44-47 | One unnamed INT field |
| Inserts.Insert.Open | lab/src/Insert.java:49-53 | The child is open from its first tuple; count and flag unchanged |
| Inserts.Insert.Close | lab/src/Insert.java:55-61 | Count 0, flag cleared, child closed |
| Inserts.Insert.Rewind | lab/src/Insert.java:63-68 | Count 0, flag cleared, child restarted |
| Inserts.Insert.FetchNext | lab/src/Insert.java:83-99 | Later calls return null and change nothing; the first inserts the leading successful child tuples, stops at an `IOException` (not counting it, leaving the rest) and returns the count, while any other exception escapes |
| Inserts.Insert.Take | lab/src/Insert.java:89-94 | One loop pass: takes the next child tuple, sends one insert request and counts it only on success |
| Inserts.Insert.Drain | lab/src/Insert.java:89-98 | The whole loop and the count tuple, as stated for `fetchNext` |
| Deletes.Delete.constructor | lab/src/Delete.java:27-34 | Count 0, not yet called, descriptor a single INT field |
| Deletes.Delete.GetTupleDesc | lab/src/Delete.java:36-39 | One unnamed INT field |
| Deletes.Delete.Open | lab/src/Delete.java:41-45 | The child is open from its first tuple; count and flag unchanged |
| Deletes.Delete.Close | lab/src/Delete.java:47-53 | Count 0, flag cleared, child closed |
| Deletes.Delete.Rewind | lab/src/Delete.java:55-60 | Count 0, flag cleared, child restarted |
| Deletes.Delete.FetchNext | lab/src/Delete.java:71-87 | Later calls return null and change nothing; the first deletes the leading successful child tuples, stops at an `IOException` and returns the count, while any other exception escapes |
| Deletes.Delete.Take | lab/src/Delete.java:77-82 | One loop pass: takes the next child tuple, sends one delete request and counts it only on success |
| Deletes.Delete.Drain | lab/src/Delete.java:77-86 | The whole loop and the count tuple, as stated for `fetchNext` |

## Left out

- Concurrency in `LockManager` (`synchronized`, `wait`, `notifyAll`). `acquire` is one non-blocking pass of its loop. A woken waiter's stale reference to a page entry that `release` has removed is therefore outside the model.
- `LockManager.LocksOnPage.hasSharedLocks` is modelled as written (it is true for an empty set), but nothing calls it. `getExclusiveLock` and `getSharedLocks` are field reads.
- Permission arguments passed to the buffer pool inside `HeapFile` matter only under concurrency.
- `HeapPage`, `BufferPool`, `Catalog`, `Database`, `Type`, `Field`, `Tuple` and `Operator` are not part of this model. The Java types involved are:
  - `BufferPool`, the buffer pool;
  - `Catalog` and `Database`, the catalog;
  - `Type`, `Field` and `Tuple`, the value classes;
  - `Operator`, the operator supertype.

  How they stand in:
  - Pages are rows of slots, and an insertion fills the first empty slot.
  - The buffer pool's view of a page is the file's page.
  - The type lengths are 4 bytes for an int and 4 + 128 for a string.
- HeapFiles.HeapFile.ReadPage: the page offset `pageNumber * pageSize` is taken as exact. Java computes it in `int`, so the contract holds only while `(n + 1) * pageSize <= INT_MAX`, i.e. for files under 2 GiB at 4096-byte pages. Past that, Java's offset wraps. A negative offset makes `seek` throw; the exception is swallowed and the result is null. A wrapped non-negative offset reads another page's bytes. The abstract page model cannot represent that.
- HeapFiles.HeapFile.WritePage: the same exact offset. On a wrapped offset Java's `seek` throws an `IOException`, or the write lands on another page.
- HeapFiles.HeapFile.InsertTuple: appending a page goes through `writePage` with the exact offset. On a file of 2^31 bytes or more, Java's append escapes with an `IOException` instead.
- HeapFiles.HeapFile.NumPages: the count is exact. Java's `(int)` cast saturates at `INT_MAX`, but only for files of more than `INT_MAX` pages, far beyond the offset limit above.
- HeapFiles.HeapFile.DeleteTuple: for a record id of another table the model returns that page id and leaves this file unchanged. Java fetches that page from the buffer pool and deletes from it; that effect on the other table is not modelled.
- `HeapFile.getId`, `getFile` and the RandomAccessFile byte I/O are left out. The id is a parameter, and a file is its length plus its pages.
- `HeapFile.writePage` is modelled for page numbers up to `numPages()`. Writes further out would leave a gap in the file.
- Exceptions a `HeapPage` would throw on delete are undefined. The model takes a missing page number as the null page, and an empty or out-of-range slot as `DbException`.
- Floating point:
  - `IntHistogram.estimateSelectivity`, `avgSelectivity` and `toString`;
  - `TableStats.estimateTableCardinality` and `avgSelectivity`;
  - the selectivity value of `estimateSelectivity`, which is modelled only as which histogram answers or the `-1` sentinel;
  - `tNum`, which is an exact count.
- `StringHistogram` is not part of this model. String columns are kept only as the set of columns that have one.
- `TableStats.setStatsMap` (reflection), `getStatsMap` and `computeStatistics` (a catalog loop) are left out. So are the `printStackTrace` logging calls and the static `ConcurrentHashMap`, modelled as an ordinary registry object.
- `TableStatistics.NewTableStats`: the heap file is passed in for the catalog lookup, and both passes see the same tuples. The unreachable `-1` branch of `getDistinctVal` (there are only two types) is not modelled.
- `SeqScan.getTableName` and the two-argument constructor need the catalog. The file scanned is a constructor parameter.
- The `Operator`/`OpIterator` supertypes and `getChildren`/`setChildren` are left out.
  - The child operator is a cursor over a fixed tuple sequence, so exceptions thrown by the child itself are not modelled.
  - The buffer pool's replies to insert and delete requests are a script of outcomes.
- IntegerAggregators.IntegerAggregator.MergeTupleIntoGroup: the tuple must satisfy `Mergeable`: the aggregate field is an `int` and both field indices are in range. On a string aggregate field Java throws `ClassCastException` at the `(IntField)` cast (IntegerAggregator.java line 70); an out-of-range index fails inside `Tuple.getField`, which is not part of this model.
- StringAggregators.StringAggregator.MergeTupleIntoGroup: with grouping, the group-by index must be in range (`Groupable`). An out-of-range index fails inside `Tuple.getField`, which is not part of this model.
- `TupleDesc.hashCode`, the `TDItem[]` constructor's disabled `assert`, and serialization are left out.
