# MokuDB storage engine: a verified model

A model in Dafny of the parts of MokuDB on which its data depends: a B+Tree over 4 KB slotted pages
shared by all tables, a No-Steal buffer pool, a redo-only write-ahead log with crash recovery,
table-level two-phase locking, the expression parser, and the planner's choice between an index scan
and a full scan. `dafny verify dfyconfig.toml` checks everything.

## How it is built

**The tree.** `Tree.dfy` gives insertion, update and deletion as functions on an inductive tree with
page ids, free-space offsets and separators, branch by branch as the code has them. `BTree.dfy` is the
code: a class whose methods fetch, pin, change, log and unpin pages, proved to do to the pages what
those functions do to the tree, ordered or not. What they mean is proved about the functions:
`TreeProofs.dfy` (contents), `TreeOrder.dfy` (order), `TreeTidy.dfy` (order in each page),
`TreeFences.dfy` (order with repeated keys), `TreeLocal.dfy` (which pages a put depends on),
`TreeShape.dfy` (depth, sharing), `TreeSpace.dfy` (room), `TreeMatch.dfy` (pages and leaf chain),
`TreeDemand.dfy` (frames and new pages), `TreeMap.dfy` (the table as a map), `TreeRuns.dfy` (any number
of operations). `PagedTree.dfy` joins the two, and `SortCells.dfy` is the sort that the splits use.
`PageReads.dfy` follows the pointers on pages that need not be those of a tree. `Misplaced.dfy`,
`Refusals.dfy` and `Inputs.dfy` show where conditions of these theorems fail.

**Bytes.** `SlottedPage.dfy` refines the page's byte array to a list of byte strings, `CellCodec.dfy`
encodes and decodes cells, and `PageImages.dfy` joins the two to the page values of `Pages.dfy` that
the tree works on. `WalCodec.dfy` is the log file byte by byte; `ByteOrder.dfy` holds the integers.

**Transactions.** `Storage.dfy` has the page file, the log of whole records and the pool as classes,
`Recovery.dfy` the redo pass, `Transactions.dfy` the manager. `Machine.dfy` is the system as a state
machine whose steps interleave freely, with crashes anywhere; `MachineProofs.dfy` shows that every
step keeps its invariant, and `Durability.dfy` draws the conclusions. `Hypotheses.dfy` says what its
two hypotheses are worth, `Statements.dfy` shows that a statement of the tree is a run of the machine,
`Undo.dfy` what becomes of the tree when its transaction commits or does not, `Halfway.dfy` what a
statement leaves that has stopped halfway, `Beside.dfy` what it does beside others' changes in flight, and
`Restart.dfy` puts insert, commit and recovery together.
`Locks.dfy` and `Serial.dfy` do the same for locking.

**SQL.** `Syntax.dfy` and `Parser.dfy` model tokens, expressions and the Pratt parser. `Grammar.dfy` says in
terms of tokens what it accepts, and `Precedence.dfy` what that means. `Plans.dfy` has plans and their locks,
`Executor.dfy` the scans and filters, `Where.dfy` what conditions keep, `Select.dfy` the way from a condition
to its rows, and `IndexChoice.dfy` when an index scan is right.

## What was found

Some promises hold only under a condition. Each is stated as an exact condition, or with an input
that breaks it:

- createNewRoot writes the root page id to the file header at once, and nothing puts it back. When the
  transaction is rolled back, or lost in a crash, the pages are restored, and the root page id is that
  of a blank page which leads to page 0 only. The tree is back if and only if the transaction did not
  split the root; otherwise, unless the tree was a single leaf, every row outside page 0 is lost
  (`Undo.PutRolledBack`, `Undo.PutLostInCrash`, `Undo.StatementsRolledBack`, and
  `Halfway.PutThenDiscard` for the code). The sixth row of an ascending load can be enough
  (`Inputs.SixthRowSplitsRoot`).
- Insert does not check whether the key is there. A second row with the key is stored where no search
  finds it, and the tree is no longer ordered (`BTree.BTree.Insert`, `TreeMap.DuplicateMap`). A scan still
  returns both (`TreeFences.InsertedAmongEquals`).
- A leaf without live cells can be full all the same, because deletion reclaims no space. When it splits
  on a key equal to its own lower separator, that separator repeats. Separators stay different exactly
  when this does not happen (`TreeOrder.PutStrict`), and inserting, deleting and inserting a large row
  again makes it happen (`Inputs.ReinsertRepeatsSeparator`). By itself this does no harm
  (`TreeOrder.PutOrdered`). But once an internal page has split between equal separators, a later
  split can pass up one that equals the child's own (`TreeOrder.PlacedIff`). findInsertPos then puts it on
  the wrong side, and the rows of the left half are still in the tree but found by no search
  (`Misplaced.MisplacedLosesLeft`); nine operations lead there (`Inputs.SeparatorMisplaced`).
- Splits ignore the answer of AddCell. An insert or update loses rows exactly when the halves of its
  leaf do not both fit, and reports success (`BTree.BTree.Insert`, `TreeMap.PutLost`); the third row of a
  table can be enough (`Inputs.InsertedRowIsGone`). When the halves of an internal page do not fit, exactly
  the children in front of the refused separators are lost to every search (`Refusals.ThinnedFinds`), which
  eight ascending string keys can bring about (`Inputs.InternalSplitLosesRow`). A bound on cell sizes rules it out for any number of
  operations (`TreeSpace.WeightedRootFits`, `TreeRuns.RunsAreMapRuns`).
- A split that finds every frame pinned or dirty gives its page up as clean, changed or not: the internal
  page whose pointer has been overwritten already, or the leaf of an update without its old row. Rollback
  does not restore that page. It restores all pages if and only if the frame was missing for the way down,
  for the new half of an inserted row's leaf, or for the new root alone, or a statement before had marked
  the page. Otherwise the rows reached through
  the overwritten pointer, or the row of the update, are not found as long as the frame stays in the pool,
  while the page file has the page as it was
  (`Halfway.PutThenDiscard`, `Halfway.StopFinds`, `Inputs.UpdateInOneFrame`, `Inputs.InsertInThreeFrames`).
  The frames on entry decide it, and 2 * height + 3 of them to spare rule it out (`BTree.BTree.EnoughFrames`).
- Pages are shared between tables but a frame remembers one writer. After a write over another
  transaction's waiting change some continuation commits that change, shows readers the page without
  it, and recovers to the page with it. This can happen exactly when the change is real and not being
  rolled back (`Hypotheses.WriteIsSafeIff`, `Hypotheses.CommittedWriteIsLost`).
- Transaction ids start again at 1 with every process while the log is kept, and recovery goes by ids.
  When an id can be used again, and when not: `Hypotheses.BeginIsSafeIff`,
  `Hypotheses.ReusedIdRevivesAbortedWrite`.
- A rollback that meets a pinned page leaves the transaction active with some of its pages already
  reloaded. Going on to commit it is safe only under the condition of `Hypotheses.ResumeIsSafeIff`, which
  two changed pages and one reader are enough to break (`Hypotheses.HalfReloadedIsUnsafe`).
- A request for a lock that times out can still be granted, and the lock is then held for ever
  (`Serial.LostLockStaysLost`): six steps of two transactions close a table for good
  (`Serial.AbandonedRequestLocksTable`). When no more locks get lost: `Serial.LostSameIff`.
- `a IS NULL AND b` stops after NULL, and the rest of the text is left unread without an error
  (`Parser.TestEndsExpr`). To the right of OR a test ends its operand as early: `x OR y IS NULL AND z` is read
  as `(x OR y IS NULL) AND z` (`Precedence.TestEndsOperand`). Without IS the precedences are the usual ones
  (`Precedence.LayersParse`).
- Truth values and NULL are equal to everything on their right. `flag = FALSE` keeps every row and
  `flag != TRUE` none (`Where.EqualToAll`), and `n = 5` keeps the rows whose `n` is NULL (`Where.IntColumn`).
  With the sides exchanged, a NULL ends the process (`Where.IntBeforeColumn`).
- For `<`, `>`, `<=` and `>=` on the key the planner drops the filter, but the index scan returns only
  the equal row; and it does so whatever is on the right, though the index scan fails unless that is a
  literal (`IndexChoice.IndexChoiceIff`, `IndexChoice.KeyWithItself`). The first does no harm only at the
  ends of the range of keys that a page has room for.
- A log that ends in the middle of redo data cannot be opened at all; a cut anywhere else is harmless
  (`WalCodec.ReadPrefix`, `WalCodec.TornFlush`).

Where the documentation and the code differ, the model follows the code. The documentation of the log,
the pool and the transactions promises No-Force, but Commit writes the transaction's pages before it
returns (txn/txn.go:135), and eviction never writes a page (storage/buffer/buffer.go:156-169), although
the documentation says that dirty pages are written then. Recovery is needed all the same, for a crash
between the log flush and the last of those writes.

## Model

| member | source | states |
|---|---|---|
| `BTree.BTree.constructor` | storage/btree/btree.go:20-37 | opening a new file makes an empty tree of one leaf; opening an existing one takes over the tree that is there, and the invariant holds |
| `BTree.BTree.Insert` | storage/btree/btree.go:61-71 | on every well-shaped tree, ordered or not, the pages become what `Put` says, whatever leaves, internal pages and root split; in an ordered tree the contents read as a map gain the row when the key is absent and lose exactly the rows that the halves of its leaf have no room for, none if and only if both fit; when the key is present and they fit, every search answers as before although a second cell is there; whatever the key, the leaves stay apart and the contents, read from left to right, gain the row behind equal keys exactly if the halves fit, so that a scan remains possible even after a key has been inserted twice; the order survives an absent key, and then separators come to repeat if and only if an emptied leaf splits on its own lower separator; pages outside the tree stay as they are; all pins are as on entry; every changed page has its image logged under consecutive LSNs, the pages marked with the transaction are exactly those that `Put` changes, and the page file has at most gained blank pages. It stops for want of a frame if and only if the new pages it asks for are more than the frames of the pool less the pages that were pinned or dirty on entry or lie on the way down, so never with 2 * height + 3 frames to spare; which page is then left changed without a record, and how, and which are marked, is stated too |
| `BTree.BTree.Update` | storage/btree/btree.go:77-86 | on every well-shaped tree the leaf that the descent reaches has the row of the key replaced, in place or through a split, or the key is missing there and nothing changes; in an ordered tree that means a present key has its row replaced, rows are lost exactly as for Insert, and the order survives; the leaves stay apart in any case, repeated keys or not; frames, pins, log and marks as for Insert |
| `BTree.BTree.Delete` | storage/btree/btree.go:90-106 | on every well-shaped tree the row of the key leaves the leaf that the descent reaches, or the key is missing there and nothing changes; in an ordered tree that means a present key loses its row and nothing else changes; repeated keys or not, the leaves stay apart; it stops for want of a frame if and only if every frame is pinned or dirty and a page of the way down is not among them; marks that leaf alone; pins as on entry on every return, at most one more at any moment |
| `BTree.BTree.Search` | storage/btree/btree.go:40-58 | on every well-shaped tree returns the first row with the key in the leaf that the descent reaches, which in an ordered tree is exactly the row that the whole tree has for the key, or none; it stops for want of a frame if and only if every frame is pinned or dirty and a page of the way down is not among them; changes no page, no pin and no mark, with one page pinned at a time |
| `BTree.BTree.Scan` | storage/btree/btree.go:109-143 | on every well-shaped tree whose cells ascend by table, keys repeated or not, as they do after any inserts, updates and deletes, returns exactly the rows of the table, in order and each once, walking the leaf chain past empty leaves and stopping at the first greater table; terminates; it stops for want of a frame if and only if every frame is pinned or dirty and a page it has to read is not among them; changes no page, no pin and no mark, with one page pinned at a time |
| `BTree.BTree.FindLeaf` | storage/btree/btree.go:170-184 | terminates at the leaf responsible for the key, or fails exactly when a page of the way down can get no frame |
| `BTree.BTree.FindLeftmostLeaf` | storage/btree/btree.go:494-509 | terminates at the first leaf of the chain, or fails exactly when a page of the left spine can get no frame |
| `BTree.BTree.ScanChain` | storage/btree/btree.go:115-142 | the walk along the chain collects the rows of all leaves read so far and ends at the first leaf with a greater table; it fails exactly when one of the leaves up to that one can get no frame |
| `BTree.BTree.ScanLeaf` | storage/btree/btree.go:120-134 | the loop over one leaf appends that leaf's rows of the table and reports a greater table |
| `BTree.PutMeaning` | storage/btree/btree.go:61-86 | what `Put` means for an ordered tree, as a list, as a map and for its order: rows are lost exactly when the halves of the leaf do not fit, and which |
| `BTree.BTree.FindChild` | storage/btree/btree.go:187-198 | the child in front of the first separator greater than the key, else the rightmost |
| `BTree.BTree.FindInsertPos` | storage/btree/btree.go:232-241 | the position of the first greater key |
| `BTree.BTree.SearchInLeaf` | storage/btree/btree.go:201-215 | finds the key exactly when the leaf has it, although it stops at the first greater key; keys may repeat |
| `BTree.BTree.Finish` | storage/btree/btree.go:148-163 | the log gains one record with the page's image as it was before the LSN is stamped, and the page changes in its LSN only; it is unpinned and marked with the transaction |
| `BTree.BTree.PutRecursive` | storage/btree/btree.go:219-230 | insertion and update into a subtree refine the functional specification `Put`: same pages, same separators, same new page ids; the recursion terminates; it stops exactly when the frames do not suffice for the way down and the new pages, and then the pages written so far are marked and recorded, the new ones are blank, and one page at most is left changed without a record: the updated leaf, or the internal page over the last child that split |
| `BTree.BTree.PutInternalPage` | storage/btree/btree.go:258-270 | an internal page stays pinned while its child changes and then takes in the child's split; a stop below leaves it unchanged |
| `BTree.BTree.UpdateLeaf` | storage/btree/btree.go:338-354 | the old cell goes before the new one is placed, so a row that fits after the removal is not split; without a frame for the split, which is decided by the frames on entry, the page is given up without its old cell, unmarked and unrecorded |
| `BTree.BTree.PlaceInLeaf` | storage/btree/btree.go:245-255 | the cell goes to its sorted position if the page has room, and the leaf splits otherwise, which fails exactly when the new page can get no frame |
| `BTree.BTree.SplitLeaf` | storage/btree/btree.go:358-414 | the cells and the new one are divided in sorted order over the page and a new page that takes its place in the leaf chain, each page keeping what its AddCell calls accept; the separator is the right half's first key; it fails exactly when the new page can get no frame, and then the page is as it came in |
| `BTree.BTree.SplitInternal` | storage/btree/btree.go:418-469 | the middle separator moves up, its child becomes the left page's rightmost child, and the new page inherits the old rightmost child; each page keeps what its AddCell calls accept; it fails exactly when the new page can get no frame, and then the page keeps the pointer that has been overwritten |
| `BTree.BTree.PatchInternal` | storage/btree/btree.go:272-306 | after a child split the pointer to the child is overwritten with the new page and a cell for the child is added, in place or through a split; when the split finds no frame, the page stays with the overwritten pointer and without the cell, unmarked and unrecorded |
| `BTree.BTree.Repoint` | storage/btree/btree.go:281-291 | the cell whose pointer is the split child is the one overwritten; without one it is the rightmost pointer |
| `BTree.BTree.CreateNewRoot` | storage/btree/btree.go:472-492 | the new root holds one separator between the two halves and becomes the root page; without a frame for it, which is decided exactly, no page and no pointer has changed |
| `BTree.BTree.EnoughFrames` | storage/buffer/buffer.go:43-68 | a put needs at most one frame a level for the way down, one a level for new pages, and one for a new root |
| `TreeDemand.TwoTouched` | storage/btree/btree.go:272-306 | a subtree that splits has had every page of the way down split, and exactly those and the new ones are written |
| `BTree.BTree.Fill` | storage/btree/btree.go:389-394 | offering cells to an emptied page with the answers ignored keeps exactly the cells `Kept` says |
| `BTree.BTree.SortWith` | storage/btree/btree.go:383-385 | cells of a page and one more, sorted, are the page with that cell at its insertion position |
| `TreeOrder.SepPosition` | storage/btree/btree.go:296-299 | in an ordered tree the separator of a split child is placed directly in front of the child's own separator if it is below that |
| `TreeOrder.PlacedIff` | storage/btree/btree.go:296-299 | and in general if and only if it does not equal the child's own |
| `TreeOrder.StrictPlaced` | storage/btree/btree.go:272-306 | while no separator repeats, every separator that is passed up finds its place, at every level |
| `Misplaced.MisplacedLosesLeft` | storage/btree/btree.go:281-299 | a separator that equals the child's own goes behind it: the child's own then leads to the new right half, which is empty, so that no search finds a row of the left half, though all of them are still in the tree |
| `Misplaced.CrossedPage` | storage/btree/btree.go:281-299 | the tree this speaks of is the one whose page the code writes |
| `Inputs.SeparatorMisplaced` | storage/btree/btree.go:418-469 | nine inserts and deletes after which two rows are found, and the next insert puts them and its own row where no search finds them |
| `Pages.KeptAllIffFits` | storage/btree/btree.go:388-394 | the ignored AddCell results lose nothing if and only if the cells fit one empty page together |
| `TreeProofs.PutRootContents` | storage/btree/btree.go:61-86 | insertion and update of the tree are insertion and replacement in the list of its cells if and only if the leaf has room or its halves fit; for that the tree need not be ordered, only its leaves be apart around the key |
| `TreeProofs.PutSplices` | storage/btree/btree.go:61-86 | whatever the order, the cells before and behind the responsible leaf's stay, and that leaf's become those its pages accept |
| `TreeFences.FencedContents` | storage/btree/btree.go:232-241 | leaves kept apart by the separators, each ascending, give a list that ascends from left to right, equal keys included |
| `TreeFences.PutRootFenced` | storage/btree/btree.go:61-86 | no insertion or update, of a key that is there or not, and no split mixes the leaves |
| `TreeFences.InsertedAmongEquals` | storage/btree/btree.go:61-71 | so every insertion, a second one of a key too, is insertion into the list behind equal keys, if and only if the halves fit |
| `TreeMap.PutLost` | storage/btree/btree.go:388-394 | as a map the tree gains the row and loses exactly the keys of the cells that the halves have no room for |
| `TreeMap.LostIff` | storage/btree/btree.go:388-394 | there are such keys if and only if the halves do not both fit |
| `TreeProofs.RemoveContents` | storage/btree/btree.go:90-106 | deletion from the tree is deletion from the sorted list of its cells |
| `TreeProofs.ContentsSorted` | storage/btree/btree.go:108-143 | in an ordered tree the leaf cells read from left to right ascend strictly and stay in the tree's range |
| `TreeProofs.TargetDecides` | storage/btree/btree.go:170-215 | a key is in the tree exactly when it is in the leaf that the descent reaches |
| `TreeOrder.PutOrdered` | storage/btree/btree.go:272-306 | for every subtree: an insertion of an absent key and an update keep keys strictly ascending, separators ascending and every key in the half-open range of its leaf, whatever splits |
| `TreeOrder.PutStrict` | storage/btree/btree.go:272-306 | for every subtree: separators come to repeat if and only if an emptied leaf splits on its lower separator |
| `TreeOrder.PutRootOrdered` | storage/btree/btree.go:358-492 | both for the whole tree, root growth included |
| `TreeOrder.PutSepInRange` | storage/btree/btree.go:371-381 | while no separator repeats, the separator a split passes up lies in the subtree's half-open range |
| `TreeOrder.RemoveOrdered` | storage/btree/btree.go:90-106 | deletion keeps the order and lets no separator repeat |
| `Inputs.ReinsertRepeatsSeparator` | storage/btree/btree.go:358-414 | insert a, insert c, delete c, insert c again: the separator is there twice |
| `TreeOrder.InsertSorted` | storage/btree/btree.go:232-241 | an absent key placed at its insertion position keeps a page strictly ascending |
| `TreeTidy.PutRootTidy` | storage/btree/btree.go:232-241 | the cells of every page ascend after every insertion and update, even with repeated keys, as long as separators find their places |
| `TreeShape.PutDistinct` | storage/btree/btree.go:358-469 | no page becomes reachable twice; new pages get ids from the allocator, the subtree's page stays its own |
| `TreeShape.PutBalanced` | storage/btree/btree.go:272-306 | all leaves stay at one depth and at most one page a level is allocated |
| `TreeShape.PutFirstLeaf` | storage/btree/btree.go:396-398 | splits never change the leaf at which a subtree's chain starts |
| `TreeShape.PutRootShape` | storage/btree/btree.go:472-492 | distinct pages, equal depth, ids below the allocator's next, a non-empty left spine and page 0 as the first leaf are kept through root growth |
| `TreeShape.RemoveRootShape` | storage/btree/btree.go:90-106 | deletion keeps the shape and the set of pages |
| `TreeMatch.LeafChain` | storage/btree/btree.go:513-524 | following the next-leaf pointers from the leftmost leaf gives the in-order sequence of leaves and ends at the sentinel |
| `TreeMatch.ContentsOfLeaves` | storage/btree/btree.go:109-143 | the cells along the chain are the contents of the tree |
| `TreeSpace.WeightedFits` | storage/btree/btree.go:371-394 | the split-fit bound: with the weights of separators in [m, M], M <= 2m and 2M within a page, both halves of every internal page that splits fit, at every level; with the weights of rows so, no row is lost |
| `TreeSpace.WeightedRootFits` | storage/btree/btree.go:437-460 | the same with root growth, so that `Insert` and `Update` need no other hypothesis about space in a tree with bounded keys, as integer keys are |
| `TreeSpace.PutRootWeighted` | storage/btree/btree.go:61-86 | the bound is kept by every insertion and update of a bounded row |
| `TreeRuns.RunsAreMapRuns` | storage/btree/btree.go:61-106 | bounded rows inserted, updated and deleted any number of times in any order, no key twice: at every moment the tree that `Put` and `Remove` give is the map to which the same operations were applied, well shaped and ordered, and no split has dropped or will drop a cell; and as long as no emptied leaf splits on its own lower separator, no separator repeats and every one finds its place, so that the code's pages are those of this tree |
| `TreeSpace.PutRootSpace` | storage/page/page.go:97-100 | free space never becomes negative in any page of the tree |
| `TreeSpace.UnbalancedRowIsLost` | storage/btree/btree.go:392-394 | without the bound a split does lose a row: three weights for which it does, in any leaf |
| `Refusals.ThinnedPages` | storage/btree/btree.go:437-460 | internal halves that do not fit: the pages that splitInternal leaves are those of the halves without the refused separators, whichever those are |
| `Refusals.ThinnedFinds` | storage/btree/btree.go:437-460 | what that loses: a search below such a page finds what it found before, but nothing for the keys of a child whose separator was refused, and only for these |
| `Refusals.RefusedIff` | storage/btree/btree.go:437-460 | nothing is refused if and only if the separators fit one page together |
| `Inputs.InsertedRowIsGone` | storage/btree/btree.go:371-394 | an input: three rows with integer keys, one short and two long; the third insert succeeds and its row is nowhere |
| `Inputs.InternalSplitLosesRow` | storage/btree/btree.go:418-469 | an input: eight ascending string keys; the last insert splits the root, whose right half does not fit, and a row of an earlier insert is found no more |
| `TreeMap.LookupInMap` | storage/btree/btree.go:40-58 | looking a key up in a list of cells is looking it up in the map it stands for |
| `TreeMap.InsertedMap` | storage/btree/btree.go:61-71 | sorted insertion of an absent key is insertion into the map |
| `TreeMap.DuplicateMap` | storage/btree/btree.go:61-71 | inserting a key that is present leaves two cells out of strict order, and every lookup still finds the first |
| `TreeMap.UpdatedMap` | storage/btree/btree.go:77-86 | replacing a cell replaces the row in the map |
| `TreeMap.RemovedMap` | storage/btree/btree.go:90-106 | removing a cell removes the key from the map and nothing else |
| `TreeMap.ScanAgreesWithSearch` | storage/btree/btree.go:40-58 | a row is found by its key if and only if the scan contains it at that key's position |
| `Keys.Compare` | storage/btree/cell.go:60-91 | the sign decides a total order on composite keys, table first; zero only for equal keys |
| `Keys.KeyOrder` | storage/btree/cell.go:60-91 | the order is total and strict |
| `Keys.KeyTransitive` | storage/btree/cell.go:60-91 | the order is transitive, byte-wise strings included |
| `Keys.LtIsPrecedes` | storage/btree/cell.go:60-91 | strings ascend byte by byte: the smaller one is a proper prefix, or smaller at the first byte that differs |
| `SortCells.BubbleSort` | storage/btree/cell.go:226-236 | sorts in place and stably: for every key the cells with that key keep their order |
| `SortCells.StableSortUnique` | storage/btree/cell.go:226-236 | a stable sort has one possible result |
| `SortCells.SortIsInsert` | storage/btree/btree.go:383-385 | sorting an ascending page plus one appended cell is inserting it at findInsertPos, so splits and plain insertions agree |
| `CellCodec.KeyRoundTrip` | storage/btree/cell.go:11-51 | a composite key is read back, with its length, whatever bytes follow it |
| `CellCodec.ValueRoundTrip` | storage/btree/cell.go:141-176 | a typed value is read back whatever follows it |
| `CellCodec.LeafRoundTrip` | storage/btree/cell.go:95-205 | a leaf cell of at most 16 columns whose size fits two bytes gives back key and row, NULLs through the bitmap and the rest through the offset array |
| `CellCodec.LeafColumn` | storage/btree/cell.go:192-201 | the same column by column: the bitmap says exactly which are NULL, and each offset leads to its column's bytes |
| `CellCodec.InternalRoundTrip` | storage/btree/cell.go:209-222 | an internal cell gives back key and child |
| `CellCodec.EncodeCompositeKey` | storage/btree/cell.go:11-33 | the buffer writes produce the key format |
| `CellCodec.NullBitmap` | storage/btree/cell.go:108-113 | setting bits one column at a time yields the bitmap whose bit i is set if and only if column i is NULL |
| `CellCodec.OffsetArray` | storage/btree/cell.go:115-120 | the running two-byte position yields the offset array |
| `CellCodec.EncodeLeafCell` | storage/btree/cell.go:95-139 | the buffer writes produce the leaf cell format |
| `CellCodec.DecodeLeafCell` | storage/btree/cell.go:179-205 | the decoding loop reads every column as the format says |
| `SlottedPage.PageBytes.InsertCellAt` | storage/page/page.go:108-129 | refuses exactly empty cells and cells without room, leaving all bytes alone; otherwise the page as a list of byte strings gains the cell at the index, live bodies stay disjoint and clear of the slots, and the other header fields stay |
| `SlottedPage.PageBytes.DeleteCell` | storage/page/page.go:140-150 | the list of byte strings loses the cell at the index; no body space is reclaimed |
| `SlottedPage.PageBytes.CellAt` | storage/page/page.go:133-136 | returns the cell at the index |
| `SlottedPage.PageBytes.Overwrite` | storage/btree/btree.go:285-290 | writing into the slice of one cell changes that cell and no other |
| `SlottedPage.PageBytes.ShiftUp` | storage/page/page.go:122-125 | the backward loop moves the slots up by one without losing any |
| `SlottedPage.PageBytes.ShiftDown` | storage/page/page.go:145-148 | the forward loop moves the slots down by one without losing any |
| `SlottedPage.PageBytes.Reset` | storage/btree/btree.go:532-539 | empties the page and frees all body space, keeping kind, id, LSN and right pointer |
| `SlottedPage.PageBytes.SetField` | storage/page/page.go:50-75 | setting one of the other header fields changes no cell and no counter |
| `SlottedPage.PageBytes.constructor` | storage/page/page.go:22-28 | a new page has no cells, its kind and id, and zero everywhere else |
| `SlottedPage.InsertedOk` | storage/page/page.go:108-129 | an insertion keeps the page invariant: sizes, bounds and pairwise disjoint bodies |
| `SlottedPage.InsertedCells` | storage/page/page.go:108-129 | an insertion into slots and bodies is an insertion into the list of cells |
| `SlottedPage.DeletedCells` | storage/page/page.go:140-150 | closing the slot array is removal from the list of cells |
| `SlottedPage.Overwritten` | storage/btree/btree.go:285-290 | overwriting part of one body keeps the invariant and every other cell |
| `PageImages.PageImage.InsertCellAt` | storage/page/page.go:108-129 | encoding a cell and inserting it into the bytes does to the page value what the tree model says, with the same answer |
| `PageImages.PageImage.DeleteCell` | storage/page/page.go:140-150 | deleting from the bytes deletes from the page value |
| `PageImages.PageImage.PatchChild` | storage/btree/btree.go:285-290 | re-encoding an internal cell in place changes its child pointer and nothing else |
| `PageImages.PageImage.SetLsn` | storage/page/page.go:54-55 | stamping the LSN changes the page value's LSN only |
| `PageImages.PageImage.SetRightmostChild` | storage/page/page.go:74-75 | setting the right pointer changes the page value's right pointer only |
| `PageImages.PageImage.Reset` | storage/btree/btree.go:532-539 | resetting the bytes resets the page value |
| `PageImages.CellKey` | storage/btree/cell.go:37-51 | the key of either kind of cell can be read off its bytes |
| `Storage.DiskManager.AllocatePage` | storage/page/disk.go:57-68 | a fresh id, an empty page written at once, and no other page touched |
| `Storage.WALManager.Append` | storage/wal/wal.go:60-70 | the record gets the next LSN and stays in memory |
| `Storage.WALManager.Flush` | storage/wal/wal.go:73-88 | all buffered records move to the file in order |
| `Storage.BufferPool.FetchPage` | storage/buffer/buffer.go:43-68 | one more pin, the page at the front of the recency list, and the same logical pages for every reader; it fails for a full pool if and only if the pages pinned or dirty, with this one, are more than the frames, and then changes nothing |
| `Storage.BufferPool.Evict` | storage/buffer/buffer.go:156-169 | removes the least recently fetched frame that is neither pinned nor dirty, and refuses exactly when there is none; the recency list stays a duplicate-free list of at most maxSize frames |
| `Storage.BufferPool.UnpinPage` | storage/buffer/buffer.go:71-86 | a pin count never falls below zero, and a clean unpin keeps an earlier writer's mark |
| `Storage.BufferPool.FlushAll` | storage/buffer/buffer.go:108-128 | writes the log, then exactly the dirty pages of the given transactions, which become clean; each is written when the whole log is already in the file |
| `Storage.BufferPool.DiscardTxn` | storage/buffer/buffer.go:134-152 | succeeds exactly when none of the transaction's dirty pages is pinned and then reloads exactly those; a pinned page stops it half way |
| `Storage.WithoutRecency` | storage/buffer/buffer.go:156-169 | taking a frame out of the recency list leaves the others in fetch order |
| `Recovery.Scan` | storage/btree/recovery.go:15-35 | the two loops find the committed transactions and, for each page, the last record of one of them |
| `Recovery.Recover` | storage/btree/recovery.go:9-43 | every page with a committed record gets the image of the last one, every other page stays |
| `Recovery.RecoverTwice` | storage/btree/recovery.go:9-43 | a second recovery changes nothing |
| `Recovery.RecoverResumed` | storage/btree/recovery.go:37-41 | a recovery interrupted between page writes and started again ends in the same state |
| `MachineProofs.StepInv` | txn/txn.go:119-162 | every step keeps the system invariant: write, allocate, fetch, evict, unpin, root pointer, commit record, log flush, page-by-page write-back, rollback, crash, page-by-page recovery |
| `MachineProofs.RunInv` | storage/buffer/buffer.go:43-169 | the invariant holds after every run |
| `MachineProofs.FlushInv` | storage/wal/wal.go:73-88 | the log flush is the commit point: it turns the buffered writes of committing transactions into the last committed versions that redo gives back |
| `MachineProofs.WriteInv` | storage/btree/btree.go:148-163 | finishPage keeps the invariant |
| `Durability.RecoveryRestores` | storage/btree/recovery.go:9-43 | stop any run at any step, also between the page writes of a commit: recovery leaves every page equal, up to the LSN field, to its last committed version |
| `Durability.InterruptedRecoveryRestores` | storage/btree/recovery.go:37-41 | the same when recovery itself is interrupted anywhere and started again |
| `Durability.DiskIsCommitted` | storage/buffer/buffer.go:108-128 | No-Steal and log-before-data in every reachable state: a page on disk is as allocated, or equals a durable log image whose transaction's COMMIT record is durable |
| `Durability.ViewIsLogical` | storage/buffer/buffer.go:43-68 | in every reachable state a reader sees the current writer's version of a page, or the last committed one if there is none, whatever was evicted or written back |
| `Durability.FinishedOwnsNothing` | txn/txn.go:119-162 | a committed or aborted transaction leaves no dirty frame |
| `Durability.CommitIsRun` | txn/txn.go:120-141 | the effect of Commit on log, disk and pool is a run of the step machine |
| `Durability.RollbackIsRun` | txn/txn.go:145-162 | the effect of Rollback is a run of the step machine |
| `Durability.RecoverIsRun` | storage/btree/recovery.go:37-41 | the effect of Recover, page by page in any order, is a run of the step machine, which ends with every page redone |
| `Durability.RollbackRestores` | storage/buffer/buffer.go:134-152 | rollback brings back the last committed version of exactly the pages the transaction dirtied |
| `Hypotheses.WriteIsSafeIff` | storage/buffer/buffer.go:82-85 | after a write every continuation without further such writes has readers and recovery agree on every page that nobody is changing, if and only if no other transaction's change was waiting in the frame, or it was being rolled back, or it did not differ from the page on disk |
| `Hypotheses.CommittedWriteIsLost` | storage/buffer/buffer.go:82-85 | two writers on one page, from an empty file to the end of both: a committed change is neither on disk nor shown to readers while recovery would bring it back |
| `Hypotheses.BeginIsSafeIff` | txn/txn.go:50-54 | transaction ids restart with the process: after beginning with an id every continuation has readers and recovery agree, if and only if the log has no COMMIT record of the id and one now would change no page |
| `Hypotheses.ResumeIsSafeIff` | txn/txn.go:145-162 | the same for going on with a transaction whose rollback stopped at a pinned page: exactly when a COMMIT record now would change no page but those it still has in the pool |
| `Hypotheses.HalfReloadedIsUnsafe` | storage/buffer/buffer.go:134-152 | an input, from an empty file: two pages written, the second one pinned by a reader, a rollback that reloads the first and stops; going on is safe exactly if the first page had not changed at all |
| `Hypotheses.ReusedIdRevivesAbortedWrite` | storage/btree/recovery.go:15-20 | from an empty file through a rollback and a restart: when the id is used again, its COMMIT record brings back the page change that was rolled back |
| `Durability.TreeSurvivesCrash` | storage/btree/recovery.go:9-43 | if the committed pages represent a tree, the pages after crash and recovery represent the same tree; the root pointer is what the last SetRootPageID wrote, whether committed or not |
| `Statements.StatementIsRun` | storage/btree/btree.go:148-163 | what an insert, update or delete has done to page file, pool, log and root pointer, in a transaction that shares no page with another, is a run of the step machine |
| `Undo.WroteJoin` | storage/btree/btree.go:148-163 | the statements of one transaction together have the effect of one statement |
| `Undo.CommittedSurvives` | txn/txn.go:120-141 | a transaction commits while others have changes in flight: crash and recovery leave exactly the surviving pages, which are those it saw, but pages with a waiting change of another transaction as they were committed last; a tree on these is at the root pointer |
| `Durability.CommitVersions` | storage/wal/wal.go:73-88 | a commit changes the committed version of its own pages only |
| `TreeLocal.PutLocal` | storage/btree/btree.go:219-306 | an insertion or update depends on the pages from the root to the leaf of its key and on no others: over other pages that agree on these, the same pages written are the same put of the other tree |
| `TreeLocal.UntouchedStay` | storage/btree/btree.go:219-306 | and of the pages of the tree it changes those it writes and no others |
| `Beside.SurvivingPut` | storage/btree/btree.go:61-86 | others have changes waiting on pages beside the way to the leaf: what a crash after the commit leaves is the tree it would have left before, with the cell put into it |
| `Restart.InsertCommitRestart` | txn/txn.go:120-141 | the code from end to end, with other transactions in flight anywhere but on the way to the row: Insert, Commit, the end of the process, Recover on the same files, NewBTree with an empty pool and Search: the tree is what a crash would have left before plus the row, and the row is found |
| `Restart.AloneSurvives` | txn/txn.go:120-141 | when no other transaction has a change in flight, that is the tree in the pool |
| `Restart.Reopen` | storage/btree/recovery.go:9-43 | a process that finds a log and a page file under which the committed pages are those of a tree opens that tree |
| `Undo.RolledBack` | storage/buffer/buffer.go:134-152 | after a rollback the tree is back at the root pointer if and only if the root pointer has not moved; its rows can be reached if and only if it has not or the tree was a single leaf, and otherwise only those of page 0 can |
| `Undo.StatementsRolledBack` | txn/txn.go:145-162 | the same for a transaction of any number of statements: if and only if none of them has moved the root pointer |
| `Undo.LostInCrash` | storage/page/disk.go:131-133 | the same after a crash at any moment before the next commit |
| `Undo.RootDecides` | storage/btree/btree.go:170-198 | why: the root page id is then that of an internal page without cells whose right pointer is 0 |
| `Undo.PutRolledBack` | storage/btree/btree.go:472-492 | for one insert or update: the tree is back if and only if it did not split the root |
| `Undo.PutLostInCrash` | storage/btree/btree.go:472-492 | the same after a crash before the commit |
| `Halfway.PutThenDiscard` | txn/txn.go:145-162 | the code, for an insert or update of a transaction that may have written before, followed by what Rollback does to the pool, which succeeds if and only if no page the transaction has marked is pinned: if the put was done, the tree is back if and only if neither it nor a statement before has split the root; if it had stopped for want of a frame, all pages are as when the transaction began if and only if the split without a frame had changed nothing yet, which the frames on entry decide, or a page that was marked already; otherwise exactly one page differs, as stated, while the page file has it unchanged; a search then finds what it found before, but for exactly the missed keys, which it does not find |
| `Halfway.StopRolledBack` | storage/btree/btree.go:418-430 | the pages after such a stop and rollback, with the exact condition, for a transaction that may have written before |
| `Halfway.StopFinds` | storage/btree/btree.go:281-302 | the rows: those that were reached through the child whose right half has come back blank are missed, but for the rows of page 0 if the child is an internal page, and so is the row of an update that stopped in its leaf; whatever the transaction had done before |
| `Halfway.HoleReads` | storage/btree/btree.go:170-198 | why, on trees that need not be ordered: where a reader who follows the pointers arrives for any key, when one pointer leads to a blank page |
| `Halfway.LeafReached` | storage/btree/btree.go:170-184 | and where he arrives when only a leaf has been left changed |
| `Halfway.BeganHere` | txn/txn.go:50-54 | a transaction can begin at every moment at which the tree is in the pool |
| `PageReads.TreeReads` | storage/btree/btree.go:170-198 | on the pages of a tree such a reader arrives at the responsible leaf |
| `PageReads.OneAnswer` | storage/btree/btree.go:40-58 | whatever the pages hold, a search has at most one answer |
| `Inputs.UpdateInOneFrame` | storage/btree/btree.go:338-369 | an input: two rows fill a leaf, and the second is updated in a pool with one frame to spare; after the rollback it is not found |
| `Inputs.InsertInThreeFrames` | storage/btree/btree.go:418-430 | an input: the sixth ascending row in a pool with three frames to spare; after the rollback the two rows of the last leaf are not found |
| `Inputs.SixthRowSplitsRoot` | storage/btree/btree.go:472-492 | an input: six rows in ascending order |
| `Transactions.Manager.Begin` | txn/txn.go:50-54 | the id after the last one given, and a transaction that holds nothing |
| `Transactions.Manager.RLock` | txn/txn.go:59-79 | succeeds at once for a holder of either lock, otherwise exactly when granted in time; giving up takes no lock but leaves a request behind |
| `Transactions.Manager.Lock` | txn/txn.go:85-107 | the same for writing; a read lock is never upgraded but is an error at once |
| `Transactions.Manager.LateGrant` | txn/txn.go:94-106 | an abandoned request may still get its lock, which then belongs to no transaction |
| `Transactions.Manager.Unlock` | txn/txn.go:165-176 | releases every lock of the transaction and no other |
| `Transactions.Manager.Commit` | txn/txn.go:120-141 | appends COMMIT, makes it durable, writes exactly this transaction's pages, each with its records and the COMMIT record already in the log file, and releases its locks; an ended transaction is an error that changes nothing |
| `Transactions.Manager.Rollback` | txn/txn.go:145-162 | appends ABORT, reloads this transaction's pages and releases its locks; with a pinned page it fails, stays active and keeps its locks |
| `Transactions.Txn.Holds` | txn/txn.go:110-117 | whether the entry is in the lock list |
| `Locks.FreeIffCompatible` | txn/txn.go:59-107 | the mutex lets a request in if and only if nobody holds a conflicting lock |
| `Locks.Exclusion` | txn/txn.go:37-38 | no two transactions ever hold conflicting locks on a table |
| `Locks.TakeOk` | txn/txn.go:66-73 | taking a lock keeps the mutex counts equal to the holders |
| `Locks.ReleaseOk` | txn/txn.go:165-176 | releasing a lock keeps them equal |
| `Plans.LockFor` | executor/executor.go:127-144 | when it succeeds the transaction may change the statement's table, or read every table that a scan anywhere in its plan reads; the locks it has gained are among these, whether it succeeds or not |
| `Plans.NamesAreReads` | executor/executor.go:146-165 | the tables named for a plan are exactly those of the scans, full or by key, among its nodes |
| `Serial.PlanIsCovered` | executor/executor.go:127-144 | the locks that let a plan run are exactly those its statement needs, which uses the tables that the scans in the plan read, or the table that it changes |
| `Serial.PlanIsStatement` | executor/executor.go:127-165 | every plan has such a statement |
| `Serial.ChangeIsSeen` | executor/executor.go:119-143 | a query that follows a change sees the changed table as the change left it and every other as it was |
| `Serial.Serialisable` | executor/executor.go:119-143 | every interleaving of locked statements, commits, rollbacks, abandoned requests and late grants gives the answers and final tables of the committed transactions run one after the other in commit order, provided that every rollback leaves the committed tables |
| `Serial.RollbackIsSafeIff` | storage/buffer/buffer.go:134-152 | and for any one rollback, whatever it leaves: every continuation is serialisable if and only if it leaves the committed version of the tables its transaction had locked for writing and the others as they were |
| `Serial.ReadsAreCommitted` | txn/txn.go:59-117 | no dirty reads: what a transaction in flight has read it could have read alone on the committed tables |
| `Serial.StepInv` | txn/txn.go:165-176 | every step keeps each transaction isolated: its history replays from the committed tables with the same answers |
| `Serial.LostLockStaysLost` | txn/txn.go:66-78 | a lock granted to an abandoned request is held after every run, and no run lets a conflicting request through again |
| `Serial.LostSameIff` | txn/txn.go:66-78 | the locks nobody will release stay as they are in every run in which no request is given up if and only if every abandoned request that is still waiting conflicts with one of them |
| `Serial.AbandonedRequestLocksTable` | txn/txn.go:85-107 | an input: six steps from the start, two transactions and one table, after which no run lets any transaction lock the table again |
| `WalCodec.EncodeRecord` | storage/wal/wal.go:129-140 | the buffer writes produce the record format |
| `WalCodec.Reader.DecodeRecord` | storage/wal/wal.go:142-165 | reads a record, a clean end or an error as the format says |
| `WalCodec.ReadRecords` | storage/wal/wal.go:91-110 | reads records up to the clean end, or fails |
| `WalCodec.DecodeEncode` | storage/wal/wal.go:129-165 | a record reads back if and only if its redo data is shorter than 65536 bytes |
| `WalCodec.ReadWritten` | storage/wal/wal.go:91-110 | reading a log gives exactly the records written |
| `WalCodec.ReadPrefix` | storage/wal/wal.go:142-165 | any byte prefix of a log reads as its whole records and nothing else, or fails, which it does exactly when at least one but not all bytes of some redo data are there |
| `WalCodec.WholeIsMost` | storage/wal/wal.go:142-165 | the whole records of a prefix are as many as fit into it |
| `WalCodec.TornFlush` | storage/wal/wal.go:73-88 | a flush torn at any byte reads as the earlier records and some of the new ones in order, or fails to read at all, which it does exactly when it is torn inside redo data |
| `WalCodec.Log.constructor` | storage/wal/wal.go:39-55 | reopening a clean log continues after its last LSN |
| `WalCodec.Log.Append` | storage/wal/wal.go:60-70 | LSNs in file and buffer stay strictly increasing |
| `WalCodec.Log.Flush` | storage/wal/wal.go:73-88 | the bytes in the file are always the encoding of the records flushed |
| `WalCodec.Log.Records` | storage/wal/wal.go:91-110 | reads back the flushed records, with strictly increasing LSNs |
| `Parser.Parser.Expression` | sql/parser/parser.go:361-395 | terminates, and computes the functional parse: tree, tokens left and errors; which trees these are, Grammar.ParsedIffDerived and Precedence.LayersParse say in terms of tokens |
| `Parser.Parser.Primary` | sql/parser/parser.go:397-438 | the same for primaries, parentheses and qualified names included |
| `Parser.Parser.Operators` | sql/parser/parser.go:384-394 | the loop over binary operators computes the functional loop, which takes in operators tighter than the limit and groups them to the left |
| `Grammar.ParsedIffDerived` | sql/parser/parser.go:361-438 | for all tokens: they are read as an expression without an error, and nothing but these, if and only if a grammar over token kinds derives it from them; the grammar says which operators each operand takes in, which token stands for which operator, and that IS NULL ends the operand it is in at once |
| `Grammar.OneReading` | sql/parser/parser.go:361-395 | the grammar gives a text at most one expression |
| `Precedence.LayersParse` | sql/parser/parser.go:341-395 | for texts without IS that grammar is the usual one, in both directions: a list of OR, of lists of AND, of negations, of comparisons, each grouping to the left, with NOT taking all of the comparison behind it |
| `Precedence.TestEndsOperand` | sql/parser/parser.go:372-394 | with IS it is not: for all operands, `l OR x IS NULL AND r` is read as `(l OR x IS NULL) AND r` |
| `Parser.PrintParse` | sql/parser/parser.go:361-395 | printing with precedence-driven parentheses and parsing gives back the tree, consumes exactly the printed tokens and records no error, before any token that cannot continue the expression |
| `Parser.PrintThenLoop` | sql/parser/parser.go:384-394 | after a printed expression the parser goes on as after a left operand, which is why equal precedence needs no parentheses on the left |
| `Parser.TestEndsExpr` | sql/parser/parser.go:372-382 | IS NULL ends the expression at once: whatever follows stays unread, without an error |
| `Parser.PrintInjective` | sql/parser/parser.go:361-438 | different expressions print differently |
| `Parser.ParsedIffPrintable` | sql/parser/parser.go:397-438 | the trees that some error-free text stands for are exactly those whose integer literals lie between 0 and the largest int64 |
| `Syntax.DecimalValue` | sql/parser/parser.go:400-403 | decimal digits read back as the number they print |
| `Syntax.ParsesDecimal` | sql/parser/parser.go:400-403 | a decimal literal is read as its number, or as the largest int64 if it is too large |
| `Executor.SeqScanExecutor.Next` | executor/executor.go:257-272 | yields the table's rows one after the other, then nothing |
| `Executor.SeqScanExecutor.Drain` | executor/executor.go:168-192 | collects the table's rows, all and in order |
| `Executor.FilterExecutor.Next` | executor/executor.go:315-329 | yields the next row that satisfies the condition, or the first failure |
| `Executor.FilterExecutor.Drain` | executor/executor.go:168-192 | collects exactly the rows that satisfy the condition, or fails as the first failing row does; what satisfying means, the lemmas of Where say about the rows that come out |
| `Where.AndFilters` | executor/executor.go:678-684 | AND is filtering by the left side and then by the right side, and fails if and only if one of these does |
| `Where.OrFilters` | executor/executor.go:685-691 | OR keeps the rows that the left side keeps and, of the others, those that the right side keeps, in order; it fails if and only if the left side fails on some row or the right side on one that the left side drops |
| `Where.OrUnites` | executor/executor.go:678-691 | where both sides evaluate on every row, OR is the union and AND the intersection of the two results |
| `Where.NotFilters` | executor/executor.go:653-657 | NOT keeps exactly the rows that its operand drops, and fails with it |
| `Where.OneRowLogic` | executor/executor.go:678-691 | a left side that decides hides the right side, failing or not, on every single row |
| `Where.FirstFailure` | executor/executor.go:315-329 | a filter fails as it does on the first row on which it fails |
| `Where.ComparisonLaws` | executor/executor.go:692-715 | != is NOT =, <= is < or =, >= is > or =, > is NOT <=, failures included |
| `Where.IntColumn` | executor/executor.go:717-760 | a column compared with an integer keeps exactly the rows whose value compares as asked, counting truth values and NULL as equal; a string there ends the process |
| `Where.StringColumn` | executor/executor.go:717-760 | the same with a string, compared byte by byte; an integer there ends the process |
| `Where.IntBeforeColumn` | executor/executor.go:737-760 | with the literal on the left every other kind of value ends the process, NULL included |
| `Where.EqualToAll` | executor/executor.go:737-760 | truth values and NULL in a column are equal to every literal |
| `Where.NullColumn` | executor/executor.go:658-671 | IS NULL keeps exactly the rows with NULL in the column, IS NOT NULL the others |
| `Where.NoSuchCondition` | executor/executor.go:717-735 | an unknown column, or an expression that is no condition, is an error as soon as there is a row |
| `Where.ShortRow` | executor/executor.go:719-726 | a row without a value for the column ends the process |
| `Executor.IndexScanExecutor.Next` | executor/executor.go:288-302 | one search with the literal on the right, whatever the operator and the kind of literal, passing failures on, and nothing afterwards |
| `Executor.IndexScanExecutor.Drain` | executor/executor.go:168-192 | collects the row that the search finds, or none, or fails as it does |
| `Executor.ColIndex` | executor/executor.go:763-770 | the first position with the name, and none exactly when no column has it |
| `Select.SelectRows` | sql/planner/planner.go:195-249 | the code for SELECT * from one table, from plan to rows: without a condition the table's rows; with a comparison of the key other than != what one search gives; with any other condition the filtered rows of the table |
| `Select.ChosenPlan` | sql/planner/planner.go:195-249 | the plan for every condition: an index scan without a filter exactly if the condition is =, <, >, <= or >= with the first column marked as primary key on its left, a filtered full scan for any other, a full scan for none |
| `Select.KeyIsSearched` | executor/executor.go:288-302 | what an index scan gives: for an integer or string on the right the row that the tree, read as a map, has at this very key, or nothing; an error unless there is a literal |
| `IndexChoice.IndexScanIsFilter` | sql/planner/planner.go:195-249 | for key = literal the planner chooses the index scan, and on every table it gives the rows of the filter over the full scan |
| `IndexChoice.IndexChoiceIff` | sql/planner/planner.go:217-243 | for every comparison of the key with anything but a literal of another kind, dropping the filter is right on every table whose rows fit a page if and only if there is a literal on the right and the operator is =, or <= with the lowest key that can be stored, or >= with the highest, or < or > with one beyond these |
| `IndexChoice.NoLiteralFails` | sql/planner/planner.go:229-249 | without a literal on the right the index scan is chosen all the same and fails on every table |
| `IndexChoice.KeyWithItself` | sql/planner/planner.go:229-249 | key = key, for which the filter would give every row |
| `IndexChoice.FilterIsWhere` | executor/executor.go:649-760 | the filter keeps exactly the rows whose key compares with the literal as asked |
| `IndexChoice.LookupInTable` | executor/executor.go:288-302 | a search in the shared tree finds what a search in the table alone would find |
| `IndexChoice.ScanReadsItsTable` | executor/executor.go:146-165 | a scan for keys of the table's kind depends on no cells but those of the table that is locked for it |

## Left out

- BTree.BTree.Insert: takes as given that the halves of every internal page that splits fit, or that all keys keep the bounds the tree was opened with, as integer keys always do (`TreeSpace.IntegerKeys`); that every separator finds its place, or that none repeats; and that page ids do not run out. What the code does otherwise is stated of the pages and of the searches below them, not of the operation as a whole: `BTree.BTree.SplitInternal`, `Refusals.ThinnedPages` and `Refusals.ThinnedFinds` for halves that do not fit, `Misplaced.MisplacedLosesLeft` for a misplaced separator. In both cases the leaf chain no longer follows the tree.
- BTree.BTree.Update: the same hypotheses as for Insert. So for PutRecursive, PutInternalPage and PatchInternal.
- BTree.BTree.Search: with a key inserted twice, it finds the first of its rows in the leaf that the descent reaches; which row that is in the whole tree is stated for ordered trees.
- TreeRuns.RunsAreMapRuns: is about the functions on trees, which the code follows as long as every separator finds its place; that it does is proved for runs in which no emptied leaf splits on its own lower separator.
- Halfway.PutThenDiscard: assumes that no page the transaction has written or the put would write held another transaction's waiting change when it began; what a later statement makes of a page that was left changed is not stated. The rows are stated for a root pointer that has not moved since.
- Transactions.Manager.RLock: who gets a lock and when a wait ends is up to the caller of the model; no liveness is claimed.
- Hypotheses.ResumeIsSafeIff: a transaction that goes on after a rollback that stopped is not a run of the machine itself; the lemma is about the runs that follow.
- Locks.FreeIffCompatible: in the code a waiting writer also holds up later readers; the model lets them through, which only adds runs.
- Durability.RecoveryRestores: pages are compared up to the LSN field, which a redo image carries one write late. Page writes and log flushes are atomic there; torn log writes are the subject of `WalCodec.TornFlush`, which does not cover appending after a torn tail.
- Durability.TreeSurvivesCrash: the root pointer and page allocation bypass the log; `Undo.LostInCrash` says what that does to the tree.
- Undo.CommittedSurvives: assumes that the transaction writes to no page with a waiting change of another one.
- Undo.RolledBack: assumes that the pages the transaction has dirtied were clean before, and is about all its writes from the first one to the rollback.
- Restart.InsertCommitRestart: assumes that no page on the way to the row has a waiting change of another transaction (`Hypotheses.WriteIsSafeIff` says what goes wrong then), that the surviving pages are those of an ordered tree, and a key that is absent from it.
- Serial.Serialisable: a statement is one step. What a rollback leaves is a parameter, and the theorem is about runs in which every rollback restores the tables; for pages that is so with one writer in flight (`Durability.RollbackRestores`) as long as the transaction has not moved the root pointer (`Undo.RolledBack`).
- CellCodec.LeafRoundTrip: cells with more than 16 columns (the bitmap has two bytes) and strings of 65536 bytes or more.
- WalCodec.Log.Append: LSNs beyond 64 bits.
- IndexChoice.IndexChoiceIff: rows are bounded by what a page can hold and have one value a column, but values outside the key column are of any kind; left out are literals that are neither integers nor strings, and literals of another kind than the table's keys, for which the comparison of the code may panic; what the search does with them is a parameter of the executor.
- Which of OpInsert, OpUpdate and OpDelete the record of a page write carries: the model writes what the code writes, recovery treats them alike, and nothing is stated about it.
- The bytes of a page outside its cells and header: PageBytes keeps them, the page values of the tree do not have them.
- Real files, fsync, file headers, JSON and errors of the operating system.
- FlushPage, which writes a page whatever its transaction and has no caller but tests.
- Goroutines, timers and contexts; latching of pages (tree operations are atomic steps).
- The nested-loop join, ORDER BY, LIMIT and projection executors, of which only the tables they read are modelled, and INSERT, UPDATE and DELETE executors above the tree.
- Statements other than expressions in the parser, and the lexer.
- Transaction ids, page ids and pin counts are unbounded numbers.
- The catalog, DDL (which takes no locks), dumping of trees, the HTTP server and the web client.
