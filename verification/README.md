# sqlette, modelled and proved

sqlette is a small SQL engine in Go: a Pratt parser, a planner that turns part of a WHERE clause into
an index range, an executor over cursors, tables and indexes kept in B+trees of 4 KB slotted pages, and
a pager with a rollback journal underneath. Each layer is meant to agree with something much simpler.
This project models the layers in Dafny and proves that agreement; where the code does not agree, it
proves exactly when it does, and names an input for which it does not.

- `FileSystem`, `PagerState`, `Pager` (modules `Files`, `Journal`, `Pager`): the two files with what is
  written and what is durable kept apart. The machine may stop between any two file operations, also
  during recovery. Whatever a transaction did before the stop, opening the database gives the pages it
  began with or the pages it committed, for every transaction if and only if no page is dirty when it begins.
- `SchemaStore`: the schema page written through the pager, so that a stop leaves the old or the new schema.
- `Cells`, `BTree`, `BTreeOps`, `TableTree`, `TableSpine`: the tree as a value. Insertion, deletion and
  update are those of a sorted map; splitting by cell count keeps every row exactly when both halves fit.
- `Comparators`, `IndexTree`, `IndexPage`: index trees. The comparison of the source is the order of tuples among
  the keys that an index can have, so that what is proved of ordered trees holds of the trees that the code builds.
- `TreeHeap`, `Trees`: the same operations on a heap of pages, in place, page numbers and sibling chain
  included, with every change to an existing page announced before it; and the cursor along the chain.
- `Transaction`: the calls that a tree operation makes, in the order in which it makes them, are a transaction of the pager, with
  all that is proved of those: from the bytes of a page to the files after a stop.
- `Slots`, `Node`: one page as an array of 4096 bytes, proved against the cell sequence it stands for.
- `Values`, `Float64`, `Record`, `Tuples`: comparison of values, which binary64 numbers they are compared as, the row codec, index
  keys and their order.
- `Index`, `IndexScan`, `TableState`: indexes as images of their table, uniqueness by prefix walk, bounded scans.
- `StoredTable`, `TableRun`, `LostRow`, `Table`: a table and its indexes in their trees, where a split may drop what it has
  no room for. Every operation does what it should exactly when every leaf that it writes to has room; over whole runs
  that find room every index agrees with its table, and there is a run that does not find it.
- `Ast`, `Eval`, `Planner`, `PlanMeaning`, `Exec`, `Engine`: three-valued evaluation, the rewrite of a
  WHERE clause into bounds and a residual filter, and UPDATE and DELETE driven by the resulting scan.
- `Grammar`, `Parser`: the expression grammar with its printer, and the parser that walks the tokens.
- `Codecs`, `Catalog`: the bytes of the schema. `Formats`: what bytes exactly rows, schemas and pages are.

Code that changes state in the source is a class with methods here (`Pager`, `Store`, `PagedTree`,
`Cursor`, `Node`, `IndexCursor`, `Table`, `Parser`), each proved against functions on values; the
theorems are about those functions. `dafny verify dfyconfig.toml` checks everything.

## Where the code differs from what is said of it

- Splits go by cell count and the results of the insertions into the halves are ignored, so that a split can
  drop a row: `TableTree.SplitCanLoseARow` has a leaf for which it does, `TableTree.KeptIffFits` the condition. The
  index entry of such a row is added all the same: `LostRows.RunLosesRow` has a run of six successful operations
  after which an index has more entries than its table has rows; `StoredTables.InsertIs`, `UpdateIs` and `BuildIs` have the
  condition under which an operation does what it should, `TableRuns.EvenRowsHaveRoom` sizes for which it always holds.
- The repository's README promises that a stop within a transaction leaves the database as if it had not begun. A page that is dirty
  when the transaction begins is never journalled, so that a stop within the commit can leave some of the changes only:
  `PagerState.AtomicIffClean` says that every next transaction is atomic if and only if no page is dirty when it begins. Opening a file of fewer
  than two pages, a new one or one that such a stop has left, makes the missing pages and leaves them dirty, while commits and rollbacks
  leave none: `SchemaStore.Store.Open` says that the transaction after it is atomic if and only if the file had two pages.
  `SchemaStore.FirstTableCanTear` has the schema of a first table without the root page of the table.
- It says that dropping a predicate which the scan does not enforce is never done. A plan
  with only an upper bound drops it, although the scan also yields rows whose column is NULL:
  `Exec.UpperBoundFindsNull`; `Exec.PathsAgree` says when the rows are the same.
- The planner drops the qualifier of a column in a conjunct that it turns into a bound. `WHERE zzz.a = 5` fails over the whole table
  and goes through over an index: `Engine.IndexHidesFailures` says exactly when that happens.
- An update deletes the row before it writes it anew. When the new row is too large for a page the update fails and the row is gone, which
  a statement of its own takes back and a transaction does not: `Tables.TooLargeLosesRow`. `Tables.TooLargeKeepsRow` is an insertion that fails with the row
  in place and one of its keys missing.
- `MaxRowID` reads the last leaf only. After its rows were deleted, an attached table gives out rowids that are
  taken: `TableTree.AttachCanReuse`; `TableTree.FreshRowids` has the condition, and `StoredTables.AttachIs` what it means for
  a table and its indexes.
- Comparing integers with reals through float64 is no order once two integers are rounded to the same real, or something
  that is not a number stands beside two numbers: `Values.RoundingBreaksOrder`; `Values.OrderIffNoCollision` has the condition.
- `a IS NOT b` parses as `a IS b`, as `Grammar.IsNotReadsAsIs` shows: behind `IS` a NOT is kept exactly when NULL comes next,
  `Grammar.IsNotLosesNot`. `Grammar.RoundTrip` says exactly which expressions come back from their print.
- The README lists `IS` and unary minus. `IS` asks whether its left side is anything but true, which as a test for NULL is right exactly
  if the left side is NULL or true: `Evaluation.IsAsksForTruth`. An expression with a minus in front of any part of it has no value
  on any row: `Evaluation.MinusFails`.

## Model

| member | source | states |
|---|---|---|
| FileSystem.StopKeepsGuard | internal/journal/journal.go:78-124 | whatever unsynced part of the files a stop loses or tears, the pages the transaction began with stay recoverable |
| FileSystem.HarmlessKeepsGuard | internal/pager/pager.go:89-107 | creating the journal, appending pre-images and writing pages whose pre-image is durable keep those pages recoverable |
| FileSystem.ReplayKeepsGuard | internal/journal/journal.go:98-123 | after every single operation of a replay a stop is still recoverable, and the whole replay restores pages and length |
| FileSystem.RecoveryKeepsGuard | internal/pager/pager.go:33-65 | every prefix of what opening does to the files keeps the old pages recoverable; all of it leaves exactly those pages, durable, without a journal |
| FileSystem.GuardedRecovers | internal/pager/pager.go:33-65 | after a stop and any number of interrupted attempts to open, opening gives the pages of Begin, or refuses an incomplete journal and touches nothing |
| FileSystem.RecoverySettles | internal/pager/pager.go:33-65 | a successful opening leaves durable files and no journal, whatever was there |
| FileSystem.InDoubtResolves | internal/journal/journal.go:55-67 | between the removal of the journal and the sync of its directory a stop shows the old state if the journal is found, the new one if not |
| FileSystem.AtomicRecovers | internal/pager/pager.go:139-156 | after a stop at any point of a commit and interrupted recoveries, opening gives all of the old or all of the new pages, durably: the old ones as long as the journal is there; once it is removed but its directory not synced, the old ones if the stop brings it back and the new ones if not; the new ones after that |
| FileSystem.StopIsFree | internal/pager/pager.go:139-156 | nothing is taken for granted of a stop: a page written since the last sync may hold any bytes, the file have grown or have any of its lengths, and a removed journal be back; what is synced stays as it is |
| FileSystem.JournalIsTorn | internal/journal/journal.go:78-124 | any number of the records appended since the last sync may be left, any of them torn, and a header never synced be incomplete, so that opening is refused |
| Journal.Create | internal/journal/journal.go:23-38 | afterwards there is a journal with a complete header, the given page count and no record, nothing of it durable; the database file is untouched, and every database of that length that was recoverable without a journal is recoverable with it |
| Journal.Remove | internal/journal/journal.go:55-67 | afterwards there is no journal, none that a stop could bring back, and the database file is untouched; for a flushed database every state on the way is atomic between old and new, and the new pages are recoverable at the end |
| Journal.ReplayRecords | internal/journal/journal.go:98-113 | writes back exactly the records in front of the first torn one, passing through exactly the listed states |
| Journal.Replay | internal/journal/journal.go:78-124 | prefix replay, truncation and sync; without a complete header it fails and changes nothing |
| PagerState.SnapshotGuarded | internal/pager/pager.go:89-107 | in a transaction the snapshot invariant makes the pages of Begin recoverable |
| PagerState.TransactionKeepsSnapshot | internal/pager/pager.go:67-107 | after any sequence of gets, allocations, announcements and changes the file is untouched, clean pages equal it, and the journal holds pages of it, each once; if no page was dirty at the beginning a stop recovers it |
| PagerState.RollbackUndoes | internal/pager/pager.go:158-178 | rolling back any transaction gives the file it began with, with zeros for pages that were not in it: what callers saw at the beginning if and only if no dirty page held anything else; in a committed database always |
| PagerState.AtomicIffClean | internal/pager/pager.go:59-156 | for a pager between transactions whose file is durable: every transaction that may come next, whatever it does, in whatever order its commit writes the pages, wherever it is stopped and however often opening is interrupted after that, is found done entirely or not at all, if and only if no page is dirty when it begins |
| PagerState.DirtyTears | internal/pager/pager.go:89-123 | for any page that is dirty at the beginning, a transaction that changes it and adds a page, and a stop after the first write of its commit: the file found opens neither with the pages from before nor with those from after |
| PagerState.CommitIsAtomic | internal/pager/pager.go:139-156 | otherwise every state between two file operations of a commit, for every order of the pages, is atomic between old and new, and the last one is the committed file |
| PagerState.BeginsSafely | internal/pager/pager.go:133-137 | a transaction may begin at any time; its pages are safe from the start, and the transaction that follows atomic, exactly in a committed database |
| PagerState.CommitReady | internal/pager/pager.go:139-148 | once the journal is synced, every old page that the flush overwrites can be restored |
| PagerState.WritesKeepGuard | internal/pager/pager.go:109-123 | after each write of a flush the pages whose images are durable, or that are new, leave the old ones recoverable |
| PagerState.FlushLands | internal/pager/pager.go:109-123 | whatever the order of the dirty pages, the flushed and synced file is what callers see |
| Journal.FlushedIsInDoubt | internal/pager/pager.go:139-156 | from a flushed database the removal of the journal leads only to the two outcomes |
| Pager.Pager.Open | internal/pager/pager.go:33-65 | recovers first, then counts pages; fails exactly on an incomplete journal header; an empty file gets one page, and exactly then the database is not committed |
| Pager.Pager.Recover | internal/pager/pager.go:39-47 | does to the files exactly what recovery is, state by state |
| Pager.Pager.Get | internal/pager/pager.go:67-80 | gives the current contents of a page, caches it, changes nothing else |
| Pager.Pager.Allocate | internal/pager/pager.go:82-87 | one more page of zeros at the end, cached and dirty |
| Pager.Pager.Begin | internal/pager/pager.go:133-137 | begins at any time, with what callers see as it is; the next transaction is atomic, and its pages are safe from the start, exactly if the database is committed |
| Pager.Pager.Write | internal/pager/pager.go:89-107 | the first announcement of a clean old page captures its image, later ones do nothing; every state on the way is recoverable if no page was dirty at the beginning |
| Pager.Pager.SetData | internal/pager/pager.go:89-107 | changing an announced page changes that page and keeps the invariant |
| Pager.Pager.FlushPages | internal/pager/pager.go:109-123 | in whatever order the cache yields pages, each dirty one is written once, and nothing else is done to the files |
| Pager.Pager.Flush | internal/pager/pager.go:109-123 | writes, truncation and sync: afterwards the synced file is what callers see, and the journal is as it was |
| Pager.Pager.Commit | internal/pager/pager.go:139-156 | does exactly the file operations of a commit, in some order of the dirty pages; afterwards the file holds the new pages, and if the transaction began with no dirty page every state on the way is atomic between old and new |
| Pager.Pager.Rollback | internal/pager/pager.go:158-178 | the file and the count of Begin, an empty cache; if no page was dirty then, the pages of Begin, and every state on the way recoverable |
| Transactions.CallsAreTransaction | internal/pager/pager.go:67-107 | the calls that operations made, one by one as the pager gets them, with any bytes that stand for the changed pages, take the pager from the pages before to the pages after; pages that were not announced keep their bytes, and only announced ones are journalled |
| Transactions.CallsAreAtomic | internal/pager/pager.go:89-156 | that transaction is atomic: committed it leaves the pages after, rolled back those before, and wherever its commit is stopped the database opens with one or the other |
| Transactions.ByteCallsAreAtomic | internal/btree/node.go:82-246 | so it is when the pages are the bytes of tree nodes |
| Transactions.InsertAtomically | internal/btree/btree.go:112-251 | an insertion as a transaction of its own: the calls that it makes, in its order, are atomic between the pages of the tree before and those of the tree after |
| SchemaStore.Store.Open | internal/storage/storage.go:141-158 | recovers, and gives a file of fewer than two pages the ones it lacks; the next transaction, whatever it is, is atomic if and only if the recovered file has two pages |
| SchemaStore.FirstTableCanTear | internal/engine/engine.go:188-212 | in a database opened from a file of no or one page, a stop within the first table's commit leaves the new schema in a file that ends in front of the table's root page |
| SchemaStore.Store.ReadSchema | internal/storage/storage.go:199-205 | decodes the current schema page |
| SchemaStore.Store.WriteSchema | internal/storage/storage.go:207-221 | refuses bytes that do not fit; otherwise announces the page and replaces its bytes, zeros behind them, and no other page |
| SchemaStore.Store.SaveSchema | internal/engine/engine.go:106-122 | a statement of its own: if it goes through the schema reads back and no other page has changed; if not the file is what it was; in a committed database every state is atomic, and nothing has changed if it fails |
| SchemaStore.SchemaAfterStop | internal/storage/storage.go:207-221 | after a stop and interrupted recoveries the database has the old schema or the new one; the old one as long as the journal is there, and afterwards the one that the journal decides |
| Cells.InsertSorted | internal/btree/node.go:182-205 | inserting an absent key at its lower bound keeps cells sorted |
| Cells.DeleteSorted | internal/btree/node.go:229-246 | deleting leaves a sorted map without the key |
| Cells.InsertThenDelete | internal/btree/btree.go:273-307 | deleting what was inserted gives the map back |
| Cells.FillFits | internal/btree/btree.go:185-190 | sorted cells that fit a page are all on it after insertions whose results are ignored |
| Cells.FillDrops | internal/btree/btree.go:185-190 | when they do not fit, at least one is dropped |
| BTree.SoundEntries | internal/btree/btree.go:126-157 | the entries of a sound tree are a sorted map within its bounds |
| BTree.RouteIsolates | internal/btree/node.go:171-180 | everything outside the child that a key is routed to lies strictly on its own side of the key |
| BTree.LeafInsert | internal/btree/btree.go:159-196 | a leaf that takes one more cell, split or not, is one or two sound leaves within its bounds, holding the old cells and the new one except what a half had no room for |
| BTree.LeafCutEvenly | internal/btree/btree.go:159-196 | a leaf split whose halves fit has every cell in one of two leaves, as many in each but for the odd one on the right, whose first key goes up |
| BTree.NodeCutEvenly | internal/btree/btree.go:198-231 | an interior split whose halves fit sends the median up, its child becoming the first of the right half, with as many separators in each half but for one more on the left |
| BTree.AddKidSound | internal/btree/btree.go:198-231 | an interior page with one more child, split at the median or not, keeps separators, bounds and entries |
| BTree.InsertInSound | internal/btree/btree.go:126-157 | inserting an absent key below any node gives a sound node, or two sound halves, of the same height; their entries are the old ones with those of the one leaf that changed replaced |
| BTree.KidsKeptIffFit | internal/btree/btree.go:198-231 | an interior page that gets one more child keeps all of them if and only if it has room or splits into halves that have |
| BTree.GrowRootSound | internal/btree/btree.go:233-251 | the grown root is sound, one level higher, and keeps its page |
| BTree.InsertTreeSound | internal/btree/btree.go:112-124 | the tree stays sound on the same root page; tree insertion is map insertion if and only if the leaf that the key belongs on has room or splits into halves that have |
| BTree.AfterIff | internal/btree/btree.go:159-196 | what a leaf split leaves has one entry more if and only if the halves fit, and is then the sorted map with the new entry |
| BTree.AfterWithin | internal/btree/btree.go:159-196 | and has no entry that was not there before but the new one |
| BTreeOps.GetIsLookup | internal/btree/btree.go:70-99 | the descent finds exactly what the map of all entries holds |
| BTreeOps.DeleteSound | internal/btree/btree.go:294-307 | deletion removes exactly one key; separators, height and bounds stay, even when a leaf becomes empty or the key equals a separator |
| BTreeOps.UpdateSound | internal/btree/btree.go:273-282 | an update replaces one payload and nothing else if and only if the leaf it writes to fits; otherwise entries are fewer; an absent key changes nothing |
| BTreeOps.UpdateWithin | internal/btree/btree.go:273-282 | whatever it has to drop, it brings in nothing but the new payload |
| TableTree.EvenHalvesFit | internal/btree/btree.go:175-190 | cut by count, an overfull page of cells of 11 to 140 bytes, or of equal size, gives two halves that fit 4086 bytes |
| TableTree.TableKidsFit | internal/btree/btree.go:213-228 | interior pages of a table tree always split without loss |
| TableTree.EvenTableFits | internal/btree/btree.go:159-231 | in a table of evenly sized rows no insertion loses a cell anywhere |
| TableTree.KeptIffFits | internal/btree/btree.go:112-231 | for every table tree, an insertion keeps all rows if and only if the leaf that the rowid belongs on has room for the row or splits into halves that have; otherwise rows are fewer; the tree is sound on its root page in either case |
| TableTree.SplitCanLoseARow | internal/btree/btree.go:185-190 | a leaf of four rows on which the insertion of a fifth loses one |
| TableTree.TableUsable | internal/btree/btree.go:112-124 | the size guard of insertion lets only cells through that an empty page has room for; which it lets through is `TableTree.AcceptsIff` |
| TableTree.AcceptsIff | internal/btree/btree.go:112-115 | a row is taken exactly if its encoding has at most 4066 bytes, which is to say if its cell leaves 8 bytes of an empty page free |
| TableTree.TableGenerous | internal/btree/btree.go:112-115 | what is refused has a cell that with 9 bytes more no longer fits an empty page |
| TableTree.MaxRowIDIsGreatest | internal/btree/btree.go:253-271 | the walk along the last children finds the greatest rowid, and finds one exactly when the last leaf is not empty |
| TableTree.FreshRowids | internal/storage/storage.go:223-235 | all rowids after an attach are free if and only if the last leaf holds a row or the tree holds none |
| TableTree.AttachCanReuse | internal/storage/storage.go:223-235 | three insertions and two deletions in a new tree, after which an attach gives out a rowid that is taken |
| TableSpine.InsertTreeBranches | internal/btree/btree.go:198-251 | no interior page of a table tree is ever left without separators by an insertion, lossy or not |
| TableSpine.DeleteBranches | internal/btree/btree.go:294-307 | nor by a deletion |
| TableSpine.FindMaxRowID | internal/btree/btree.go:253-271 | the loop over pages computes the greatest-rowid function of the tree |
| Comparators.InsertTreeSame | internal/storage/index.go:29-55 | comparators and sizes that agree on the keys of a tree and the new one insert alike |
| Comparators.DeleteInSame | internal/storage/index.go:29-55 | and delete alike |
| IndexTrees.IndexUsable | internal/storage/index.go:29-71 | index trees ordered by tuple, with cells as large as their encodings, are ordered trees whose accepted cells fit an empty page |
| IndexTrees.KeyFitsIff | internal/btree/btree.go:112-115 | a key is taken exactly if its encoding has at most 4072 bytes, which is to say if its cell leaves 9 bytes of an empty page free |
| IndexTrees.IndexGenerous | internal/btree/btree.go:112-115 | what is refused has a cell that with 9 bytes more no longer fits an empty page |
| IndexTrees.IndexAlike | internal/storage/index.go:45-71 | among the keys an index can have the comparison of the source is that order |
| IndexTrees.InsertKeyIs | internal/storage/index.go:81-83 | a new key: the index tree stays sound and holds one key more, at its place, if its leaf has room; otherwise it has lost a key and gained no other |
| IndexTrees.DeleteKeyIs | internal/storage/index.go:85-87 | the key of a row goes, and nothing else |
| IndexTrees.EvenSepsFit | internal/btree/btree.go:198-231 | where separators take between 11 and 140 bytes interior pages never drop one |
| IndexTrees.SizedIndexFits | internal/btree/btree.go:159-231 | an index whose keys take between 8 and 134 bytes has room for every further one |
| TreeHeap.ChainStored | internal/btree/btree.go:357-373 | the sibling chain from the first leaf is the leaves in order, and their cells are the entries |
| TreeHeap.KidLanded | internal/btree/btree.go:126-157 | a change below one child leaves the tree stored in its pages with the same root page and chain |
| TreeHeap.KidParted | internal/btree/btree.go:141-156 | so does a split child, up to the separator that is still to be added |
| TreeHeap.NodeCut | internal/btree/btree.go:198-231 | a split interior page: both halves stored, chains joined |
| TreeHeap.RootGrows | internal/btree/btree.go:233-251 | the old root's page moves to a new page number and the root keeps its own |
| TreeHeap.StoredDelete | internal/btree/btree.go:294-307 | repacking one leaf stores the tree without the key; all other pages and the chain stay |
| TreeHeap.LeafInChain | internal/btree/btree.go:309-329 | the leaf a key is routed to is in the chain, and splits the entries at the key |
| Trees.Store.Write | internal/pager/pager.go:89-107 | the announcement goes on record in the order made; after it the page may change, and no other that might not before |
| Trees.Store.Put | internal/btree/btree.go:166-195 | only announced or new pages change, and the change goes on record |
| Trees.Store.FillLeaf | internal/btree/btree.go:185-190 | the loop of ignored insertions leaves exactly the cells that found room |
| Trees.Store.FillInner | internal/btree/btree.go:221-228 | the same for separators |
| Trees.Store.DeleteLeaf | internal/btree/node.go:229-246 | one cell removed by writing all others anew, the sibling kept |
| Trees.Gather | internal/btree/btree.go:160-174 | collects the cells of a full page with the new one at its place |
| Trees.PagedTree.constructor | internal/btree/btree.go:28-36 | a new tree is one empty leaf on a page of its own |
| Trees.PagedTree.SplitLeaf | internal/btree/btree.go:159-196 | both halves written, chain relinked through the new page, first key of the right half passed up |
| Trees.PagedTree.SplitInner | internal/btree/btree.go:198-231 | both halves written around the median, which moves up |
| Trees.PagedTree.InsertBelow | internal/btree/btree.go:126-157 | the recursion over pages does to the stored tree exactly what insertion does to the value |
| Trees.PagedTree.GrowRoot | internal/btree/btree.go:233-251 | moves the root's contents to a new page and keeps the root's number |
| Trees.PagedTree.Insert | internal/btree/btree.go:112-124 | on the same root page, with other trees' pages untouched and every changed page announced since the operation started, the stored tree is the inserted one: its entries gain exactly the new one if and only if its leaf fits; a cell is refused only if with 9 bytes more it would not fit an empty page, and then without a change |
| Trees.PagedTree.Search | internal/btree/btree.go:70-83 | ends on the leaf the key belongs to, at its lower bound |
| Trees.PagedTree.Get | internal/btree/btree.go:85-99 | gives the entry of the key in the map of entries |
| Trees.PagedTree.Delete | internal/btree/btree.go:294-307 | removes exactly the key, reports whether it was there and changes nothing if not, allocates nothing, announces what it changes |
| Trees.PagedTree.Update | internal/btree/btree.go:273-282 | replaces one payload and nothing else if and only if the leaf it writes to fits; nothing when the key is absent |
| Trees.NodeStep | internal/btree/btree.go:141-156 | adding the separator of a split child to its parent page lands the parent as the value says |
| Trees.RootStep | internal/btree/btree.go:112-124 | coming back to the root, with or without growth, the pages store the inserted tree |
| Trees.SeekPlace | internal/btree/btree.go:309-319 | from the place a search ends at, the rest of the chain is exactly the entries not less than the key |
| Trees.Cursor.First | internal/btree/btree.go:331-348 | starts before the first entry |
| Trees.Cursor.Seek | internal/btree/btree.go:309-319 | starts before the first entry not less than the key |
| Trees.Cursor.Next | internal/btree/btree.go:357-373 | takes the entries one by one, skipping any run of empty leaves, then stays false |
| Slots.ExtendedSlotted | internal/btree/node.go:182-205 | one more record and pointer: old and new records at their places, none over another, pointers in front of contents |
| Slots.KeyReadsBack | internal/btree/node.go:70-77 | the key written at the head of a cell is the key read |
| Slots.PayloadReadsBack | internal/btree/node.go:131-136 | so is the payload |
| Slots.LeafSum | internal/btree/node.go:53-54 | the bytes of a page's records are the sizes the tree counts with |
| Formats.PageFormat | internal/btree/node.go:10-39 | where on a page type, number of cells, start of the cells, sibling or first child and every cell stand, and what the bytes of a cell are |
| Nodes.BeyondMiddle | internal/btree/node.go:155-169 | one comparison with the middle key decides about all keys on its far side, for any comparator that divides the keys of the page around the one looked up |
| Nodes.SortedDivides | internal/btree/node.go:155-169 | every comparator that is an order among the keys of a page and the one looked up does |
| Nodes.LeafRoom | internal/btree/node.go:53-53 | free space is the room minus the sizes of the cells |
| Nodes.LeafGrew | internal/btree/node.go:182-205 | bytes extended at the lower bound say the sorted sequence with the new cell |
| Nodes.LeafCellReadsBack | internal/btree/node.go:126-136 | any cell of any well-formed leaf reads back key and payload |
| Nodes.RowidKeys | internal/btree/node.go:248-288 | 8-byte rowid keys compare as the rowids, are read back, and cells with them have the sizes that the table tree counts, in leaves and in interior pages |
| IndexPages.IndexKeys | internal/storage/index.go:39-71 | index key bytes compare as the tuples, and have the sizes that the index tree counts |
| IndexPages.IndexPageDivides | internal/storage/index.go:45-71 | on a page of index keys the comparison of the source is sorted and divides around every key that the index can have |
| Nodes.Node.InitLeaf | internal/btree/node.go:82-91 | an empty leaf; the sibling bytes stay |
| Nodes.Node.InitInner | internal/btree/node.go:93-103 | an empty interior page with its leftmost child |
| Nodes.Node.SetSibling | internal/btree/node.go:147-149 | changes the sibling and nothing else |
| Nodes.Node.Search | internal/btree/node.go:155-169 | binary search over the pointer array finds the lower bound and whether it is equal |
| Nodes.Node.WriteCell | internal/btree/node.go:186-196 | packs a cell right in front of the others and changes no byte elsewhere |
| Nodes.Node.Link | internal/btree/node.go:197-203 | shifts the pointers from position i on and points i to the new cell |
| Nodes.Node.PutCell | internal/btree/node.go:186-204 | cell written, place found, pointer linked |
| Nodes.Node.InsertLeaf | internal/btree/node.go:182-205 | false exactly when cell and pointer do not fit, every byte unchanged; otherwise the page decodes to the sequence with the cell at its lower bound |
| Nodes.Node.InsertInner | internal/btree/node.go:207-227 | the same for a separator and its child |
| Nodes.Node.LeafCell | internal/btree/node.go:126-136 | reads cell i |
| Nodes.Node.Child | internal/btree/node.go:138-141 | reads child i |
| Nodes.Node.ChildPage | internal/btree/node.go:171-180 | gives the child a key is routed to |
| Nodes.Node.Others | internal/btree/node.go:229-239 | copies out all cells but one |
| Nodes.Node.DeleteLeaf | internal/btree/node.go:229-246 | the page decodes to the sequence minus one cell and keeps its sibling |
| Values.FloatMonotone | internal/values/compare.go:41-47 | conversion to float64, rounding half to even, is monotone on all integers |
| Values.FloatExact | internal/values/compare.go:41-47 | and exact within 53 bits |
| Values.FirstByteDecides | internal/values/compare.go:23-26 | of two byte strings that first differ in one byte the one with the smaller byte comes first |
| Values.PrefixIsFirst | internal/values/compare.go:23-26 | a proper prefix comes first |
| Values.BytesInOrder | internal/values/compare.go:23-26 | so it is for TEXT and for BLOB |
| Values.KindsInOrder | internal/values/compare.go:50-63 | NULL comes before numbers, those before TEXT, and that before BLOB |
| Values.OrderIffNoCollision | internal/values/compare.go:8-63 | on any set of values, comparison is a total preorder if and only if no two integers of the set round to a real of it and nothing that is not a number stands beside two numbers that differ; which order it is say `Values.BytesInOrder`, `Values.KindsInOrder` and `Float64` |
| Values.RoundingBreaksOrder | internal/values/compare.go:41-47 | 2^53, 2^53 + 1 and the real 2^53 are not in order |
| Values.ExactIsTame | internal/values/compare.go:32-48 | integers within 53 bits and finite reals compare as the numbers themselves |
| Values.IntegersAreTame | internal/values/compare.go:32-48 | so do all integers where no real occurs |
| Float64.RoundsToNearest | internal/values/compare.go:41-47 | an integer of whatever size and sign becomes the nearest multiple of the power of two that leaves it 53 bits, of two the one with the even multiplier |
| Float64.SignFlips | internal/record/record.go:66-75 | the highest bit of a real is its sign |
| Float64.NextBinadeDoubles | internal/record/record.go:66-75 | one more in the exponent doubles a normal number |
| Float64.BinadeOfOne | internal/record/record.go:66-75 | the reals from 1 to 2 are 1 and the 52 low bits as a fraction |
| Float64.Subnormals | internal/record/record.go:66-75 | the smallest reals are multiples of 2^-1074, below the first normal number and up to the second power of two |
| Float64.Specials | internal/record/record.go:66-75 | the greatest exponent stands for infinity and for what is not a number |
| Float64.NumbersInOrder | internal/values/compare.go:41-47 | numbers are in their order between the infinities, and nothing is before or behind what is not a number |
| Record.RoundTrip | internal/record/record.go:12-103 | decoding an encoded row gives the row |
| Record.EncodedIsInjective | internal/storage/index.go:127-129 | rows have the same bytes exactly when they are equal |
| Record.TruncatedIsInvalid | internal/record/record.go:37-103 | every non-empty strict prefix of an encoding is rejected |
| Formats.VarintIs | internal/record/record.go:12-35 | a varint is the digits of its number to base 128, least significant first, no more than needed, with the high bit on all but the last |
| Formats.VarintReads | internal/record/record.go:37-45 | reading takes any digits up to the first byte without the high bit, also more than needed, and fails exactly beyond 64 bits |
| Formats.VarintNeedsEnd | internal/record/record.go:37-45 | and fails without such a byte |
| Formats.FourBytes | internal/btree/node.go:58-63 | a fixed-width integer has its most significant byte first |
| Formats.EightBytes | internal/record/record.go:18-23 | eight bytes are the high half in front of the low one |
| Formats.SignedIs | internal/record/record.go:18-20 | a negative integer is the 64-bit number that is 2^64 greater, and is read back from it |
| Formats.ValueFormat | internal/record/record.go:14-33 | the tags 0 to 4 of the kinds of value, and what stands behind each |
| Formats.RowFormat | internal/record/record.go:12-35 | the values of a row stand behind their number in order |
| Formats.RowBytes | internal/record/record.go:12-35 | a row with a value of every kind, byte by byte |
| Formats.DecodingStops | internal/record/record.go:37-103 | decoding leaves off behind the last value; another tag and a length that the bytes do not have are errors, and a length of 2^63 or more makes the source panic |
| Record.Encode | internal/record/record.go:12-35 | the appending loop computes the encoding |
| Record.DecodeRow | internal/record/record.go:37-103 | the loop that advances through the bytes computes the decoding, error for error |
| Tuples.KeysAgree | internal/storage/index.go:57-71 | on index keys over tame values the comparison of the source is the order of tuples compared without rounding, position by position |
| Tuples.KeyOrder | internal/storage/index.go:39-71 | keys are ordered by tuple, then rowid, and never equal for different rowids |
| Tuples.FirstDifference | internal/storage/index.go:57-71 | the first position in which tuples do not compare equal decides, and a tuple comes behind its beginnings |
| Tuples.KeyBytesOrder | internal/storage/index.go:45-55 | comparing the bytes of keys is comparing the tuples |
| Indexes.DropAgrees | internal/storage/index.go:85-87 | dropping the entry of a row finds it and keeps the index the image of the rest |
| Indexes.PaddingIsLower | internal/storage/index.go:89-99 | NULL padding with the least rowid of 64 bits is a true lower bound for any prefix |
| Indexes.SeekDivides | internal/storage/index.go:89-99 | exactly the entries in front of the place found begin with less than the prefix |
| Indexes.PastPrefix | internal/storage/index.go:131-157 | after the first entry that does not match, none does |
| Indexes.ConflictIsEntry | internal/storage/index.go:131-157 | a conflicting row exists exactly when a matching entry of another rowid does |
| Indexes.CheckUnique | internal/storage/index.go:131-157 | in an index that agrees with its table the prefix walk fails exactly when the index is unique and another row compares equal to this one in every column of the index, none of these being NULL |
| Indexes.ConflictMeans | internal/storage/index.go:131-157 | a conflict is another row equal in every column of a unique index; a row with a NULL in one of them is in nobody's way |
| IndexScans.IndexCursor.constructor | internal/storage/index.go:219-227 | a scan starts before everything within its bounds and behind nothing of it |
| IndexScans.IndexCursor.Step | internal/storage/index.go:171-212 | one entry is skipped, ends the scan or yields its own row, rightly each time |
| IndexScans.IndexCursor.Next | internal/storage/index.go:171-212 | yields the next row within the bounds with its rowid; false exactly at the end, and then for good |
| IndexScans.ScanIsExact | internal/storage/index.go:171-227 | a bounded scan yields each row within the bounds once and no other, in tuple-then-rowid order |
| StoredTables.InsertIs | internal/storage/storage.go:37-54 | an insertion adds exactly the row and its key in every index if and only if every leaf that it writes to has room; it then leaves all trees sound, every index in step and unique columns distinct |
| StoredTables.InsertNeedsRoom | internal/storage/storage.go:37-54 | without room in its leaf the new row, or one that stood there before, is gone |
| StoredTables.UpdateIs | internal/storage/storage.go:56-87 | an update replaces exactly that row and moves exactly the keys that differ, with the same condition; also where it skips an index because the key bytes are the same |
| StoredTables.UpdateKeepsReadable | internal/storage/storage.go:56-87 | whatever an update has to drop, all rows left can be read |
| StoredTables.DeleteIs | internal/storage/storage.go:89-103 | a deletion takes out exactly the row and its keys, always |
| StoredTables.FillsUp | internal/storage/storage.go:117-134 | an index filled row by row holds the keys of all rows if and only if every leaf that receives one has room |
| StoredTables.BuildIs | internal/storage/storage.go:117-134 | building an index adds exactly the index it should if and only if that holds, and then keeps everything in step |
| StoredTables.AttachIs | internal/storage/storage.go:223-235 | a table attached anew keeps rows and indexes, and gives out free rowids, if and only if its last leaf holds a row or no leaf does |
| TableRuns.MoveKeepsWhole | internal/storage/storage.go:37-134 | with room on every page each operation, and an attach, keeps the table whole and is the step it should be |
| TableRuns.RunsAgree | internal/storage/storage.go:37-134 | after any run of successful operations and attaches that find room every index is the image of its table, and no unique index has two rows with equal non-NULL key columns |
| TableRuns.RowidsCountInsertions | internal/storage/storage.go:44-48 | without attaches the rowids of a new table count its insertions, whatever is deleted; an attach goes back to the last rowid that is left, or to none |
| TableRuns.FitIsShort | internal/btree/btree.go:112-115 | a row and its keys are short enough to be inserted exactly if their encodings have at most 4066 and 4072 bytes |
| TableRuns.MoveIsShort | internal/btree/btree.go:112-115 | the same for the new row of an update and the keys that change |
| TableRuns.EvenRowsHaveRoom | internal/btree/btree.go:159-231 | rows of even sizes and keys of 8 to 134 bytes always find room |
| TableRuns.LostRowBreaksAgreement | internal/storage/storage.go:43-53 | a successful insertion whose row finds no room leaves every index that has room for the key with more entries than there are rows |
| LostRows.RunLosesRow | internal/storage/storage.go:37-134 | such a run from a new table on: an index, two short rows, three of half a page, every operation successful |
| TableStates.OneConflictsWithOne | internal/storage/index.go:131-157 | 1 and 1.0 are in each other's way |
| TableStates.ClashMeans | internal/storage/index.go:131-157 | two rows clash exactly if the index is unique and they are equal, and not NULL, in each of its columns |
| TableStates.SameKeyMeans | internal/storage/index.go:127-129 | the key of a row is taken to be the same exactly if the values are, 1 and 1.0 being different |
| TableStates.InsertRefused | internal/storage/storage.go:37-42 | no insertion is refused unless a row is equal to the new one, in values that are all there, in the columns of a unique index, and then every one is |
| TableStates.UpdateRefused | internal/storage/storage.go:62-71 | an update is refused exactly if another row than the replaced one is so equal to the new one, whatever values the replaced one has |
| TableStates.BuildRefused | internal/storage/storage.go:117-134 | a unique index cannot be built exactly if two rows are equal in its columns; another one always can |
| TableStates.StepMeans | internal/storage/storage.go:37-134 | an insertion puts its row behind all others with the next rowid, an update replaces the row of its rowid and no other, a deletion takes it out, and a new index leaves the rows alone |
| Tables.Table.Get | internal/storage/storage.go:25-35 | finds the row of a rowid exactly when there is one, and then that row with its values |
| Tables.Table.Insert | internal/storage/storage.go:37-54 | refused without a change exactly on a conflict; fails exactly when the encoding of the row has more than 4066 bytes or that of a key more than 4072, and what it leaves then is said; otherwise it does to the trees what an insertion does, which is the step it should be and keeps the table whole whenever there is room |
| Tables.Table.Update | internal/storage/storage.go:56-87 | missing exactly when there is no such rowid, refused exactly when an index has the new key for another row, both without a change; fails exactly when the encoding of the row has more than 4066 bytes or that of a moved key more than 4072, and what it leaves then is said; otherwise as for an insertion |
| Tables.TooLargeLosesRow | internal/btree/btree.go:273-282 | an update to a row too large for a page fails and takes the row out of the table; the table is whole afterwards if and only if the update would have changed its key in every index |
| Tables.TooLargeKeepsRow | internal/storage/storage.go:43-53 | an insertion with a key too large for an index fails, with the row in the table and not in that index |
| Tables.Table.Delete | internal/storage/storage.go:89-103 | missing exactly when there is no such rowid; done, row and keys are gone and the table is whole if it was |
| Tables.Table.BuildIndex | internal/storage/storage.go:117-134 | attached only if every key is short enough, and then filled from the rows; with room, refused exactly when two rows are in each other's way and otherwise in step; without success nothing changes |
| Tables.Table.Attach | internal/storage/storage.go:223-235 | the rowid used last is read off the last leaf, and a whole table stays whole if and only if that leaf holds a row or none does |
| Tables.CheckMove | internal/storage/storage.go:63-71 | which indexes an update has to touch, and whether it may |
| Tables.FillIndex | internal/storage/storage.go:117-134 | the scan that fills an index: with room it is refused exactly when two rows clash; it fails on size only if some key is too large |
| Evaluation.Resolve | internal/exec/scope.go:17-35 | a reference names a column if and only if it is the only match |
| Evaluation.SameNameIs | internal/exec/scope.go:20-25 | names are the same letter by letter, small and capital letters of the 26 being one |
| Evaluation.ResolveMeans | internal/exec/scope.go:17-35 | a reference is to the one column with its name, and with its table if it gives one |
| Evaluation.ResolveFails | internal/exec/scope.go:17-35 | it fails exactly when no column of the scope has the name or two have |
| Evaluation.ThreeLevels | internal/exec/exec.go:486-524 | AND, OR and NOT are minimum, maximum and reversal of false, unknown, true; only a nonzero integer is true and only NULL is unknown |
| Evaluation.ComparisonsRelate | internal/exec/exec.go:457-484 | != is NOT of =, <= is < OR =, > is < with its sides swapped; with a NULL all are NULL, and without one < says that the left side comes first |
| Evaluation.OperatorsMean | internal/exec/exec.go:405-455 | when a row passes a connective or comparison of two expressions, in terms of their values; arithmetic takes the left value first |
| Evaluation.AtomsMean | internal/exec/exec.go:526-551 | a literal is worth what its kind reads, a reference the value of its column |
| Evaluation.EvaluatesIff | internal/exec/exec.go:395-455 | whether an expression has a value does not depend on the row: it has one exactly if there is no minus in front of a part, every literal can be read and every reference names a column, neither AND nor OR sparing its right side |
| Evaluation.IsAsksForTruth | internal/exec/exec.go:444-448 | IS passes a row exactly if its left side does not; as IS NULL that is right if and only if the left side is NULL or true |
| Evaluation.MinusFails | internal/exec/exec.go:405-415 | an expression with a minus in front of any part of it evaluates on no row |
| Values.CompareFlips | internal/values/compare.go:8-30 | swapping the sides of a comparison flips its sign, for all values |
| Planner.ComputeScore | internal/planner/planner.go:166-188 | the loop computes the score; which scores are higher is `Planner.ScoreOrder` |
| Planner.ScoreOrder | internal/planner/planner.go:166-188 | an equality beats all else, bounds on both sides beat one, one beats none, and nothing else makes a difference |
| Planner.ConjunctsAreWhole | internal/planner/planner.go:116-122 | no AND is left within the conjuncts |
| Planner.MatchIff | internal/planner/planner.go:124-164 | recognised are exactly the comparisons, other than !=, of a column with a literal other than NULL, either way round; with the literal on the left the operator is the one that holds of the sides swapped |
| Planner.ResidualKeepsOrder | internal/planner/planner.go:217-230 | the conjuncts of the residual are exactly those not used, in order |
| Planner.ComputeBounds | internal/planner/planner.go:190-215 | the first equality, or else the first lower and the first upper bound, and which conjuncts they stand for |
| Planner.ComputeResidual | internal/planner/planner.go:217-230 | the unused conjuncts joined in order |
| Planner.ComputeUsable | internal/planner/planner.go:31-37 | the conjuncts of the form column-operator-literal |
| Planner.Choose | internal/planner/planner.go:42-58 | the first index with the highest score above zero |
| Planner.Scan | internal/planner/planner.go:21-74 | the whole table exactly if no conjunct is about the first column of an index; otherwise the first index with an equality there, that equality giving both bounds; without any the first with bounds on both sides; without that the first with a bound; and the rest of the filter as residual |
| Planner.PlanIsPreferred | internal/planner/planner.go:42-58 | the plan with the best score is on the index described for `Planner.Scan`, in terms of the filter and the columns alone |
| PlanMeaning.ConjunctsPass | internal/planner/planner.go:116-122 | a filter passes a row exactly when all its conjuncts do |
| PlanMeaning.ResidualPasses | internal/planner/planner.go:217-230 | the residual passes exactly when all unused conjuncts do, and evaluates when they do |
| PlanMeaning.MatchMeaning | internal/planner/planner.go:124-164 | a recognised conjunct, mirrored or not, passes exactly when the column compares with the literal as it says |
| PlanMeaning.RewriteKeepsMeaning | internal/planner/planner.go:21-74 | on a row where the filter evaluates it passes exactly when the bounds and the residual do and, if there is no lower bound, the column is not NULL |
| Exec.RunFilter | internal/exec/exec.go:106-120 | the operator draws rows until one passes or evaluation fails |
| Exec.FilteredConcat | internal/exec/exec.go:106-120 | filtering keeps the order of the rows, and fails on all exactly if it fails on a part |
| Exec.ReadIndex | internal/exec/exec.go:137-154 | drawing an index scan to its end fetches exactly the rows its keys lead to |
| Exec.FetchedAre | internal/exec/exec.go:137-154 | these are exactly the rows of the table within the bounds |
| Exec.FetchedOnce | internal/exec/exec.go:137-154 | each once |
| Exec.PathsAgree | internal/planner/planner.go:21-74 | residual over index scan selects the same rows as the whole filter over the table if and only if no row with a NULL leading column passes an upper-bound-only plan; with an equality or lower bound always, and for the empty table too |
| Exec.UpperBoundFindsNull | internal/planner/planner.go:190-215 | for `a < 5` the planner makes an index plan without lower bound or residual; over an index that agrees with a table of one row whose a is NULL it finds that row, and the filter over the table does not |
| Engine.RunPlan | internal/exec/exec.go:282-353 | running a plan picks rows of the table, none twice, as the plan says; it fails exactly when a column cannot be resolved, a bound has no value, or the filter has none on a row within the bounds |
| Engine.NewRow | internal/engine/engine.go:289-297 | the assignment loop on a copy of the old row |
| Engine.AssignedIs | internal/engine/engine.go:289-297 | every column has the value of its last assignment, evaluated on the old row, or what it had |
| Engine.Collect | internal/engine/engine.go:280-299 | one pending update for each picked row, in order; fails exactly when an assignment to one of them has no value |
| Engine.ApplyAll | internal/engine/engine.go:304-308 | applying the pending updates that go through leaves what they leave one after the other: as many rows as before if and only if the leaf of every one of them has room, fewer otherwise; with room on every page exactly those rowids are rewritten and the table stays whole; it stops at the first that clashes or is too large and leaves the table as it is then; a row that is gone is passed over |
| Engine.RewrittenIsUpdated | internal/engine/engine.go:280-308 | each picked row has its new values, every other row is as before |
| Engine.ExecUpdate | internal/engine/engine.go:244-311 | UPDATE picks its rows from the table before the statement and, with room for every one of the updates, changes exactly those, each once, from old values, also when the driving index is on an assigned column; without room for the rows fewer are left; what makes it fail, and what it leaves then, is said |
| Engine.SurvivorsAre | internal/engine/engine.go:335-354 | the rows left are those not picked, in order |
| Engine.DeleteAll | internal/engine/engine.go:350-354 | deleting the pending rowids one by one leaves exactly the survivors |
| Engine.ExecDelete | internal/engine/engine.go:313-357 | DELETE removes exactly the rows the scan picked; it fails, without a change, exactly when the plan does |
| Engine.PickedIsFiltered | internal/engine/engine.go:244-357 | the picked rows are those the WHERE clause passes if and only if the plan lets no NULL row in |
| Engine.QualifiersDropped | internal/planner/planner.go:124-164 | if what is left of a filter validates, the whole filter does if and only if every conjunct that became a bound is qualified with the table's name or not at all, and the table has no second column of that name |
| Engine.ValidatesIff | internal/exec/exec.go:553-567 | a filter validates exactly if all its references name a column; it then has a value on every row unless a minus, a star or an unreadable literal is in it |
| Engine.TableScanFails | internal/exec/exec.go:395-455 | reading a whole table fails exactly if the filter mentions a column that the table does not have, even an empty one, or if there is a row and the filter cannot be evaluated, on whatever row |
| Engine.IndexHidesFailures | internal/planner/planner.go:21-74 | where an index plan goes through, the same filter over the whole table fails if and only if such a qualifier is another's, the name is ambiguous, or the filter has no value on some row |
| Grammar.ShowReads | internal/parser/parser.go:167-274 | printed between two binding powers, an expression reads back as one operand |
| Grammar.ReadWeighs | internal/parser/parser.go:167-244 | no expression has more substance than the tokens it was read from |
| Grammar.ShowWeighs | internal/parser/parser.go:180-200 | the print of an expression in which an IS is followed by a NOT or NULL of its right side weighs less than the expression has substance |
| Grammar.RoundTrip | internal/parser/parser.go:167-274 | printing any expression with parentheses only where binding powers call for them, then parsing, gives the tree back and takes exactly its tokens if and only if no IS other than a test for NULL has NOT or NULL printed right behind it |
| Grammar.ParenthesesAreNeeded | internal/parser/parser.go:167-202 | without its parentheses, an operator that binds no more tightly than the one in front of it is left over: only its left operand is read |
| Grammar.IsNotLosesNot | internal/parser/parser.go:180-200 | for every left operand, every rest and every binding power below that of IS: the NOT of IS NOT is kept exactly when NULL follows; otherwise it reads as IS with what is behind the NOT |
| Grammar.IsNotReadsAsIs | internal/parser/parser.go:180-200 | `a IS NOT b` gives the tree of `a IS b` |
| Grammar.PowersAreClasses | internal/parser/parser.go:246-263 | OR, AND, comparisons with IS, sums, products, concatenation: from the loosest to the tightest, alike within a class |
| Grammar.TwoOperators | internal/parser/parser.go:167-202 | `x p y q z` reads as x p (y q z) if q is of a later class than p and as (x p y) q z if not, for all operators |
| Grammar.PrefixThenOperator | internal/parser/parser.go:234-240 | NOT takes a comparison and all that binds more tightly with it but neither AND nor OR; a minus takes only the operand behind it |
| Grammar.IsReadsLiteral | internal/parser/parser.go:180-196 | behind IS and IS NOT only NULL is a test for NULL, any other literal an operand |
| Parsers.Parser.Advance | internal/parser/parser.go:551-557 | takes one token, never the last |
| Parsers.Parser.Accept | internal/parser/parser.go:563-569 | takes a token exactly when it is the expected one |
| Parsers.Parser.ParseExpr | internal/parser/parser.go:167-202 | the loop agrees with the grammar on the tree and on the tokens left, and ends; which operator binds more tightly say `Grammar.TwoOperators` and `Grammar.PrefixThenOperator` |
| Parsers.Parser.ParseOperand | internal/parser/parser.go:173-201 | one round of the loop: an operator and what belongs behind it |
| Parsers.Parser.ParsePrefix | internal/parser/parser.go:204-244 | operands, parentheses and prefix operators as in the grammar |
| Codecs.StringCodec | internal/catalog/catalog.go:127-130 | strings round-trip whatever follows, and are rejected when cut short |
| Codecs.PairCodec | internal/catalog/catalog.go:90-125 | one codec behind another is a codec |
| Codecs.ListCodec | internal/catalog/catalog.go:90-125 | a list behind its length is a codec |
| Catalog.CatalogCodec | internal/catalog/catalog.go:90-250 | so are tables and indexes one after the other |
| Formats.ColumnFormat | internal/catalog/catalog.go:96-107 | a column is its name, its type and its flags, 1 for a primary key and 2 for NOT NULL |
| Formats.TableFormat | internal/catalog/catalog.go:92-108 | a table is its name, its root page and its columns behind their number |
| Formats.IndexFormat | internal/catalog/catalog.go:110-123 | an index is its name, its table, its root page, its flag and its columns behind their number |
| Formats.FieldsRead | internal/catalog/catalog.go:155-183 | reading takes the low 32 bits of a root page and of the flags only those that are written |
| Formats.SchemaFormat | internal/catalog/catalog.go:90-125 | tables behind their number, then indexes behind theirs |
| Formats.SchemaBytes | internal/catalog/catalog.go:90-130 | a schema of one table and one unique index, byte by byte |
| Catalog.OrderGivesMap | internal/catalog/catalog.go:132-242 | filing by name gives the map back for any iteration order |
| Catalog.SchemaRoundTrip | internal/catalog/catalog.go:90-250 | a schema comes back from its bytes in any map order, followed by any bytes |
| Catalog.TruncatedSchema | internal/catalog/catalog.go:132-250 | every strict prefix is rejected |
| Catalog.SchemaPageRoundTrip | internal/storage/storage.go:199-221 | padded with zeros to a page it comes back; it fits exactly with at most 4096 bytes |
| Catalog.FreshPageIsEmpty | internal/catalog/catalog.go:132-150 | a page of zeros is the empty schema |
| Catalog.Marshal | internal/catalog/catalog.go:90-125 | the appending loops compute an encoding for the order in which the maps are iterated |
| Catalog.Unmarshal | internal/catalog/catalog.go:132-242 | the advancing loops compute the decoding, failures included |

## Left out

- File errors, permissions and a flush or commit that fails half way: every file operation is one atomic step that succeeds.
- Durability of the directory entry when the journal is created: only its removal may be undone by a stop.
- A stop before the journal header is complete: shown only to leave the database untouched and to make opening fail.
- PagerState.AtomicIffClean: asks for a durable file, which there is after opening, after every commit, and after the rollback of a transaction that began with no dirty page. The rollback of another one without a journal lengthens the file and does not sync it; nothing is said of stops from there to the next commit.
- CRC-32 and the byte format of the journal: a record is whole or torn.
- Page numbers wider than 32 bits, 64-bit overflow of rowids, and the `Reads` counter.
- One heap for everything: the pager's pages are bytes it does not look into, the tree's heap holds decoded pages, and `Nodes.Node` proves the byte page against the operations that the heap uses. In `StoredTables` every tree numbers its pages by itself.
- Trees.Store.Write: captures no image itself; `Transactions.CallsAreTransaction` gives the recorded calls to the pager, which does. Pages that are only read are not on record.
- Trees.PagedTree.Insert: asks for an absent key, because leaf insertion does not deduplicate, and for interior pages whose halves fit. Table trees and index trees with keys of even sizes always have the latter (`TableTree.FixedSepsFit`, `IndexTrees.EvenSepsFit`).
- Trees.PagedTree.InsertBelow: asks for the same.
- Trees.PagedTree.Update: asks for interior pages whose halves fit.
- Interior pages of index trees with keys of uneven sizes: a split that drops a separator drops a child with it (`BTree.KidsKeptIffFit`); the leaves below that child stay in the sibling chain and are no longer reached by a descent. What the operations do on such a tree is not described.
- Errors of damaged pages and cycles in the sibling chain.
- Tables.Table.BuildIndex: without room says only that it is attached with what the insertions left in its tree.
- A table's trees are values that its methods assign; that the pages of a file hold such values through every operation is what `Trees` proves for one tree. An index is a value owned by its table, not an object that the store shares.
- NaN beside numbers, and integers that round to a real of the same column: index theorems take a domain of values that `Values.ExactIsTame` and `Values.IntegersAreTame` give two cases of.
- Arithmetic, concatenation and the parsing of numeric literals: parameters of evaluation.
- Case folding of names beyond ASCII.
- Engine.ExecUpdate: a statement that fails half way is rolled back as a whole outside a transaction and left as it is inside one; that wrapper is not part of the model. Without room for one of the updates it says how many rows are left, not which.
- SchemaStore.Store.SaveSchema: the wrapper around a statement of its own is modelled for the write of the schema page alone.
- The scan and the filter are run one after the other, not row by row.
- The lexer, statements other than UPDATE and DELETE, projection, ORDER BY, LIMIT, EXPLAIN, the shell and error texts.
- Reloading the catalog after a rollback, apart from attaching its tables anew, and the engine's transaction flags.
- Catalog.Unmarshal: a column or table count beyond what memory holds, at which the source gives up, is not modelled; the loops over tables, indexes and columns share one method.
