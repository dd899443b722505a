/**
A table and its indexes in their trees: what the operations do there, page splits that drop cells included,
and exactly when that is what they should do.
*/
module StoredTables {
  import opened Bytes
  import opened Cells
  import opened BTree
  import opened BTreeOps
  import opened Values
  import opened Tuples
  import opened Indexes
  import opened IndexTrees
  import opened TableTree
  import opened TableStates
  import Record

  /** `next` is the page number that the tree of rows draws next. */
  datatype Stored = Stored(tree: Tree<int, Payload>, next: nat, nextID: int, indexes: seq<IndexTree>)

  // ---- what is stored ----

  function DecodedRow(p: Payload): Row {
    match Record.Decode(p)
    case Ok(row) => row
    case _ => []
  }

  function RowsOf(cells: seq<Cell<int, Payload>>): (r: Rows)
    ensures |r| == |cells|
    ensures forall i {:trigger r[i]} :: 0 <= i < |r| ==> r[i] == Cell(cells[i].key, DecodedRow(cells[i].val))
  {
    seq(|cells|, i requires 0 <= i < |cells| => Cell(cells[i].key, DecodedRow(cells[i].val)))
  }

  function Views(indexes: seq<IndexTree>): (r: seq<Index>)
    ensures |r| == |indexes|
    ensures forall k {:trigger r[k]} :: 0 <= k < |r| ==> r[k] == Viewed(indexes[k])
  {
    seq(|indexes|, k requires 0 <= k < |indexes| => Viewed(indexes[k]))
  }

  function StoredRows(s: Stored): Rows { RowsOf(BTree.Entries(s.tree)) }

  function View(s: Stored): State { State(StoredRows(s), s.nextID, Views(s.indexes)) }

  predicate Decodable(cells: seq<Cell<int, Payload>>) {
    forall i :: 0 <= i < |cells| ==> Record.Decode(cells[i].val).Ok?
  }

  /** Sound trees that hold a valid table. */
  ghost predicate Whole(dom: Value -> bool, s: Stored) {
    && Valid(dom, View(s)) && Grown(TableLayout(), s.tree) && Decodable(BTree.Entries(s.tree))
    && forall k :: 0 <= k < |s.indexes| ==> SoundIndex(dom, s.indexes[k])
  }

  /** A tree of rows that can be read, all of them with the columns of every index. */
  ghost predicate Readable(s: Stored) {
    Grown(TableLayout(), s.tree) && Decodable(BTree.Entries(s.tree)) && Covered(View(s))
  }

  function RowCell(c: Cell<int, Row>): Cell<int, Payload> { Cell(c.key, Record.Encoded(c.val)) }

  /** What the guard at the head of an insertion lets through. */
  predicate RowFits(row: Row) { Accepts(RowCell(Cell(0, row))) }

  // ---- cells and rows ----

  lemma RowPlaces(cells: seq<Cell<int, Payload>>, id: int)
    ensures Slot(CompareRowid, RowsOf(cells), id) == Slot(CompareRowid, cells, id)
    ensures Found(CompareRowid, RowsOf(cells), id) == Found(CompareRowid, cells, id)
  {
    SlotUnique(CompareRowid, RowsOf(cells), id, Slot(CompareRowid, cells, id));
  }

  lemma RowReads(c: Cell<int, Row>)
    requires Record.StorableRow(c.val)
    ensures Record.Decode(RowCell(c).val) == Record.Ok(c.val)
  {
    Record.RoundTrip(c.val);
  }

  lemma RowInserted(cells: seq<Cell<int, Payload>>, c: Cell<int, Row>)
    requires Record.StorableRow(c.val)
    ensures RowsOf(Insert(CompareRowid, cells, RowCell(c))) == Insert(CompareRowid, RowsOf(cells), c)
    ensures Decodable(cells) ==> Decodable(Insert(CompareRowid, cells, RowCell(c)))
  {
    RowPlaces(cells, c.key);
    RowReads(c);
  }

  lemma RowReplaced(cells: seq<Cell<int, Payload>>, i: nat, c: Cell<int, Row>)
    requires Record.StorableRow(c.val) && i < |cells|
    ensures RowsOf(cells[i := RowCell(c)]) == RowsOf(cells)[i := c]
    ensures Decodable(cells) ==> Decodable(cells[i := RowCell(c)])
  {
    RowReads(c);
  }

  lemma RowGone(cells: seq<Cell<int, Payload>>, i: nat)
    requires i < |cells|
    ensures RowsOf(RemoveAt(cells, i)) == RemoveAt(RowsOf(cells), i)
    ensures Decodable(cells) ==> Decodable(RemoveAt(cells, i))
  {
  }

  // ---- what the operations do ----

  function KeysInserted(indexes: seq<IndexTree>, c: Cell<int, Row>): (r: seq<IndexTree>)
    requires AllCover(Views(indexes), c.val)
    ensures |r| == |indexes|
    ensures forall k {:trigger r[k]} :: 0 <= k < |r| ==> r[k] == InsertKey(indexes[k], EntryKey(Views(indexes)[k].columns, c))
  {
    seq(|indexes|, k requires 0 <= k < |indexes| => InsertKey(indexes[k], EntryKey(Views(indexes)[k].columns, c)))
  }

  function KeysDeleted(indexes: seq<IndexTree>, c: Cell<int, Row>): (r: seq<IndexTree>)
    requires AllCover(Views(indexes), c.val)
    ensures |r| == |indexes|
    ensures forall k {:trigger r[k]} :: 0 <= k < |r| ==> r[k] == DeleteKey(indexes[k], EntryKey(Views(indexes)[k].columns, c))
  {
    seq(|indexes|, k requires 0 <= k < |indexes| => DeleteKey(indexes[k], EntryKey(Views(indexes)[k].columns, c)))
  }

  /** An index in which the entry of row `was` is replaced, unless the key is the same. */
  function KeyMoved(ix: IndexTree, was: Cell<int, Row>, row: Row): IndexTree
    requires Covers(ix.columns, was.val) && Covers(ix.columns, row)
  {
    if SameKey(ix.columns, was.val, row) then ix
    else InsertKey(DeleteKey(ix, EntryKey(ix.columns, was)), EntryKey(ix.columns, Cell(was.key, row)))
  }

  function KeysMoved(indexes: seq<IndexTree>, was: Cell<int, Row>, row: Row): (r: seq<IndexTree>)
    requires AllCover(Views(indexes), was.val) && AllCover(Views(indexes), row)
    ensures |r| == |indexes|
    ensures forall k {:trigger r[k]} :: 0 <= k < |r| ==>
      Covers(indexes[k].columns, was.val) && Covers(indexes[k].columns, row) && r[k] == KeyMoved(indexes[k], was, row)
  {
    assert forall k :: 0 <= k < |indexes| ==> Views(indexes)[k].columns == indexes[k].columns;
    seq(|indexes|, k requires 0 <= k < |indexes| => KeyMoved(indexes[k], was, row))
  }

  function RowInsert(s: Stored, row: Row): Stored
    requires AllCover(Views(s.indexes), row)
  {
    var c := Cell(s.nextID + 1, row);
    var (t, n) := InsertTree(TableLayout(), s.tree, RowCell(c), s.next);
    Stored(t, n, s.nextID + 1, KeysInserted(s.indexes, c))
  }

  function RowUpdate(s: Stored, was: Cell<int, Row>, row: Row): (t: Stored)
    requires AllCover(Views(s.indexes), was.val) && AllCover(Views(s.indexes), row)
    ensures t.nextID == s.nextID
  {
    var (t, n, _) := UpdateTree(TableLayout(), s.tree, RowCell(Cell(was.key, row)), s.next);
    Stored(t, n, s.nextID, KeysMoved(s.indexes, was, row))
  }

  function RowDelete(s: Stored, was: Cell<int, Row>): Stored
    requires AllCover(Views(s.indexes), was.val)
  {
    s.(tree := DeleteIn(TableLayout(), s.tree, was.key), indexes := KeysDeleted(s.indexes, was))
  }

  /** An index filled row by row; its empty tree is on page `root`. */
  function IndexFilled(columns: seq<nat>, unique: bool, root: nat, rows: Rows): (ix: IndexTree)
    requires forall i :: 0 <= i < |rows| ==> Covers(columns, rows[i].val)
    ensures ix.columns == columns && ix.unique == unique
  {
    if rows == [] then IndexTree(columns, unique, Leaf(root, []), root + 1)
    else
      var n := |rows| - 1;
      InsertKey(IndexFilled(columns, unique, root, rows[..n]), EntryKey(columns, rows[n]))
  }

  /** An attach takes the greatest rowid of the last leaf for the last one used. */
  function Attached(s: Stored): Stored { s.(nextID := AttachedRowID(s.tree)) }

  // ---- room ----

  /** The trees of the indexes have room for the keys of a row. */
  ghost predicate KeysRoom(indexes: seq<IndexTree>, c: Cell<int, Row>)
    requires AllCover(Views(indexes), c.val)
  {
    forall k :: 0 <= k < |indexes| ==> IndexRoom(indexes[k], EntryKey(Views(indexes)[k].columns, c))
  }

  /** Every page of an index that the insertion of a key splits splits into halves that fit. */
  predicate IndexRoom(ix: IndexTree, k: Tuple) { KeyRoom(ix, k) && SepRoom(ix, k) }

  ghost predicate InsertHasRoom(s: Stored, row: Row)
    requires AllCover(Views(s.indexes), row)
  {
    var c := Cell(s.nextID + 1, row);
    RowRoom(s.tree, RowCell(c)) && KeysRoom(s.indexes, c)
  }

  ghost predicate MoveHasRoom(ix: IndexTree, was: Cell<int, Row>, row: Row)
    requires Covers(ix.columns, was.val) && Covers(ix.columns, row)
  {
    SameKey(ix.columns, was.val, row) || IndexRoom(DeleteKey(ix, EntryKey(ix.columns, was)), EntryKey(ix.columns, Cell(was.key, row)))
  }

  /** The trees of the indexes have room for the keys that move. */
  ghost predicate MovesRoom(indexes: seq<IndexTree>, was: Cell<int, Row>, row: Row) {
    forall k :: 0 <= k < |indexes| ==> Covers(indexes[k].columns, was.val) && Covers(indexes[k].columns, row) && MoveHasRoom(indexes[k], was, row)
  }

  ghost predicate UpdateHasRoom(s: Stored, was: Cell<int, Row>, row: Row) {
    UpdateFits(TableLayout(), s.tree, RowCell(Cell(was.key, row))) && MovesRoom(s.indexes, was, row)
  }

  /** Every leaf that receives a key while an index is filled has room for it, or splits into halves that have. */
  ghost predicate FillHasRoom(columns: seq<nat>, unique: bool, root: nat, rows: Rows)
    requires forall i :: 0 <= i < |rows| ==> Covers(columns, rows[i].val)
  {
    rows == [] ||
      var n := |rows| - 1;
      && FillHasRoom(columns, unique, root, rows[..n])
      && KeyRoom(IndexFilled(columns, unique, root, rows[..n]), EntryKey(columns, rows[n]))
  }

  /** Every key is short enough, and every interior page that an insertion reaches splits into halves that fit. */
  ghost predicate FillReaches(columns: seq<nat>, unique: bool, root: nat, rows: Rows)
    requires forall i :: 0 <= i < |rows| ==> Covers(columns, rows[i].val)
  {
    rows == [] ||
      var n := |rows| - 1;
      && FillReaches(columns, unique, root, rows[..n]) && KeyFits(EntryKey(columns, rows[n]))
      && SepRoom(IndexFilled(columns, unique, root, rows[..n]), EntryKey(columns, rows[n]))
  }

  /** The last leaf holds a row, or no leaf does. */
  predicate AttachFinds(s: Stored) { LastLeaf(s.tree).cells != [] || BTree.Entries(s.tree) == [] }

  // ---- insertion ----

  /** The tree of rows after an insertion: what it should be if and only if its leaf has room. */
  lemma RowInsertIs(s: Stored, c: Cell<int, Row>)
    requires Grown(TableLayout(), s.tree) && Record.StorableRow(c.val) && RowFits(c.val)
    requires forall i :: 0 <= i < |StoredRows(s)| ==> StoredRows(s)[i].key != c.key
    ensures var t := InsertTree(TableLayout(), s.tree, RowCell(c), s.next).0; var cells := BTree.Entries(s.tree);
      && Grown(TableLayout(), t)
      && (RowsOf(BTree.Entries(t)) == Insert(CompareRowid, RowsOf(cells), c) <==> RowRoom(s.tree, RowCell(c)))
      && (RowRoom(s.tree, RowCell(c)) && Decodable(cells) ==> Decodable(BTree.Entries(t)))
      && (!RowRoom(s.tree, RowCell(c)) ==> |RowsOf(BTree.Entries(t))| <= |RowsOf(cells)|)
  {
    var cells := BTree.Entries(s.tree);
    assert Absent(CompareRowid, cells, c.key) by {
      forall i | 0 <= i < |cells| ensures CompareRowid(cells[i].key, c.key) != 0 {
        assert StoredRows(s)[i].key == cells[i].key;
      }
    }
    var h :| SoundTree(TableLayout(), s.tree, h);
    var h' := KeptIffFits(s.tree, RowCell(c), s.next, h);
    RowInserted(cells, c);
  }

  /** All keys of a row are short enough for their index. */
  predicate KeysFit(indexes: seq<Index>, c: Cell<int, Row>)
    requires AllCover(indexes, c.val)
  {
    forall k :: 0 <= k < |indexes| ==> KeyFits(EntryKey(indexes[k].columns, c))
  }

  /** What an insertion that succeeds asks for. */
  ghost predicate InsertCan(dom: Value -> bool, s: Stored, row: Row) {
    && Whole(dom, s) && Suits(dom, View(s), row) && s.nextID + 1 < TWO_63 && Record.StorableRow(row) && NoConflict(View(s), row)
    && RowFits(row) && KeysFit(View(s).indexes, Cell(s.nextID + 1, row))
  }

  lemma FreshKey(dom: Value -> bool, s: Stored)
    requires Whole(dom, s)
    ensures forall i :: 0 <= i < |StoredRows(s)| ==> StoredRows(s)[i].key != s.nextID + 1
  {
    assert RowidsUsed(View(s).rows, s.nextID);
  }

  /** An index of a whole table, by itself. */
  lemma IndexOf(dom: Value -> bool, s: Stored, k: nat)
    requires Whole(dom, s) && k < |s.indexes|
    ensures SoundIndex(dom, s.indexes[k]) && InStep(dom, Viewed(s.indexes[k]), StoredRows(s))
    ensures Agrees(dom, Viewed(s.indexes[k]), StoredRows(s))
    ensures Viewed(s.indexes[k]).columns == s.indexes[k].columns
  {
    assert View(s).indexes[k] == Viewed(s.indexes[k]);
  }

  lemma RowOfIndex(dom: Value -> bool, s: Stored, k: nat, row: Row)
    requires Suits(dom, View(s), row) && k < |s.indexes|
    ensures Fine(dom, s.indexes[k].columns, row)
  {
    assert View(s).indexes[k] == Viewed(s.indexes[k]);
  }

  /** Every interior page that the insertion of a row reaches in an index splits into halves that fit. */
  ghost predicate SepsRoom(indexes: seq<IndexTree>, c: Cell<int, Row>)
    requires AllCover(Views(indexes), c.val)
  {
    forall k :: 0 <= k < |indexes| ==> SepRoom(indexes[k], EntryKey(Views(indexes)[k].columns, c))
  }

  /** An index that takes the key of a new row: in step afterwards if and only if the leaf of the key has room. */
  lemma IndexInsertIs(dom: Value -> bool, s: Stored, c: Cell<int, Row>, k: nat)
    requires Whole(dom, s) && Suits(dom, View(s), c.val) && c.key == s.nextID + 1 && KeysFit(View(s).indexes, c)
    requires SepsRoom(s.indexes, c) && k < |s.indexes|
    ensures var key := EntryKey(Views(s.indexes)[k].columns, c); var more := InsertKey(s.indexes[k], key);
      && SoundIndex(dom, more)
      && (KeyRoom(s.indexes[k], key) ==> Viewed(more) == AddKey(Views(s.indexes)[k], key))
      && (!KeyRoom(s.indexes[k], key) ==> |Viewed(more).entries| <= |Views(s.indexes)[k].entries|)
  {
    assert c.key >= MIN_ROWID && KeyFits(EntryKey(Views(s.indexes)[k].columns, c)) && SepRoom(s.indexes[k], EntryKey(Views(s.indexes)[k].columns, c));
    FreshKey(dom, s);
    IndexOf(dom, s, k);
    RowOfIndex(dom, s, k, c.val);
    hide *;
    NewKeyFits(dom, s.indexes[k], StoredRows(s), c);
  }

  /** The key of a new row, in an index that agrees with the others. */
  lemma NewKeyFits(dom: Value -> bool, ix: IndexTree, rows: Rows, c: Cell<int, Row>)
    requires SoundIndex(dom, ix) && Agrees(dom, Viewed(ix), rows)
    requires Fine(dom, ix.columns, c.val) && c.key >= MIN_ROWID && forall i :: 0 <= i < |rows| ==> rows[i].key != c.key
    requires KeyFits(EntryKey(ix.columns, c)) && SepRoom(ix, EntryKey(ix.columns, c))
    ensures var k := EntryKey(ix.columns, c); var more := InsertKey(ix, k);
      && SoundIndex(dom, more)
      && (KeyRoom(ix, k) ==> Viewed(more) == AddKey(Viewed(ix), k))
      && (!KeyRoom(ix, k) ==> |Viewed(more).entries| <= |Viewed(ix).entries|)
  {
    EntryIsShaped(dom, ix.columns, c);
    NewKeyIsAbsent(dom, Viewed(ix), rows, c);
    InsertKeyIs(dom, ix, EntryKey(ix.columns, c));
  }

  /** All indexes after the insertion of a row. */
  lemma KeysInsertedAre(dom: Value -> bool, s: Stored, c: Cell<int, Row>)
    requires Whole(dom, s) && Suits(dom, View(s), c.val) && c.key == s.nextID + 1 && KeysFit(View(s).indexes, c)
    requires SepsRoom(s.indexes, c)
    ensures forall k :: 0 <= k < |s.indexes| ==> SoundIndex(dom, KeysInserted(s.indexes, c)[k])
    ensures Views(KeysInserted(s.indexes, c)) == Added(Views(s.indexes), c) <==> KeysRoom(s.indexes, c)
  {
    var more := KeysInserted(s.indexes, c);
    forall k | 0 <= k < |s.indexes|
      ensures SoundIndex(dom, more[k])
      ensures Views(more)[k] == Added(Views(s.indexes), c)[k] <==> IndexRoom(s.indexes[k], EntryKey(Views(s.indexes)[k].columns, c))
    {
      assert SepRoom(s.indexes[k], EntryKey(Views(s.indexes)[k].columns, c));
      IndexInsertIs(dom, s, c, k);
    }
    assert KeysRoom(s.indexes, c) ==> forall k :: 0 <= k < |s.indexes| ==> Views(more)[k] == Added(Views(s.indexes), c)[k];
  }

  /** An insertion does what it should if and only if every leaf that it reaches has room, and then keeps the table whole. */
  lemma InsertIs(dom: Value -> bool, s: Stored, row: Row)
    requires InsertCan(dom, s, row) && SepsRoom(s.indexes, Cell(s.nextID + 1, row))
    ensures View(RowInsert(s, row)) == TableStates.Inserted(View(s), row) <==> InsertHasRoom(s, row)
    ensures InsertHasRoom(s, row) ==> Whole(dom, RowInsert(s, row))
  {
    hide RowRoom, KeysRoom, InsertTree, RowCell, Valid, Grown, Decodable, NoConflict, Suits, RowFits, KeysFit, SoundIndex, SepsRoom;
    var c := Cell(s.nextID + 1, row);
    FreshKey(dom, s);
    RowInsertIs(s, c);
    KeysInsertedAre(dom, s, c);
    InsertKeepsValid(dom, View(s), row);
  }

  /** Without room in the leaf of the rows the new row, or one that stood there before, is gone. */
  lemma InsertNeedsRoom(dom: Value -> bool, s: Stored, row: Row)
    requires InsertCan(dom, s, row)
    ensures View(RowInsert(s, row)).rows == TableStates.Inserted(View(s), row).rows <==> RowRoom(s.tree, RowCell(Cell(s.nextID + 1, row)))
    ensures !RowRoom(s.tree, RowCell(Cell(s.nextID + 1, row))) ==> |View(RowInsert(s, row)).rows| <= |View(s).rows|
  {
    hide InsertTree, RowRoom, RowCell, Valid, Grown, Decodable, NoConflict, Suits, RowFits, KeysFit;
    FreshKey(dom, s);
    RowInsertIs(s, Cell(s.nextID + 1, row));
  }

  // ---- update ----

  /** Whatever an update has to drop, it brings in nothing but the new cell. */
  lemma TreeUpdateWithin(t: Tree<int, Payload>, c: Cell<int, Payload>, next: nat, x: Cell<int, Payload>)
    requires Grown(TableLayout(), t) && Accepts(c)
    requires x in BTree.Entries(UpdateTree(TableLayout(), t, c, next).0) && x != c
    ensures x in BTree.Entries(t)
  {
    var h :| SoundTree(TableLayout(), t, h);
    TableUsable();
    TableSeps();
    DeleteSound(TableLayout(), t, c.key, None, None, h);
    FixedSepsFit(TableLayout(), DeleteIn(TableLayout(), t, c.key), c, next, None, None, h);
    hide TableLayout, SepsFit, UpdateTree, DeleteIn;
    UpdateWithin(TableLayout(), t, c, next, h, x);
  }

  /** An update in a table tree: it writes the payload if and only if the leaf written to has room, and loses a cell otherwise. */
  lemma TreeUpdateIs(t: Tree<int, Payload>, c: Cell<int, Payload>, next: nat, i: nat)
    requires Grown(TableLayout(), t) && Accepts(c) && i < |BTree.Entries(t)| && BTree.Entries(t)[i].key == c.key
    ensures var u := UpdateTree(TableLayout(), t, c, next).0; var cells := BTree.Entries(t); var fits := UpdateFits(TableLayout(), t, c);
      && Grown(TableLayout(), u)
      && (fits ==> BTree.Entries(u) == cells[i := c])
      && (!fits ==> |BTree.Entries(u)| < |cells|)
  {
    var h :| SoundTree(TableLayout(), t, h);
    FoundAt(t, h, i);
    TableUsable();
    TableSeps();
    DeleteSound(TableLayout(), t, c.key, None, None, h);
    FixedSepsFit(TableLayout(), DeleteIn(TableLayout(), t, c.key), c, next, None, None, h);
    hide TableLayout, UpdateFits, SepsFit, UpdateTree, DeleteIn;
    var h' := UpdateSound(TableLayout(), t, c, next, h);
  }

  /** The tree of rows after an update: what it should be if and only if the leaf written to has room. */
  lemma RowUpdateIs(s: Stored, i: nat, row: Row)
    requires Grown(TableLayout(), s.tree) && Record.StorableRow(row) && RowFits(row) && i < |StoredRows(s)|
    ensures var c := Cell(StoredRows(s)[i].key, row); var t := UpdateTree(TableLayout(), s.tree, RowCell(c), s.next).0;
      && Grown(TableLayout(), t)
      && (RowsOf(BTree.Entries(t)) == StoredRows(s)[i := c] <==> UpdateFits(TableLayout(), s.tree, RowCell(c)))
      && (UpdateFits(TableLayout(), s.tree, RowCell(c)) && Decodable(BTree.Entries(s.tree)) ==> Decodable(BTree.Entries(t)))
      && (!UpdateFits(TableLayout(), s.tree, RowCell(c)) ==> |RowsOf(BTree.Entries(t))| < |StoredRows(s)|)
  {
    var c := Cell(StoredRows(s)[i].key, row);
    TreeUpdateIs(s.tree, RowCell(c), s.next, i);
    hide Grown, UpdateFits, UpdateTree, TableLayout, RowFits;
    RowReplaced(BTree.Entries(s.tree), i, c);
  }

  lemma FoundAt(t: Tree<int, Payload>, h: nat, i: nat)
    requires SoundTree(TableLayout(), t, h) && i < |BTree.Entries(t)|
    ensures var key := BTree.Entries(t)[i].key; Found(CompareRowid, BTree.Entries(t), key) && Slot(CompareRowid, BTree.Entries(t), key) == i
  {
    RowsSorted(t, h);
    SlotUnique(CompareRowid, BTree.Entries(t), BTree.Entries(t)[i].key, i);
  }

  /** An index in which the key of a row is moved: what it should be if and only if the leaf of the new key has room. */
  lemma KeyMoveIs(dom: Value -> bool, ix: IndexTree, rows: Rows, i: nat, row: Row)
    requires SoundIndex(dom, ix) && InStep(dom, Viewed(ix), rows) && Sorted(CompareRowid, rows) && i < |rows| && Fine(dom, ix.columns, row)
    requires MoveReaches(ix, rows[i], row)
    ensures SoundIndex(dom, KeyMoved(ix, rows[i], row))
    ensures Viewed(KeyMoved(ix, rows[i], row)) == Moved(Viewed(ix), rows[i], row) <==> MoveHasRoom(ix, rows[i], row)
  {
    if !SameKey(ix.columns, rows[i].val, row) {
      var less, c := DeleteKey(ix, EntryKey(ix.columns, rows[i])), Cell(rows[i].key, row);
      DeleteKeyIs(dom, ix, rows, i);
      DeleteKeepsStep(dom, Viewed(ix), rows, i);
      forall j | 0 <= j < |RemoveAt(rows, i)| ensures RemoveAt(rows, i)[j].key != c.key {
        SameRowid(rows, i, if j < i then j else j + 1);
      }
      NewKeyFits(dom, less, RemoveAt(rows, i), c);
    }
  }

  /** The new key is short enough, and every interior page that its insertion reaches splits into halves that fit. */
  ghost predicate MoveReaches(ix: IndexTree, was: Cell<int, Row>, row: Row)
    requires Covers(ix.columns, was.val) && Covers(ix.columns, row)
  {
    SameKey(ix.columns, was.val, row) ||
      var key := EntryKey(ix.columns, Cell(was.key, row));
      KeyFits(key) && SepRoom(DeleteKey(ix, EntryKey(ix.columns, was)), key)
  }

  ghost predicate AllMovesReach(indexes: seq<IndexTree>, was: Cell<int, Row>, row: Row) {
    forall k :: 0 <= k < |indexes| ==> Covers(indexes[k].columns, was.val) && Covers(indexes[k].columns, row) && MoveReaches(indexes[k], was, row)
  }

  lemma IndexMoveIs(dom: Value -> bool, s: Stored, i: nat, row: Row, k: nat)
    requires Whole(dom, s) && i < |StoredRows(s)| && Suits(dom, View(s), row) && AllMovesReach(s.indexes, StoredRows(s)[i], row) && k < |s.indexes|
    ensures var was := StoredRows(s)[i];
      && Covers(s.indexes[k].columns, was.val) && Covers(s.indexes[k].columns, row) && SoundIndex(dom, KeyMoved(s.indexes[k], was, row))
      && (Viewed(KeyMoved(s.indexes[k], was, row)) == Moved(Views(s.indexes)[k], was, row) <==> MoveHasRoom(s.indexes[k], was, row))
  {
    assert Sorted(CompareRowid, StoredRows(s)) && MoveReaches(s.indexes[k], StoredRows(s)[i], row);
    IndexOf(dom, s, k);
    RowOfIndex(dom, s, k, row);
    hide *;
    KeyMoveIs(dom, s.indexes[k], StoredRows(s), i, row);
  }

  /** All indexes after an update. */
  lemma KeysMovedAre(dom: Value -> bool, s: Stored, i: nat, row: Row)
    requires Whole(dom, s) && i < |StoredRows(s)| && Suits(dom, View(s), row) && AllMovesReach(s.indexes, StoredRows(s)[i], row)
    requires AllCover(Views(s.indexes), StoredRows(s)[i].val) && AllCover(Views(s.indexes), row)
    ensures forall k :: 0 <= k < |s.indexes| ==> SoundIndex(dom, KeysMoved(s.indexes, StoredRows(s)[i], row)[k])
    ensures Views(KeysMoved(s.indexes, StoredRows(s)[i], row)) == AllMoved(Views(s.indexes), StoredRows(s)[i], row)
      <==> MovesRoom(s.indexes, StoredRows(s)[i], row)
  {
    var was := StoredRows(s)[i];
    var now, all := Views(KeysMoved(s.indexes, was, row)), AllMoved(Views(s.indexes), was, row);
    forall k | 0 <= k < |s.indexes|
      ensures SoundIndex(dom, KeysMoved(s.indexes, was, row)[k])
      ensures Covers(s.indexes[k].columns, was.val) && Covers(s.indexes[k].columns, row)
      ensures now[k] == all[k] <==> MoveHasRoom(s.indexes[k], was, row)
    {
      IndexMoveIs(dom, s, i, row, k);
    }
    assert MovesRoom(s.indexes, was, row) ==> forall k :: 0 <= k < |s.indexes| ==> now[k] == all[k];
  }

  /** What an update of row i that succeeds asks for. */
  ghost predicate UpdateCan(dom: Value -> bool, s: Stored, i: nat, row: Row) {
    && Whole(dom, s) && i < |StoredRows(s)| && Suits(dom, View(s), row) && Record.StorableRow(row) && RowFits(row)
    && Allowed(dom, View(s), UpdateOp(StoredRows(s)[i].key, row))
    && forall k :: 0 <= k < |s.indexes| ==> MayMove(View(s).indexes[k], StoredRows(s), StoredRows(s)[i], row)
  }

  lemma RowsCovered(dom: Value -> bool, s: Stored, i: nat)
    requires Whole(dom, s) && i < |StoredRows(s)|
    ensures AllCover(Views(s.indexes), StoredRows(s)[i].val)
  {
    forall k | 0 <= k < |s.indexes| ensures Covers(Views(s.indexes)[k].columns, StoredRows(s)[i].val) {
      assert InStep(dom, View(s).indexes[k], View(s).rows);
    }
  }

  lemma WholeCovers(dom: Value -> bool, s: Stored)
    requires Whole(dom, s)
    ensures Covered(View(s)) && Readable(s)
  {
    forall i | 0 <= i < |StoredRows(s)| ensures AllCover(View(s).indexes, View(s).rows[i].val) {
      RowsCovered(dom, s, i);
    }
  }

  lemma NewRowCovered(dom: Value -> bool, s: Stored, row: Row)
    requires Suits(dom, View(s), row)
    ensures AllCover(Views(s.indexes), row)
  {
    forall k | 0 <= k < |s.indexes| ensures Covers(Views(s.indexes)[k].columns, row) {
      assert Fine(dom, View(s).indexes[k].columns, row);
    }
  }

  /** An update does what it should if and only if every leaf that it writes to has room, and then keeps the table whole. */
  lemma UpdateIs(dom: Value -> bool, s: Stored, i: nat, row: Row)
    requires UpdateCan(dom, s, i, row) && AllMovesReach(s.indexes, StoredRows(s)[i], row)
    ensures AllCover(Views(s.indexes), StoredRows(s)[i].val) && AllCover(Views(s.indexes), row)
    ensures View(RowUpdate(s, StoredRows(s)[i], row)) == Updated(View(s), i, row) <==> UpdateHasRoom(s, StoredRows(s)[i], row)
    ensures UpdateHasRoom(s, StoredRows(s)[i], row) ==> Whole(dom, RowUpdate(s, StoredRows(s)[i], row))
  {
    hide RowCell, Valid, Grown, Decodable, Suits, RowFits, SoundIndex, AllMovesReach, MovesRoom, UpdateFits, UpdateTree, Allowed, MayMove, AllCover, TableLayout;
    RowsCovered(dom, s, i);
    NewRowCovered(dom, s, row);
    RowUpdateIs(s, i, row);
    KeysMovedAre(dom, s, i, row);
    UpdateKeepsValid(dom, View(s), i, StoredRows(s)[i].key, row, Updated(View(s), i, row));
  }

  /** An update leaves rows that can be read, whatever it has to drop. */
  lemma UpdateKeepsReadable(s: Stored, i: nat, row: Row)
    requires Readable(s) && i < |StoredRows(s)| && Record.StorableRow(row) && RowFits(row)
    requires AllCover(Views(s.indexes), StoredRows(s)[i].val) && AllCover(Views(s.indexes), row)
    ensures Readable(RowUpdate(s, StoredRows(s)[i], row))
  {
    var was := StoredRows(s)[i];
    var t := RowUpdate(s, was, row);
    RowUpdateIs(s, i, row);
    MovedShape(s.indexes, was, row);
    forall j | 0 <= j < |BTree.Entries(t.tree)|
      ensures Record.Decode(BTree.Entries(t.tree)[j].val).Ok? && AllCover(Views(s.indexes), DecodedRow(BTree.Entries(t.tree)[j].val))
    {
      UpdatedCellReads(s, i, row, j);
    }
    hide Grown, UpdateTree, TableLayout, KeyMoved, RowUpdate, DecodedRow;
    assert forall k :: 0 <= k < |t.indexes| ==> Views(t.indexes)[k].columns == Views(s.indexes)[k].columns;
  }

  lemma UpdatedCellReads(s: Stored, i: nat, row: Row, j: nat)
    requires Readable(s) && i < |StoredRows(s)| && Record.StorableRow(row) && RowFits(row)
    requires AllCover(Views(s.indexes), StoredRows(s)[i].val) && AllCover(Views(s.indexes), row)
    requires j < |BTree.Entries(RowUpdate(s, StoredRows(s)[i], row).tree)|
    ensures var x := BTree.Entries(RowUpdate(s, StoredRows(s)[i], row).tree)[j];
      Record.Decode(x.val).Ok? && AllCover(Views(s.indexes), DecodedRow(x.val))
  {
    var c := Cell(StoredRows(s)[i].key, row);
    var x := BTree.Entries(RowUpdate(s, StoredRows(s)[i], row).tree)[j];
    hide Covered, AllCover;
    RowReads(c);
    if x != RowCell(c) {
      TreeUpdateWithin(s.tree, RowCell(c), s.next, x);
      CellReads(s, x);
    }
  }

  lemma MovedShape(indexes: seq<IndexTree>, was: Cell<int, Row>, row: Row)
    requires AllCover(Views(indexes), was.val) && AllCover(Views(indexes), row)
    ensures var now := KeysMoved(indexes, was, row);
      |now| == |indexes| && forall k :: 0 <= k < |now| ==> now[k].columns == indexes[k].columns && now[k].unique == indexes[k].unique
  {
    hide InsertTree, DeleteIn, SameKey;
  }

  lemma CellReads(s: Stored, x: Cell<int, Payload>)
    requires Readable(s) && x in BTree.Entries(s.tree)
    ensures Record.Decode(x.val).Ok? && AllCover(Views(s.indexes), DecodedRow(x.val))
  {
    var i :| 0 <= i < |BTree.Entries(s.tree)| && BTree.Entries(s.tree)[i] == x;
    assert AllCover(View(s).indexes, View(s).rows[i].val);
  }

  // ---- deletion ----

  lemma TreeDeleteIs(t: Tree<int, Payload>, i: nat)
    requires Grown(TableLayout(), t) && i < |BTree.Entries(t)|
    ensures var u := DeleteIn(TableLayout(), t, BTree.Entries(t)[i].key);
      Grown(TableLayout(), u) && BTree.Entries(u) == RemoveAt(BTree.Entries(t), i)
  {
    var h :| SoundTree(TableLayout(), t, h);
    FoundAt(t, h, i);
    TableUsable();
    DeleteSound(TableLayout(), t, BTree.Entries(t)[i].key, None, None, h);
    assert SoundTree(TableLayout(), DeleteIn(TableLayout(), t, BTree.Entries(t)[i].key), h);
  }

  lemma IndexDeleteIs(dom: Value -> bool, s: Stored, i: nat, k: nat)
    requires Whole(dom, s) && i < |StoredRows(s)| && AllCover(Views(s.indexes), StoredRows(s)[i].val) && k < |s.indexes|
    ensures SoundIndex(dom, KeysDeleted(s.indexes, StoredRows(s)[i])[k])
    ensures Viewed(KeysDeleted(s.indexes, StoredRows(s)[i])[k]) == Dropped(Views(s.indexes), StoredRows(s)[i])[k]
  {
    IndexOf(dom, s, k);
    DeleteKeyIs(dom, s.indexes[k], StoredRows(s), i);
  }

  /** A deletion does what it should, and keeps the table whole. */
  lemma DeleteIs(dom: Value -> bool, s: Stored, i: nat)
    requires Whole(dom, s) && i < |StoredRows(s)|
    ensures AllCover(Views(s.indexes), StoredRows(s)[i].val)
    ensures View(RowDelete(s, StoredRows(s)[i])) == Deleted(View(s), i) && Whole(dom, RowDelete(s, StoredRows(s)[i]))
  {
    hide Valid, Grown, SoundIndex, DeleteIn, AllCover, TableLayout, RemoveAt, Agrees, InStep;
    var was := StoredRows(s)[i];
    RowsCovered(dom, s, i);
    TreeDeleteIs(s.tree, i);
    RowGone(BTree.Entries(s.tree), i);
    forall k | 0 <= k < |s.indexes|
      ensures SoundIndex(dom, KeysDeleted(s.indexes, was)[k]) && Viewed(KeysDeleted(s.indexes, was)[k]) == Dropped(Views(s.indexes), was)[k]
    {
      IndexDeleteIs(dom, s, i, k);
    }
    assert Views(KeysDeleted(s.indexes, was)) == Dropped(Views(s.indexes), was);
    DeleteKeepsValid(dom, View(s), i);
  }

  // ---- index creation ----

  /** The entries of an index tree are keys of these rows, and at most one of each. */
  ghost predicate HoldsOf(dom: Value -> bool, ix: IndexTree, rows: Rows) {
    && SoundIndex(dom, ix) && AllFine(dom, ix.columns, rows) && |Viewed(ix).entries| <= |rows|
    && forall x :: x in Viewed(ix).entries ==> x.key in Image(dom, ix.columns, rows)
  }

  lemma OthersAreAbsent(dom: Value -> bool, ix: IndexTree, rows: Rows, c: Cell<int, Row>)
    requires HoldsOf(dom, ix, rows) && Fine(dom, ix.columns, c.val) && forall i :: 0 <= i < |rows| ==> rows[i].key != c.key
    ensures Absent(IdealTuples, BTree.Entries(ix.tree), EntryKey(ix.columns, c))
  {
    var cells := BTree.Entries(ix.tree);
    forall j | 0 <= j < |cells| ensures IdealTuples(cells[j].key, EntryKey(ix.columns, c)) != 0 {
      assert cells[j] in Viewed(ix).entries;
      var i :| 0 <= i < |rows| && cells[j].key == EntryKey(ix.columns, rows[i]);
      KeyOrder(dom, KeyCols(ix.columns, rows[i].val), rows[i].key, KeyCols(ix.columns, c.val), c.key);
    }
  }

  lemma {:induction false} FillsUp(dom: Value -> bool, columns: seq<nat>, unique: bool, root: nat, rows: Rows)
    requires Domain(dom) && AllFine(dom, columns, rows) && Sorted(CompareRowid, rows)
    requires FillReaches(columns, unique, root, rows)
    ensures var ix := IndexFilled(columns, unique, root, rows);
      && HoldsOf(dom, ix, rows)
      && (FillHasRoom(columns, unique, root, rows) ==> Viewed(ix) == Built(columns, unique, rows))
      && (!FillHasRoom(columns, unique, root, rows) ==> |Viewed(ix).entries| < |rows|)
  {
    if rows == [] {
      EmptyIsSound(dom, columns, unique, root, root + 1);
    } else {
      var n := |rows| - 1;
      FillsUp(dom, columns, unique, root, rows[..n]);
      FillsOne(dom, IndexFilled(columns, unique, root, rows[..n]), rows);
    }
  }

  /** One more row. */
  lemma FillsOne(dom: Value -> bool, ix: IndexTree, rows: Rows)
    requires rows != [] && HoldsOf(dom, ix, rows[..|rows| - 1]) && AllFine(dom, ix.columns, rows) && Sorted(CompareRowid, rows)
    requires KeyFits(EntryKey(ix.columns, rows[|rows| - 1])) && SepRoom(ix, EntryKey(ix.columns, rows[|rows| - 1]))
    ensures var k := EntryKey(ix.columns, rows[|rows| - 1]); var more := InsertKey(ix, k);
      && HoldsOf(dom, more, rows)
      && (KeyRoom(ix, k) ==> Viewed(more) == AddKey(Viewed(ix), k))
      && (!KeyRoom(ix, k) ==> |Viewed(more).entries| <= |Viewed(ix).entries|)
  {
    var n := |rows| - 1;
    forall i | 0 <= i < n ensures rows[..n][i].key != rows[n].key {
      SameRowid(rows, i, n);
    }
    OthersAreAbsent(dom, ix, rows[..n], rows[n]);
    EntryIsShaped(dom, ix.columns, rows[n]);
    InsertKeyIs(dom, ix, EntryKey(ix.columns, rows[n]));
    ImageSnoc(dom, ix.columns, rows);
  }

  lemma ImageSnoc(dom: Value -> bool, columns: seq<nat>, rows: Rows)
    requires rows != [] && AllFine(dom, columns, rows)
    ensures AllFine(dom, columns, rows[..|rows| - 1])
    ensures Image(dom, columns, rows) == Image(dom, columns, rows[..|rows| - 1]) + {EntryKey(columns, rows[|rows| - 1])}
  {
    var n := |rows| - 1;
    ImageInsert(dom, columns, rows[..n], n, rows[n]);
    assert InsertAt(rows[..n], n, rows[n]) == rows;
  }

  lemma {:induction false} BuiltHasAll(columns: seq<nat>, unique: bool, rows: Rows)
    requires forall i :: 0 <= i < |rows| ==> Covers(columns, rows[i].val)
    ensures |Built(columns, unique, rows).entries| == |rows|
  {
    if rows != [] { BuiltHasAll(columns, unique, rows[..|rows| - 1]); }
  }

  /** A table with one more index. */
  function RowsIndexed(s: Stored, columns: seq<nat>, unique: bool, root: nat): Stored
    requires forall i :: 0 <= i < |StoredRows(s)| ==> Covers(columns, StoredRows(s)[i].val)
  {
    s.(indexes := s.indexes + [IndexFilled(columns, unique, root, StoredRows(s))])
  }

  ghost predicate BuildCan(dom: Value -> bool, s: Stored, columns: seq<nat>, unique: bool, root: nat) {
    && Whole(dom, s) && AllFine(dom, columns, StoredRows(s)) && FillReaches(columns, unique, root, StoredRows(s))
    && forall i :: 0 <= i < |StoredRows(s)| ==> !ClashesBefore(columns, unique, StoredRows(s), i)
  }

  lemma ViewsSnoc(indexes: seq<IndexTree>, ix: IndexTree)
    ensures Views(indexes + [ix]) == Views(indexes) + [Viewed(ix)]
  {
  }

  lemma OneMoreIndex(dom: Value -> bool, s: State, ix: Index)
    requires Valid(dom, s) && InStep(dom, ix, s.rows)
    ensures Valid(dom, s.(indexes := s.indexes + [ix]))
  {
  }

  /** Building an index does what it should if and only if every leaf that it writes to has room, and then keeps the table whole. */
  lemma BuildIs(dom: Value -> bool, s: Stored, columns: seq<nat>, unique: bool, root: nat)
    requires BuildCan(dom, s, columns, unique, root)
    ensures View(RowsIndexed(s, columns, unique, root)) == View(s).(indexes := Views(s.indexes) + [Built(columns, unique, StoredRows(s))])
      <==> FillHasRoom(columns, unique, root, StoredRows(s))
    ensures FillHasRoom(columns, unique, root, StoredRows(s)) ==> Whole(dom, RowsIndexed(s, columns, unique, root))
  {
    var rows := StoredRows(s);
    assert Valid(dom, View(s)) && Sorted(CompareRowid, rows) && Domain(dom) && forall i :: 0 <= i < |rows| ==> rows[i].key >= 1;
    FillsUp(dom, columns, unique, root, rows);
    BuiltHasAll(columns, unique, rows);
    BuildIsInStep(dom, columns, unique, rows);
    hide *;
    IndexJoins(dom, s, IndexFilled(columns, unique, root, rows), Built(columns, unique, rows));
  }

  /** A table with one more index tree, which should hold what `ix` holds. */
  lemma IndexJoins(dom: Value -> bool, s: Stored, tree: IndexTree, ix: Index)
    requires Whole(dom, s) && SoundIndex(dom, tree) && InStep(dom, ix, StoredRows(s))
    ensures var t := s.(indexes := s.indexes + [tree]);
      && (View(t) == View(s).(indexes := Views(s.indexes) + [ix]) <==> Viewed(tree) == ix)
      && (Viewed(tree) == ix ==> Whole(dom, t))
  {
    hide Grown, SoundIndex, InStep, Valid, Decodable;
    ViewsSnoc(s.indexes, tree);
    OneMoreIndex(dom, View(s), ix);
    var a, b := Views(s.indexes) + [Viewed(tree)], Views(s.indexes) + [ix];
    assert a[|s.indexes|] == Viewed(tree) && b[|s.indexes|] == ix;
  }

  // ---- attaching ----

  lemma GreatestRowid(s: Stored)
    requires Grown(TableLayout(), s.tree) && forall i :: 0 <= i < |StoredRows(s)| ==> StoredRows(s)[i].key >= 1
    ensures AttachedRowID(s.tree) >= 0
    ensures RowidsUsed(StoredRows(s), AttachedRowID(s.tree)) <==> AttachFinds(s)
  {
    var cells := BTree.Entries(s.tree);
    var h :| SoundTree(TableLayout(), s.tree, h);
    MaxRowIDIsGreatest(s.tree, h);
    assert forall i :: 0 <= i < |cells| ==> StoredRows(s)[i].key == cells[i].key;
    if MaxRowID(s.tree).Some? {
      var i :| 0 <= i < |cells| && cells[i].key == MaxRowID(s.tree).value;
    } else if cells != [] {
      assert StoredRows(s)[0].key > 0;
    }
  }

  /** A table that is attached anew is whole if and only if its last leaf holds a row, or no leaf does. */
  lemma AttachIs(dom: Value -> bool, s: Stored)
    requires Whole(dom, s)
    ensures Whole(dom, Attached(s)) <==> AttachFinds(s)
    ensures View(Attached(s)).rows == View(s).rows && View(Attached(s)).indexes == View(s).indexes
  {
    hide Grown, AttachFinds, AttachedRowID, InStep, Decodable, SoundIndex;
    GreatestRowid(s);
  }
}
