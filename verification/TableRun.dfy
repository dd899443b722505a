/**
Whole runs over a table in its trees. Every page split must find room for what it moves: then every index agrees
with the table and no uniqueness is violated. A row that a split drops leaves an index entry behind that leads nowhere.
*/
module TableRuns {
  import opened Bytes
  import opened Cells
  import opened BTree
  import opened Values
  import opened Tuples
  import opened Indexes
  import opened IndexTrees
  import opened Comparators
  import opened TableTree
  import opened TableStates
  import opened StoredTables
  import Record

  /** `page` is where a new index tree starts; a table is attached anew after every statement that was rolled back. */
  datatype Move = Do(op: Op, page: nat) | Attach

  /** What a move asks of its arguments. */
  ghost predicate Possible(dom: Value -> bool, s: Stored, m: Move) {
    match m
    case Attach => true
    case Do(op, _) => Allowed(dom, View(s), op) && Storable(op)
  }

  /** The values are of the sizes that the encoding has room for. */
  ghost predicate Storable(op: Op) {
    match op
    case InsertOp(row) => Record.StorableRow(row)
    case UpdateOp(_, row) => Record.StorableRow(row)
    case _ => true
  }

  /** The new keys of a row are short enough for their index. */
  ghost predicate MovedKeysFit(indexes: seq<Index>, was: Cell<int, Row>, row: Row) {
    forall k :: 0 <= k < |indexes| && Covers(indexes[k].columns, was.val) && Covers(indexes[k].columns, row) ==>
      SameKey(indexes[k].columns, was.val, row) || KeyFits(EntryKey(indexes[k].columns, Cell(was.key, row)))
  }

  // ---- how much a row and its keys may take ----

  /** The longest encoding of a row, and of a key, that is taken: with a payload length of ten bytes its cell would just fill an empty page. */
  const MAX_ROW := 4066
  const MAX_KEY := 4072

  /** The encodings of a row and of all its keys are short enough. */
  predicate ShortInsert(indexes: seq<Index>, c: Cell<int, Row>)
    requires AllCover(indexes, c.val)
  {
    |Record.Encoded(c.val)| <= MAX_ROW && forall k :: 0 <= k < |indexes| ==> |Record.Encoded(EntryKey(indexes[k].columns, c))| <= MAX_KEY
  }

  /** The encodings of a new row and of the keys that change are short enough. */
  predicate ShortMove(indexes: seq<Index>, was: Cell<int, Row>, row: Row)
    requires AllCover(indexes, was.val) && AllCover(indexes, row)
  {
    && |Record.Encoded(row)| <= MAX_ROW
    && forall k :: 0 <= k < |indexes| && !SameKey(indexes[k].columns, was.val, row) ==>
         |Record.Encoded(EntryKey(indexes[k].columns, Cell(was.key, row)))| <= MAX_KEY
  }

  /** The guards ask for that and no less: what they refuse has a cell that is not sure of room on an empty page. */
  lemma FitIsShort(indexes: seq<Index>, c: Cell<int, Row>)
    requires AllCover(indexes, c.val)
    ensures RowFits(c.val) && KeysFit(indexes, c) <==> ShortInsert(indexes, c)
  {
    AcceptsIff(RowCell(Cell(0, c.val)));
    forall k | 0 <= k < |indexes| ensures KeyFits(EntryKey(indexes[k].columns, c)) <==> |Record.Encoded(EntryKey(indexes[k].columns, c))| <= MAX_KEY {
      KeyFitsIff(EntryKey(indexes[k].columns, c));
    }
  }

  lemma MoveIsShort(indexes: seq<Index>, was: Cell<int, Row>, row: Row)
    requires AllCover(indexes, was.val) && AllCover(indexes, row)
    ensures RowFits(row) && MovedKeysFit(indexes, was, row) <==> ShortMove(indexes, was, row)
  {
    AcceptsIff(RowCell(Cell(0, row)));
    forall k | 0 <= k < |indexes|
      ensures Covers(indexes[k].columns, was.val) && Covers(indexes[k].columns, row)
      ensures KeyFits(EntryKey(indexes[k].columns, Cell(was.key, row))) <==> |Record.Encoded(EntryKey(indexes[k].columns, Cell(was.key, row)))| <= MAX_KEY
    {
      KeyFitsIff(EntryKey(indexes[k].columns, Cell(was.key, row)));
    }
  }

  ghost predicate RowUpdated(s: Stored, i: nat, row: Row, t: Stored) {
    && i < |StoredRows(s)| && AllCover(Views(s.indexes), StoredRows(s)[i].val) && AllCover(Views(s.indexes), row) && Covered(View(s))
    && RowFits(row) && MovedKeysFit(Views(s.indexes), StoredRows(s)[i], row)
    && (forall k :: 0 <= k < |s.indexes| ==> MayMove(View(s).indexes[k], StoredRows(s), StoredRows(s)[i], row))
    && t == RowUpdate(s, StoredRows(s)[i], row)
  }

  ghost predicate RowDeleted(s: Stored, i: nat, t: Stored) {
    i < |StoredRows(s)| && AllCover(Views(s.indexes), StoredRows(s)[i].val) && t == RowDelete(s, StoredRows(s)[i])
  }

  ghost predicate RowInserted(s: Stored, row: Row, t: Stored) {
    && Covered(View(s)) && AllCover(Views(s.indexes), row)
    && NoConflict(View(s), row) && RowFits(row) && KeysFit(Views(s.indexes), Cell(s.nextID + 1, row)) && t == RowInsert(s, row)
  }

  ghost predicate IndexBuilt(s: Stored, columns: seq<nat>, unique: bool, page: nat, t: Stored) {
    && (forall i :: 0 <= i < |StoredRows(s)| ==> Covers(columns, StoredRows(s)[i].val))
    && (forall i :: 0 <= i < |StoredRows(s)| ==> !ClashesBefore(columns, unique, StoredRows(s), i))
    && t == RowsIndexed(s, columns, unique, page)
  }

  /** The move succeeds, having made s into t. */
  ghost predicate Taken(s: Stored, m: Move, t: Stored) {
    match m
    case Attach => t == Attached(s)
    case Do(InsertOp(row), _) => RowInserted(s, row, t)
    case Do(UpdateOp(id, row), _) => exists i :: 0 <= i < |StoredRows(s)| && StoredRows(s)[i].key == id && RowUpdated(s, i, row, t)
    case Do(DeleteOp(id), _) => exists i :: 0 <= i < |StoredRows(s)| && StoredRows(s)[i].key == id && RowDeleted(s, i, t)
    case Do(BuildOp(columns, unique), page) => IndexBuilt(s, columns, unique, page, t)
  }

  /** Every page that the move splits splits into halves that fit, and an attach finds the greatest rowid. */
  ghost predicate HasRoom(s: Stored, m: Move) {
    match m
    case Attach => AttachFinds(s)
    case Do(InsertOp(row), _) => AllCover(Views(s.indexes), row) && InsertHasRoom(s, row)
    case Do(UpdateOp(id, row), _) =>
      forall i :: 0 <= i < |StoredRows(s)| && StoredRows(s)[i].key == id ==> UpdateHasRoom(s, StoredRows(s)[i], row)
    case Do(DeleteOp(_), _) => true
    case Do(BuildOp(columns, unique), page) =>
      && (forall i :: 0 <= i < |StoredRows(s)| ==> Covers(columns, StoredRows(s)[i].val))
      && FillReaches(columns, unique, page, StoredRows(s)) && FillHasRoom(columns, unique, page, StoredRows(s))
  }

  // ---- steps ----

  lemma RoomReaches(indexes: seq<IndexTree>, c: Cell<int, Row>)
    requires AllCover(Views(indexes), c.val) && KeysRoom(indexes, c)
    ensures SepsRoom(indexes, c)
  {
    hide KeyRoom, SepRoom;
    forall k | 0 <= k < |indexes| ensures SepRoom(indexes[k], EntryKey(Views(indexes)[k].columns, c)) {
      assert IndexRoom(indexes[k], EntryKey(Views(indexes)[k].columns, c));
    }
  }

  lemma InsertMove(dom: Value -> bool, s: Stored, row: Row, page: nat, t: Stored)
    requires Whole(dom, s) && Possible(dom, s, Do(InsertOp(row), page)) && RowInserted(s, row, t) && InsertHasRoom(s, row)
    ensures Whole(dom, t) && Step(dom, View(s), InsertOp(row), View(t))
  {
    hide RowRoom, KeysRoom, SepsRoom, Whole, RowInsert, RowFits, KeysFit, Suits, NoConflict;
    RoomReaches(s.indexes, Cell(s.nextID + 1, row));
    InsertIs(dom, s, row);
  }

  lemma MovesReach(s: Stored, was: Cell<int, Row>, row: Row)
    requires MovesRoom(s.indexes, was, row) && MovedKeysFit(Views(s.indexes), was, row)
    ensures AllMovesReach(s.indexes, was, row)
  {
    hide KeyRoom, SepRoom, KeyFits;
    forall k | 0 <= k < |s.indexes|
      ensures Covers(s.indexes[k].columns, was.val) && Covers(s.indexes[k].columns, row) && MoveReaches(s.indexes[k], was, row)
    {
      assert Views(s.indexes)[k].columns == s.indexes[k].columns;
    }
  }

  lemma UpdateMove(dom: Value -> bool, s: Stored, i: nat, row: Row, page: nat, t: Stored)
    requires Whole(dom, s) && RowUpdated(s, i, row, t) && UpdateHasRoom(s, StoredRows(s)[i], row)
    requires Possible(dom, s, Do(UpdateOp(StoredRows(s)[i].key, row), page))
    ensures Whole(dom, t) && Step(dom, View(s), UpdateOp(StoredRows(s)[i].key, row), View(t))
  {
    MovesReach(s, StoredRows(s)[i], row);
    hide RowFits, AllMovesReach, UpdateHasRoom, Whole, RowUpdate, MovedKeysFit;
    UpdateIs(dom, s, i, row);
    assert UpdateAt(View(s), i, StoredRows(s)[i].key, row, View(t));
  }

  lemma DeleteMove(dom: Value -> bool, s: Stored, i: nat, t: Stored)
    requires Whole(dom, s) && RowDeleted(s, i, t)
    ensures Whole(dom, t) && Step(dom, View(s), DeleteOp(StoredRows(s)[i].key), View(t))
  {
    hide RowDelete;
    DeleteIs(dom, s, i);
    assert View(s).rows[i].key == StoredRows(s)[i].key && View(t) == Deleted(View(s), i);
  }

  lemma BuildMove(dom: Value -> bool, s: Stored, columns: seq<nat>, unique: bool, page: nat, t: Stored)
    requires Whole(dom, s) && Possible(dom, s, Do(BuildOp(columns, unique), page)) && IndexBuilt(s, columns, unique, page, t)
    requires HasRoom(s, Do(BuildOp(columns, unique), page))
    ensures Whole(dom, t) && Step(dom, View(s), BuildOp(columns, unique), View(t))
  {
    hide Whole, FillReaches, FillHasRoom, RowsIndexed, ClashesBefore;
    BuildIs(dom, s, columns, unique, page);
  }

  /** With room on every page a move does what it should, and keeps the table whole. */
  lemma MoveKeepsWhole(dom: Value -> bool, s: Stored, m: Move, t: Stored)
    requires Whole(dom, s) && Possible(dom, s, m) && Taken(s, m, t) && HasRoom(s, m)
    ensures Whole(dom, t)
    ensures m.Do? ==> Allowed(dom, View(s), m.op) && Step(dom, View(s), m.op, View(t))
    ensures m.Attach? ==> View(t).rows == View(s).rows && View(t).indexes == View(s).indexes
  {
    hide Whole, RowUpdated, RowDeleted, RowInserted, IndexBuilt, InsertHasRoom, UpdateHasRoom, Allowed, AttachFinds, Step, Attached;
    match m
    case Attach => AttachIs(dom, s);
    case Do(InsertOp(row), page) => InsertMove(dom, s, row, page, t);
    case Do(UpdateOp(id, row), page) =>
      var i :| 0 <= i < |StoredRows(s)| && StoredRows(s)[i].key == id && RowUpdated(s, i, row, t);
      UpdateMove(dom, s, i, row, page, t);
    case Do(DeleteOp(id), _) =>
      var i :| 0 <= i < |StoredRows(s)| && StoredRows(s)[i].key == id && RowDeleted(s, i, t);
      DeleteMove(dom, s, i, t);
    case Do(BuildOp(columns, unique), page) => BuildMove(dom, s, columns, unique, page, t);
  }

  // ---- runs ----

  ghost predicate Run(dom: Value -> bool, states: seq<Stored>, moves: seq<Move>) {
    && |states| == |moves| + 1
    && forall i :: 0 <= i < |moves| ==>
      Possible(dom, states[i], moves[i]) && Taken(states[i], moves[i], states[i + 1]) && HasRoom(states[i], moves[i])
  }

  /** An empty leaf on page `root`. */
  function NewTable(root: nat): Stored { Stored(Leaf(root, []), root + 1, 0, []) }

  lemma NewIsWhole(dom: Value -> bool, root: nat)
    requires Domain(dom)
    ensures Whole(dom, NewTable(root))
  {
    assert SoundTree(TableLayout(), Leaf(root, []), 0);
  }

  /**
  After any run of successful operations on a new table, attaches among them, in which no page split drops anything
  and no attach misses the greatest rowid: every index holds exactly the keys of the table's rows, and no two
  rows of a unique index compare equal in values that are all there.
  */
  lemma {:induction false} RunsAgree(dom: Value -> bool, states: seq<Stored>, moves: seq<Move>, root: nat, n: nat)
    requires Domain(dom) && Run(dom, states, moves) && states[0] == NewTable(root) && n < |states|
    ensures Whole(dom, states[n])
    ensures forall k :: 0 <= k < |states[n].indexes| ==>
      Agrees(dom, Viewed(states[n].indexes[k]), StoredRows(states[n])) && Distinct(Viewed(states[n].indexes[k]), StoredRows(states[n]))
    ensures forall k :: 0 <= k < |states[n].indexes| && states[n].indexes[k].unique ==> NoTwoEqual(states[n].indexes[k].columns, StoredRows(states[n]))
  {
    hide Possible, Taken, HasRoom, Whole, Agrees, Distinct, NoTwoEqual;
    if n == 0 {
      NewIsWhole(dom, root);
    } else {
      RunsAgree(dom, states, moves, root, n - 1);
      MoveKeepsWhole(dom, states[n - 1], moves[n - 1], states[n]);
    }
    AllInStep(dom, states[n]);
  }

  lemma AllInStep(dom: Value -> bool, s: Stored)
    requires Whole(dom, s)
    ensures forall k :: 0 <= k < |s.indexes| ==>
      Agrees(dom, Viewed(s.indexes[k]), StoredRows(s)) && Distinct(Viewed(s.indexes[k]), StoredRows(s))
    ensures forall k :: 0 <= k < |s.indexes| && s.indexes[k].unique ==> NoTwoEqual(s.indexes[k].columns, StoredRows(s))
  {
    hide NoTwoEqual;
    forall k | 0 <= k < |s.indexes|
      ensures Agrees(dom, Viewed(s.indexes[k]), StoredRows(s)) && Distinct(Viewed(s.indexes[k]), StoredRows(s))
      ensures s.indexes[k].unique ==> NoTwoEqual(s.indexes[k].columns, StoredRows(s))
    {
      IndexOf(dom, s, k);
      if s.indexes[k].unique { DistinctMeans(dom, Viewed(s.indexes[k]), StoredRows(s)); }
    }
  }

  lemma DistinctMeans(dom: Value -> bool, ix: Index, rows: Rows)
    requires ix.unique && Agrees(dom, ix, rows) && Distinct(ix, rows)
    ensures NoTwoEqual(ix.columns, rows)
  {
    forall i, j | 0 <= i < |rows| && 0 <= j < |rows| && i != j ensures !EqualIn(ix.columns, rows[i].val, rows[j].val) {
      ClashMeans(ix, rows[i].val, rows[j].val);
    }
  }

  /** How many of the first n moves are insertions. */
  function Inserts(moves: seq<Move>, n: nat): nat
    requires n <= |moves|
  {
    if n == 0 then 0 else Inserts(moves, n - 1) + if moves[n - 1].Do? && moves[n - 1].op.InsertOp? then 1 else 0
  }

  /**
  As long as a new table is not attached anew its rowids count the insertions, so that none is given out twice, whatever is deleted. An attach goes
  back to the greatest rowid that is still there.
  */
  lemma {:induction false} RowidsCountInsertions(dom: Value -> bool, states: seq<Stored>, moves: seq<Move>, root: nat, n: nat)
    requires Domain(dom) && Run(dom, states, moves) && states[0] == NewTable(root) && n < |states|
    requires forall i :: 0 <= i < n ==> moves[i].Do?
    ensures states[n].nextID == Inserts(moves, n)
    ensures n < |moves| && moves[n].Do? && moves[n].op.InsertOp? ==>
      StoredRows(states[n + 1]) == StoredRows(states[n]) + [Cell(Inserts(moves, n) + 1, moves[n].op.row)]
    ensures n < |moves| && moves[n].Attach? && StoredRows(states[n]) == [] ==> states[n + 1].nextID == 0
    ensures n < |moves| && moves[n].Attach? && StoredRows(states[n]) != [] ==>
      states[n + 1].nextID == StoredRows(states[n])[|StoredRows(states[n])| - 1].key
  {
    hide Possible, Taken, HasRoom, Whole, Agrees, Distinct, NoTwoEqual, Allowed, Step;
    RunsAgree(dom, states, moves, root, n);
    if n > 0 {
      RowidsCountInsertions(dom, states, moves, root, n - 1);
      RunsAgree(dom, states, moves, root, n - 1);
      MoveMeans(dom, states[n - 1], moves[n - 1], states[n]);
    }
    if n < |moves| { MoveMeans(dom, states[n], moves[n], states[n + 1]); }
  }

  lemma MoveMeans(dom: Value -> bool, s: Stored, m: Move, t: Stored)
    requires Whole(dom, s) && Possible(dom, s, m) && Taken(s, m, t) && HasRoom(s, m)
    ensures m.Do? ==> Does(View(s), m.op, View(t))
    ensures m.Attach? ==> t.nextID == if StoredRows(s) == [] then 0 else StoredRows(s)[|StoredRows(s)| - 1].key
  {
    if m.Do? {
      hide Possible, Taken, HasRoom, Step, Allowed, Does;
      MoveKeepsWhole(dom, s, m, t);
      WholeIsValid(dom, s);
      StepMeans(dom, View(s), m.op, View(t));
    } else {
      LastRowid(dom, s);
    }
  }

  lemma WholeIsValid(dom: Value -> bool, s: Stored)
    requires Whole(dom, s)
    ensures Valid(dom, View(s))
  {
  }

  lemma LastRowid(dom: Value -> bool, s: Stored)
    requires Whole(dom, s) && AttachFinds(s)
    ensures Attached(s).nextID == if StoredRows(s) == [] then 0 else StoredRows(s)[|StoredRows(s)| - 1].key
  {
    var h :| SoundTree(TableLayout(), s.tree, h);
    hide Valid, Sound, LastLeaf, BTree.Entries, Decodable;
    MaxRowIDIsGreatest(s.tree, h);
    StoredSorted(s);
    var rows := StoredRows(s);
    if rows != [] {
      var i :| 0 <= i < |BTree.Entries(s.tree)| && BTree.Entries(s.tree)[i].key == Attached(s).nextID;
      assert rows[i].key == Attached(s).nextID;
      GreatestIsLast(rows, Attached(s).nextID);
    }
  }

  lemma GreatestIsLast(rows: Rows, id: int)
    requires Sorted(CompareRowid, rows) && IsGreatest(rows, id) && rows != []
    ensures id == rows[|rows| - 1].key
  {
    var i :| 0 <= i < |rows| && rows[i].key == id;
    var n := |rows| - 1;
    assert i < n ==> CompareRowid(rows[i].key, rows[n].key) < 0;
  }

  // ---- sizes that always find room ----

  /** Rows of even sizes, and indexed values that take between 8 and 134 bytes with their rowid. */
  ghost predicate EvenlySized(s: Stored, c: Cell<int, Row>)
    requires AllCover(Views(s.indexes), c.val)
  {
    && EvenSizes(LeafSize, BTree.Entries(s.tree) + [RowCell(c)])
    && forall k :: 0 <= k < |s.indexes| ==> TreeIn(s.indexes[k].tree, Sized) && Sized(EntryKey(Views(s.indexes)[k].columns, c))
  }

  /** In a table of even sizes every insertion finds room on every page, and no key is too large. */
  lemma EvenRowsHaveRoom(dom: Value -> bool, s: Stored, row: Row)
    requires Whole(dom, s) && Suits(dom, View(s), row) && s.nextID + 1 < TWO_63 && RowFits(row) && AllCover(Views(s.indexes), row)
    requires EvenlySized(s, Cell(s.nextID + 1, row))
    ensures InsertHasRoom(s, row) && KeysFit(Views(s.indexes), Cell(s.nextID + 1, row))
  {
    var c := Cell(s.nextID + 1, row);
    EvenRowHasRoom(s, c);
    forall k | 0 <= k < |s.indexes|
      ensures IndexRoom(s.indexes[k], EntryKey(Views(s.indexes)[k].columns, c)) && KeyFits(EntryKey(Views(s.indexes)[k].columns, c))
    {
      IndexOf(dom, s, k);
      RowOfIndex(dom, s, k, row);
      assert c.key >= MIN_ROWID by { assert Valid(dom, View(s)); }
      EntryIsShaped(dom, s.indexes[k].columns, c);
      SizedIndexFits(dom, s.indexes[k], EntryKey(s.indexes[k].columns, c));
    }
  }

  lemma EvenRowHasRoom(s: Stored, c: Cell<int, Row>)
    requires Grown(TableLayout(), s.tree) && RowFits(c.val) && EvenSizes(LeafSize, BTree.Entries(s.tree) + [RowCell(c)])
    ensures RowRoom(s.tree, RowCell(c))
  {
    var h :| SoundTree(TableLayout(), s.tree, h);
    TableUsable();
    EvenTableFits(TableLayout(), s.tree, RowCell(c), None, None, h);
  }

  // ---- a row that a split drops ----

  lemma {:induction false} EntryCount(entries: Indexes.Entries)
    requires Sorted(IdealTuples, entries)
    ensures |KeySet(entries)| == |entries|
  {
    if entries != [] {
      var n := |entries| - 1;
      EntryCount(entries[..n]);
      assert InsertAt(entries[..n], n, entries[n]) == entries;
      KeySetInsert(entries[..n], n, entries[n]);
      forall j | 0 <= j < n ensures entries[j].key != entries[n].key {
        assert IdealTuples(entries[j].key, entries[n].key) < 0;
        LexSelf(entries[n].key);
      }
    }
  }

  lemma {:induction false} RowCount(dom: Value -> bool, columns: seq<nat>, rows: Rows)
    requires AllFine(dom, columns, rows) && Sorted(CompareRowid, rows)
    ensures |Image(dom, columns, rows)| == |rows|
  {
    if rows != [] {
      var n := |rows| - 1;
      ImageSnoc(dom, columns, rows);
      RowCount(dom, columns, rows[..n]);
      forall j | 0 <= j < n ensures EntryKey(columns, rows[j]) != EntryKey(columns, rows[n]) {
        SameRowid(rows, j, n);
        KeysDiffer(columns, rows[j], rows[n]);
      }
    }
  }

  /** An index that agrees with a table has as many entries as the table has rows. */
  lemma AgreesCount(dom: Value -> bool, ix: Index, rows: Rows)
    requires Agrees(dom, ix, rows) && Sorted(CompareRowid, rows)
    ensures |ix.entries| == |rows|
  {
    EntryCount(ix.entries);
    RowCount(dom, ix.columns, rows);
  }

  /**
  A successful insertion whose leaf split has to drop a row leaves every index that found room for the new key out of
  step with the table: it has more entries than there are rows.
  */
  lemma LostRowBreaksAgreement(dom: Value -> bool, s: Stored, row: Row, k: nat)
    requires InsertCan(dom, s, row) && SepsRoom(s.indexes, Cell(s.nextID + 1, row)) && k < |s.indexes|
    requires !RowRoom(s.tree, RowCell(Cell(s.nextID + 1, row)))
    requires KeyRoom(s.indexes[k], EntryKey(Views(s.indexes)[k].columns, Cell(s.nextID + 1, row)))
    ensures var t := RowInsert(s, row);
      && |StoredRows(t)| < |Viewed(t.indexes[k]).entries|
      && !Agrees(dom, Viewed(t.indexes[k]), StoredRows(t))
  {
    hide InsertTree, InsertKey, RowRoom, KeyRoom, RowCell, Valid, Agrees, Decodable, NoConflict, Suits, RowFits, KeysFit, SoundIndex, SepsRoom, InStep, Distinct;
    NewRowCovered(dom, s, row);
    var c, t := Cell(s.nextID + 1, row), RowInsert(s, row);
    IndexOf(dom, s, k);
    IndexInsertIs(dom, s, c, k);
    FreshKey(dom, s);
    RowInsertIs(s, c);
    StoredSorted(s);
    StoredSorted(t);
    assert t.indexes[k] == KeysInserted(s.indexes, c)[k];
    MoreEntries(dom, s, t, k, EntryKey(Views(s.indexes)[k].columns, c));
  }

  lemma StoredSorted(s: Stored)
    requires Grown(TableLayout(), s.tree)
    ensures Sorted(CompareRowid, StoredRows(s))
  {
    var h :| SoundTree(TableLayout(), s.tree, h);
    RowsSorted(s.tree, h);
  }

  lemma MoreEntries(dom: Value -> bool, s: Stored, t: Stored, k: nat, key: Tuple)
    requires k < |s.indexes| && k < |t.indexes| && Agrees(dom, Viewed(s.indexes[k]), StoredRows(s))
    requires Sorted(CompareRowid, StoredRows(s)) && Sorted(CompareRowid, StoredRows(t)) && |StoredRows(t)| <= |StoredRows(s)|
    requires Viewed(t.indexes[k]) == AddKey(Viewed(s.indexes[k]), key)
    ensures |StoredRows(t)| < |Viewed(t.indexes[k]).entries| && !Agrees(dom, Viewed(t.indexes[k]), StoredRows(t))
  {
    AgreesCount(dom, Viewed(s.indexes[k]), StoredRows(s));
    if Agrees(dom, Viewed(t.indexes[k]), StoredRows(t)) {
      AgreesCount(dom, Viewed(t.indexes[k]), StoredRows(t));
    }
  }
}
