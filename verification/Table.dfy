/** A table as its methods change it, together with the indexes attached to it. */
module Tables {
  import opened Bytes
  import opened Cells
  import opened BTree
  import opened BTreeOps
  import opened Values
  import opened Indexes
  import opened IndexTrees
  import opened TableTree
  import opened TableStates
  import opened StoredTables
  import opened TableRuns
  import Record

  /** A row or key that is too large makes an operation fail half way; the statement is then rolled back. */
  datatype Outcome = Done | Missing | NotUnique | TooLarge

  /** A whole table, and an operation whose arguments are what it asks for. */
  ghost predicate Prepared(dom: Value -> bool, s: Stored, op: Op) {
    Whole(dom, s) && Possible(dom, s, Do(op, 0))
  }

  predicate HasRow(rows: Rows, id: int) {
    exists i :: 0 <= i < |rows| && rows[i].key == id
  }

  class Table {
    var tree: Tree<int, Payload>
    var next: nat
    var nextID: int
    var indexes: seq<IndexTree>

    constructor (root: nat)
      ensures Now() == NewTable(root)
    {
      tree, next, nextID, indexes := Leaf(root, []), root + 1, 0, [];
    }

    ghost function Now(): Stored
      reads this
    {
      Stored(tree, next, nextID, indexes)
    }

    /** What a scan of the leaves finds. */
    function Rows(): (rows: Rows)
      reads this
      ensures rows == StoredRows(Now())
    {
      RowsOf(BTree.Entries(tree))
    }

    /** The row of a rowid, if there is one. */
    method Get(id: int) returns (row: Option<Row>)
      requires Readable(Now())
      ensures row.None? <==> !HasRow(Rows(), id)
      ensures row.Some? ==> Cell(id, row.value) in Rows()
    {
      var payload := BTreeOps.Get(CompareRowid, tree, id);
      row := if payload.None? then None else Some(DecodedRow(payload.value));
      GetIsRow(Now(), id);
    }

    /** A table that was read back from its file: the rowid used last is read off the last leaf. */
    method Attach(ghost dom: Value -> bool)
      modifies this`nextID
      ensures Now() == Attached(old(Now()))
      ensures old(Whole(dom, Now())) ==> (Whole(dom, Now()) <==> AttachFinds(old(Now())))
    {
      if Whole(dom, Now()) { AttachIs(dom, Now()); }
      nextID := AttachedRowID(tree);
    }

    // ---- insertion ----

    method CheckAll(row: Row, ghost dom: Value -> bool) returns (ok: bool)
      requires AllCover(Views(indexes), row)
      ensures Whole(dom, Now()) && Suits(dom, View(Now()), row) ==> (ok <==> NoConflict(View(Now()), row))
    {
      hide Whole, Suits, InTheWay, Agrees, Fine, Conflicts, NoConflict;
      ghost var exact := Whole(dom, Now()) && Suits(dom, View(Now()), row);
      ok := true;
      var k := 0;
      while k < |indexes| && ok
        invariant k <= |indexes|
        invariant exact && ok ==> forall j :: 0 <= j < k ==> !InTheWay(Now(), row, j)
        invariant exact && !ok ==> exists j :: 0 <= j < |indexes| && InTheWay(Now(), row, j)
      {
        assert Views(indexes)[k].columns == indexes[k].columns;
        ok := CheckUnique(Viewed(indexes[k]), row, 0, dom, Rows());
        if exact { WayIs(dom, Now(), row, k, ok); }
        k := k + 1;
      }
      if exact { WaysAre(dom, Now(), row); }
    }

    /** Adds the key of a row to every index; stops at the first in which it is too large. */
    method AddEntries(c: Cell<int, Row>) returns (ok: bool)
      requires AllCover(Views(indexes), c.val)
      modifies this`indexes
      ensures ok <==> KeysFit(Views(old(indexes)), c)
      ensures ok ==> indexes == KeysInserted(old(indexes), c)
      ensures !ok ==> KeysStopped(old(indexes), c, indexes)
    {
      hide KeyFits, InsertKey;
      ghost var was := indexes;
      ok := true;
      var k := 0;
      while k < |indexes| && ok
        invariant k <= |indexes| == |was| && (!ok ==> k >= 1)
        invariant forall j :: 0 <= j < |was| ==> indexes[j] == KeysInsertedTo(was, c, if ok then k else k - 1)[j]
        invariant forall j :: 0 <= j < (if ok then k else k - 1) ==> KeyFits(EntryKey(Views(was)[j].columns, c))
        invariant !ok ==> !KeyFits(EntryKey(Views(was)[k - 1].columns, c))
      {
        assert Views(was)[k].columns == indexes[k].columns;
        var key := EntryKey(indexes[k].columns, c);
        ok := KeyFits(key);
        if ok { indexes := indexes[k := InsertKey(indexes[k], key)]; }
        k := k + 1;
      }
      assert indexes == KeysInsertedTo(was, c, if ok then k else k - 1);
    }

    /** Writes a row that is in nobody's way, then its entries. */
    method Append(row: Row) returns (ok: bool)
      requires AllCover(Views(indexes), row)
      modifies this
      ensures ok <==> RowFits(row) && KeysFit(Views(old(indexes)), Cell(old(nextID) + 1, row))
      ensures ok ==> Now() == RowInsert(old(Now()), row)
      ensures !ok ==> InsertStopped(old(Now()), row, Now())
    {
      hide InsertTree, TableLayout, RowFits, KeysFit, KeysInserted, KeysStopped;
      nextID := nextID + 1;
      ok := false;
      if RowFits(row) {
        var (t, n) := InsertTree(TableLayout(), tree, RowCell(Cell(nextID, row)), next);
        tree, next := t, n;
        ok := AddEntries(Cell(nextID, row));
      }
    }

    /**
    Fails exactly when a unique index has the key of the row already, or when the row or one of its keys is too large.
    Otherwise it does to the trees what an insertion does, which is what it should be whenever they have room. When something is
    too large, what was done by then is left behind.
    */
    method Insert(row: Row, ghost dom: Value -> bool) returns (o: Outcome)
      requires AllCover(Views(indexes), row)
      modifies this
      ensures o == Done ==> Now() == RowInsert(old(Now()), row)
      ensures o == NotUnique ==> Now() == old(Now())
      ensures o in {Done, TooLarge} ==> (o == Done <==> RowFits(row) && KeysFit(Views(old(indexes)), Cell(old(nextID) + 1, row)))
      ensures o in {Done, TooLarge} ==> (o == Done <==> ShortInsert(Views(old(indexes)), Cell(old(nextID) + 1, row)))
      ensures o == TooLarge ==> InsertStopped(old(Now()), row, Now())
      ensures Prepared(dom, old(Now()), InsertOp(row)) ==> (o == NotUnique <==> !NoConflict(View(old(Now())), row))
      ensures Prepared(dom, old(Now()), InsertOp(row)) && o == Done && InsertHasRoom(old(Now()), row) ==>
        Whole(dom, Now()) && Step(dom, View(old(Now())), InsertOp(row), View(Now()))
      ensures o != Missing
    {
      hide Whole, Suits, NoConflict, RowInsert, InsertHasRoom, RowFits, KeysFit, Step, InsertStopped, ShortInsert;
      ghost var s := Now();
      FitIsShort(Views(indexes), Cell(nextID + 1, row));
      var ok := CheckAll(row, dom);
      if ok {
        ok := Append(row);
        o := if ok then Done else TooLarge;
        if Prepared(dom, s, InsertOp(row)) && ok {
          WholeCovers(dom, s);
          InsertTaken(dom, s, row, Now());
        }
      } else {
        o := NotUnique;
      }
    }

    // ---- deletion ----

    method DropEntries(c: Cell<int, Row>)
      requires AllCover(Views(indexes), c.val)
      modifies this`indexes
      ensures indexes == KeysDeleted(old(indexes), c)
    {
      hide DeleteKey;
      ghost var was := indexes;
      for k := 0 to |indexes|
        invariant |indexes| == |was|
        invariant forall j :: 0 <= j < k ==> indexes[j] == KeysDeleted(was, c)[j]
        invariant forall j :: k <= j < |was| ==> indexes[j] == was[j]
      {
        assert Views(was)[k].columns == indexes[k].columns;
        indexes := indexes[k := DeleteKey(indexes[k], EntryKey(indexes[k].columns, c))];
      }
    }

    /** Takes a row out of its tree, then its keys out of theirs. */
    method Delete(id: int, ghost dom: Value -> bool) returns (o: Outcome)
      requires Readable(Now())
      modifies this
      ensures o == Missing <==> !HasRow(old(Rows()), id)
      ensures o == Missing ==> Now() == old(Now())
      ensures o == Done ==> exists i :: 0 <= i < |old(Rows())| && old(Rows())[i].key == id && RowDeleted(old(Now()), i, Now())
      ensures old(Whole(dom, Now())) ==> Whole(dom, Now()) && (o == Done ==> Step(dom, View(old(Now())), DeleteOp(id), View(Now())))
      ensures o in {Done, Missing}
    {
      hide Whole, Step, DeleteIn, KeysDeleted, Readable, TableLayout;
      ghost var s := Now();
      var found := Get(id);
      if found.None? {
        o := Missing;
      } else {
        ghost var i := RowAt(s, id, found.value);
        tree := DeleteIn(TableLayout(), tree, id);
        DropEntries(Cell(id, found.value));
        assert RowDeleted(s, i, Now());
        if Whole(dom, s) { DeleteMove(dom, s, i, Now()); }
        o := Done;
      }
    }

    // ---- update ----

    method DropMoved(c: Cell<int, Row>, moved: seq<bool>)
      requires |moved| == |indexes| && AllCover(Views(indexes), c.val)
      modifies this`indexes
      ensures indexes == MovedDropped(old(indexes), c, moved)
    {
      hide DeleteKey;
      ghost var was := indexes;
      for k := 0 to |indexes|
        invariant |indexes| == |was|
        invariant forall j :: 0 <= j < |was| ==> indexes[j] == if moved[j] && j < k then KeysDeleted(was, c)[j] else was[j]
      {
        assert Views(was)[k].columns == indexes[k].columns;
        if moved[k] { indexes := indexes[k := DeleteKey(indexes[k], EntryKey(indexes[k].columns, c))]; }
      }
      assert indexes == MovedDropped(was, c, moved);
    }

    /** Adds the keys that move; stops at the first that is too large. */
    method AddMoved(c: Cell<int, Row>, moved: seq<bool>) returns (ok: bool)
      requires |moved| == |indexes| && AllCover(Views(indexes), c.val)
      modifies this`indexes
      ensures ok <==> forall k :: 0 <= k < |old(indexes)| && moved[k] ==> KeyFits(EntryKey(Views(old(indexes))[k].columns, c))
      ensures AddedTo(old(indexes), c, moved, ok, indexes)
    {
      hide KeyFits, InsertKey;
      ghost var was := indexes;
      ok := true;
      var k := 0;
      while k < |indexes| && ok
        invariant k <= |indexes| == |was| && (!ok ==> k >= 1)
        invariant forall j :: 0 <= j < |was| ==> indexes[j] == MovedAdded(was, c, moved, if ok then k else k - 1)[j]
        invariant forall j :: 0 <= j < (if ok then k else k - 1) && moved[j] ==> KeyFits(EntryKey(Views(was)[j].columns, c))
        invariant !ok ==> moved[k - 1] && !KeyFits(EntryKey(Views(was)[k - 1].columns, c))
      {
        assert Views(was)[k].columns == indexes[k].columns;
        if moved[k] {
          var key := EntryKey(indexes[k].columns, c);
          ok := KeyFits(key);
          if ok { indexes := indexes[k := InsertKey(indexes[k], key)]; }
        }
        k := k + 1;
      }
      ghost var n := if ok then k else k - 1;
      assert indexes == MovedAdded(was, c, moved, n) && MovedStopsAt(was, c, moved, n);
    }

    /** Takes the keys of the old row out, writes the row anew and puts the new keys in. A row too large for a page is taken out all the same. */
    method Replace(c: Cell<int, Row>, row: Row, moved: seq<bool>, ghost i: nat) returns (ok: bool)
      requires |moved| == |indexes| && MovedFlags(Views(indexes), c, row, moved)
      requires Readable(Now()) && i < |Rows()| && Rows()[i] == c
      modifies this`tree, this`next, this`indexes
      ensures ok <==> RowFits(row) && MovedKeysFit(Views(old(indexes)), c, row)
      ensures ok <==> ShortMove(Views(old(indexes)), c, row)
      ensures ok ==> Now() == RowUpdate(old(Now()), c, row)
      ensures !ok ==> UpdateStopped(old(Now()), c, row, Now())
    {
      hide RowFits, KeyFits, UpdateTree, DeleteIn, TableLayout, SameKey, InsertKey, DeleteKey, AddedTo, MovedDropped, MoveStopped, ShortMove;
      ghost var s := Now();
      MoveIsShort(Views(indexes), c, row);
      DropMoved(c, moved);
      ghost var dropped := indexes;
      FlagsDrop(s.indexes, c, row, moved);
      ok := false;
      if RowFits(row) {
        IsThere(s, i);
        var (t, n, _) := UpdateTree(TableLayout(), tree, RowCell(Cell(c.key, row)), next);
        tree, next := t, n;
        ok := AddMoved(Cell(c.key, row), moved);
        FlagsAdd(s.indexes, c, row, moved, ok, indexes);
      } else {
        tree := DeleteIn(TableLayout(), tree, c.key);
      }
    }

    /**
    Fails exactly when an index has a new key for another row, or when the row or a new key is too large. Otherwise it
    does to the trees what an update does, which is what it should be whenever they have room. When something is too large, what was
    done by then is left behind.
    */
    method Update(id: int, row: Row, ghost dom: Value -> bool) returns (o: Outcome)
      requires Readable(Now()) && AllCover(Views(indexes), row)
      modifies this
      ensures o == Missing <==> !HasRow(old(Rows()), id)
      ensures o in {Missing, NotUnique} ==> Now() == old(Now())
      ensures o in {Done, TooLarge} ==> exists i :: 0 <= i < |old(Rows())| && old(Rows())[i].key == id && Rewrites(old(Now()), i, row, o, Now())
      ensures Prepared(dom, old(Now()), UpdateOp(id, row)) ==> (o == NotUnique <==> Blocked(View(old(Now())), id, row))
      ensures Prepared(dom, old(Now()), UpdateOp(id, row)) && o == Done && HasRoom(old(Now()), Do(UpdateOp(id, row), 0)) ==>
        Whole(dom, Now()) && Step(dom, View(old(Now())), UpdateOp(id, row), View(Now()))
      ensures o == Done && Record.StorableRow(row) ==> Readable(Now())
    {
      hide Prepared, HasRoom, Whole, Step, RowUpdate, MovedKeysFit, MovedFlags, RowFits, Readable, Clear, AllCheckable, UpdateStopped, ShortMove;
      ghost var s := Now();
      var found := Get(id);
      if found.None? {
        o := Missing;
      } else {
        ghost var i := RowAt(s, id, found.value);
        var c := Cell(id, found.value);
        var moved := FindMoved(Views(indexes), Rows(), c, row, dom);
        if moved.None? {
          o := NotUnique;
        } else {
          var ok := Replace(c, row, moved.value, i);
          o := if ok then Done else TooLarge;
          if ok && Record.StorableRow(row) { UpdateKeepsReadable(s, i, row); }
        }
        if Prepared(dom, s, UpdateOp(id, row)) { UpdateTaken(dom, s, i, row, moved.Some?, o == Done, Now()); }
      }
    }

    // ---- index creation ----

    /**
    Fills an index, whose tree starts on page `page`, from the rows and attaches it. With room on every page, and with keys that
    all are short enough, it fails exactly when two rows are in each other's way.
    */
    method BuildIndex(columns: seq<nat>, unique: bool, page: nat, ghost dom: Value -> bool) returns (o: Outcome)
      requires forall i :: 0 <= i < |StoredRows(Now())| ==> Covers(columns, StoredRows(Now())[i].val)
      modifies this`indexes
      ensures o == Done ==> Now() == RowsIndexed(old(Now()), columns, unique, page)
      ensures o != Done ==> Now() == old(Now())
      ensures o == Done ==> AllKeysShort(columns, Rows())
      ensures o == TooLarge ==> !AllKeysShort(columns, Rows())
      ensures Prepared(dom, old(Now()), BuildOp(columns, unique)) && HasRoom(old(Now()), Do(BuildOp(columns, unique), page)) ==>
        && (o == NotUnique <==> exists i :: 0 <= i < |Rows()| && ClashesBefore(columns, unique, Rows(), i))
        && (o == Done ==> Whole(dom, Now()) && Step(dom, View(old(Now())), BuildOp(columns, unique), View(Now())))
      ensures o != Missing
    {
      hide Prepared, HasRoom, Fillable, ClashesBefore, AllKeysShort, Whole, Step, IndexFilled;
      var ix: IndexTree;
      ghost var s, ready := Now(), Prepared(dom, Now(), BuildOp(columns, unique)) && HasRoom(Now(), Do(BuildOp(columns, unique), page));
      if ready { BuildPrepared(dom, s, columns, unique, page); }
      assert Rows() == StoredRows(s);
      o, ix := FillIndex(columns, unique, page, Rows(), dom);
      if o == Done { indexes := indexes + [ix]; }
      assert Rows() == StoredRows(s);
      if ready && o == Done { BuildTaken(dom, s, columns, unique, page, Now()); }
    }
  }

  // ---- looking rows up ----

  /** A descent to a rowid finds the payload of its row. */
  lemma GetIsRow(s: Stored, id: int)
    requires Readable(s)
    ensures var payload := BTreeOps.Get(CompareRowid, s.tree, id);
      && (payload.None? <==> !HasRow(StoredRows(s), id))
      && (payload.Some? ==> Cell(id, DecodedRow(payload.value)) in StoredRows(s))
  {
    hide Grown, TableLayout, Covered, Decodable, Sorted, BTreeOps.Get, HasRow, DecodedRow;
    GetIsFound(s.tree, id);
    FoundIfThere(BTree.Entries(s.tree), id);
  }

  lemma GetIsFound(t: Tree<int, Payload>, id: int)
    requires Grown(TableLayout(), t)
    ensures BTreeOps.Get(CompareRowid, t, id) == Lookup(CompareRowid, BTree.Entries(t), id)
    ensures Sorted(CompareRowid, BTree.Entries(t))
  {
    var h :| SoundTree(TableLayout(), t, h);
    TableUsable();
    GetIsLookup(TableLayout(), t, id, None, None, h);
    RowsSorted(t, h);
  }

  lemma FoundIfThere(cells: seq<Cell<int, Payload>>, id: int)
    requires Sorted(CompareRowid, cells)
    ensures Found(CompareRowid, cells, id) <==> HasRow(RowsOf(cells), id)
    ensures Found(CompareRowid, cells, id) ==> Cell(id, DecodedRow(cells[Slot(CompareRowid, cells, id)].val)) in RowsOf(cells)
  {
    hide DecodedRow;
    if i :| 0 <= i < |cells| && RowsOf(cells)[i].key == id {
      SlotUnique(CompareRowid, cells, id, i);
    }
    if Found(CompareRowid, cells, id) {
      var i := Slot(CompareRowid, cells, id);
      assert RowsOf(cells)[i] == Cell(id, DecodedRow(cells[i].val));
    }
  }

  lemma RowAt(s: Stored, id: int, row: Row) returns (i: nat)
    requires Readable(s) && Cell(id, row) in StoredRows(s)
    ensures i < |StoredRows(s)| && StoredRows(s)[i] == Cell(id, row) && AllCover(Views(s.indexes), row)
  {
    i :| 0 <= i < |StoredRows(s)| && StoredRows(s)[i] == Cell(id, row);
    assert AllCover(View(s).indexes, View(s).rows[i].val);
  }

  // ---- insertion ----

  /** Another row has the key of this one in index k. */
  ghost predicate InTheWay(s: Stored, row: Row, k: nat) {
    && k < |s.indexes| && Covers(s.indexes[k].columns, row)
    && (forall i :: 0 <= i < |StoredRows(s)| ==> Covers(s.indexes[k].columns, StoredRows(s)[i].val))
    && Conflicts(Viewed(s.indexes[k]), StoredRows(s), row, 0)
  }

  lemma WayIs(dom: Value -> bool, s: Stored, row: Row, k: nat, ok: bool)
    requires Whole(dom, s) && Suits(dom, View(s), row) && k < |s.indexes|
    requires Agrees(dom, Viewed(s.indexes[k]), StoredRows(s)) && Fine(dom, s.indexes[k].columns, row) ==>
      (ok <==> !Conflicts(Viewed(s.indexes[k]), StoredRows(s), row, 0))
    ensures ok <==> !InTheWay(s, row, k)
  {
    IndexOf(dom, s, k);
    RowOfIndex(dom, s, k, row);
  }

  lemma WaysAre(dom: Value -> bool, s: Stored, row: Row)
    requires Whole(dom, s) && Suits(dom, View(s), row)
    ensures Covered(View(s)) && AllCover(View(s).indexes, row)
    ensures NoConflict(View(s), row) <==> forall k :: 0 <= k < |s.indexes| ==> !InTheWay(s, row, k)
  {
    WholeCovers(dom, s);
    NewRowCovered(dom, s, row);
    hide Whole, Suits, Conflicts;
    assert forall k :: 0 <= k < |s.indexes| ==> View(s).indexes[k] == Viewed(s.indexes[k]);
    forall k | 0 <= k < |s.indexes| ensures InTheWay(s, row, k) <==> Conflicts(View(s).indexes[k], View(s).rows, row, 0) {
      assert Covers(View(s).indexes[k].columns, row);
      assert forall i :: 0 <= i < |StoredRows(s)| ==> AllCover(View(s).indexes, View(s).rows[i].val);
    }
  }

  /** An insertion that succeeds on a table that is ready for it. */
  lemma InsertTaken(dom: Value -> bool, s: Stored, row: Row, t: Stored)
    requires Prepared(dom, s, InsertOp(row)) && AllCover(Views(s.indexes), row)
    requires Covered(View(s)) && NoConflict(View(s), row) && RowFits(row) && KeysFit(Views(s.indexes), Cell(s.nextID + 1, row)) && t == RowInsert(s, row)
    ensures InsertHasRoom(s, row) ==> Whole(dom, t) && Step(dom, View(s), InsertOp(row), View(t))
  {
    hide InsertHasRoom, Whole, NoConflict, RowFits, KeysFit, RowInsert;
    if InsertHasRoom(s, row) { InsertMove(dom, s, row, 0, t); }
  }

  // ---- update ----

  // ---- what is left behind when something is too large ----

  /** The first n indexes have the key of the row as well. */
  function KeysInsertedTo(indexes: seq<IndexTree>, c: Cell<int, Row>, n: nat): (r: seq<IndexTree>)
    requires AllCover(Views(indexes), c.val)
    ensures |r| == |indexes| && forall k {:trigger r[k]} :: 0 <= k < |r| ==> r[k] == if k < n then KeysInserted(indexes, c)[k] else indexes[k]
  {
    seq(|indexes|, k requires 0 <= k < |indexes| => if k < n then KeysInserted(indexes, c)[k] else indexes[k])
  }

  /** The indexes in front of the first one for which the key is too large have it. */
  ghost predicate KeysStopped(indexes: seq<IndexTree>, c: Cell<int, Row>, now: seq<IndexTree>)
    requires AllCover(Views(indexes), c.val)
  {
    exists n :: 0 <= n < |indexes| && now == KeysInsertedTo(indexes, c, n) && !KeyFits(EntryKey(Views(indexes)[n].columns, c))
      && forall k :: 0 <= k < n ==> KeyFits(EntryKey(Views(indexes)[k].columns, c))
  }

  /** What an insertion leaves behind that fails because the row or a key is too large: a used rowid, or a row without some of its keys. */
  ghost predicate InsertStopped(s: Stored, row: Row, t: Stored)
    requires AllCover(Views(s.indexes), row)
  {
    if !RowFits(row) then t == s.(nextID := s.nextID + 1)
    else t == RowInsert(s, row).(indexes := t.indexes) && KeysStopped(s.indexes, Cell(s.nextID + 1, row), t.indexes)
  }

  /** The indexes that move the key of a row no longer have the old one. */
  function MovedDropped(indexes: seq<IndexTree>, c: Cell<int, Row>, moved: seq<bool>): (r: seq<IndexTree>)
    requires |moved| == |indexes| && AllCover(Views(indexes), c.val)
    ensures |r| == |indexes| && forall k {:trigger r[k]} :: 0 <= k < |r| ==> r[k] == if moved[k] then KeysDeleted(indexes, c)[k] else indexes[k]
  {
    seq(|indexes|, k requires 0 <= k < |indexes| => if moved[k] then KeysDeleted(indexes, c)[k] else indexes[k])
  }

  /** Of the indexes that move a key the first n have the new one. */
  function MovedAdded(indexes: seq<IndexTree>, c: Cell<int, Row>, moved: seq<bool>, n: nat): (r: seq<IndexTree>)
    requires |moved| == |indexes| && AllCover(Views(indexes), c.val)
    ensures |r| == |indexes|
    ensures forall k {:trigger r[k]} :: 0 <= k < |r| ==> r[k] == if moved[k] && k < n then KeysInserted(indexes, c)[k] else indexes[k]
  {
    seq(|indexes|, k requires 0 <= k < |indexes| => if moved[k] && k < n then KeysInserted(indexes, c)[k] else indexes[k])
  }

  /** Index n is the first whose new key is too large; there is none when n is their number. */
  ghost predicate MovedStopsAt(indexes: seq<IndexTree>, c: Cell<int, Row>, moved: seq<bool>, n: nat)
    requires |moved| == |indexes| && AllCover(Views(indexes), c.val)
  {
    && n <= |indexes| && (n < |indexes| ==> moved[n] && !KeyFits(EntryKey(Views(indexes)[n].columns, c)))
    && forall k :: 0 <= k < n && moved[k] ==> KeyFits(EntryKey(Views(indexes)[k].columns, c))
  }

  /** The new keys are there, all of them or those in front of the first that is too large. */
  ghost predicate AddedTo(was: seq<IndexTree>, c: Cell<int, Row>, moved: seq<bool>, ok: bool, now: seq<IndexTree>)
    requires |moved| == |was| && AllCover(Views(was), c.val)
  {
    exists n :: MovedStopsAt(was, c, moved, n) && now == MovedAdded(was, c, moved, n) && ok == (n == |moved|)
  }

  /** Index k after an update that came as far as index n: the key has moved, or is only gone, or is the same as before. */
  ghost predicate MovedTo(ix: IndexTree, c: Cell<int, Row>, row: Row, done: bool, now: IndexTree) {
    && Covers(ix.columns, c.val) && Covers(ix.columns, row)
    && now == if done || SameKey(ix.columns, c.val, row) then KeyMoved(ix, c, row) else DeleteKey(ix, EntryKey(ix.columns, c))
  }

  /** The keys have moved up to the first that is too large; from there on they are only gone. */
  ghost predicate MoveStopped(was: seq<IndexTree>, c: Cell<int, Row>, row: Row, now: seq<IndexTree>)
    requires |was| == |now| && AllCover(Views(was), c.val) && AllCover(Views(was), row)
  {
    exists n :: 0 <= n < |now| && !SameKey(Views(was)[n].columns, c.val, row)
      && !KeyFits(EntryKey(Views(was)[n].columns, Cell(c.key, row)))
      && forall k :: 0 <= k < |now| ==> MovedTo(was[k], c, row, k < n, now[k])
  }

  /**
  What an update leaves behind that fails because the row or a key is too large. A row too large for a page is gone, with those of its
  keys that would have changed; a key too large for its index leaves the new row without it and without those behind it.
  */
  ghost predicate UpdateStopped(s: Stored, c: Cell<int, Row>, row: Row, t: Stored) {
    && |t.indexes| == |s.indexes| && AllCover(Views(s.indexes), c.val) && AllCover(Views(s.indexes), row)
    && if !RowFits(row) then
         && t == s.(tree := DeleteIn(TableLayout(), s.tree, c.key), indexes := t.indexes)
         && forall k :: 0 <= k < |t.indexes| ==> MovedTo(s.indexes[k], c, row, false, t.indexes[k])
       else
         && t == RowUpdate(s, c, row).(indexes := t.indexes)
         && MoveStopped(s.indexes, c, row, t.indexes)
  }

  /** An index that stays as it is while the number of rows changes is out of step. */
  lemma SameIndexOtherRows(dom: Value -> bool, s: Stored, t: Stored, k: nat)
    requires Whole(dom, s) && Grown(TableLayout(), t.tree) && k < |s.indexes| == |t.indexes| && t.indexes[k] == s.indexes[k]
    requires |StoredRows(t)| != |StoredRows(s)|
    ensures !Whole(dom, t)
  {
    StoredSorted(s);
    StoredSorted(t);
    IndexOf(dom, s, k);
    hide Agrees, SoundIndex, Decodable, Grown, Covered, StoredRows;
    AgreesCount(dom, Viewed(s.indexes[k]), StoredRows(s));
    if Whole(dom, t) {
      IndexOf(dom, t, k);
      AgreesCount(dom, Viewed(s.indexes[k]), StoredRows(t));
      assert false;
    }
  }

  lemma StoppedAtKey(s: Stored, row: Row, t: Stored) returns (n: nat)
    requires AllCover(Views(s.indexes), row) && RowFits(row) && InsertStopped(s, row, t)
    ensures n < |s.indexes| == |t.indexes| && t.indexes[n] == s.indexes[n]
    ensures t.tree == InsertTree(TableLayout(), s.tree, RowCell(Cell(s.nextID + 1, row)), s.next).0
  {
    hide RowFits, InsertTree, KeyFits, KeysInserted;
    n :| 0 <= n < |s.indexes| && t.indexes == KeysInsertedTo(s.indexes, Cell(s.nextID + 1, row), n);
  }

  /** An insertion with a key that is too large for its index fails with an error, and the row is there without the key. */
  lemma TooLargeKeepsRow(dom: Value -> bool, s: Stored, row: Row, t: Stored)
    requires Whole(dom, s) && AllCover(Views(s.indexes), row) && Record.StorableRow(row) && RowFits(row) && InsertStopped(s, row, t)
    requires RowRoom(s.tree, RowCell(Cell(s.nextID + 1, row)))
    ensures StoredRows(t) == Insert(CompareRowid, StoredRows(s), Cell(s.nextID + 1, row)) && !Whole(dom, t)
  {
    var n := StoppedAtKey(s, row, t);
    FreshKey(dom, s);
    assert Grown(TableLayout(), s.tree);
    assert StoredRows(t) == RowsOf(BTree.Entries(t.tree)) && StoredRows(s) == RowsOf(BTree.Entries(s.tree));
    hide *;
    RowInsertIs(s, Cell(s.nextID + 1, row));
    SameIndexOtherRows(dom, s, t, n);
  }

  lemma RowTakenOut(s: Stored, i: nat, row: Row, t: Stored)
    requires Grown(TableLayout(), s.tree) && i < |StoredRows(s)| && !RowFits(row) && UpdateStopped(s, StoredRows(s)[i], row, t)
    ensures StoredRows(t) == RemoveAt(StoredRows(s), i) && Grown(TableLayout(), t.tree)
  {
    TreeDeleteIs(s.tree, i);
    RowGone(BTree.Entries(s.tree), i);
  }

  lemma KeyTakenOut(s: Stored, c: Cell<int, Row>, row: Row, t: Stored, k: nat)
    requires UpdateStopped(s, c, row, t) && !RowFits(row) && k < |s.indexes|
    ensures if SameKey(Views(s.indexes)[k].columns, c.val, row) then t.indexes[k] == s.indexes[k]
      else t.indexes[k] == KeysDeleted(s.indexes, c)[k]
  {
    hide SameKey, DeleteIn, EntryKey, RowFits;
    assert MovedTo(s.indexes[k], c, row, false, t.indexes[k]);
  }

  /**
  An update to a row that is too large for a page fails with an error, and the row is gone. That is as if it had been deleted exactly if the update
  would have changed its key in every index; any other index still has a key for it. A statement of its own is rolled back as a whole, but within a
  transaction it is left so.
  */
  lemma TooLargeLosesRow(dom: Value -> bool, s: Stored, i: nat, row: Row, t: Stored)
    requires Whole(dom, s) && i < |StoredRows(s)| && !RowFits(row) && UpdateStopped(s, StoredRows(s)[i], row, t)
    ensures StoredRows(t) == RemoveAt(StoredRows(s), i)
    ensures Whole(dom, t) <==> forall k :: 0 <= k < |s.indexes| ==> !SameKey(Views(s.indexes)[k].columns, StoredRows(s)[i].val, row)
  {
    var was := StoredRows(s)[i];
    RowTakenOut(s, i, row, t);
    hide RowFits, SameKey, DeleteIn, Agrees, SoundIndex, Decodable, Grown, KeysDeleted, RemoveAt, Covered, AllCover, RowDelete;
    forall k | 0 <= k < |s.indexes|
      ensures SameKey(Views(s.indexes)[k].columns, was.val, row) ==> !Whole(dom, t)
      ensures !SameKey(Views(s.indexes)[k].columns, was.val, row) ==> t.indexes[k] == KeysDeleted(s.indexes, was)[k]
    {
      KeyTakenOut(s, was, row, t, k);
      if SameKey(Views(s.indexes)[k].columns, was.val, row) { SameIndexOtherRows(dom, s, t, k); }
    }
    if forall k :: 0 <= k < |s.indexes| ==> !SameKey(Views(s.indexes)[k].columns, was.val, row) {
      DeleteIs(dom, s, i);
      AllTakenOut(s, was, row, t);
    }
  }

  lemma AllTakenOut(s: Stored, c: Cell<int, Row>, row: Row, t: Stored)
    requires !RowFits(row) && UpdateStopped(s, c, row, t)
    requires forall k :: 0 <= k < |s.indexes| ==> !SameKey(Views(s.indexes)[k].columns, c.val, row)
    ensures t == RowDelete(s, c)
  {
    hide RowFits, SameKey, DeleteIn, EntryKey;
    forall k | 0 <= k < |s.indexes| ensures t.indexes[k] == KeysDeleted(s.indexes, c)[k] {
      KeyTakenOut(s, c, row, t, k);
    }
    assert t.indexes == KeysDeleted(s.indexes, c);
  }

  /** An update of row i that goes through, or fails because something is too large. */
  ghost predicate Rewrites(s: Stored, i: nat, row: Row, o: Outcome, t: Stored) {
    && i < |StoredRows(s)| && AllCover(Views(s.indexes), StoredRows(s)[i].val) && AllCover(Views(s.indexes), row)
    && (o == Done <==> RowFits(row) && MovedKeysFit(Views(s.indexes), StoredRows(s)[i], row))
    && (o == Done <==> ShortMove(Views(s.indexes), StoredRows(s)[i], row))
    && (o == Done ==> t == RowUpdate(s, StoredRows(s)[i], row))
    && (o == TooLarge ==> UpdateStopped(s, StoredRows(s)[i], row, t))
  }

  lemma BlockedIs(dom: Value -> bool, s: State, i: nat, id: int, row: Row)
    requires Valid(dom, s) && Suits(dom, s, row) && i < |s.rows| && s.rows[i].key == id
    ensures Blocked(s, id, row) <==> exists k :: 0 <= k < |s.indexes| && !MayMove(s.indexes[k], s.rows, s.rows[i], row)
  {
    forall j | 0 <= j < |s.rows| && s.rows[j].key == id ensures j == i {
      SameRowid(s.rows, i, j);
    }
  }

  /** Whether an index has to move the entry of a row; nothing when the new key is taken. */
  method CheckMove(ix: Index, rows: Rows, c: Cell<int, Row>, row: Row, ghost dom: Value -> bool) returns (moves: Option<bool>)
    requires Covers(ix.columns, c.val) && Covers(ix.columns, row)
    ensures Checkable(dom, ix, rows, c, row) ==> (moves.Some? <==> MayMove(ix, rows, c, row))
    ensures moves.Some? ==> moves.value == !SameKey(ix.columns, c.val, row)
  {
    moves := Some(false);
    if !SameKey(ix.columns, c.val, row) {
      var fine := CheckUnique(ix, row, c.key, dom, rows);
      moves := if fine then Some(true) else None;
    }
  }

  ghost predicate Checkable(dom: Value -> bool, ix: Index, rows: Rows, c: Cell<int, Row>, row: Row) {
    Agrees(dom, ix, rows) && Covers(ix.columns, c.val) && Fine(dom, ix.columns, row)
  }

  ghost predicate Clear(dom: Value -> bool, ix: Index, rows: Rows, c: Cell<int, Row>, row: Row) {
    Checkable(dom, ix, rows, c, row) && MayMove(ix, rows, c, row)
  }

  ghost predicate AllCheckable(dom: Value -> bool, indexes: seq<Index>, rows: Rows, c: Cell<int, Row>, row: Row) {
    forall k :: 0 <= k < |indexes| ==> Checkable(dom, indexes[k], rows, c, row)
  }

  /** The indexes whose key changes; nothing when one of them has the new key already. */
  method FindMoved(indexes: seq<Index>, rows: Rows, c: Cell<int, Row>, row: Row, ghost dom: Value -> bool)
    returns (moved: Option<seq<bool>>)
    requires AllCover(indexes, c.val) && AllCover(indexes, row)
    ensures AllCheckable(dom, indexes, rows, c, row) ==>
      (moved.Some? <==> forall k :: 0 <= k < |indexes| ==> Clear(dom, indexes[k], rows, c, row))
    ensures moved.Some? ==> |moved.value| == |indexes| && MovedFlags(indexes, c, row, moved.value)
  {
    hide Checkable, MayMove, SameKey, KeyFits;
    var flags: seq<bool> := [];
    var taken := false;
    while |flags| < |indexes| && !taken
      invariant |flags| <= |indexes| && MovedFlags(indexes, c, row, flags)
      invariant AllCheckable(dom, indexes, rows, c, row) ==> forall j :: 0 <= j < |flags| ==> Clear(dom, indexes[j], rows, c, row)
      invariant AllCheckable(dom, indexes, rows, c, row) && taken ==> |flags| < |indexes| && !Clear(dom, indexes[|flags|], rows, c, row)
      decreases |indexes| - |flags|, !taken
    {
      var moves := CheckMove(indexes[|flags|], rows, c, row, dom);
      if moves.None? {
        taken := true;
      } else {
        FlagsSnoc(indexes, c, row, flags, moves.value);
        flags := flags + [moves.value];
      }
    }
    moved := if taken then None else Some(flags);
  }

  /** Which of the first indexes do not have the key of the row already. */
  ghost predicate MovedFlags(indexes: seq<Index>, c: Cell<int, Row>, row: Row, moved: seq<bool>) {
    && |moved| <= |indexes| && AllCover(indexes, c.val) && AllCover(indexes, row)
    && forall k :: 0 <= k < |moved| ==> moved[k] == !SameKey(indexes[k].columns, c.val, row)
  }

  lemma FlagsSnoc(indexes: seq<Index>, c: Cell<int, Row>, row: Row, moved: seq<bool>, moves: bool)
    requires MovedFlags(indexes, c, row, moved) && |moved| < |indexes|
    requires moves == !SameKey(indexes[|moved|].columns, c.val, row)
    ensures MovedFlags(indexes, c, row, moved + [moves])
  {
  }

  /** Which keys have to be short enough. */
  lemma FlagsFit(indexes: seq<Index>, c: Cell<int, Row>, row: Row, moved: seq<bool>)
    requires MovedFlags(indexes, c, row, moved) && |moved| == |indexes|
    ensures MovedKeysFit(indexes, c, row) <==>
      forall k :: 0 <= k < |indexes| && moved[k] ==> KeyFits(EntryKey(indexes[k].columns, Cell(c.key, row)))
  {
    hide KeyFits, SameKey, EntryKey;
    forall k | 0 <= k < |indexes| ensures Covers(indexes[k].columns, c.val) && Covers(indexes[k].columns, row) {
    }
  }

  /** The indexes once the old keys are gone. */
  lemma FlagsDrop(was: seq<IndexTree>, c: Cell<int, Row>, row: Row, moved: seq<bool>)
    requires |was| == |moved| && MovedFlags(Views(was), c, row, moved)
    ensures var dropped := MovedDropped(was, c, moved);
      && AllCover(Views(dropped), row)
      && forall k :: 0 <= k < |was| ==> MovedTo(was[k], c, row, false, dropped[k])
  {
    var dropped := MovedDropped(was, c, moved);
    hide DeleteIn, InsertTree, SameKey, EntryKey;
    forall k | 0 <= k < |was| ensures MovedTo(was[k], c, row, false, dropped[k]) && Covers(Views(dropped)[k].columns, row) {
      assert Views(was)[k].columns == was[k].columns && moved[k] == !SameKey(Views(was)[k].columns, c.val, row);
      assert dropped[k] == if moved[k] then KeysDeleted(was, c)[k] else was[k];
    }
  }

  /** The indexes once the new keys are there, all of them or as far as they are short enough. */
  lemma FlagsAdd(was: seq<IndexTree>, c: Cell<int, Row>, row: Row, moved: seq<bool>, ok: bool, now: seq<IndexTree>)
    requires |was| == |moved| && MovedFlags(Views(was), c, row, moved)
    requires var dropped := MovedDropped(was, c, moved);
      AllCover(Views(dropped), row) && AddedTo(dropped, Cell(c.key, row), moved, ok, now)
    ensures ok <==> MovedKeysFit(Views(was), c, row)
    ensures |now| == |was| && (ok ==> now == KeysMoved(was, c, row))
    ensures !ok ==> MoveStopped(was, c, row, now)
  {
    hide KeyFits, SameKey, DeleteIn, InsertTree, EntryKey;
    var dropped, d := MovedDropped(was, c, moved), Cell(c.key, row);
    var n :| MovedStopsAt(dropped, d, moved, n) && now == MovedAdded(dropped, d, moved, n) && ok == (n == |moved|);
    forall k | 0 <= k < |was|
      ensures MovedTo(was[k], c, row, k < n, now[k]) && Views(dropped)[k].columns == Views(was)[k].columns
    {
      OneAdded(was, c, row, moved, n, k);
    }
    FlagsFit(Views(was), c, row, moved);
  }

  lemma OneAdded(was: seq<IndexTree>, c: Cell<int, Row>, row: Row, moved: seq<bool>, n: nat, k: nat)
    requires |was| == |moved| && MovedFlags(Views(was), c, row, moved) && k < |was|
    requires AllCover(Views(MovedDropped(was, c, moved)), row)
    ensures var dropped := MovedDropped(was, c, moved);
      && Views(dropped)[k].columns == Views(was)[k].columns == was[k].columns == dropped[k].columns
      && MovedTo(was[k], c, row, k < n, MovedAdded(dropped, Cell(c.key, row), moved, n)[k])
  {
    hide KeyFits, SameKey, EntryKey, InsertTree, DeleteIn;
    var dropped := MovedDropped(was, c, moved);
    assert moved[k] == !SameKey(Views(was)[k].columns, c.val, row);
    assert dropped[k] == if moved[k] then KeysDeleted(was, c)[k] else was[k];
    assert Covers(Views(was)[k].columns, c.val) && Covers(Views(was)[k].columns, row);
  }

  /** The row of a scan is found by a descent. */
  lemma IsThere(s: Stored, i: nat)
    requires Readable(s) && i < |StoredRows(s)|
    ensures BTreeOps.Get(CompareRowid, s.tree, StoredRows(s)[i].key).Some?
  {
    GetIsRow(s, StoredRows(s)[i].key);
  }

  /** What an update does on a table that is ready for it. */
  lemma UpdateTaken(dom: Value -> bool, s: Stored, i: nat, row: Row, free: bool, done: bool, t: Stored)
    requires i < |StoredRows(s)| && Prepared(dom, s, UpdateOp(StoredRows(s)[i].key, row))
    requires AllCover(Views(s.indexes), StoredRows(s)[i].val) && AllCover(Views(s.indexes), row)
    requires AllCheckable(dom, Views(s.indexes), StoredRows(s), StoredRows(s)[i], row) ==>
      (free <==> forall k :: 0 <= k < |s.indexes| ==> Clear(dom, Views(s.indexes)[k], StoredRows(s), StoredRows(s)[i], row))
    requires done ==> free && RowFits(row) && MovedKeysFit(Views(s.indexes), StoredRows(s)[i], row) && t == RowUpdate(s, StoredRows(s)[i], row)
    ensures Covered(View(s)) && AllCover(View(s).indexes, row) && (free <==> !Blocked(View(s), StoredRows(s)[i].key, row))
    ensures done && HasRoom(s, Do(UpdateOp(StoredRows(s)[i].key, row), 0)) ==>
      Whole(dom, t) && Step(dom, View(s), UpdateOp(StoredRows(s)[i].key, row), View(t))
  {
    AllAreCheckable(dom, s, i, row);
    WholeCovers(dom, s);
    BlockedIs(dom, View(s), i, StoredRows(s)[i].key, row);
    hide Whole, Checkable, RowFits, MovedKeysFit, RowUpdate, SameKey, Conflicts, UpdateHasRoom;
    if done && HasRoom(s, Do(UpdateOp(StoredRows(s)[i].key, row), 0)) {
      assert RowUpdated(s, i, row, t);
      UpdateMove(dom, s, i, row, 0, t);
    }
  }

  lemma AllAreCheckable(dom: Value -> bool, s: Stored, i: nat, row: Row)
    requires Whole(dom, s) && i < |StoredRows(s)| && Suits(dom, View(s), row)
    ensures AllCheckable(dom, Views(s.indexes), StoredRows(s), StoredRows(s)[i], row)
  {
    RowsCovered(dom, s, i);
    forall k | 0 <= k < |s.indexes| ensures Checkable(dom, Views(s.indexes)[k], StoredRows(s), StoredRows(s)[i], row) {
      IndexOf(dom, s, k);
      RowOfIndex(dom, s, k, row);
    }
  }

  // ---- index creation ----

  ghost predicate AllKeysFit(columns: seq<nat>, rows: Rows)
    requires forall i :: 0 <= i < |rows| ==> Covers(columns, rows[i].val)
  {
    forall i :: 0 <= i < |rows| ==> KeyFits(EntryKey(columns, rows[i]))
  }

  ghost predicate AllKeysShort(columns: seq<nat>, rows: Rows)
    requires forall i :: 0 <= i < |rows| ==> Covers(columns, rows[i].val)
  {
    forall i :: 0 <= i < |rows| ==> |Record.Encoded(EntryKey(columns, rows[i]))| <= MAX_KEY
  }

  lemma AllFitIsShort(columns: seq<nat>, rows: Rows)
    requires forall i :: 0 <= i < |rows| ==> Covers(columns, rows[i].val)
    ensures AllKeysFit(columns, rows) <==> AllKeysShort(columns, rows)
  {
    forall i | 0 <= i < |rows| ensures KeyFits(EntryKey(columns, rows[i])) <==> |Record.Encoded(EntryKey(columns, rows[i]))| <= MAX_KEY {
      KeyFitsIff(EntryKey(columns, rows[i]));
    }
  }

  lemma BuildPrepared(dom: Value -> bool, s: Stored, columns: seq<nat>, unique: bool, page: nat)
    requires Prepared(dom, s, BuildOp(columns, unique)) && HasRoom(s, Do(BuildOp(columns, unique), page))
    ensures (forall i :: 0 <= i < |StoredRows(s)| ==> Covers(columns, StoredRows(s)[i].val))
      && Fillable(dom, columns, unique, page, StoredRows(s))
  {
    hide Grown, InStep, FillReaches, FillHasRoom, SoundIndex, Decodable;
    assert Valid(dom, View(s)) && RowidsUsed(View(s).rows, View(s).nextID);
  }

  /** Building an index that succeeds on a table that is ready for it. */
  lemma BuildTaken(dom: Value -> bool, s: Stored, columns: seq<nat>, unique: bool, page: nat, t: Stored)
    requires Prepared(dom, s, BuildOp(columns, unique)) && HasRoom(s, Do(BuildOp(columns, unique), page))
    requires forall i :: 0 <= i < |StoredRows(s)| ==> Covers(columns, StoredRows(s)[i].val)
    requires forall i :: 0 <= i < |StoredRows(s)| ==> !ClashesBefore(columns, unique, StoredRows(s), i)
    requires t == RowsIndexed(s, columns, unique, page)
    ensures Whole(dom, t) && Step(dom, View(s), BuildOp(columns, unique), View(t))
  {
    hide Whole, HasRoom, Allowed, RowsIndexed, ClashesBefore;
    BuildMove(dom, s, columns, unique, page, t);
  }

  /** What filling in the first rows one by one has come to. */
  ghost predicate FilledTo(columns: seq<nat>, unique: bool, page: nat, rows: Rows, n: nat, ix: IndexTree)
    requires n <= |rows| && forall i :: 0 <= i < |rows| ==> Covers(columns, rows[i].val)
  {
    ix == IndexFilled(columns, unique, page, rows[..n]) && forall i :: 0 <= i < n ==> KeyFits(EntryKey(columns, rows[i]))
  }

  /** Rows of a table, in order, for which an index has room. */
  ghost predicate Fillable(dom: Value -> bool, columns: seq<nat>, unique: bool, page: nat, rows: Rows)
    requires forall i :: 0 <= i < |rows| ==> Covers(columns, rows[i].val)
  {
    && Domain(dom) && AllFine(dom, columns, rows) && Sorted(CompareRowid, rows) && (forall i :: 0 <= i < |rows| ==> rows[i].key >= 1)
    && FillReaches(columns, unique, page, rows) && FillHasRoom(columns, unique, page, rows)
  }

  /** Puts one more row into an index. */
  method FillOne(ix: IndexTree, c: Cell<int, Row>, ghost dom: Value -> bool, ghost before: Rows) returns (o: Outcome, more: IndexTree)
    requires Covers(ix.columns, c.val)
    ensures Agrees(dom, Viewed(ix), before) && Fine(dom, ix.columns, c.val) ==> (o == NotUnique <==> Conflicts(Viewed(ix), before, c.val, 0))
    ensures o in {Done, TooLarge} ==> (o == Done <==> KeyFits(EntryKey(ix.columns, c)))
    ensures o == Done ==> more == InsertKey(ix, EntryKey(ix.columns, c))
    ensures o != Missing
  {
    more := ix;
    var fine := CheckUnique(Viewed(ix), c.val, 0, dom, before);
    if fine {
      var key := EntryKey(ix.columns, c);
      o := if KeyFits(key) then Done else TooLarge;
      more := InsertKey(ix, key);
    } else {
      o := NotUnique;
    }
  }

  method FillIndex(columns: seq<nat>, unique: bool, page: nat, rows: Rows, ghost dom: Value -> bool) returns (o: Outcome, ix: IndexTree)
    requires forall i :: 0 <= i < |rows| ==> Covers(columns, rows[i].val)
    ensures o == Done ==> ix == IndexFilled(columns, unique, page, rows) && AllKeysShort(columns, rows)
    ensures o == TooLarge ==> !AllKeysShort(columns, rows)
    ensures Fillable(dom, columns, unique, page, rows) ==>
      (o == NotUnique <==> exists i :: 0 <= i < |rows| && ClashesBefore(columns, unique, rows, i))
    ensures o != Missing
  {
    hide Fillable, ClashesBefore, KeyFits, InsertKey, Agrees, Fine, Conflicts, AllKeysShort;
    AllFitIsShort(columns, rows);
    ix, o := IndexTree(columns, unique, Leaf(page, []), page + 1), Done;
    ghost var exact := Fillable(dom, columns, unique, page, rows);
    var i := 0;
    while i < |rows| && o == Done
      invariant i <= |rows| && o != Missing
      invariant o == Done ==> FilledTo(columns, unique, page, rows, i, ix)
      invariant o == TooLarge ==> !AllKeysFit(columns, rows)
      invariant exact && o == Done ==> forall j :: 0 <= j < i ==> !ClashesBefore(columns, unique, rows, j)
      invariant exact && o == NotUnique ==> i < |rows| && ClashesBefore(columns, unique, rows, i)
      decreases |rows| - i, o == Done
    {
      if exact { ReadyToFill(dom, columns, unique, page, rows, i, ix); }
      FilledOne(columns, unique, page, rows, i);
      o, ix := FillOne(ix, rows[i], dom, rows[..i]);
      if o == Done { i := i + 1; }
    }
    assert rows[..|rows|] == rows;
    if exact { AllFit(dom, columns, unique, page, rows); }
  }

  lemma FilledOne(columns: seq<nat>, unique: bool, page: nat, rows: Rows, i: nat)
    requires i < |rows| && forall j :: 0 <= j < |rows| ==> Covers(columns, rows[j].val)
    ensures IndexFilled(columns, unique, page, rows[..i + 1]) ==
      InsertKey(IndexFilled(columns, unique, page, rows[..i]), EntryKey(columns, rows[i]))
  {
    assert rows[..i + 1][..i] == rows[..i];
  }

  lemma {:induction false} PartFills(columns: seq<nat>, unique: bool, page: nat, rows: Rows, n: nat)
    requires n <= |rows| && forall i :: 0 <= i < |rows| ==> Covers(columns, rows[i].val)
    requires FillReaches(columns, unique, page, rows) && FillHasRoom(columns, unique, page, rows)
    ensures FillReaches(columns, unique, page, rows[..n]) && FillHasRoom(columns, unique, page, rows[..n])
  {
    hide IndexFilled, KeyFits, SepRoom, KeyRoom, EntryKey;
    if n < |rows| {
      PartFills(columns, unique, page, rows[..|rows| - 1], n);
      assert rows[..|rows| - 1][..n] == rows[..n];
    } else {
      assert rows[..n] == rows;
    }
  }

  lemma LastFits(columns: seq<nat>, unique: bool, page: nat, rows: Rows)
    requires rows != [] && (forall i :: 0 <= i < |rows| ==> Covers(columns, rows[i].val)) && FillReaches(columns, unique, page, rows)
    ensures KeyFits(EntryKey(columns, rows[|rows| - 1]))
  {
  }

  lemma AllFit(dom: Value -> bool, columns: seq<nat>, unique: bool, page: nat, rows: Rows)
    requires (forall i :: 0 <= i < |rows| ==> Covers(columns, rows[i].val)) && Fillable(dom, columns, unique, page, rows)
    ensures AllKeysFit(columns, rows)
  {
    hide KeyFits, SepRoom, FillHasRoom, AllFine, FillReaches;
    forall i | 0 <= i < |rows| ensures KeyFits(EntryKey(columns, rows[i])) {
      PartFills(columns, unique, page, rows, i + 1);
      LastFits(columns, unique, page, rows[..i + 1]);
    }
  }

  /** An index of the first rows, none of which is in the way of a later one of them. */
  lemma ReadyToFill(dom: Value -> bool, columns: seq<nat>, unique: bool, page: nat, rows: Rows, i: nat, ix: IndexTree)
    requires (forall j :: 0 <= j < |rows| ==> Covers(columns, rows[j].val)) && Fillable(dom, columns, unique, page, rows)
    requires i < |rows| && FilledTo(columns, unique, page, rows, i, ix)
    requires forall j :: 0 <= j < i ==> !ClashesBefore(columns, unique, rows, j)
    ensures ix.columns == columns && Agrees(dom, Viewed(ix), rows[..i]) && Fine(dom, columns, rows[i].val)
    ensures Conflicts(Viewed(ix), rows[..i], rows[i].val, 0) <==> ClashesBefore(columns, unique, rows, i)
  {
    PartIsFilled(dom, columns, unique, page, rows, i);
    PartIsInStep(dom, columns, unique, rows, i);
    hide Built, IndexFilled, Agrees, Distinct, Fillable;
    assert forall j :: 0 <= j < i ==> rows[..i][j] == rows[j];
    ConflictsElsewhere(Viewed(ix), Index(columns, unique, []), rows[..i], rows[i].val);
  }

  lemma PartIsFilled(dom: Value -> bool, columns: seq<nat>, unique: bool, page: nat, rows: Rows, i: nat)
    requires (forall j :: 0 <= j < |rows| ==> Covers(columns, rows[j].val)) && Fillable(dom, columns, unique, page, rows) && i <= |rows|
    ensures Viewed(IndexFilled(columns, unique, page, rows[..i])) == Built(columns, unique, rows[..i])
  {
    hide FillReaches, FillHasRoom, IndexFilled, Built;
    PartFills(columns, unique, page, rows, i);
    FillsUp(dom, columns, unique, page, rows[..i]);
  }

  lemma {:induction false} PartIsInStep(dom: Value -> bool, columns: seq<nat>, unique: bool, rows: Rows, n: nat)
    requires Domain(dom) && AllFine(dom, columns, rows) && Sorted(CompareRowid, rows) && n <= |rows|
    requires forall i :: 0 <= i < |rows| ==> rows[i].key >= 1
    requires forall i :: 0 <= i < n ==> !ClashesBefore(columns, unique, rows, i)
    ensures InStep(dom, Built(columns, unique, rows[..n]), rows[..n])
  {
    var part := rows[..n];
    forall i | 0 <= i < |part| ensures !ClashesBefore(columns, unique, part, i) {
      assert !ClashesBefore(columns, unique, rows, i) && part[..i] == rows[..i];
    }
    BuildIsInStep(dom, columns, unique, part);
  }

  /** A conflict is a matter of columns, not of entries. */
  lemma ConflictsElsewhere(a: Index, b: Index, rows: Rows, row: Row)
    requires a.columns == b.columns && a.unique == b.unique && Covers(a.columns, row)
    requires forall i :: 0 <= i < |rows| ==> Covers(a.columns, rows[i].val)
    ensures Conflicts(a, rows, row, 0) <==> Conflicts(b, rows, row, 0)
  {
  }
}
