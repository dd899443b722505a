/**
A table and its indexes as sorted sequences: what each successful operation should make of them, and that it
keeps every index in step with the table and every unique index without duplicates.
*/
module TableStates {
  import opened Bytes
  import opened Cells
  import opened Values
  import opened Tuples
  import opened Indexes
  import opened TableTree
  import Record

  datatype State = State(rows: Rows, nextID: int, indexes: seq<Index>)

  /** Indexed columns that compare as the numbers themselves, in every index. */
  ghost predicate Suits(dom: Value -> bool, s: State, row: Row) {
    forall k :: 0 <= k < |s.indexes| ==> Fine(dom, s.indexes[k].columns, row)
  }

  /** No two rows have the same indexed values, all of them there. */
  ghost predicate Distinct(ix: Index, rows: Rows)
    requires forall i :: 0 <= i < |rows| ==> Covers(ix.columns, rows[i].val)
  {
    forall i, j :: 0 <= i < |rows| && 0 <= j < |rows| && i != j ==> !Clash(ix, rows[i].val, rows[j].val)
  }

  predicate Clash(ix: Index, a: Row, b: Row)
    requires Covers(ix.columns, a) && Covers(ix.columns, b)
  {
    ix.unique && !HasNull(KeyCols(ix.columns, a)) && MatchesPrefix(KeyCols(ix.columns, a), KeyCols(ix.columns, b))
  }

  /** Rows of a unique index clash exactly if all their values are there and compare equal. */
  lemma ClashMeans(ix: Index, a: Row, b: Row)
    requires Covers(ix.columns, a) && Covers(ix.columns, b)
    ensures Clash(ix, a, b) <==> ix.unique && EqualIn(ix.columns, a, b)
  {
    EqualMeans(ix.columns, a, b);
  }

  /** An index in step with the table, and its rows distinct if it is unique. */
  ghost predicate InStep(dom: Value -> bool, ix: Index, rows: Rows) {
    Agrees(dom, ix, rows) && Distinct(ix, rows)
  }

  ghost predicate RowidsUsed(rows: Rows, nextID: int) {
    forall i :: 0 <= i < |rows| ==> 1 <= rows[i].key <= nextID
  }

  ghost predicate Valid(dom: Value -> bool, s: State) {
    && Sorted(CompareRowid, s.rows) && s.nextID >= 0 && RowidsUsed(s.rows, s.nextID)
    && Domain(dom)
    && forall k :: 0 <= k < |s.indexes| ==> InStep(dom, s.indexes[k], s.rows)
  }

  // ---- the operations ----

  ghost predicate AllCover(indexes: seq<Index>, row: Row) {
    forall k :: 0 <= k < |indexes| ==> Covers(indexes[k].columns, row)
  }

  function Added(indexes: seq<Index>, c: Cell<int, Row>): (r: seq<Index>)
    requires AllCover(indexes, c.val)
    ensures |r| == |indexes|
    ensures forall k {:trigger r[k]} :: 0 <= k < |r| ==> r[k] == AddKey(indexes[k], EntryKey(indexes[k].columns, c))
  {
    seq(|indexes|, k requires 0 <= k < |indexes| => AddKey(indexes[k], EntryKey(indexes[k].columns, c)))
  }

  function Dropped(indexes: seq<Index>, c: Cell<int, Row>): (r: seq<Index>)
    requires AllCover(indexes, c.val)
    ensures |r| == |indexes|
    ensures forall k {:trigger r[k]} :: 0 <= k < |r| ==> r[k] == DropKey(indexes[k], EntryKey(indexes[k].columns, c))
  {
    seq(|indexes|, k requires 0 <= k < |indexes| => DropKey(indexes[k], EntryKey(indexes[k].columns, c)))
  }

  function Inserted(s: State, row: Row): State
    requires AllCover(s.indexes, row)
  {
    var c := Cell(s.nextID + 1, row);
    State(Insert(CompareRowid, s.rows, c), s.nextID + 1, Added(s.indexes, c))
  }

  /** The indexed values have not changed, byte for byte. */
  predicate SameKey(columns: seq<nat>, a: Row, b: Row)
    requires Covers(columns, a) && Covers(columns, b)
  {
    Record.Encoded(KeyCols(columns, a)) == Record.Encoded(KeyCols(columns, b))
  }

  /** The keys are compared by their bytes, which is to say by their values: 1 and 1.0 differ here. */
  lemma SameKeyMeans(columns: seq<nat>, a: Row, b: Row)
    requires Covers(columns, a) && Covers(columns, b) && Record.StorableRow(KeyCols(columns, a)) && Record.StorableRow(KeyCols(columns, b))
    ensures SameKey(columns, a, b) <==> forall i :: 0 <= i < |columns| ==> a[columns[i]] == b[columns[i]]
  {
    var x, y := KeyCols(columns, a), KeyCols(columns, b);
    Record.EncodedIsInjective(x, y);
    assert forall i :: 0 <= i < |columns| ==> x[i] == a[columns[i]] && y[i] == b[columns[i]];
    if forall i :: 0 <= i < |columns| ==> a[columns[i]] == b[columns[i]] {
      assert forall i :: 0 <= i < |columns| ==> x[i] == y[i];
      assert x == y;
    }
  }

  /** An index whose entry of row `was` is replaced, unless the key is the same. */
  function Moved(ix: Index, was: Cell<int, Row>, row: Row): Index
    requires Covers(ix.columns, was.val) && Covers(ix.columns, row)
  {
    if SameKey(ix.columns, was.val, row) then ix
    else AddKey(DropKey(ix, EntryKey(ix.columns, was)), EntryKey(ix.columns, Cell(was.key, row)))
  }

  function AllMoved(indexes: seq<Index>, was: Cell<int, Row>, row: Row): (r: seq<Index>)
    requires AllCover(indexes, was.val) && AllCover(indexes, row)
    ensures |r| == |indexes|
    ensures forall k {:trigger r[k]} :: 0 <= k < |r| ==> r[k] == Moved(indexes[k], was, row)
  {
    seq(|indexes|, k requires 0 <= k < |indexes| => Moved(indexes[k], was, row))
  }

  function Updated(s: State, i: nat, row: Row): State
    requires i < |s.rows| && AllCover(s.indexes, s.rows[i].val) && AllCover(s.indexes, row)
  {
    s.(rows := s.rows[i := Cell(s.rows[i].key, row)], indexes := AllMoved(s.indexes, s.rows[i], row))
  }

  function Deleted(s: State, i: nat): State
    requires i < |s.rows| && AllCover(s.indexes, s.rows[i].val)
  {
    s.(rows := RemoveAt(s.rows, i), indexes := Dropped(s.indexes, s.rows[i]))
  }

  /** An index filled row by row. */
  function Built(columns: seq<nat>, unique: bool, rows: Rows): (ix: Index)
    requires forall i :: 0 <= i < |rows| ==> Covers(columns, rows[i].val)
    ensures ix.columns == columns && ix.unique == unique
  {
    if rows == [] then Index(columns, unique, [])
    else
      var n := |rows| - 1;
      AddKey(Built(columns, unique, rows[..n]), EntryKey(columns, rows[n]))
  }

  datatype Op = InsertOp(row: Row) | UpdateOp(id: int, row: Row) | DeleteOp(id: int) | BuildOp(columns: seq<nat>, unique: bool)

  /** What an operation asks of its arguments: rows that have the indexed columns, comparable values, a rowid that is left. */
  ghost predicate Allowed(dom: Value -> bool, s: State, op: Op) {
    match op
    case InsertOp(row) => Suits(dom, s, row) && s.nextID + 1 < TWO_63
    case UpdateOp(_, row) => Suits(dom, s, row) && KeysStorable(s, row) && forall i :: 0 <= i < |s.rows| ==> KeysStorable(s, s.rows[i].val)
    case DeleteOp(_) => true
    case BuildOp(columns, _) => AllFine(dom, columns, s.rows)
  }

  /** The indexed values have encodings of their own. */
  ghost predicate KeysStorable(s: State, row: Row) {
    forall k :: 0 <= k < |s.indexes| && Covers(s.indexes[k].columns, row) ==> Record.StorableRow(KeyCols(s.indexes[k].columns, row))
  }

  /** The operation succeeds, having made s into t. */
  ghost predicate Step(dom: Value -> bool, s: State, op: Op, t: State)
    requires Valid(dom, s) && Allowed(dom, s, op)
  {
    match op
    case InsertOp(row) => NoConflict(s, row) && t == Inserted(s, row)
    case UpdateOp(id, row) =>
      exists i :: 0 <= i < |s.rows| && UpdateAt(s, i, id, row, t)
    case DeleteOp(id) =>
      exists i :: 0 <= i < |s.rows| && s.rows[i].key == id && t == Deleted(s, i)
    case BuildOp(columns, unique) =>
      (forall i :: 0 <= i < |s.rows| ==> !ClashesBefore(columns, unique, s.rows, i))
      && t == s.(indexes := s.indexes + [Built(columns, unique, s.rows)])
  }

  ghost predicate UpdateAt(s: State, i: nat, id: int, row: Row, t: State)
    requires i < |s.rows| && Covered(s) && AllCover(s.indexes, row)
  {
    && s.rows[i].key == id && t == Updated(s, i, row)
    && forall k :: 0 <= k < |s.indexes| ==> MayMove(s.indexes[k], s.rows, s.rows[i], row)
  }

  /** Every row has the columns of every index. */
  ghost predicate Covered(s: State) {
    forall j :: 0 <= j < |s.rows| ==> AllCover(s.indexes, s.rows[j].val)
  }

  ghost predicate NoConflict(s: State, row: Row)
    requires Covered(s) && AllCover(s.indexes, row)
  {
    forall k :: 0 <= k < |s.indexes| ==> !Conflicts(s.indexes[k], s.rows, row, 0)
  }

  /** An index has the key of the row already, or no other row is in the way of its new key. */
  ghost predicate MayMove(ix: Index, rows: Rows, c: Cell<int, Row>, row: Row)
    requires Covers(ix.columns, c.val) && Covers(ix.columns, row) && forall j :: 0 <= j < |rows| ==> Covers(ix.columns, rows[j].val)
  {
    SameKey(ix.columns, c.val, row) || !Conflicts(ix, rows, row, c.key)
  }

  /** The row of rowid `id` cannot be given these values: some index has their key for another row. */
  ghost predicate Blocked(s: State, id: int, row: Row)
    requires Covered(s) && AllCover(s.indexes, row)
  {
    exists i, k :: 0 <= i < |s.rows| && 0 <= k < |s.indexes| && s.rows[i].key == id && !MayMove(s.indexes[k], s.rows, s.rows[i], row)
  }

  /** Row i clashes with one in front of it. */
  ghost predicate ClashesBefore(columns: seq<nat>, unique: bool, rows: Rows, i: nat)
    requires i < |rows| && forall j :: 0 <= j < |rows| ==> Covers(columns, rows[j].val)
  {
    Conflicts(Index(columns, unique, []), rows[..i], rows[i].val, 0)
  }

  // ---- distinctness ----

  lemma ClashSymmetric(dom: Value -> bool, ix: Index, a: Row, b: Row)
    requires Domain(dom) && Fine(dom, ix.columns, a) && Fine(dom, ix.columns, b)
    ensures Clash(ix, a, b) <==> Clash(ix, b, a)
  {
    var x, y := KeyCols(ix.columns, a), KeyCols(ix.columns, b);
    forall i | 0 <= i < |x| ensures Compare(x[i], y[i]) == 0 <==> Compare(y[i], x[i]) == 0 {
      IdealChain(x[i], y[i], y[i]);
    }
  }

  lemma ConflictIsClash(ix: Index, rows: Rows, row: Row, self: int)
    requires Covers(ix.columns, row) && forall i :: 0 <= i < |rows| ==> Covers(ix.columns, rows[i].val)
    ensures Conflicts(ix, rows, row, self) <==> exists i :: 0 <= i < |rows| && rows[i].key != self && Clash(ix, row, rows[i].val)
  {
  }

  /** A row without a conflict may join. */
  lemma {:induction false} JoinsDistinct(dom: Value -> bool, ix: Index, rows: Rows, c: Cell<int, Row>, at: nat)
    requires Domain(dom) && AllFine(dom, ix.columns, rows) && Fine(dom, ix.columns, c.val) && at <= |rows|
    requires Distinct(ix, rows) && forall i :: 0 <= i < |rows| ==> !Clash(ix, c.val, rows[i].val)
    ensures var more := InsertAt(rows, at, c);
      (forall i :: 0 <= i < |more| ==> Covers(ix.columns, more[i].val)) && Distinct(ix, more)
  {
    forall i | 0 <= i < |rows| ensures !Clash(ix, rows[i].val, c.val) {
      ClashSymmetric(dom, ix, rows[i].val, c.val);
    }
  }

  lemma LeavesDistinct(ix: Index, rows: Rows, at: nat)
    requires at < |rows| && (forall i :: 0 <= i < |rows| ==> Covers(ix.columns, rows[i].val)) && Distinct(ix, rows)
    ensures var less := RemoveAt(rows, at);
      (forall i :: 0 <= i < |less| ==> Covers(ix.columns, less[i].val)) && Distinct(ix, less)
  {
  }

  // ---- images ----

  lemma ImageInsert(dom: Value -> bool, columns: seq<nat>, rows: Rows, at: nat, c: Cell<int, Row>)
    requires AllFine(dom, columns, rows) && at <= |rows| && Fine(dom, columns, c.val) && c.key >= MIN_ROWID
    ensures AllFine(dom, columns, InsertAt(rows, at, c))
    ensures Image(dom, columns, InsertAt(rows, at, c)) == Image(dom, columns, rows) + {EntryKey(columns, c)}
  {
    var more := InsertAt(rows, at, c);
    forall t | t in Image(dom, columns, rows) + {EntryKey(columns, c)} ensures t in Image(dom, columns, more) {
      if t == EntryKey(columns, c) {
        assert more[at] == c;
      } else {
        var i :| 0 <= i < |rows| && t == EntryKey(columns, rows[i]);
        assert more[if i < at then i else i + 1] == rows[i];
      }
    }
  }

  lemma ImageRemove(dom: Value -> bool, columns: seq<nat>, rows: Rows, at: nat)
    requires AllFine(dom, columns, rows) && at < |rows| && Sorted(CompareRowid, rows)
    ensures AllFine(dom, columns, RemoveAt(rows, at))
    ensures Image(dom, columns, RemoveAt(rows, at)) == Image(dom, columns, rows) - {EntryKey(columns, rows[at])}
  {
    var less := RemoveAt(rows, at);
    forall i | 0 <= i < |less|
      ensures Fine(dom, columns, less[i].val) && less[i].key >= MIN_ROWID
      ensures EntryKey(columns, less[i]) in Image(dom, columns, rows) && EntryKey(columns, less[i]) != EntryKey(columns, rows[at])
    {
      var j := if i < at then i else i + 1;
      assert less[i] == rows[j];
      SameRowid(rows, at, j);
      KeysDiffer(columns, rows[j], rows[at]);
    }
    OthersRemain(dom, columns, rows, at);
  }

  lemma OthersRemain(dom: Value -> bool, columns: seq<nat>, rows: Rows, at: nat)
    requires AllFine(dom, columns, rows) && at < |rows| && AllFine(dom, columns, RemoveAt(rows, at))
    ensures forall t :: t in Image(dom, columns, rows) && t != EntryKey(columns, rows[at]) ==> t in Image(dom, columns, RemoveAt(rows, at))
  {
    var less := RemoveAt(rows, at);
    forall t | t in Image(dom, columns, rows) && t != EntryKey(columns, rows[at]) ensures t in Image(dom, columns, less) {
      var i :| 0 <= i < |rows| && t == EntryKey(columns, rows[i]);
      assert less[if i < at then i else i - 1] == rows[i];
    }
  }

  lemma KeysDiffer(columns: seq<nat>, c: Cell<int, Row>, d: Cell<int, Row>)
    requires Covers(columns, c.val) && Covers(columns, d.val) && c.key != d.key
    ensures EntryKey(columns, c) != EntryKey(columns, d)
  {
    assert EntryKey(columns, c)[|columns|] == Integer(c.key) && EntryKey(columns, d)[|columns|] == Integer(d.key);
  }

  // ---- every operation keeps the indexes in step ----

  lemma InsertKeepsStep(dom: Value -> bool, ix: Index, rows: Rows, c: Cell<int, Row>, at: nat)
    requires InStep(dom, ix, rows) && Fine(dom, ix.columns, c.val) && c.key >= MIN_ROWID && at <= |rows|
    requires forall i :: 0 <= i < |rows| ==> rows[i].key != c.key && !Clash(ix, c.val, rows[i].val)
    ensures InStep(dom, AddKey(ix, EntryKey(ix.columns, c)), InsertAt(rows, at, c))
  {
    ImageInsert(dom, ix.columns, rows, at, c);
    AddAgrees(dom, ix, rows, c, InsertAt(rows, at, c));
    JoinsDistinct(dom, ix, rows, c, at);
    SameColumns(AddKey(ix, EntryKey(ix.columns, c)), ix, InsertAt(rows, at, c));
  }

  /** Distinctness is about columns, not entries. */
  lemma SameColumns(a: Index, b: Index, rows: Rows)
    requires a.columns == b.columns && a.unique == b.unique
    requires (forall i :: 0 <= i < |rows| ==> Covers(b.columns, rows[i].val)) && Distinct(b, rows)
    ensures Distinct(a, rows)
  {
    forall i, j | 0 <= i < |rows| && 0 <= j < |rows| && i != j ensures !Clash(a, rows[i].val, rows[j].val) {
      assert !Clash(b, rows[i].val, rows[j].val);
    }
  }

  lemma DeleteKeepsStep(dom: Value -> bool, ix: Index, rows: Rows, i: nat)
    requires InStep(dom, ix, rows) && i < |rows| && Sorted(CompareRowid, rows)
    ensures InStep(dom, DropKey(ix, EntryKey(ix.columns, rows[i])), RemoveAt(rows, i))
  {
    ImageRemove(dom, ix.columns, rows, i);
    DropAgrees(dom, ix, rows, i, RemoveAt(rows, i));
    LeavesDistinct(ix, rows, i);
    SameColumns(DropKey(ix, EntryKey(ix.columns, rows[i])), ix, RemoveAt(rows, i));
  }

  lemma ReplaceIsRemoveInsert(rows: Rows, i: nat, c: Cell<int, Row>)
    requires i < |rows|
    ensures rows[i := c] == InsertAt(RemoveAt(rows, i), i, c)
  {
  }

  lemma UpdateKeepsStep(dom: Value -> bool, ix: Index, rows: Rows, i: nat, row: Row)
    requires InStep(dom, ix, rows) && i < |rows| && Sorted(CompareRowid, rows) && Fine(dom, ix.columns, row)
    requires Record.StorableRow(KeyCols(ix.columns, row)) && Record.StorableRow(KeyCols(ix.columns, rows[i].val))
    requires SameKey(ix.columns, rows[i].val, row) || !Conflicts(ix, rows, row, rows[i].key)
    ensures InStep(dom, Moved(ix, rows[i], row), rows[i := Cell(rows[i].key, row)])
  {
    var c := Cell(rows[i].key, row);
    if SameKey(ix.columns, rows[i].val, row) {
      Record.EncodedIsInjective(KeyCols(ix.columns, rows[i].val), KeyCols(ix.columns, row));
      SameKeyKeepsStep(dom, ix, rows, i, c);
    } else {
      var less, mid := RemoveAt(rows, i), DropKey(ix, EntryKey(ix.columns, rows[i]));
      DeleteKeepsStep(dom, ix, rows, i);
      ConflictIsClash(ix, rows, row, rows[i].key);
      forall j | 0 <= j < |less| ensures less[j].key != c.key && !Clash(mid, c.val, less[j].val) {
        var k := if j < i then j else j + 1;
        SameRowid(rows, i, k);
        assert less[j] == rows[k] && !Clash(ix, row, rows[k].val);
      }
      InsertKeepsStep(dom, mid, less, c, i);
      ReplaceIsRemoveInsert(rows, i, c);
    }
  }

  lemma SameKeyKeepsStep(dom: Value -> bool, ix: Index, rows: Rows, i: nat, c: Cell<int, Row>)
    requires InStep(dom, ix, rows) && i < |rows| && Fine(dom, ix.columns, c.val)
    requires c.key == rows[i].key && KeyCols(ix.columns, c.val) == KeyCols(ix.columns, rows[i].val)
    ensures InStep(dom, ix, rows[i := c])
  {
    var next := rows[i := c];
    assert EntryKey(ix.columns, c) == EntryKey(ix.columns, rows[i]);
    assert Image(dom, ix.columns, next) == Image(dom, ix.columns, rows) by {
      forall t | t in Image(dom, ix.columns, rows) ensures t in Image(dom, ix.columns, next) {
        var j :| 0 <= j < |rows| && t == EntryKey(ix.columns, rows[j]);
        assert t == EntryKey(ix.columns, next[j]);
      }
    }
    forall j, k | 0 <= j < |next| && 0 <= k < |next| && j != k ensures !Clash(ix, next[j].val, next[k].val) {
      assert !Clash(ix, rows[j].val, rows[k].val);
    }
  }

  lemma {:induction false} BuildIsInStep(dom: Value -> bool, columns: seq<nat>, unique: bool, rows: Rows)
    requires Domain(dom) && AllFine(dom, columns, rows) && Sorted(CompareRowid, rows)
    requires forall i :: 0 <= i < |rows| ==> rows[i].key >= 1
    requires forall i :: 0 <= i < |rows| ==> !ClashesBefore(columns, unique, rows, i)
    ensures InStep(dom, Built(columns, unique, rows), rows)
  {
    if rows != [] {
      var n := |rows| - 1;
      var less, c, ix := rows[..n], rows[n], Built(columns, unique, rows[..n]);
      forall i | 0 <= i < |less| ensures !ClashesBefore(columns, unique, less, i) {
        assert !ClashesBefore(columns, unique, rows, i);
        assert less[..i] == rows[..i];
      }
      BuildIsInStep(dom, columns, unique, less);
      ConflictIsClash(Index(columns, unique, []), less, c.val, 0);
      assert !ClashesBefore(columns, unique, rows, n);
      forall i | 0 <= i < |less| ensures less[i].key != c.key && !Clash(ix, c.val, less[i].val) {
        SameRowid(rows, i, n);
        assert !Clash(Index(columns, unique, []), c.val, less[i].val);
      }
      InsertKeepsStep(dom, ix, less, c, n);
      assert InsertAt(less, n, c) == rows;
    }
  }

  // ---- every operation keeps the state valid ----

  lemma RowidOrder()
    ensures TotalPreorder(CompareRowid)
  {
    forall a, b, c ensures Chain(CompareRowid, a, b, c) {
    }
  }

  lemma {:induction false} InsertKeepsValid(dom: Value -> bool, s: State, row: Row)
    requires Valid(dom, s) && Suits(dom, s, row) && s.nextID + 1 < TWO_63 && NoConflict(s, row)
    ensures Valid(dom, Inserted(s, row))
  {
    hide Distinct, Sorted, Conflicts, Image;
    var c := Cell(s.nextID + 1, row);
    NewRowid(s.rows, s.nextID, row);
    forall k | 0 <= k < |s.indexes|
      ensures InStep(dom, AddKey(s.indexes[k], EntryKey(s.indexes[k].columns, c)), Insert(CompareRowid, s.rows, c))
    {
      JoinKeepsStep(dom, s.indexes[k], s.rows, c);
    }
    JoinedIsValid(dom, s, row);
  }

  lemma JoinedIsValid(dom: Value -> bool, s: State, row: Row)
    requires Valid(dom, s) && Suits(dom, s, row)
    requires var c := Cell(s.nextID + 1, row); var more := Insert(CompareRowid, s.rows, c);
      && Sorted(CompareRowid, more) && RowidsUsed(more, s.nextID + 1)
      && forall k :: 0 <= k < |s.indexes| ==> InStep(dom, AddKey(s.indexes[k], EntryKey(s.indexes[k].columns, c)), more)
    ensures Valid(dom, Inserted(s, row))
  {
    var c, t := Cell(s.nextID + 1, row), Inserted(s, row);
    forall k | 0 <= k < |t.indexes| ensures InStep(dom, t.indexes[k], t.rows) {
      assert t.indexes[k] == AddKey(s.indexes[k], EntryKey(s.indexes[k].columns, c));
    }
  }

  lemma JoinKeepsStep(dom: Value -> bool, ix: Index, rows: Rows, c: Cell<int, Row>)
    requires InStep(dom, ix, rows) && Fine(dom, ix.columns, c.val) && c.key >= 1
    requires !Conflicts(ix, rows, c.val, 0) && forall i :: 0 <= i < |rows| ==> rows[i].key != c.key && rows[i].key >= 1
    ensures InStep(dom, AddKey(ix, EntryKey(ix.columns, c)), Insert(CompareRowid, rows, c))
  {
    ConflictIsClash(ix, rows, c.val, 0);
    InsertKeepsStep(dom, ix, rows, c, Slot(CompareRowid, rows, c.key));
  }

  /** The next rowid is free. */
  lemma NewRowid(rows: Rows, nextID: int, row: Row)
    requires Sorted(CompareRowid, rows) && RowidsUsed(rows, nextID) && nextID >= 0
    ensures var more := Insert(CompareRowid, rows, Cell(nextID + 1, row));
      Sorted(CompareRowid, more) && RowidsUsed(more, nextID + 1)
    ensures forall i :: 0 <= i < |rows| ==> rows[i].key != nextID + 1
  {
    RowidOrder();
    InsertSorted(CompareRowid, rows, Cell(nextID + 1, row));
  }

  lemma UpdateKeepsValid(dom: Value -> bool, s: State, i: nat, id: int, row: Row, t: State)
    requires Valid(dom, s) && Allowed(dom, s, UpdateOp(id, row)) && i < |s.rows| && UpdateAt(s, i, id, row, t)
    ensures Valid(dom, t)
  {
    assert forall j, k :: 0 <= j < k < |s.rows| ==> t.rows[j].key == s.rows[j].key && t.rows[k].key == s.rows[k].key;
    forall k | 0 <= k < |s.indexes| ensures InStep(dom, t.indexes[k], t.rows) {
      UpdateKeepsStep(dom, s.indexes[k], s.rows, i, row);
    }
  }

  lemma DeleteKeepsValid(dom: Value -> bool, s: State, i: nat)
    requires Valid(dom, s) && i < |s.rows|
    ensures Valid(dom, Deleted(s, i))
  {
    var t := Deleted(s, i);
    DeleteKeepsSorted(CompareRowid, s.rows, i);
    forall k | 0 <= k < |s.indexes| ensures InStep(dom, t.indexes[k], t.rows) {
      DeleteKeepsStep(dom, s.indexes[k], s.rows, i);
    }
  }

  // ---- what is refused ----

  /** No two rows have equal values, all there, in these columns. */
  ghost predicate NoTwoEqual(columns: seq<nat>, rows: Rows) {
    && (forall i :: 0 <= i < |rows| ==> Covers(columns, rows[i].val))
    && forall i, j :: 0 <= i < |rows| && 0 <= j < |rows| && i != j ==> !EqualIn(columns, rows[i].val, rows[j].val)
  }

  /** In the columns of some unique index the two rows have equal values, all there. */
  ghost predicate Alike(indexes: seq<Index>, a: Row, b: Row)
    requires AllCover(indexes, a) && AllCover(indexes, b)
  {
    exists k :: 0 <= k < |indexes| && indexes[k].unique && EqualIn(indexes[k].columns, a, b)
  }

  /** An insertion is refused exactly if the new row is equal to some row in the columns of a unique index. */
  lemma InsertRefused(dom: Value -> bool, s: State, row: Row)
    requires Valid(dom, s) && Suits(dom, s, row)
    ensures Covered(s) && AllCover(s.indexes, row)
    ensures NoConflict(s, row) <==> forall i :: 0 <= i < |s.rows| ==> !Alike(s.indexes, row, s.rows[i].val)
  {
    AllAreCovered(dom, s, row);
    hide InStep, Conflicts, EqualIn, Suits, Domain;
    forall k | 0 <= k < |s.indexes|
      ensures Conflicts(s.indexes[k], s.rows, row, 0) <==>
        s.indexes[k].unique && exists i :: 0 <= i < |s.rows| && s.rows[i].key != 0 && EqualIn(s.indexes[k].columns, row, s.rows[i].val)
    {
      ConflictMeans(s.indexes[k], s.rows, row, 0);
    }
  }

  lemma AllAreCovered(dom: Value -> bool, s: State, row: Row)
    requires Valid(dom, s) && Suits(dom, s, row)
    ensures Covered(s) && AllCover(s.indexes, row)
  {
    hide Distinct, KeySet, Image;
  }

  /** An update is refused exactly if the new row is so equal to another row than the one it replaces, whatever values that one has. */
  lemma UpdateRefused(dom: Value -> bool, s: State, i: nat, row: Row)
    requires i < |s.rows| && Valid(dom, s) && Allowed(dom, s, UpdateOp(s.rows[i].key, row))
    ensures Covered(s) && AllCover(s.indexes, row)
    ensures (forall k :: 0 <= k < |s.indexes| ==> MayMove(s.indexes[k], s.rows, s.rows[i], row)) <==>
      forall j :: 0 <= j < |s.rows| && j != i ==> !Alike(s.indexes, row, s.rows[j].val)
  {
    AllAreCovered(dom, s, row);
    hide InStep, Conflicts, EqualIn, MayMove, Suits, Domain;
    forall k | 0 <= k < |s.indexes|
      ensures MayMove(s.indexes[k], s.rows, s.rows[i], row) <==> (s.indexes[k].unique ==>
        forall j :: 0 <= j < |s.rows| && j != i ==> !EqualIn(s.indexes[k].columns, row, s.rows[j].val))
    {
      assert AllCover(s.indexes, s.rows[i].val);
      MayMoveMeans(dom, s.indexes[k], s.rows, i, row);
    }
  }

  lemma MayMoveMeans(dom: Value -> bool, ix: Index, rows: Rows, i: nat, row: Row)
    requires InStep(dom, ix, rows) && Sorted(CompareRowid, rows) && i < |rows| && Covers(ix.columns, row)
    requires forall j :: 0 <= j < |rows| ==> Covers(ix.columns, rows[j].val)
    requires Record.StorableRow(KeyCols(ix.columns, row)) && Record.StorableRow(KeyCols(ix.columns, rows[i].val))
    ensures MayMove(ix, rows, rows[i], row) <==> (ix.unique ==>
      forall j :: 0 <= j < |rows| && j != i ==> !EqualIn(ix.columns, row, rows[j].val))
  {
    hide KeySet, Image, Agrees;
    ConflictMeans(ix, rows, row, rows[i].key);
    forall j | 0 <= j < |rows| ensures rows[j].key == rows[i].key <==> j == i {
      SameRowid(rows, j, i);
    }
    if SameKey(ix.columns, rows[i].val, row) {
      SameKeyMeans(ix.columns, rows[i].val, row);
      forall j | 0 <= j < |rows| && j != i && ix.unique ensures !EqualIn(ix.columns, row, rows[j].val) {
        ClashMeans(ix, rows[i].val, rows[j].val);
      }
    }
  }

  /** A unique index cannot be built exactly if two rows are equal in its columns; an index that is not unique always can. */
  lemma BuildRefused(dom: Value -> bool, columns: seq<nat>, unique: bool, rows: Rows)
    requires AllFine(dom, columns, rows) && forall i :: 0 <= i < |rows| ==> rows[i].key >= 1
    ensures (forall i :: 0 <= i < |rows| ==> !ClashesBefore(columns, unique, rows, i)) <==> !unique || NoTwoEqual(columns, rows)
  {
    var ix := Index(columns, unique, []);
    forall i | 0 <= i < |rows|
      ensures ClashesBefore(columns, unique, rows, i) <==> unique && exists j :: 0 <= j < i && EqualIn(columns, rows[i].val, rows[j].val)
    {
      ConflictMeans(ix, rows[..i], rows[i].val, 0);
    }
    forall i, j | 0 <= i < |rows| && 0 <= j < |rows| ensures EqualIn(columns, rows[i].val, rows[j].val) <==> EqualIn(columns, rows[j].val, rows[i].val) {
      EqualBothWays(columns, rows[i].val, rows[j].val);
    }
  }

  lemma EqualBothWays(columns: seq<nat>, a: Row, b: Row)
    requires Covers(columns, a) && Covers(columns, b)
    ensures EqualIn(columns, a, b) <==> EqualIn(columns, b, a)
  {
    forall i | 0 <= i < |columns| ensures Compare(a[columns[i]], b[columns[i]]) == 0 <==> Compare(b[columns[i]], a[columns[i]]) == 0 {
      CompareFlips(a[columns[i]], b[columns[i]]);
    }
  }

  // ---- what the rows are afterwards ----

  /** The effect of an operation on the rows and the next rowid, and on how many indexes there are. */
  ghost predicate Does(s: State, op: Op, t: State) {
    match op
    case InsertOp(row) => t.rows == s.rows + [Cell(s.nextID + 1, row)] && t.nextID == s.nextID + 1 && |t.indexes| == |s.indexes|
    case UpdateOp(id, row) =>
      && t.nextID == s.nextID && |t.rows| == |s.rows| && |t.indexes| == |s.indexes| && (exists i :: 0 <= i < |s.rows| && s.rows[i].key == id)
      && forall i :: 0 <= i < |s.rows| ==> t.rows[i] == if s.rows[i].key == id then Cell(id, row) else s.rows[i]
    case DeleteOp(id) =>
      && t.nextID == s.nextID && |t.indexes| == |s.indexes|
      && exists i :: 0 <= i < |s.rows| && s.rows[i].key == id && t.rows == s.rows[..i] + s.rows[i + 1..]
    case BuildOp(columns, unique) =>
      && t.nextID == s.nextID && t.rows == s.rows
      && |t.indexes| == |s.indexes| + 1 && t.indexes[..|s.indexes|] == s.indexes
      && t.indexes[|s.indexes|].columns == columns && t.indexes[|s.indexes|].unique == unique
  }

  /** A new row goes behind all others with the next rowid, an update replaces the row of its rowid, a deletion takes it out, and an index leaves the rows alone. */
  lemma {:induction false} StepMeans(dom: Value -> bool, s: State, op: Op, t: State)
    requires Valid(dom, s) && Allowed(dom, s, op) && Step(dom, s, op, t)
    ensures Does(s, op, t)
  {
    hide Agrees, Distinct, Domain, KeysStorable, NoConflict, MayMove, Added, AllMoved, Dropped, Built;
    match op
    case InsertOp(row) => LastRow(s.rows, s.nextID, row);
    case UpdateOp(id, row) => UpdateMeans(dom, s, id, row, t);
    case DeleteOp(_) =>
    case BuildOp(_, _) =>
  }

  lemma {:induction false} UpdateMeans(dom: Value -> bool, s: State, id: int, row: Row, t: State)
    requires Valid(dom, s) && Allowed(dom, s, UpdateOp(id, row)) && Step(dom, s, UpdateOp(id, row), t)
    ensures Does(s, UpdateOp(id, row), t)
  {
    hide Distinct, Domain, KeysStorable, NoConflict, AllMoved, KeySet, Image, Conflicts;
    var i :| 0 <= i < |s.rows| && UpdateAt(s, i, id, row, t);
    forall j | 0 <= j < |s.rows| && s.rows[j].key == id ensures j == i {
      SameRowid(s.rows, j, i);
    }
  }

  lemma LastRow(rows: Rows, nextID: int, row: Row)
    requires Sorted(CompareRowid, rows) && RowidsUsed(rows, nextID)
    ensures Insert(CompareRowid, rows, Cell(nextID + 1, row)) == rows + [Cell(nextID + 1, row)]
  {
    InsertLast(CompareRowid, rows, Cell(nextID + 1, row));
  }

  /** Uniqueness does not tell 1 from 1.0: the insertion of one next to the other is a conflict. */
  lemma OneConflictsWithOne()
    ensures var ix := Index([0], true, []); var one := 0x3FF0_0000_0000_0000;
      NumberOf(one) == Finite(1.0) && Conflicts(ix, [Cell(1, [Integer(1)])], [Real(one)], 0)
  {
    var ix, one, rows := Index([0], true, []), 0x3FF0_0000_0000_0000, [Cell(1, [Integer(1)])];
    assert Pow2(0) == 1 && Pow2(52) == 0x10_0000_0000_0000 by { PowerOf52(); }
    FloatExact(1);
    assert MatchesPrefix(KeyCols(ix.columns, [Real(one)]), KeyCols(ix.columns, rows[0].val));
  }

  lemma PowerOf52()
    ensures Pow2(52) == 0x10_0000_0000_0000
  {
    assert Pow2(10) == 1024;
    assert Pow2(20) == 0x10_0000;
    assert Pow2(30) == 0x4000_0000;
    assert Pow2(40) == 0x100_0000_0000;
    assert Pow2(50) == 0x4_0000_0000_0000;
  }
}
