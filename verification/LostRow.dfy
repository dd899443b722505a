/**
A run of successful operations after which an index does not agree with its table: an index on the first column, two
short rows, and three rows of about half a page, the last of which finds no room in its half of a split leaf.
*/
module LostRows {
  import opened Bytes
  import opened Cells
  import opened BTree
  import opened Values
  import opened Indexes
  import opened IndexTrees
  import opened TableTree
  import opened TableStates
  import opened StoredTables
  import opened TableRuns
  import Record

  /** Row i: its own number, and text a or text b. */
  function RowNo(i: nat, a: seq<Byte>, b: seq<Byte>): Row {
    [Integer(i), Value.Text(if i <= 2 then a else b)]
  }

  function CellNo(i: nat, a: seq<Byte>, b: seq<Byte>): Cell<int, Row> { Cell(i, RowNo(i, a, b)) }

  ghost predicate Texts(a: seq<Byte>, b: seq<Byte>) { |a| == 1 && |b| == 1980 }

  /** The first n rows and their entries, each kind on one leaf. */
  ghost predicate HasFirst(s: Stored, n: nat, a: seq<Byte>, b: seq<Byte>) {
    && Whole(Exact, s) && s.nextID == n && s.tree.Leaf? && |s.tree.cells| == n
    && (forall i :: 0 <= i < n ==> s.tree.cells[i] == RowCell(CellNo(i + 1, a, b)))
    && |s.indexes| == 1 && s.indexes[0].columns == [0] && !s.indexes[0].unique && s.indexes[0].tree.Leaf?
    && Total(SourceLayout().leafSize, s.indexes[0].tree.cells) <= 23 * n
  }

  // ---- sizes ----

  lemma EncodedPair(v: Value, w: Value)
    ensures |Record.Encoded([v, w])| == 1 + |Record.EncodeValue(v)| + |Record.EncodeValue(w)|
  {
    assert [v, w][1..] == [w] && [w][1..] == [];
    assert Record.EncodeAll([w]) == Record.EncodeValue(w) + Record.EncodeAll([]);
    assert PutUvarint(2) == [2];
  }

  lemma IntegerSize(n: int)
    ensures |Record.EncodeValue(Integer(n))| == 9
  {
    assert PutUvarint(1) == [1];
  }

  lemma TextSize(t: seq<Byte>)
    requires |t| < 16384
    ensures |Record.EncodeValue(Value.Text(t))| == 1 + (if |t| < 128 then 1 else 2) + |t|
  {
    ShortUvarint(|t|);
    assert PutUvarint(3) == [3];
  }

  lemma RowSize(i: nat, a: seq<Byte>, b: seq<Byte>)
    requires Texts(a, b) && i <= 5
    ensures LeafSize(RowCell(CellNo(i, a, b))) == if i <= 2 then 24 else 2005
    ensures RowFits(RowNo(i, a, b)) && Record.StorableRow(RowNo(i, a, b))
  {
    var t := if i <= 2 then a else b;
    hide Record.Encoded, Record.EncodeValue;
    EncodedPair(Integer(i), Value.Text(t));
    IntegerSize(i);
    TextSize(t);
    ShortUvarint(|Record.Encoded(RowNo(i, a, b))|);
  }

  lemma KeyOf(i: nat, a: seq<Byte>, b: seq<Byte>)
    ensures Covers([0], RowNo(i, a, b)) && EntryKey([0], CellNo(i, a, b)) == [Integer(i), Integer(i)]
  {
    assert KeyCols([0], RowNo(i, a, b)) == [Integer(i)];
  }

  lemma KeySize(i: nat, a: seq<Byte>, b: seq<Byte>)
    ensures Covers([0], RowNo(i, a, b))
    ensures var k := EntryKey([0], CellNo(i, a, b)); KeyFits(k) && SourceLayout().leafSize(Cell(k, Unit)) == 23
  {
    KeyOf(i, a, b);
    EncodedPair(Integer(i), Integer(i));
    IntegerSize(i);
    ShortUvarint(19);
  }

  // ---- one row more ----

  lemma RowIsFine(i: nat, a: seq<Byte>, b: seq<Byte>)
    requires i <= 5
    ensures Fine(Exact, [0], RowNo(i, a, b))
  {
    KeyOf(i, a, b);
    assert KeyCols([0], RowNo(i, a, b)) == [Integer(i)] && Exact(Integer(i));
  }

  lemma RowSuits(s: Stored, n: nat, a: seq<Byte>, b: seq<Byte>)
    requires HasFirst(s, n, a, b) && n < 5
    ensures Suits(Exact, View(s), RowNo(n + 1, a, b)) && AllCover(Views(s.indexes), RowNo(n + 1, a, b))
  {
    hide Whole, RowCell, Exact, RowNo;
    RowIsFine(n + 1, a, b);
    assert forall k :: 0 <= k < |s.indexes| ==> Views(s.indexes)[k].columns == [0];
  }

  lemma RowIsFree(s: Stored, n: nat, a: seq<Byte>, b: seq<Byte>)
    requires HasFirst(s, n, a, b) && AllCover(Views(s.indexes), RowNo(n + 1, a, b))
    ensures Covered(View(s)) && NoConflict(View(s), RowNo(n + 1, a, b)) && KeysFit(Views(s.indexes), CellNo(n + 1, a, b))
  {
    hide Whole, KeyFits, RowNo, RowCell, Readable, SourceLayout, EntryKey;
    WholeCovers(Exact, s);
    KeySize(n + 1, a, b);
    assert forall k :: 0 <= k < |s.indexes| ==> Views(s.indexes)[k].columns == [0] && !Views(s.indexes)[k].unique;
  }

  lemma RowIsAllowed(s: Stored, n: nat, a: seq<Byte>, b: seq<Byte>)
    requires HasFirst(s, n, a, b) && n < 5 && Texts(a, b)
    ensures InsertCan(Exact, s, RowNo(n + 1, a, b))
  {
    hide Whole, KeyFits, RowFits, Covered, NoConflict, Suits, KeysFit, RowNo, RowCell;
    RowSize(n + 1, a, b);
    RowSuits(s, n, a, b);
    RowIsFree(s, n, a, b);
  }

  lemma LeafFirst<K, V>(lay: Layout<K, V>, id: nat, cells: seq<Cell<K, V>>, c: Cell<K, V>, next: nat)
    requires Total(lay.leafSize, cells) + lay.leafSize(c) <= ROOM
    ensures InsertTree(lay, Leaf(id, cells), c, next) == (Leaf(id, Insert(lay.cmp, cells, c)), next)
    ensures LeafFits(lay, LeafFor(lay.cmp, Leaf(id, cells), c.key).cells, c) && SepsFit(lay, Leaf(id, cells), c, next)
    ensures Total(lay.leafSize, Insert(lay.cmp, cells, c)) == Total(lay.leafSize, cells) + lay.leafSize(c)
  {
    TotalInsertAt(lay.leafSize, cells, Slot(lay.cmp, cells, c.key), c);
  }

  lemma {:induction false} SumFirst(cells: seq<Cell<int, Payload>>, n: nat, a: seq<Byte>, b: seq<Byte>)
    requires Texts(a, b) && |cells| == n <= 4 && forall i :: 0 <= i < n ==> cells[i] == RowCell(CellNo(i + 1, a, b))
    ensures Total(LeafSize, cells) == if n <= 2 then 24 * n else 48 + 2005 * (n - 2)
  {
    hide RowNo, RowCell, LeafSize, RowFits;
    if n > 0 {
      var init := cells[..n - 1];
      SumFirst(init, n - 1, a, b);
      RowSize(n, a, b);
      assert cells == init + [cells[n - 1]];
      TotalSnoc(LeafSize, init, cells[n - 1]);
    }
  }

  /** The index takes the key of the next row on its leaf. */
  lemma KeyJoins(s: Stored, n: nat, a: seq<Byte>, b: seq<Byte>)
    requires HasFirst(s, n, a, b) && n < 5
    ensures Covers([0], RowNo(n + 1, a, b))
    ensures var k := EntryKey([0], CellNo(n + 1, a, b)); var ix := InsertKey(s.indexes[0], k);
      && KeyRoom(s.indexes[0], k) && SepRoom(s.indexes[0], k)
      && ix.columns == [0] && !ix.unique && ix.tree.Leaf? && Total(SourceLayout().leafSize, ix.tree.cells) <= 23 * (n + 1)
  {
    hide Whole, RowNo, RowCell, SourceLayout, EntryKey, InsertTree, SepsFit, LeafFits, KeyFits;
    KeySize(n + 1, a, b);
    var ix, k := s.indexes[0], EntryKey([0], CellNo(n + 1, a, b));
    LeafFirst(SourceLayout(), ix.tree.id, ix.tree.cells, Cell(k, Unit), ix.next);
  }

  /** The table takes the next row on its leaf, as long as that is not the fifth. */
  lemma RowJoins(s: Stored, n: nat, a: seq<Byte>, b: seq<Byte>)
    requires HasFirst(s, n, a, b) && n < 4 && Texts(a, b)
    ensures var c := RowCell(CellNo(n + 1, a, b));
      && RowRoom(s.tree, c) && InsertTree(TableLayout(), s.tree, c, s.next).0 == Leaf(s.tree.id, s.tree.cells + [c])
  {
    var c := RowCell(CellNo(n + 1, a, b));
    SumFirst(s.tree.cells, n, a, b);
    RowSize(n + 1, a, b);
    hide Whole;
    assert AllBelow(CompareRowid, s.tree.cells, n + 1);
    InsertLast(CompareRowid, s.tree.cells, c);
    LeafFirst(TableLayout(), s.tree.id, s.tree.cells, c, s.next);
  }

  lemma KeysAre(cells: seq<Cell<int, Payload>>, n: nat, a: seq<Byte>, b: seq<Byte>)
    requires |cells| == n && forall i :: 0 <= i < n ==> cells[i] == RowCell(CellNo(i + 1, a, b))
    ensures RowCell(CellNo(n + 1, a, b)).key == n + 1 && forall i :: 0 <= i < n ==> cells[i].key == i + 1
  {
  }

  /** The fifth row splits the leaf into two short rows and three long ones, for which there is no room. */
  lemma FifthIsUnfit(s: Stored, a: seq<Byte>, b: seq<Byte>)
    requires HasFirst(s, 4, a, b) && Texts(a, b)
    ensures !RowRoom(s.tree, RowCell(CellNo(5, a, b)))
  {
    hide Whole, RowNo, RowCell, LeafSize, SourceLayout, RowFits;
    var cells, c := s.tree.cells, RowCell(CellNo(5, a, b));
    KeysAre(cells, 4, a, b);
    SumFirst(cells, 4, a, b);
    forall i | 3 <= i <= 5 ensures LeafSize(RowCell(CellNo(i, a, b))) == 2005 { RowSize(i, a, b); }
    UpperUnique(CompareRowid, cells, 5, 4);
    var all := Merged(CompareRowid, cells, c);
    assert all[2..] == [cells[2], cells[3]] + [c];
    TotalOfTwo(LeafSize, cells[2], cells[3]);
    TotalSnoc(LeafSize, [cells[2], cells[3]], c);
  }

  // ---- the run ----

  /** Row n + 1 is inserted, and is there as long as it is not the fifth. */
  lemma NextRow(s: Stored, n: nat, a: seq<Byte>, b: seq<Byte>) returns (t: Stored)
    requires HasFirst(s, n, a, b) && n < 5 && Texts(a, b)
    ensures Possible(Exact, s, Do(InsertOp(RowNo(n + 1, a, b)), 0)) && Taken(s, Do(InsertOp(RowNo(n + 1, a, b)), 0), t)
    ensures n < 4 ==> HasFirst(t, n + 1, a, b) && HasRoom(s, Do(InsertOp(RowNo(n + 1, a, b)), 0))
    ensures n == 4 ==> t.indexes != [] && |StoredRows(t)| < |Viewed(t.indexes[0]).entries| && !Agrees(Exact, Viewed(t.indexes[0]), StoredRows(t))
  {
    hide Whole, Possible, Taken, InsertCan, Suits;
    RowIsAllowed(s, n, a, b);
    RowSuits(s, n, a, b);
    t := RowInsert(s, RowNo(n + 1, a, b));
    RowIsTaken(s, n, a, b);
    if n < 4 { RowStays(s, n, a, b); } else { RowIsLost(s, a, b); }
  }

  lemma RowIsTaken(s: Stored, n: nat, a: seq<Byte>, b: seq<Byte>)
    requires s.nextID == n && InsertCan(Exact, s, RowNo(n + 1, a, b)) && AllCover(Views(s.indexes), RowNo(n + 1, a, b))
    ensures var m := Do(InsertOp(RowNo(n + 1, a, b)), 0);
      Possible(Exact, s, m) && Taken(s, m, RowInsert(s, RowNo(n + 1, a, b)))
  {
    hide Whole, RowInsert, RowFits, KeysFit, NoConflict, Suits, RowNo, RowCell, Covered, Readable, HasFirst, AllCover;
    WholeCovers(Exact, s);
  }

  lemma RowStays(s: Stored, n: nat, a: seq<Byte>, b: seq<Byte>)
    requires HasFirst(s, n, a, b) && n < 4 && Texts(a, b)
    requires InsertCan(Exact, s, RowNo(n + 1, a, b)) && AllCover(Views(s.indexes), RowNo(n + 1, a, b))
    ensures HasFirst(RowInsert(s, RowNo(n + 1, a, b)), n + 1, a, b) && InsertHasRoom(s, RowNo(n + 1, a, b))
  {
    hide Whole, RowRoom, KeyRoom, SepRoom, InsertTree, InsertKey, RowNo, RowCell, InsertCan, SourceLayout, Exact;
    var row := RowNo(n + 1, a, b);
    RowJoins(s, n, a, b);
    KeyJoins(s, n, a, b);
    OneIndexReaches(s, row);
    InsertIs(Exact, s, row);
    var t := RowInsert(s, row);
    assert t.indexes[0] == InsertKey(s.indexes[0], EntryKey([0], CellNo(n + 1, a, b)));
  }

  lemma RowIsLost(s: Stored, a: seq<Byte>, b: seq<Byte>)
    requires HasFirst(s, 4, a, b) && Texts(a, b) && InsertCan(Exact, s, RowNo(5, a, b)) && AllCover(Views(s.indexes), RowNo(5, a, b))
    ensures var t := RowInsert(s, RowNo(5, a, b));
      |StoredRows(t)| < |Viewed(t.indexes[0]).entries| && !Agrees(Exact, Viewed(t.indexes[0]), StoredRows(t))
  {
    hide Whole, RowRoom, KeyRoom, SepRoom, RowInsert, RowNo, RowCell, InsertCan, Agrees, SourceLayout, Exact;
    FifthIsUnfit(s, a, b);
    KeyJoins(s, 4, a, b);
    OneIndexReaches(s, RowNo(5, a, b));
    LostRowBreaksAgreement(Exact, s, RowNo(5, a, b), 0);
  }

  lemma OneIndexReaches(s: Stored, row: Row)
    requires |s.indexes| == 1 && s.indexes[0].columns == [0] && AllCover(Views(s.indexes), row)
    ensures var c := Cell(s.nextID + 1, row); var k := EntryKey(Views(s.indexes)[0].columns, c);
      && (SepsRoom(s.indexes, c) <==> SepRoom(s.indexes[0], k))
      && (KeysRoom(s.indexes, c) <==> IndexRoom(s.indexes[0], k))
  {
  }

  lemma EmptyIndex(s: Stored)
    requires s == NewTable(1)
    ensures RowsIndexed(s, [0], false, 2) == Stored(Leaf(1, []), 2, 0, [IndexTree([0], false, Leaf(2, []), 3)])
    ensures StoredRows(s) == []
  {
  }

  lemma IndexedEmpty(a: seq<Byte>, b: seq<Byte>) returns (s: Stored, t: Stored)
    ensures s == NewTable(1) && HasFirst(t, 0, a, b)
    ensures var m := Do(BuildOp([0], false), 2); Possible(Exact, s, m) && Taken(s, m, t) && HasRoom(s, m)
  {
    hide Whole, RowsIndexed, Exact, SourceLayout, Domain, SoundIndex;
    s := NewTable(1);
    EmptyIndex(s);
    t := RowsIndexed(s, [0], false, 2);
    ExactDomain();
    NewIsWhole(Exact, 1);
    BuildIs(Exact, s, [0], false, 2);
  }

  lemma ExactDomain()
    ensures Domain(Exact)
  {
    ExactIsTame();
  }

  /**
  Without the condition `RunsAgree` does not hold: the index is built and five rows are inserted, every operation succeeds,
  all but the last find room on every page, and afterwards the index has more entries than there are rows.
  */
  lemma RunLosesRow(a: seq<Byte>, b: seq<Byte>) returns (states: seq<Stored>, moves: seq<Move>)
    requires Texts(a, b)
    ensures |moves| == 6 && |states| == 7 && states[0] == NewTable(1)
    ensures forall i :: 0 <= i < 6 ==> Possible(Exact, states[i], moves[i]) && Taken(states[i], moves[i], states[i + 1])
    ensures forall i :: 0 <= i < 5 ==> HasRoom(states[i], moves[i])
    ensures states[6].indexes != [] && |StoredRows(states[6])| < |Viewed(states[6].indexes[0]).entries|
    ensures !Agrees(Exact, Viewed(states[6].indexes[0]), StoredRows(states[6]))
  {
    hide Possible, Taken, HasRoom, HasFirst, Agrees, StoredRows, Viewed, Texts;
    var s0, s1 := IndexedEmpty(a, b);
    var s2 := NextRow(s1, 0, a, b);
    var s3 := NextRow(s2, 1, a, b);
    var s4 := NextRow(s3, 2, a, b);
    var s5 := NextRow(s4, 3, a, b);
    var s6 := NextRow(s5, 4, a, b);
    states := [s0, s1, s2, s3, s4, s5, s6];
    moves := [Do(BuildOp([0], false), 2)] + seq(5, (i: nat) => Do(InsertOp(RowNo(i + 1, a, b)), 0));
  }
}
