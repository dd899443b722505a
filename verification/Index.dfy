/**
Secondary indexes: one entry for each row of a table, its key the indexed values and the rowid, all in
the order of the tree that keeps them.
*/
module Indexes {
  import opened Cells
  import opened Values
  import opened Tuples
  import Record

  type Row = Record.Row

  /** An index entry is all key. */
  datatype Unit = Unit

  type Entries = seq<Cell<Tuple, Unit>>
  type Rows = seq<Cell<int, Row>>

  datatype Index = Index(columns: seq<nat>, unique: bool, entries: Entries)

  const MIN_ROWID := -0x8000_0000_0000_0000

  /** The row has every column that is indexed. */
  predicate Covers(columns: seq<nat>, row: Row) {
    forall i :: 0 <= i < |columns| ==> columns[i] < |row|
  }

  function KeyCols(columns: seq<nat>, row: Row): (cols: Tuple)
    requires Covers(columns, row)
    ensures |cols| == |columns|
    ensures forall i {:trigger cols[i]} :: 0 <= i < |cols| ==> cols[i] == row[columns[i]]
  {
    seq(|columns|, i requires 0 <= i < |columns| => row[columns[i]])
  }

  /** The key under which an index holds a row. */
  function EntryKey(columns: seq<nat>, c: Cell<int, Row>): Tuple
    requires Covers(columns, c.val)
  {
    Key(KeyCols(columns, c.val), c.key)
  }

  // ---- agreement ----

  /** Values among which comparison is that of the numbers themselves; NULL always belongs to them. */
  ghost predicate Domain(dom: Value -> bool) {
    Tame(dom) && dom(Null)
  }

  ghost predicate Fine(dom: Value -> bool, columns: seq<nat>, row: Row) {
    Covers(columns, row) && InDomain(dom, KeyCols(columns, row))
  }

  ghost predicate AllFine(dom: Value -> bool, columns: seq<nat>, rows: Rows) {
    forall i :: 0 <= i < |rows| ==> Fine(dom, columns, rows[i].val) && rows[i].key >= MIN_ROWID
  }

  ghost function Image(dom: Value -> bool, columns: seq<nat>, rows: Rows): set<Tuple>
    requires AllFine(dom, columns, rows)
  {
    set i | 0 <= i < |rows| :: EntryKey(columns, rows[i])
  }

  function KeySet(entries: Entries): set<Tuple> {
    set i | 0 <= i < |entries| :: entries[i].key
  }

  /** The index holds exactly the keys of the rows, each once, in order. */
  ghost predicate Agrees(dom: Value -> bool, ix: Index, rows: Rows) {
    && Domain(dom) && AllFine(dom, ix.columns, rows)
    && Sorted(IdealTuples, ix.entries)
    && KeySet(ix.entries) == Image(dom, ix.columns, rows)
  }

  /** A key with n values of the domain in front of a rowid. */
  ghost predicate Shaped(dom: Value -> bool, n: nat, t: Tuple) {
    |t| == n + 1 && t[n].Integer? && t[n].n >= MIN_ROWID && InDomain(dom, t[..n])
  }

  /** The row behind an entry. */
  lemma EntryHasRow(dom: Value -> bool, ix: Index, rows: Rows, j: nat) returns (i: nat)
    requires Agrees(dom, ix, rows) && j < |ix.entries|
    ensures i < |rows| && ix.entries[j].key == EntryKey(ix.columns, rows[i])
    ensures Shaped(dom, |ix.columns|, ix.entries[j].key)
    ensures ix.entries[j].key[..|ix.columns|] == KeyCols(ix.columns, rows[i].val)
    ensures ix.entries[j].key[|ix.columns|] == Integer(rows[i].key)
  {
    assert ix.entries[j].key in KeySet(ix.entries);
    i :| 0 <= i < |rows| && ix.entries[j].key == EntryKey(ix.columns, rows[i]);
  }

  /** The entry of a row. */
  lemma RowHasEntry(dom: Value -> bool, ix: Index, rows: Rows, i: nat) returns (j: nat)
    requires Agrees(dom, ix, rows) && i < |rows|
    ensures j < |ix.entries| && ix.entries[j].key == EntryKey(ix.columns, rows[i])
  {
    assert EntryKey(ix.columns, rows[i]) in Image(dom, ix.columns, rows);
    j :| 0 <= j < |ix.entries| && ix.entries[j].key == EntryKey(ix.columns, rows[i]);
  }

  /** Against keys of the domain the comparison of the source finds the place of the order it stands for. */
  lemma SlotsAgree(dom: Value -> bool, ix: Index, rows: Rows, cols: Tuple, rowid: int)
    requires Agrees(dom, ix, rows) && InDomain(dom, cols) && |cols| == |ix.columns|
    ensures var k := Key(cols, rowid);
      && (forall j :: 0 <= j < |ix.entries| ==> CompareTuples(ix.entries[j].key, k) == IdealTuples(ix.entries[j].key, k))
      && Slot(CompareTuples, ix.entries, k) == Slot(IdealTuples, ix.entries, k)
      && Found(CompareTuples, ix.entries, k) == Found(IdealTuples, ix.entries, k)
  {
    var k := Key(cols, rowid);
    forall j | 0 <= j < |ix.entries| ensures CompareTuples(ix.entries[j].key, k) == IdealTuples(ix.entries[j].key, k) {
      var i := EntryHasRow(dom, ix, rows, j);
      KeysAgree(dom, KeyCols(ix.columns, rows[i].val), rows[i].key, cols, rowid);
    }
    SlotUnique(CompareTuples, ix.entries, k, Slot(IdealTuples, ix.entries, k));
  }

  // ---- insertion and deletion ----

  function AddKey(ix: Index, k: Tuple): Index {
    ix.(entries := Insert(CompareTuples, ix.entries, Cell(k, Unit)))
  }

  function DropKey(ix: Index, k: Tuple): Index {
    ix.(entries := Delete(CompareTuples, ix.entries, k))
  }

  lemma KeySetInsert(entries: Entries, i: nat, c: Cell<Tuple, Unit>)
    requires i <= |entries|
    ensures KeySet(InsertAt(entries, i, c)) == KeySet(entries) + {c.key}
  {
    var all := InsertAt(entries, i, c);
    forall t | t in KeySet(entries) + {c.key} ensures t in KeySet(all) {
      if t == c.key {
        assert all[i].key == t;
      } else {
        var j :| 0 <= j < |entries| && entries[j].key == t;
        assert all[if j < i then j else j + 1].key == t;
      }
    }
  }

  lemma KeySetRemove(entries: Entries, i: nat)
    requires Sorted(IdealTuples, entries) && i < |entries|
    ensures KeySet(RemoveAt(entries, i)) == KeySet(entries) - {entries[i].key}
  {
    var rest := RemoveAt(entries, i);
    LexSelf(entries[i].key);
    forall j | 0 <= j < |rest| ensures rest[j].key in KeySet(entries) && rest[j].key != entries[i].key {
      var k := if j < i then j else j + 1;
      assert rest[j] == entries[k];
      assert k < i ==> IdealTuples(entries[k].key, entries[i].key) < 0;
      assert k > i ==> IdealTuples(entries[i].key, entries[k].key) < 0;
    }
    forall t | t in KeySet(entries) && t != entries[i].key ensures t in KeySet(rest) {
      var j :| 0 <= j < |entries| && entries[j].key == t;
      assert rest[if j < i then j else j - 1].key == t;
    }
  }

  /** A key of a new rowid is not there yet. */
  lemma NewKeyIsAbsent(dom: Value -> bool, ix: Index, rows: Rows, c: Cell<int, Row>)
    requires Agrees(dom, ix, rows) && Fine(dom, ix.columns, c.val)
    requires forall i :: 0 <= i < |rows| ==> rows[i].key != c.key
    ensures Absent(IdealTuples, ix.entries, EntryKey(ix.columns, c))
  {
    forall j | 0 <= j < |ix.entries| ensures IdealTuples(ix.entries[j].key, EntryKey(ix.columns, c)) != 0 {
      var i := EntryHasRow(dom, ix, rows, j);
      KeyOrder(dom, KeyCols(ix.columns, rows[i].val), rows[i].key, KeyCols(ix.columns, c.val), c.key);
    }
  }

  /** Adding the entry of a new row keeps the agreement with rows that have it among them. */
  lemma AddAgrees(dom: Value -> bool, ix: Index, rows: Rows, c: Cell<int, Row>, more: Rows)
    requires Agrees(dom, ix, rows) && Fine(dom, ix.columns, c.val)
    requires forall i :: 0 <= i < |rows| ==> rows[i].key != c.key
    requires AllFine(dom, ix.columns, more) && Image(dom, ix.columns, more) == Image(dom, ix.columns, rows) + {EntryKey(ix.columns, c)}
    ensures Agrees(dom, AddKey(ix, EntryKey(ix.columns, c)), more)
  {
    var k := EntryKey(ix.columns, c);
    TuplesInOrder();
    NewKeyIsAbsent(dom, ix, rows, c);
    SlotsAgree(dom, ix, rows, KeyCols(ix.columns, c.val), c.key);
    InsertSorted(IdealTuples, ix.entries, Cell(k, Unit));
    KeySetInsert(ix.entries, Slot(IdealTuples, ix.entries, k), Cell(k, Unit));
  }

  /** The entry of a row is found under its key, and nothing else is. */
  lemma KeyIsFound(dom: Value -> bool, ix: Index, rows: Rows, i: nat)
    requires Agrees(dom, ix, rows) && i < |rows|
    ensures var k := EntryKey(ix.columns, rows[i]); var s := Slot(IdealTuples, ix.entries, k);
      Found(IdealTuples, ix.entries, k) && s < |ix.entries| && ix.entries[s].key == k
  {
    var k := EntryKey(ix.columns, rows[i]);
    var s := Slot(IdealTuples, ix.entries, k);
    var j := RowHasEntry(dom, ix, rows, i);
    LexSelf(k);
    SlotUnique(IdealTuples, ix.entries, k, j);
  }

  /** Dropping the entry of a row keeps the agreement with the rows without it. */
  lemma DropAgrees(dom: Value -> bool, ix: Index, rows: Rows, i: nat, less: Rows)
    requires Agrees(dom, ix, rows) && i < |rows|
    requires AllFine(dom, ix.columns, less) && Image(dom, ix.columns, less) == Image(dom, ix.columns, rows) - {EntryKey(ix.columns, rows[i])}
    ensures Found(CompareTuples, ix.entries, EntryKey(ix.columns, rows[i]))
    ensures Agrees(dom, DropKey(ix, EntryKey(ix.columns, rows[i])), less)
  {
    var k := EntryKey(ix.columns, rows[i]);
    var s := Slot(IdealTuples, ix.entries, k);
    SlotsAgree(dom, ix, rows, KeyCols(ix.columns, rows[i].val), rows[i].key);
    KeyIsFound(dom, ix, rows, i);
    DeleteKeepsSorted(IdealTuples, ix.entries, s);
    KeySetRemove(ix.entries, s);
  }

  // ---- prefixes ----

  /** The key that SeekPrefix looks for: NULL in the columns that are not given, the least rowid. */
  function PrefixKey(n: nat, cols: Tuple): Tuple
    requires |cols| <= n
  {
    Key(cols + seq(n - |cols|, _ => Null), MIN_ROWID)
  }

  /** Where a cursor from SeekPrefix stands: at the first entry not less than that key. */
  function SeekPrefix(ix: Index, cols: Tuple): nat
    requires |cols| <= |ix.columns|
  {
    Slot(CompareTuples, ix.entries, PrefixKey(|ix.columns|, cols))
  }

  lemma {:induction false} LexPrefix(x: Tuple, cols: Tuple, nulls: Tuple, rowid: int, i: int)
    requires |x| == |cols| + |nulls| && (forall j :: 0 <= j < |nulls| ==> nulls[j] == Null) && rowid <= i
    ensures IdealTuples(Key(x, i), Key(cols + nulls, rowid)) >= 0 <==> IdealTuples(x[..|cols|], cols) >= 0
  {
    var y := cols + nulls;
    if x == [] {
      OnlyRowids(i, rowid);
      assert Key(x, i) == [Integer(i)] && Key(y, rowid) == [Integer(rowid)];
    } else {
      assert Key(x, i)[1..] == Key(x[1..], i) && Key(y, rowid)[1..] == Key(y[1..], rowid);
      if cols == [] {
        assert y[1..] == [] + nulls[1..] && y[0] == Null;
        assert x[..0] == [] && x[1..][..0] == [];
        LexPrefix(x[1..], [], nulls[1..], rowid, i);
      } else {
        assert y[1..] == cols[1..] + nulls;
        assert x[..|cols|][1..] == x[1..][..|cols| - 1];
        LexPrefix(x[1..], cols[1..], nulls, rowid, i);
      }
    }
  }

  /** The padded key is a true lower bound of the entries that begin with a prefix or with more. */
  lemma PaddingIsLower(dom: Value -> bool, n: nat, t: Tuple, cols: Tuple)
    requires Domain(dom) && Shaped(dom, n, t) && |cols| <= n
    ensures IdealTuples(t, PrefixKey(n, cols)) >= 0 <==> IdealTuples(t[..|cols|], cols) >= 0
    ensures |PrefixKey(n, cols)| == n + 1 && PrefixKey(n, cols)[n] == Integer(-0x8000_0000_0000_0000)
  {
    LexPrefix(t[..n], cols, seq(n - |cols|, _ => Null), MIN_ROWID, t[n].n);
    assert t == Key(t[..n], t[n].n) && t[..n][..|cols|] == t[..|cols|];
  }

  /** Before the place that SeekPrefix finds, entries begin with less than the prefix; from there on they do not. */
  lemma SeekDivides(dom: Value -> bool, ix: Index, rows: Rows, cols: Tuple, j: nat)
    requires Agrees(dom, ix, rows) && |cols| <= |ix.columns| && InDomain(dom, cols)
    requires j < |ix.entries| && |cols| <= |ix.entries[j].key|
    ensures j < SeekPrefix(ix, cols) <==> IdealTuples(ix.entries[j].key[..|cols|], cols) < 0
  {
    var n, s := |ix.columns|, SeekPrefix(ix, cols);
    var padded := cols + seq(n - |cols|, _ => Null);
    TuplesInOrder();
    hide IdealTuples, CompareTuples, KeySet, Image, AllFine;
    SlotsAgree(dom, ix, rows, padded, MIN_ROWID);
    var i := EntryHasRow(dom, ix, rows, j);
    PaddingIsLower(dom, n, ix.entries[j].key, cols);
    FromSlotOn(IdealTuples, ix.entries, Key(padded, MIN_ROWID), j);
  }

  // ---- uniqueness ----

  predicate HasNull(cols: Tuple) {
    exists i :: 0 <= i < |cols| && cols[i] == Null
  }

  /** Another row whose indexed values are all there and compare equal. */
  ghost predicate Conflicts(ix: Index, rows: Rows, row: Row, self: int)
    requires Covers(ix.columns, row) && forall i :: 0 <= i < |rows| ==> Covers(ix.columns, rows[i].val)
  {
    && ix.unique && !HasNull(KeyCols(ix.columns, row))
    && exists i :: 0 <= i < |rows| && rows[i].key != self && MatchesPrefix(KeyCols(ix.columns, row), KeyCols(ix.columns, rows[i].val))
  }

  /** The two rows have a value in every one of these columns, and the values compare equal. */
  ghost predicate EqualIn(columns: seq<nat>, a: Row, b: Row)
    requires Covers(columns, a) && Covers(columns, b)
  {
    forall i :: 0 <= i < |columns| ==> a[columns[i]] != Null && Compare(b[columns[i]], a[columns[i]]) == 0
  }

  /** Rows are in each other's way column by column: a NULL is in nobody's way, an index that is not unique has no conflicts. */
  lemma ConflictMeans(ix: Index, rows: Rows, row: Row, self: int)
    requires Covers(ix.columns, row) && forall i :: 0 <= i < |rows| ==> Covers(ix.columns, rows[i].val)
    ensures Conflicts(ix, rows, row, self) <==>
      ix.unique && exists i :: 0 <= i < |rows| && rows[i].key != self && EqualIn(ix.columns, row, rows[i].val)
    ensures (exists k :: 0 <= k < |ix.columns| && row[ix.columns[k]] == Null) ==> !Conflicts(ix, rows, row, self)
  {
    forall i | 0 <= i < |rows|
      ensures EqualIn(ix.columns, row, rows[i].val) <==>
        !HasNull(KeyCols(ix.columns, row)) && MatchesPrefix(KeyCols(ix.columns, row), KeyCols(ix.columns, rows[i].val))
    {
      EqualMeans(ix.columns, row, rows[i].val);
    }
    if k :| 0 <= k < |ix.columns| && row[ix.columns[k]] == Null {
      assert KeyCols(ix.columns, row)[k] == Null;
    }
  }

  lemma EqualMeans(columns: seq<nat>, a: Row, b: Row)
    requires Covers(columns, a) && Covers(columns, b)
    ensures EqualIn(columns, a, b) <==> !HasNull(KeyCols(columns, a)) && MatchesPrefix(KeyCols(columns, a), KeyCols(columns, b))
  {
    var x, y := KeyCols(columns, a), KeyCols(columns, b);
    forall i | 0 <= i < |columns| ensures x[i] == a[columns[i]] && y[i] == b[columns[i]] {
    }
  }

  /** From an entry past the prefix on, nothing matches it any more. */
  lemma PastPrefix(dom: Value -> bool, ix: Index, rows: Rows, cols: Tuple, i: nat, j: nat)
    requires Agrees(dom, ix, rows) && |cols| == |ix.columns| && InDomain(dom, cols)
    requires SeekPrefix(ix, cols) <= i <= j < |ix.entries| && !MatchesPrefix(cols, ix.entries[i].key)
    ensures !MatchesPrefix(cols, ix.entries[j].key)
  {
    var n := |cols|;
    var p := EntryHasRow(dom, ix, rows, i);
    var q := EntryHasRow(dom, ix, rows, j);
    var a, b := KeyCols(ix.columns, rows[p].val), KeyCols(ix.columns, rows[q].val);
    EntryMatches(dom, ix, rows, cols, i, p);
    SeekDivides(dom, ix, rows, cols, i);
    EntryMatches(dom, ix, rows, cols, j, q);
    KeyOrder(dom, a, rows[p].key, cols, 0);
    KeyOrder(dom, b, rows[q].key, cols, 0);
    if i < j {
      assert IdealTuples(ix.entries[i].key, ix.entries[j].key) < 0;
      KeyOrder(dom, a, rows[p].key, b, rows[q].key);
      LexChain(cols, a, b);
      LexChain(b, cols, cols);
      LexChain(a, cols, cols);
    }
  }

  lemma EntryMatches(dom: Value -> bool, ix: Index, rows: Rows, cols: Tuple, j: nat, i: nat)
    requires Agrees(dom, ix, rows) && j < |ix.entries| && i < |rows| && |cols| == |ix.columns|
    requires ix.entries[j].key == EntryKey(ix.columns, rows[i])
    ensures MatchesPrefix(cols, ix.entries[j].key) <==> MatchesPrefix(cols, KeyCols(ix.columns, rows[i].val))
    ensures ix.entries[j].key[..|cols|] == KeyCols(ix.columns, rows[i].val)
  {
    var t, a := ix.entries[j].key, KeyCols(ix.columns, rows[i].val);
    assert t[..|cols|] == a;
    assert forall k :: 0 <= k < |cols| ==> t[k] == a[k];
  }

  /** Some entry that matches and belongs to another row is what makes a conflict. */
  lemma ConflictIsEntry(dom: Value -> bool, ix: Index, rows: Rows, row: Row, self: int)
    requires Agrees(dom, ix, rows) && Fine(dom, ix.columns, row) && ix.unique && !HasNull(KeyCols(ix.columns, row))
    ensures Conflicts(ix, rows, row, self) <==> exists j :: 0 <= j < |ix.entries| && Rival(ix, KeyCols(ix.columns, row), self, j)
  {
    var cols := KeyCols(ix.columns, row);
    if Conflicts(ix, rows, row, self) {
      var i :| 0 <= i < |rows| && rows[i].key != self && MatchesPrefix(cols, KeyCols(ix.columns, rows[i].val));
      var j := RowHasEntry(dom, ix, rows, i);
      EntryMatches(dom, ix, rows, cols, j, i);
      assert Rival(ix, cols, self, j);
    }
    if j :| 0 <= j < |ix.entries| && Rival(ix, cols, self, j) {
      var i := EntryHasRow(dom, ix, rows, j);
      EntryMatches(dom, ix, rows, cols, j, i);
    }
  }

  predicate Rival(ix: Index, cols: Tuple, self: int, j: nat)
    requires j < |ix.entries|
  {
    var t := ix.entries[j].key;
    MatchesPrefix(cols, t) && t != [] && t[|t| - 1] != Integer(self)
  }

  /**
  Walks the entries from the prefix on until they no longer match. In an index that agrees with its rows that finds
  a conflict whenever there is one.
  */
  method CheckUnique(ix: Index, row: Row, self: int, ghost dom: Value -> bool, ghost rows: Rows) returns (ok: bool)
    requires Covers(ix.columns, row)
    ensures Agrees(dom, ix, rows) && Fine(dom, ix.columns, row) ==> (ok <==> !Conflicts(ix, rows, row, self))
    ensures Agrees(dom, ix, rows) && Fine(dom, ix.columns, row) ==>
      (ok <==> !ix.unique || forall i :: 0 <= i < |rows| && rows[i].key != self ==> !EqualIn(ix.columns, row, rows[i].val))
  {
    if Agrees(dom, ix, rows) { ConflictMeans(ix, rows, row, self); }
    ok := true;
    var cols := KeyCols(ix.columns, row);
    if ix.unique && !HasNull(cols) {
      var i := SeekPrefix(ix, cols);
      while i < |ix.entries| && MatchesPrefix(cols, ix.entries[i].key) && !Rival(ix, cols, self, i)
        invariant SeekPrefix(ix, cols) <= i <= |ix.entries|
        invariant forall j :: SeekPrefix(ix, cols) <= j < i ==> !Rival(ix, cols, self, j)
      {
        i := i + 1;
      }
      ok := i == |ix.entries| || !Rival(ix, cols, self, i);
      if Agrees(dom, ix, rows) && Fine(dom, ix.columns, row) { WalkFinds(dom, ix, rows, row, self, i); }
    }
  }

  /** Where the walk ends is a rival if there is any. */
  lemma WalkFinds(dom: Value -> bool, ix: Index, rows: Rows, row: Row, self: int, i: nat)
    requires Agrees(dom, ix, rows) && Fine(dom, ix.columns, row) && ix.unique && !HasNull(KeyCols(ix.columns, row))
    requires var cols := KeyCols(ix.columns, row);
      && SeekPrefix(ix, cols) <= i <= |ix.entries|
      && (forall j :: SeekPrefix(ix, cols) <= j < i ==> !Rival(ix, cols, self, j))
      && (i == |ix.entries| || !MatchesPrefix(cols, ix.entries[i].key) || Rival(ix, cols, self, i))
    ensures Conflicts(ix, rows, row, self) <==> i < |ix.entries| && Rival(ix, KeyCols(ix.columns, row), self, i)
  {
    var cols := KeyCols(ix.columns, row);
    ConflictIsEntry(dom, ix, rows, row, self);
    forall j | 0 <= j < SeekPrefix(ix, cols) ensures !Rival(ix, cols, self, j) {
      BeforePrefix(dom, ix, rows, cols, j);
    }
    if i < |ix.entries| && !MatchesPrefix(cols, ix.entries[i].key) {
      forall j | i <= j < |ix.entries| ensures !Rival(ix, cols, self, j) {
        PastPrefix(dom, ix, rows, cols, i, j);
      }
    }
  }

  lemma BeforePrefix(dom: Value -> bool, ix: Index, rows: Rows, cols: Tuple, j: nat)
    requires Agrees(dom, ix, rows) && |cols| == |ix.columns| && InDomain(dom, cols)
    requires j < SeekPrefix(ix, cols) && j < |ix.entries|
    ensures !MatchesPrefix(cols, ix.entries[j].key)
  {
    var i := EntryHasRow(dom, ix, rows, j);
    SeekDivides(dom, ix, rows, cols, j);
    EntryMatches(dom, ix, rows, cols, j, i);
    KeyOrder(dom, KeyCols(ix.columns, rows[i].val), 0, cols, 0);
  }
}
