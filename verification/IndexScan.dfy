/** Scans over a part of an index, each entry leading to the row of the table it belongs to. */
module IndexScans {
  import opened Bytes
  import opened Cells
  import opened Values
  import opened Tuples
  import opened BTreeOps
  import opened Indexes
  import opened TableTree

  datatype Bound = Bound(value: Value, inclusive: bool)

  predicate Above(v: Value, low: Option<Bound>) {
    low.Some? ==> Compare(v, low.value.value) > 0 || (Compare(v, low.value.value) == 0 && low.value.inclusive)
  }

  predicate Below(v: Value, high: Option<Bound>) {
    high.Some? ==> Compare(v, high.value.value) < 0 || (Compare(v, high.value.value) == 0 && high.value.inclusive)
  }

  predicate InBounds(v: Value, low: Option<Bound>, high: Option<Bound>) {
    Above(v, low) && Below(v, high)
  }

  /** The keys whose leading value lies within the bounds, in order. */
  function Selected(entries: Entries, low: Option<Bound>, high: Option<Bound>): seq<Tuple> {
    if entries == [] then []
    else (if Hit(entries[0].key, low, high) then [entries[0].key] else []) + Selected(entries[1..], low, high)
  }

  predicate Hit(t: Tuple, low: Option<Bound>, high: Option<Bound>) {
    t != [] && InBounds(t[0], low, high)
  }

  /** A table, one of its indexes on at least one column, and bounds from the domain of its values. */
  ghost predicate Scannable(dom: Value -> bool, ix: Index, rows: Rows, low: Option<Bound>, high: Option<Bound>) {
    && Agrees(dom, ix, rows) && |ix.columns| >= 1 && Sorted(CompareRowid, rows)
    && (low.Some? ==> dom(low.value.value)) && (high.Some? ==> dom(high.value.value))
  }

  // ---- the order of leading values ----

  lemma LeadingOrder(dom: Value -> bool, ix: Index, rows: Rows, i: nat, j: nat)
    requires Agrees(dom, ix, rows) && |ix.columns| >= 1 && i <= j < |ix.entries|
    ensures ix.entries[i].key != [] && ix.entries[j].key != []
    ensures dom(ix.entries[i].key[0]) && dom(ix.entries[j].key[0])
    ensures Ideal(ix.entries[i].key[0], ix.entries[j].key[0]) <= 0
  {
    var p := EntryHasRow(dom, ix, rows, i);
    var q := EntryHasRow(dom, ix, rows, j);
    var x, y := ix.entries[i].key, ix.entries[j].key;
    assert x[0] == x[..|ix.columns|][0] && y[0] == y[..|ix.columns|][0];
    if i < j {
      assert IdealTuples(x, y) < 0;
    } else {
      IdealChain(x[0], x[0], x[0]);
    }
  }

  /** Once an entry is past the upper bound, so are all after it. */
  lemma PastUpper(dom: Value -> bool, ix: Index, rows: Rows, low: Option<Bound>, high: Option<Bound>, i: nat, j: nat)
    requires Scannable(dom, ix, rows, low, high) && i <= j < |ix.entries|
    requires ix.entries[i].key != [] && !Below(ix.entries[i].key[0], high)
    ensures !Hit(ix.entries[j].key, low, high)
  {
    LeadingOrder(dom, ix, rows, i, j);
    IdealChain(high.value.value, ix.entries[i].key[0], ix.entries[j].key[0]);
    IdealChain(ix.entries[i].key[0], high.value.value, ix.entries[j].key[0]);
  }

  lemma {:induction false} NoneSelected(entries: Entries, low: Option<Bound>, high: Option<Bound>)
    requires forall j :: 0 <= j < |entries| ==> !Hit(entries[j].key, low, high)
    ensures Selected(entries, low, high) == []
  {
    if entries != [] {
      forall j | 0 <= j < |entries[1..]| ensures !Hit(entries[1..][j].key, low, high) {
        assert entries[1..][j] == entries[j + 1];
      }
      NoneSelected(entries[1..], low, high);
    }
  }

  lemma {:induction false} SkipUnselected(entries: Entries, k: nat, low: Option<Bound>, high: Option<Bound>)
    requires k <= |entries| && forall j :: 0 <= j < k ==> !Hit(entries[j].key, low, high)
    ensures Selected(entries[k..], low, high) == Selected(entries, low, high)
  {
    if k > 0 {
      assert entries[1..][k - 1..] == entries[k..];
      forall j | 0 <= j < k - 1 ensures !Hit(entries[1..][j].key, low, high) {
        assert entries[1..][j] == entries[j + 1];
      }
      SkipUnselected(entries[1..], k - 1, low, high);
    } else {
      assert entries[0..] == entries;
    }
  }

  lemma SelectedStep(entries: Entries, i: nat, low: Option<Bound>, high: Option<Bound>)
    requires i < |entries|
    ensures Selected(entries[i..], low, high) == (if Hit(entries[i].key, low, high) then [entries[i].key] else []) + Selected(entries[i + 1..], low, high)
  {
    assert entries[i..][1..] == entries[i + 1..];
  }

  /** The row of a rowid. */
  lemma RowIsFound(rows: Rows, i: nat)
    requires Sorted(CompareRowid, rows) && i < |rows|
    ensures Lookup(CompareRowid, rows, rows[i].key) == Some(rows[i].val)
  {
    SlotUnique(CompareRowid, rows, rows[i].key, i);
  }

  datatype Verdict = Skip | Stop | Yield

  lemma SkipOne(entries: Entries, i: nat, low: Option<Bound>, high: Option<Bound>)
    requires i < |entries| && !Hit(entries[i].key, low, high)
    ensures Selected(entries[i..], low, high) == Selected(entries[i + 1..], low, high)
  {
    SelectedStep(entries, i, low, high);
  }

  class IndexCursor {
    const ix: Index
    const rows: Rows
    const low: Option<Bound>
    const high: Option<Bound>
    var at: nat
    var row: Row
    var rowid: int

    ghost predicate Valid()
      reads this
    {
      at <= |ix.entries| && PassedLow(ix.entries, at, low)
    }

    /** What is still to come. */
    ghost function Todo(): seq<Tuple>
      requires at <= |ix.entries|
      reads this
    {
      Selected(ix.entries[at..], low, high)
    }

    /** With a lower bound the scan starts where its prefix does, without one at the first entry. */
    constructor (ix: Index, rows: Rows, low: Option<Bound>, high: Option<Bound>, ghost dom: Value -> bool)
      requires Scannable(dom, ix, rows, low, high)
      ensures this.ix == ix && this.rows == rows && this.low == low && this.high == high
      ensures Valid() && Todo() == Selected(ix.entries, low, high)
    {
      var start := if low.Some? then SeekPrefix(ix, [low.value.value]) else 0;
      StartIsLower(dom, ix, rows, low, high);
      SkipUnselected(ix.entries, start, low, high);
      this.ix, this.rows, this.low, this.high := ix, rows, low, high;
      at, row, rowid := start, [], 0;
    }

    /** What the bounds say of an entry that the seek has not passed over. */
    method Judge(load: Value) returns (verdict: Verdict)
      requires low.Some? ==> Compare(load, low.value.value) >= 0
      ensures verdict == Skip ==> !InBounds(load, low, high)
      ensures verdict == Stop ==> !Below(load, high)
      ensures verdict == Yield ==> InBounds(load, low, high)
    {
      if low.Some? && !low.value.inclusive && Compare(load, low.value.value) <= 0 { return Skip; }
      if high.Some? {
        var cmp := Compare(load, high.value.value);
        if cmp > 0 || (cmp == 0 && !high.value.inclusive) { return Stop; }
      }
      return Yield;
    }

    /** Looks at one entry: passes over it, ends the scan at it, or fetches its row. */
    method Step(ghost dom: Value -> bool) returns (verdict: Verdict)
      requires Valid() && Scannable(dom, ix, rows, low, high) && at < |ix.entries|
      modifies this
      ensures Valid() && at == old(at) + 1
      ensures verdict == Skip ==> Todo() == old(Todo())
      ensures verdict == Stop ==> old(Todo()) == Todo() == []
      ensures verdict == Yield ==> Cell(rowid, row) in rows && Covers(ix.columns, row)
      ensures verdict == Yield ==> old(Todo()) == [EntryKey(ix.columns, Cell(rowid, row))] + Todo()
    {
      var entry := ix.entries[at].key;
      ghost var i := EntryHasRow(dom, ix, rows, at);
      verdict := Judge(entry[0]);
      if verdict == Skip {
        SkipOne(ix.entries, at, low, high);
      } else if verdict == Stop {
        NothingLeft(dom, ix, rows, low, high, at);
      } else {
        NextIsRow(dom, ix, rows, low, high, at, i);
        rowid := entry[|entry| - 1].n;
        var found := Lookup(CompareRowid, rows, rowid);
        row := found.value;
        assert Cell(rowid, row) == rows[i];
      }
      at := at + 1;
    }

    /** Steps to the next row within the bounds; false exactly when there is none left, and then for good. */
    method Next(ghost dom: Value -> bool) returns (more: bool)
      requires Valid() && Scannable(dom, ix, rows, low, high)
      modifies this
      ensures Valid()
      ensures more == (old(Todo()) != [])
      ensures !more ==> Todo() == []
      ensures more ==> Cell(rowid, row) in rows && Covers(ix.columns, row)
      ensures more ==> [EntryKey(ix.columns, Cell(rowid, row))] + Todo() == old(Todo())
    {
      while at < |ix.entries|
        invariant Valid() && Todo() == old(Todo())
        decreases |ix.entries| - at
      {
        var verdict := Step(dom);
        if verdict == Stop { return false; }
        if verdict == Yield { return true; }
      }
      return false;
    }
  }

  /** From position `at` on no entry is below the lower bound's value. */
  ghost predicate PassedLow(entries: Entries, at: nat, low: Option<Bound>) {
    low.Some? ==> forall j :: at <= j < |entries| ==> NotBefore(entries[j].key, low.value.value)
  }

  predicate NotBefore(t: Tuple, v: Value) {
    t != [] && Compare(t[0], v) >= 0
  }

  /** An entry that passes both bounds leads to its row. */
  lemma NextIsRow(dom: Value -> bool, ix: Index, rows: Rows, low: Option<Bound>, high: Option<Bound>, at: nat, i: nat)
    requires Scannable(dom, ix, rows, low, high) && at < |ix.entries| && i < |rows|
    requires ix.entries[at].key == EntryKey(ix.columns, rows[i]) && InBounds(ix.entries[at].key[0], low, high)
    ensures ix.entries[at].key[|ix.entries[at].key| - 1] == Integer(rows[i].key)
    ensures Lookup(CompareRowid, rows, rows[i].key) == Some(rows[i].val)
    ensures Selected(ix.entries[at..], low, high) == [EntryKey(ix.columns, rows[i])] + Selected(ix.entries[at + 1..], low, high)
  {
    SelectedStep(ix.entries, at, low, high);
    RowIsFound(rows, i);
  }

  lemma {:induction false} StartIsLower(dom: Value -> bool, ix: Index, rows: Rows, low: Option<Bound>, high: Option<Bound>)
    requires Scannable(dom, ix, rows, low, high)
    ensures low.Some? ==> var start := SeekPrefix(ix, [low.value.value]);
      && (forall j :: 0 <= j < start ==> !Hit(ix.entries[j].key, low, high))
      && (forall j :: start <= j < |ix.entries| ==> NotBefore(ix.entries[j].key, low.value.value))
  {
    if low.Some? {
      var v := low.value.value;
      forall j | 0 <= j < |ix.entries|
        ensures j < SeekPrefix(ix, [v]) ==> !Hit(ix.entries[j].key, low, high)
        ensures j >= SeekPrefix(ix, [v]) ==> NotBefore(ix.entries[j].key, v)
      {
        LeadingOrder(dom, ix, rows, j, j);
        SeekDivides(dom, ix, rows, [v], j);
        LeadingPrefix(ix.entries[j].key, v);
      }
    }
  }

  lemma LeadingPrefix(t: Tuple, v: Value)
    requires t != []
    ensures IdealTuples(t[..1], [v]) == Ideal(t[0], v)
  {
    var x: Tuple, y: Tuple := t[..1], [v];
    assert x[1..] == [] && y[1..] == [];
    assert Lex(Ideal, x[1..], y[1..]) == 0;
  }

  lemma NothingLeft(dom: Value -> bool, ix: Index, rows: Rows, low: Option<Bound>, high: Option<Bound>, i: nat)
    requires Scannable(dom, ix, rows, low, high) && i < |ix.entries|
    requires ix.entries[i].key != [] && !Below(ix.entries[i].key[0], high)
    ensures Selected(ix.entries[i..], low, high) == [] && Selected(ix.entries[i + 1..], low, high) == []
  {
    forall j | i <= j < |ix.entries| ensures !Hit(ix.entries[j].key, low, high) {
      PastUpper(dom, ix, rows, low, high, i, j);
    }
    NoneSelected(ix.entries[i..], low, high);
    NoneSelected(ix.entries[i + 1..], low, high);
  }

  // ---- what a scan yields ----

  lemma {:induction false} SelectedAre(entries: Entries, low: Option<Bound>, high: Option<Bound>, t: Tuple)
    ensures t in Selected(entries, low, high) <==> t in KeySet(entries) && Hit(t, low, high)
  {
    if entries != [] {
      SelectedAre(entries[1..], low, high, t);
      assert t in KeySet(entries) <==> t == entries[0].key || t in KeySet(entries[1..]) by {
        if t in KeySet(entries) && t != entries[0].key {
          var i :| 0 <= i < |entries| && entries[i].key == t;
          assert entries[1..][i - 1].key == t;
        }
        if t in KeySet(entries[1..]) {
          var i :| 0 <= i < |entries[1..]| && entries[1..][i].key == t;
          assert entries[i + 1].key == t;
        }
      }
    }
  }

  lemma {:induction false} SelectedAscend(entries: Entries, low: Option<Bound>, high: Option<Bound>)
    requires Sorted(IdealTuples, entries)
    ensures Ascending(Selected(entries, low, high))
  {
    if entries != [] {
      var rest := Selected(entries[1..], low, high);
      SortedSlice(IdealTuples, entries, 1, |entries|);
      assert entries[1..|entries|] == entries[1..];
      SelectedAscend(entries[1..], low, high);
      forall j | 0 <= j < |rest| ensures IdealTuples(entries[0].key, rest[j]) < 0 {
        SelectedAre(entries[1..], low, high, rest[j]);
        var i :| 0 <= i < |entries[1..]| && entries[1..][i].key == rest[j];
        assert entries[i + 1].key == rest[j];
      }
    }
  }

  /** t is the key of a row whose leading value lies within the bounds. */
  ghost predicate RowInBounds(ix: Index, c: Cell<int, Row>, low: Option<Bound>, high: Option<Bound>, t: Tuple)
    requires |ix.columns| >= 1
  {
    Covers(ix.columns, c.val) && t == EntryKey(ix.columns, c) && InBounds(c.val[ix.columns[0]], low, high)
  }

  /**
  A bounded scan yields the entry of every row whose leading value lies within the bounds, each once, in
  order of the values and then the rowids, and nothing else.
  */
  lemma ScanIsExact(dom: Value -> bool, ix: Index, rows: Rows, low: Option<Bound>, high: Option<Bound>)
    requires Scannable(dom, ix, rows, low, high)
    ensures Ascending(Selected(ix.entries, low, high))
    ensures forall t :: t in Selected(ix.entries, low, high) <==> exists i :: 0 <= i < |rows| && RowInBounds(ix, rows[i], low, high, t)
  {
    SelectedAscend(ix.entries, low, high);
    forall t
      ensures t in Selected(ix.entries, low, high) <==> exists i :: 0 <= i < |rows| && RowInBounds(ix, rows[i], low, high, t)
    {
      SelectedAre(ix.entries, low, high, t);
      assert t in KeySet(ix.entries) <==> t in Image(dom, ix.columns, rows);
      if t in KeySet(ix.entries) && Hit(t, low, high) {
        var i :| 0 <= i < |rows| && t == EntryKey(ix.columns, rows[i]);
        assert RowInBounds(ix, rows[i], low, high, t);
      }
    }
  }
}
