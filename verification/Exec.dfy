/** Running a plan: a scan of the whole table or of a part of an index, with a filter behind it. */
module Exec {
  import opened Bytes
  import opened Cells
  import opened Values
  import opened Tuples
  import opened Ast
  import opened Evaluation
  import opened Indexes
  import opened IndexScans
  import opened Planner
  import opened PlanMeaning
  import opened TableTree

  /** Every row has a value for every column of the scope. */
  ghost predicate Wide(rows: Rows, scope: Scope) {
    forall i :: 0 <= i < |rows| ==> |rows[i].val| == |scope|
  }

  /** The rows a filter passes, in the order they come; nothing at all when it fails on one of them. */
  function Filtered(lib: Lib, rows: Rows, filter: Option<Expr>, scope: Scope): Option<Rows>
    requires Wide(rows, scope)
  {
    if rows == [] then Some([])
    else
      var n := |rows| - 1;
      match Filtered(lib, rows[..n], filter, scope)
      case None => None
      case Some(out) =>
        if filter.Some? && !Evaluates(lib, filter.value, rows[n].val, scope) then None
        else if FilterPasses(lib, filter, rows[n].val, scope) then Some(out + [rows[n]])
        else Some(out)
  }

  lemma {:induction false} FilteredRows(lib: Lib, rows: Rows, filter: Option<Expr>, scope: Scope)
    requires Wide(rows, scope)
    ensures Filtered(lib, rows, filter, scope).Some? <==>
      (filter.Some? ==> forall i :: 0 <= i < |rows| ==> Evaluates(lib, filter.value, rows[i].val, scope))
    ensures Filtered(lib, rows, filter, scope).Some? ==> forall c :: c in Filtered(lib, rows, filter, scope).value <==>
      c in rows && |c.val| == |scope| && FilterPasses(lib, filter, c.val, scope)
  {
    if rows != [] {
      var n := |rows| - 1;
      FilteredRows(lib, rows[..n], filter, scope);
      assert rows == rows[..n] + [rows[n]];
      if Filtered(lib, rows[..n], filter, scope).None? {
        var i :| 0 <= i < n && !Evaluates(lib, filter.value, rows[..n][i].val, scope);
        assert rows[..n][i] == rows[i];
      } else {
        assert forall i :: 0 <= i < n ==> rows[..n][i] == rows[i];
      }
    }
  }

  /** No rowid comes twice. */
  ghost predicate Once(rows: Rows) {
    forall i, j :: 0 <= i < j < |rows| ==> rows[i].key != rows[j].key
  }

  lemma {:induction false} FilteredOnce(lib: Lib, rows: Rows, filter: Option<Expr>, scope: Scope)
    requires Wide(rows, scope) && Once(rows) && Filtered(lib, rows, filter, scope).Some?
    ensures Once(Filtered(lib, rows, filter, scope).value)
  {
    if rows != [] {
      var n := |rows| - 1;
      FilteredOnce(lib, rows[..n], filter, scope);
      FilteredRows(lib, rows[..n], filter, scope);
    }
  }

  // ---- scans ----

  /** The cells are those that the keys of an index lead to. */
  ghost predicate Fetched(columns: seq<nat>, rows: Rows, keys: seq<Tuple>, cells: Rows) {
    && |cells| == |keys|
    && forall i :: 0 <= i < |cells| ==> cells[i] in rows && Covers(columns, cells[i].val) && EntryKey(columns, cells[i]) == keys[i]
  }

  /** Draws rows from a scan until it is exhausted, and keeps those that the filter passes. */
  method RunFilter(lib: Lib, rows: Rows, filter: Option<Expr>, scope: Scope) returns (out: Option<Rows>)
    requires Wide(rows, scope)
    ensures out == Filtered(lib, rows, filter, scope)
  {
    var kept: Rows := [];
    for i := 0 to |rows|
      invariant Filtered(lib, rows[..i], filter, scope) == Some(kept)
    {
      FilteredSnoc(lib, rows[..i], rows[i], filter, scope);
      assert rows[..i + 1] == rows[..i] + [rows[i]];
      if filter.Some? && !Evaluates(lib, filter.value, rows[i].val, scope) {
        FilteredRows(lib, rows, filter, scope);
        return None;
      }
      if FilterPasses(lib, filter, rows[i].val, scope) { kept := kept + [rows[i]]; }
    }
    assert rows[..|rows|] == rows;
    out := Some(kept);
  }

  /** Filtering keeps the order: what comes of the first rows stands in front of what comes of the others. */
  lemma {:induction false} FilteredConcat(lib: Lib, a: Rows, b: Rows, filter: Option<Expr>, scope: Scope)
    requires Wide(a + b, scope)
    ensures Wide(a, scope) && Wide(b, scope)
    ensures Filtered(lib, a + b, filter, scope) ==
      match (Filtered(lib, a, filter, scope), Filtered(lib, b, filter, scope))
      case (Some(x), Some(y)) => Some(x + y)
      case _ => None
    decreases |b|
  {
    assert forall i :: 0 <= i < |a| ==> (a + b)[i] == a[i];
    assert forall i :: 0 <= i < |b| ==> (a + b)[|a| + i] == b[i];
    if b == [] {
      assert a + b == a;
      assert forall x: Rows :: x + [] == x;
    } else {
      var n := |b| - 1;
      assert a + b == (a + b[..n]) + [b[n]] && b == b[..n] + [b[n]];
      FilteredConcat(lib, a, b[..n], filter, scope);
      FilteredSnoc(lib, a + b[..n], b[n], filter, scope);
      FilteredSnoc(lib, b[..n], b[n], filter, scope);
      hide Filtered;
      match (Filtered(lib, a, filter, scope), Filtered(lib, b[..n], filter, scope)) {
        case (Some(x), Some(y)) => assert (x + y) + [b[n]] == x + (y + [b[n]]);
        case _ =>
      }
    }
  }

  lemma FilteredSnoc(lib: Lib, rows: Rows, c: Cell<int, Row>, filter: Option<Expr>, scope: Scope)
    requires Wide(rows, scope) && |c.val| == |scope|
    ensures Filtered(lib, rows + [c], filter, scope) ==
      match Filtered(lib, rows, filter, scope)
      case None => None
      case Some(out) =>
        if filter.Some? && !Evaluates(lib, filter.value, c.val, scope) then None
        else if FilterPasses(lib, filter, c.val, scope) then Some(out + [c])
        else Some(out)
  {
    assert (rows + [c])[..|rows|] == rows;
  }

  /** Draws all rows from an index scan. */
  method ReadIndex(ix: Index, rows: Rows, low: Option<Bound>, high: Option<Bound>, ghost dom: Value -> bool) returns (cells: Rows)
    requires Scannable(dom, ix, rows, low, high)
    ensures Fetched(ix.columns, rows, Selected(ix.entries, low, high), cells)
  {
    var cursor := new IndexCursor(ix, rows, low, high, dom);
    ghost var all, keys := Selected(ix.entries, low, high), [];
    cells := [];
    var more := true;
    while more
      invariant cursor.ix == ix && cursor.rows == rows && cursor.low == low && cursor.high == high
      invariant fresh(cursor) && cursor.Valid()
      invariant Fetched(ix.columns, rows, keys, cells)
      invariant all == keys + cursor.Todo()
      invariant !more ==> cursor.Todo() == []
      decreases |cursor.Todo()|, more
    {
      ghost var todo := cursor.Todo();
      more := cursor.Next(dom);
      if more {
        var c := Cell(cursor.rowid, cursor.row);
        FetchedSnoc(ix.columns, rows, keys, cells, c);
        TakeFirst(keys, EntryKey(ix.columns, c), cursor.Todo());
        assert todo == [EntryKey(ix.columns, c)] + cursor.Todo();
        cells, keys := cells + [c], keys + [EntryKey(ix.columns, c)];
      }
    }
    assert keys == all;
  }

  lemma TakeFirst<T>(a: seq<T>, x: T, b: seq<T>)
    ensures a + ([x] + b) == (a + [x]) + b && |[x] + b| == |b| + 1
  {
  }

  lemma FetchedSnoc(columns: seq<nat>, rows: Rows, keys: seq<Tuple>, cells: Rows, c: Cell<int, Row>)
    requires Fetched(columns, rows, keys, cells) && c in rows && Covers(columns, c.val)
    ensures Fetched(columns, rows, keys + [EntryKey(columns, c)], cells + [c])
  {
  }

  // ---- both plans select the same rows ----

  /** The rows of an index scan have no rowid twice. */
  lemma FetchedOnce(dom: Value -> bool, ix: Index, rows: Rows, low: Option<Bound>, high: Option<Bound>, cells: Rows)
    requires Scannable(dom, ix, rows, low, high) && Fetched(ix.columns, rows, Selected(ix.entries, low, high), cells)
    ensures Once(cells)
  {
    ScanIsExact(dom, ix, rows, low, high);
    var keys := Selected(ix.entries, low, high);
    forall i, j | 0 <= i < j < |cells| ensures cells[i].key != cells[j].key {
      OneCell(rows, cells[i], cells[j]);
      assert IdealTuples(keys[i], keys[j]) < 0;
      LexSelf(keys[i]);
    }
  }

  lemma OneCell(rows: Rows, c: Cell<int, Row>, d: Cell<int, Row>)
    requires Sorted(CompareRowid, rows) && c in rows && d in rows
    ensures c.key == d.key ==> c == d
  {
    var p :| 0 <= p < |rows| && rows[p] == c;
    var q :| 0 <= q < |rows| && rows[q] == d;
    if c.key == d.key { SameRowid(rows, p, q); }
  }

  /** An index scan fetches exactly the rows whose leading value lies within the bounds. */
  lemma {:induction false} FetchedAre(dom: Value -> bool, ix: Index, rows: Rows, low: Option<Bound>, high: Option<Bound>, cells: Rows, c: Cell<int, Row>)
    requires Scannable(dom, ix, rows, low, high) && Fetched(ix.columns, rows, Selected(ix.entries, low, high), cells)
    ensures c in cells <==> c in rows && Covers(ix.columns, c.val) && InBounds(c.val[ix.columns[0]], low, high)
  {
    ScanIsExact(dom, ix, rows, low, high);
    if c in cells {
      var i :| 0 <= i < |cells| && cells[i] == c;
      FetchedInBounds(ix, rows, low, high, Selected(ix.entries, low, high), cells, i);
    }
    if c in rows && Covers(ix.columns, c.val) && InBounds(c.val[ix.columns[0]], low, high) {
      InBoundsFetched(ix, rows, low, high, Selected(ix.entries, low, high), cells, c);
    }
  }

  lemma FetchedInBounds(ix: Index, rows: Rows, low: Option<Bound>, high: Option<Bound>, keys: seq<Tuple>, cells: Rows, i: nat)
    requires |ix.columns| >= 1 && Sorted(CompareRowid, rows) && Fetched(ix.columns, rows, keys, cells) && i < |cells|
    requires forall t :: t in keys <==> exists i :: 0 <= i < |rows| && RowInBounds(ix, rows[i], low, high, t)
    ensures InBounds(cells[i].val[ix.columns[0]], low, high)
  {
    assert keys[i] in keys;
    var p :| 0 <= p < |rows| && RowInBounds(ix, rows[p], low, high, keys[i]);
    SameEntry(ix.columns, cells[i], rows[p], rows);
  }

  lemma InBoundsFetched(ix: Index, rows: Rows, low: Option<Bound>, high: Option<Bound>, keys: seq<Tuple>, cells: Rows, c: Cell<int, Row>)
    requires |ix.columns| >= 1 && Sorted(CompareRowid, rows) && Fetched(ix.columns, rows, keys, cells)
    requires forall t :: t in keys <==> exists i :: 0 <= i < |rows| && RowInBounds(ix, rows[i], low, high, t)
    requires c in rows && Covers(ix.columns, c.val) && InBounds(c.val[ix.columns[0]], low, high)
    ensures c in cells
  {
    var p :| 0 <= p < |rows| && rows[p] == c;
    assert RowInBounds(ix, rows[p], low, high, EntryKey(ix.columns, c));
    assert EntryKey(ix.columns, c) in keys;
    var i :| 0 <= i < |keys| && keys[i] == EntryKey(ix.columns, c);
    SameEntry(ix.columns, cells[i], c, rows);
  }

  /** Rows of a table with the same index key are the same row. */
  lemma SameEntry(columns: seq<nat>, c: Cell<int, Row>, d: Cell<int, Row>, rows: Rows)
    requires Covers(columns, c.val) && Covers(columns, d.val) && EntryKey(columns, c) == EntryKey(columns, d)
    requires c in rows && d in rows && Sorted(CompareRowid, rows)
    ensures c == d
  {
    assert EntryKey(columns, c)[|columns|] == EntryKey(columns, d)[|columns|];
    OneCell(rows, c, d);
  }

  /** What the planner was told of the index is what the index is. */
  ghost predicate Planned(lib: Lib, where: Expr, lead: Text, b: Bounds, rest: Option<Expr>) {
    var parts := Conjuncts(where);
    var preds := OnColumn(Usable(parts, |parts|), lead);
    Score(preds) > 0 && BoundsFrom(preds, b) && rest == Residual(parts, b.used, |parts|)
  }

  /** A row that an index scan without a lower bound lets through although its leading value is NULL. */
  ghost predicate Stray(lib: Lib, ix: Index, rest: Option<Expr>, scope: Scope, c: Cell<int, Row>)
    requires |c.val| == |scope| && |ix.columns| >= 1 && Covers(ix.columns, c.val)
  {
    c.val[ix.columns[0]] == Null && FilterPasses(lib, rest, c.val, scope)
  }

  ghost predicate IsStray(lib: Lib, ix: Index, rows: Rows, b: Bounds, rest: Option<Expr>, scope: Scope, c: Cell<int, Row>)
    requires |ix.columns| >= 1
  {
    b.low.None? && c in rows && |c.val| == |scope| && Covers(ix.columns, c.val) && Stray(lib, ix, rest, scope, c)
  }

  /** A row is kept over the index exactly when it is kept over the table, or is a stray. */
  lemma {:induction false} PathsDiffer(lib: Lib, dom: Value -> bool, ix: Index, rows: Rows, where: Expr, lead: Text, b: Bounds, rest: Option<Expr>,
                    scope: Scope, low: Option<Bound>, high: Option<Bound>, cells: Rows)
    requires Planned(lib, where, lead, b, rest) && Wide(rows, scope)
    requires forall i :: 0 <= i < |rows| ==> Evaluates(lib, where, rows[i].val, scope)
    requires |ix.columns| >= 1 && Leads(scope, lead, ix.columns[0])
    requires EvalBound(lib, b.low) == Some(low) && EvalBound(lib, b.high) == Some(high)
    requires Scannable(dom, ix, rows, low, high) && Fetched(ix.columns, rows, Selected(ix.entries, low, high), cells)
    ensures Wide(cells, scope) && Filtered(lib, cells, rest, scope).Some? && Filtered(lib, rows, Some(where), scope).Some?
    ensures forall c :: c in Filtered(lib, cells, rest, scope).value <==>
      c in Filtered(lib, rows, Some(where), scope).value || IsStray(lib, ix, rows, b, rest, scope, c)
    ensures forall c :: IsStray(lib, ix, rows, b, rest, scope, c) ==> c !in Filtered(lib, rows, Some(where), scope).value
  {
    forall i | 0 <= i < |cells|
      ensures |cells[i].val| == |scope| && (rest.Some? ==> Evaluates(lib, rest.value, cells[i].val, scope))
    {
      var p :| 0 <= p < |rows| && rows[p] == cells[i];
      RewriteKeepsMeaning(lib, where, b, rows[p].val, scope, lead, ix.columns[0]);
    }
    FilteredRows(lib, rows, Some(where), scope);
    FilteredRows(lib, cells, rest, scope);
    forall c
      ensures c in Filtered(lib, cells, rest, scope).value <==>
        c in Filtered(lib, rows, Some(where), scope).value || IsStray(lib, ix, rows, b, rest, scope, c)
      ensures IsStray(lib, ix, rows, b, rest, scope, c) ==> c !in Filtered(lib, rows, Some(where), scope).value
    {
      FetchedAre(dom, ix, rows, low, high, cells, c);
      if c in rows { RowOnPaths(lib, dom, ix, rows, where, lead, b, rest, scope, low, high, c); }
    }
  }

  /** One row, kept by the whole filter or by bounds and residual. */
  lemma {:induction false} RowOnPaths(lib: Lib, dom: Value -> bool, ix: Index, rows: Rows, where: Expr, lead: Text, b: Bounds, rest: Option<Expr>,
                   scope: Scope, low: Option<Bound>, high: Option<Bound>, c: Cell<int, Row>)
    requires Planned(lib, where, lead, b, rest) && Wide(rows, scope) && c in rows
    requires forall i :: 0 <= i < |rows| ==> Evaluates(lib, where, rows[i].val, scope)
    requires |ix.columns| >= 1 && Leads(scope, lead, ix.columns[0])
    requires EvalBound(lib, b.low) == Some(low) && EvalBound(lib, b.high) == Some(high)
    requires Scannable(dom, ix, rows, low, high)
    ensures |c.val| == |scope| && Covers(ix.columns, c.val)
    ensures InBounds(c.val[ix.columns[0]], low, high) && FilterPasses(lib, rest, c.val, scope) <==>
      Passes(lib, where, c.val, scope) || (b.low.None? && Stray(lib, ix, rest, scope, c))
    ensures b.low.None? && Stray(lib, ix, rest, scope, c) ==> !Passes(lib, where, c.val, scope)
  {
    var p :| 0 <= p < |rows| && rows[p] == c;
    assert Fine(dom, ix.columns, c.val);
    RewriteKeepsMeaning(lib, where, b, c.val, scope, lead, ix.columns[0]);
    if b.low.None? { NullIsInBounds(lib, where, lead, b, rest, high); }
  }

  /** An upper bound alone lets NULL in. */
  lemma NullIsInBounds(lib: Lib, where: Expr, lead: Text, b: Bounds, rest: Option<Expr>, high: Option<Bound>)
    requires Planned(lib, where, lead, b, rest) && b.low.None? && EvalBound(lib, b.high) == Some(high)
    ensures InBounds(Null, None, high)
  {
    var parts := Conjuncts(where);
    var preds := OnColumn(Usable(parts, |parts|), lead);
    if b.high.Some? {
      var i: nat :| FirstUpper(preds, i) && b.high.value == BoundOf(preds[i]) && preds[i].src in b.used;
      assert preds[i] in preds;
      MatchedLiteral(parts[preds[i].src], preds[i].src, preds[i]);
      NullIsBelow(lib, b.high.value, high);
    }
  }

  lemma MatchedLiteral(e: Expr, src: nat, p: Predicate)
    requires Match(e, src) == Some(p)
    ensures p.kind != NullLiteral
  {
  }

  lemma NullIsBelow(lib: Lib, pb: PlanBound, high: Option<Bound>)
    requires pb.kind != NullLiteral && EvalBound(lib, Some(pb)) == Some(high)
    ensures Below(Null, high)
  {
    NullIsLeast(Null, high.value.value);
  }

  /**
  The access path makes no difference: for a filter that evaluates on every row, the residual filter over
  the index scan keeps the same rows as the whole filter over the table, each once. With an upper bound
  alone that is so exactly when no row with a NULL in the leading column passes the residual filter.
  */
  lemma {:induction false} PathsAgree(lib: Lib, dom: Value -> bool, ix: Index, rows: Rows, where: Expr, lead: Text, b: Bounds, rest: Option<Expr>,
                   scope: Scope, low: Option<Bound>, high: Option<Bound>, cells: Rows)
    requires Planned(lib, where, lead, b, rest) && Wide(rows, scope)
    requires forall i :: 0 <= i < |rows| ==> Evaluates(lib, where, rows[i].val, scope)
    requires |ix.columns| >= 1 && Leads(scope, lead, ix.columns[0])
    requires EvalBound(lib, b.low) == Some(low) && EvalBound(lib, b.high) == Some(high)
    requires Scannable(dom, ix, rows, low, high) && Fetched(ix.columns, rows, Selected(ix.entries, low, high), cells)
    ensures Wide(cells, scope) && Filtered(lib, cells, rest, scope).Some? && Filtered(lib, rows, Some(where), scope).Some?
    ensures Once(Filtered(lib, cells, rest, scope).value)
    ensures SameRows(Filtered(lib, rows, Some(where), scope).value, Filtered(lib, cells, rest, scope).value) <==>
      forall c :: !IsStray(lib, ix, rows, b, rest, scope, c)
  {
    PathsDiffer(lib, dom, ix, rows, where, lead, b, rest, scope, low, high, cells);
    FetchedOnce(dom, ix, rows, low, high, cells);
    FilteredOnce(lib, cells, rest, scope);
    var a, z := Filtered(lib, rows, Some(where), scope).value, Filtered(lib, cells, rest, scope).value;
    if c :| IsStray(lib, ix, rows, b, rest, scope, c) {
      assert c in z && c !in a;
    } else {
      assert forall c :: c in a <==> c in z;
    }
  }

  ghost predicate SameRows(a: Rows, b: Rows) {
    forall c :: c in a <==> c in b
  }

  // ---- an upper bound alone finds a NULL ----

  /** The column a. */
  const LETTER: Text := [97]
  /** The literal 5. */
  const DIGIT: Text := [53]

  function LessThanFive(): Expr { Binary(Column([], LETTER), Lt, Literal(IntLiteral, DIGIT)) }
  function NullRow(): Rows { [Cell(1, [Null])] }
  function NullIndex(): Index { Index([0], false, [Cell([Null, Integer(1)], Unit)]) }

  lemma NullIndexAgrees()
    ensures Agrees(Exact, NullIndex(), NullRow())
  {
    ExactIsTame();
    var ix, rows := NullIndex(), NullRow();
    assert KeyCols(ix.columns, rows[0].val) == [Null];
    assert EntryKey(ix.columns, rows[0]) == ix.entries[0].key;
    assert KeySet(ix.entries) == {ix.entries[0].key};
    assert Image(Exact, ix.columns, rows) == {ix.entries[0].key};
  }

  function LetterBound(): Predicate { Predicate(0, LETTER, Lt, IntLiteral, DIGIT) }

  lemma OneUsable()
    ensures Usable([LessThanFive()], 1) == [LetterBound()]
  {
    assert Match(LessThanFive(), 0) == Some(LetterBound());
    assert Usable([LessThanFive()], 0) == [];
  }

  lemma OneOnColumn(p: Predicate)
    ensures OnColumn([p], p.column) == [p]
  {
    assert [p][..0] == [];
    assert OnColumn([p][..0], p.column) == [];
  }

  lemma OneUpperBound(p: Predicate)
    requires p.op == Lt
    ensures BoundsFrom([p], Bounds(None, Some(BoundOf(p)), {p.src})) && Score([p]) > 0
  {
    var preds, b := [p], Bounds(None, Some(BoundOf(p)), {p.src});
    assert FirstUpper(preds, 0) && BoundAt(preds, b, 0);
    assert preds[0].src == p.src && IsUpper(preds[0].op);
  }

  lemma LessThanFiveBounds(lib: Lib)
    ensures Planned(lib, LessThanFive(), LETTER, Bounds(None, Some(PlanBound(IntLiteral, DIGIT, false)), {0}), None)
  {
    var parts := [LessThanFive()];
    assert Conjuncts(LessThanFive()) == parts;
    OneUsable();
    OneOnColumn(LetterBound());
    OneUpperBound(LetterBound());
    assert Residual(parts, {0}, 0) == None && Residual(parts, {0}, 1) == None;
  }

  /**
  The rewrite is not faithful without a lower bound: for `a < 5` over one row in which a is NULL, the table
  scan keeps nothing and the index scan keeps the row.
  */
  lemma UpperBoundFindsNull(lib: Lib)
    requires lib.parseInt(DIGIT) == Some(5)
    ensures var rows, scope := NullRow(), [Name([], LETTER)];
      && Planned(lib, LessThanFive(), LETTER, Bounds(None, Some(PlanBound(IntLiteral, DIGIT, false)), {0}), None)
      && Agrees(Exact, NullIndex(), rows)
      && Filtered(lib, rows, Some(LessThanFive()), scope) == Some([])
      && EvalBound(lib, Some(PlanBound(IntLiteral, DIGIT, false))) == Some(Some(Bound(Integer(5), false)))
      && Fetched([0], rows, Selected(NullIndex().entries, None, Some(Bound(Integer(5), false))), rows)
      && Filtered(lib, rows, None, scope) == Some(rows)
  {
    LessThanFiveBounds(lib);
    NullIndexAgrees();
    hide Planned, Agrees, LessThanFive;
    NullIsFiltered(lib);
    NullIsFetched(Some(Bound(Integer(5), false)));
  }

  lemma NullIsFiltered(lib: Lib)
    requires lib.parseInt(DIGIT) == Some(5)
    ensures var rows, scope := NullRow(), [Name([], LETTER)];
      && Filtered(lib, rows, Some(LessThanFive()), scope) == Some([])
      && Filtered(lib, rows, None, scope) == Some(rows)
  {
    var rows, scope, where := NullRow(), [Name([], LETTER)], LessThanFive();
    assert rows[..0] == [];
    NullColumn(scope);
    assert Evaluation.Eval(lib, where.left, rows[0].val, scope) == Ok(Null);
    assert Evaluation.Eval(lib, where, rows[0].val, scope) == Ok(Null);
    assert Filtered(lib, rows[..0], Some(where), scope) == Some([]);
    assert Filtered(lib, rows[..0], None, scope) == Some([]);
    assert rows == [] + [rows[0]];
  }

  lemma NullIsFetched(high: Option<Bound>)
    requires Below(Null, high)
    ensures Fetched([0], NullRow(), Selected(NullIndex().entries, None, high), NullRow())
  {
    var rows, entries := NullRow(), NullIndex().entries;
    assert entries[1..] == [] && Selected(entries[1..], None, high) == [];
    assert Hit(entries[0].key, None, high);
    assert EntryKey([0], rows[0]) == entries[0].key by { assert KeyCols([0], rows[0].val) == [Null]; }
  }

  lemma NullColumn(scope: Scope)
    requires scope == [Name([], LETTER)]
    ensures Resolve(scope, [], LETTER) == Some(0)
  {
    assert Names(scope[0], [], LETTER);
    assert ResolveFrom(scope, [], LETTER, 1, Some(0)) == Some(0);
  }
}
