/**
UPDATE and DELETE: a scan of the table as it is before the statement collects what is to be done, and
only then is it done.
*/
module Engine {
  import opened Bytes
  import opened Cells
  import opened Values
  import opened Ast
  import opened Evaluation
  import opened Indexes
  import opened IndexScans
  import opened Planner
  import opened PlanMeaning
  import opened TableTree
  import opened TableStates
  import opened StoredTables
  import opened TableRuns
  import opened Tables
  import opened Exec
  import BTree
  import BTreeOps
  import Record
  import Tuples

  /** The catalog's view of a table: its columns, its indexes, and which of the table's indexes each one is. */
  datatype Schema = Schema(scope: Scope, listed: seq<Listed>, slot: seq<nat>)

  /** The catalog and the table speak of the same indexes. */
  ghost predicate Matches(schema: Schema, indexes: seq<Index>) {
    && |schema.slot| == |schema.listed|
    && forall i :: 0 <= i < |schema.listed| && schema.listed[i].columns != [] ==>
      && schema.slot[i] < |indexes| && |indexes[schema.slot[i]].columns| >= 1
      && Leads(schema.scope, schema.listed[i].columns[0], indexes[schema.slot[i]].columns[0])
  }

  /** Every column that the expression mentions can be resolved. */
  predicate Validates(e: Expr, scope: Scope) {
    match e
    case Column(table, name) => Resolve(scope, table, name).Some?
    case Binary(left, _, right) => Validates(left, scope) && Validates(right, scope)
    case Unary(_, operand) => Validates(operand, scope)
    case _ => true
  }

  /** A filter is validated exactly if all its references name a column: with no minus, no star and no unreadable literal in it, it then has a value on every row. */
  lemma {:induction false} ValidatesIff(lib: Lib, e: Expr, row: Row, scope: Scope)
    requires |row| == |scope|
    ensures Validates(e, scope) <==> forall x :: x in Atoms(e) && x.Column? ==> Resolve(scope, x.table, x.name).Some?
    ensures Evaluates(lib, e, row, scope) ==> Validates(e, scope)
    ensures Validates(e, scope) && !HasMinus(e) && (forall x :: x in Atoms(e) && !x.Column? ==> AtomReads(lib, x, scope)) ==>
      Evaluates(lib, e, row, scope)
  {
    ReferencesValidate(e, scope);
    EvaluatesIff(lib, e, row, scope);
    hide Validates, Atoms, Eval, HasMinus, Resolve;
  }

  lemma {:induction false} ReferencesValidate(e: Expr, scope: Scope)
    ensures Validates(e, scope) <==> forall x :: x in Atoms(e) && x.Column? ==> Resolve(scope, x.table, x.name).Some?
  {
    match e
    case Unary(_, operand) => ReferencesValidate(operand, scope);
    case Binary(left, _, right) =>
      ReferencesValidate(left, scope);
      ReferencesValidate(right, scope);
    case _ =>
      assert Atoms(e) == [e];
      assert forall x :: x in Atoms(e) <==> x == e;
  }

  /** The literals that may become bounds belong to the domain in which values are compared. */
  ghost predicate BoundsFit(lib: Lib, dom: Value -> bool, where: Option<Expr>) {
    where.Some? ==> forall e, src :: e in Conjuncts(where.value) && Match(e, src).Some? ==>
      LiteralFits(lib, dom, Match(e, src).value)
  }

  ghost predicate LiteralFits(lib: Lib, dom: Value -> bool, p: Predicate) {
    EvalConst(lib, p.kind, p.text).Ok? ==> dom(EvalConst(lib, p.kind, p.text).v)
  }

  // ---- the scan ----

  /** What a plan makes of a table. */
  ghost predicate PickedBy(lib: Lib, schema: Schema, rows: Rows, indexes: seq<Index>, plan: Plan, picked: Rows) {
    && Wide(rows, schema.scope)
    && match plan
       case SeqPlan(filter) => Filtered(lib, rows, filter, schema.scope) == Some(picked)
       case IndexPlan(i, low, high, filter) =>
         && i < |schema.slot| && schema.slot[i] < |indexes|
         && EvalBound(lib, low).Some? && EvalBound(lib, high).Some?
         && exists cells :: PickedFrom(lib, schema.scope, rows, indexes[schema.slot[i]], EvalBound(lib, low).value, EvalBound(lib, high).value, filter, cells, picked)
  }

  ghost predicate PickedFrom(lib: Lib, scope: Scope, rows: Rows, ix: Index, low: Option<Bound>, high: Option<Bound>,
                             filter: Option<Expr>, cells: Rows, picked: Rows) {
    && Fetched(ix.columns, rows, Selected(ix.entries, low, high), cells) && Wide(cells, scope)
    && Filtered(lib, cells, filter, scope) == Some(picked)
  }

  /** Bounds of a plan come from literals of the filter. */
  lemma PlanBoundsFit(lib: Lib, dom: Value -> bool, listed: seq<Listed>, where: Option<Expr>, plan: Plan)
    requires PlanFor(listed, where, plan) && BoundsFit(lib, dom, where) && plan.IndexPlan?
    ensures plan.index < |listed| && listed[plan.index].columns != []
    ensures EvalBound(lib, plan.low).Some? && EvalBound(lib, plan.low).value.Some? ==> dom(EvalBound(lib, plan.low).value.value.value)
    ensures EvalBound(lib, plan.high).Some? && EvalBound(lib, plan.high).value.Some? ==> dom(EvalBound(lib, plan.high).value.value.value)
  {
    var parts := Conjuncts(where.value);
    var usable := Usable(parts, |parts|);
    var best :| IsBest(Scores(listed, usable), best) &&
      match best
      case None => plan == SeqPlan(where)
      case Some(i) => exists b :: IndexPlanFrom(parts, PredsFor(listed, usable, i), i, b, plan);
    var preds := PredsFor(listed, usable, best.value);
    var b :| IndexPlanFrom(parts, preds, best.value, b, plan);
    if b.low.Some? { BoundFits(lib, dom, parts, preds, usable, b, b.low); }
    if b.high.Some? { BoundFits(lib, dom, parts, preds, usable, b, b.high); }
  }

  lemma {:induction false} BoundFits(lib: Lib, dom: Value -> bool, parts: seq<Expr>, preds: seq<Predicate>, usable: seq<Predicate>, b: Bounds, pb: Option<PlanBound>)
    requires BoundsFrom(preds, b) && pb.Some? && (pb == b.low || pb == b.high)
    requires usable == Usable(parts, |parts|) && forall p :: p in preds ==> p in usable
    requires forall e, src :: e in parts && Match(e, src).Some? ==> LiteralFits(lib, dom, Match(e, src).value)
    ensures EvalBound(lib, pb).Some? && EvalBound(lib, pb).value.Some? ==> dom(EvalBound(lib, pb).value.value.value)
  {
    var i := BoundSource(preds, b, pb);
    assert preds[i] in preds;
    assert parts[preds[i].src] in parts && Match(parts[preds[i].src], preds[i].src) == Some(preds[i]);
  }

  lemma BoundSource(preds: seq<Predicate>, b: Bounds, pb: Option<PlanBound>) returns (i: nat)
    requires BoundsFrom(preds, b) && pb.Some? && (pb == b.low || pb == b.high)
    ensures i < |preds| && pb.value == BoundOf(preds[i])
  {
    if HasEq(preds) {
      i :| FirstEq(preds, i) && b == Bounds(Some(BoundOf(preds[i])), Some(BoundOf(preds[i])), {preds[i].src});
    } else if pb == b.low {
      i :| FirstLower(preds, i) && b.low.value == BoundOf(preds[i]) && preds[i].src in b.used;
    } else {
      i :| FirstUpper(preds, i) && b.high.value == BoundOf(preds[i]) && preds[i].src in b.used;
    }
  }

  /** A column that cannot be resolved, a bound that has no value, or a row of the scan on which the filter has none. */
  ghost predicate PlanFails(lib: Lib, schema: Schema, rows: Rows, indexes: seq<Index>, plan: Plan)
    requires Wide(rows, schema.scope)
  {
    || (plan.filter.Some? && !Validates(plan.filter.value, schema.scope))
    || match plan
       case SeqPlan(filter) => FilterFails(lib, schema.scope, rows, filter)
       case IndexPlan(i, low, high, filter) =>
         || EvalBound(lib, low).None? || EvalBound(lib, high).None?
         || (i < |schema.slot| && schema.slot[i] < |indexes|
             && FilterFailsWithin(lib, schema.scope, rows, indexes[schema.slot[i]], EvalBound(lib, low).value, EvalBound(lib, high).value, filter))
  }

  ghost predicate FilterFails(lib: Lib, scope: Scope, rows: Rows, filter: Option<Expr>)
    requires Wide(rows, scope)
  {
    filter.Some? && exists i :: 0 <= i < |rows| && !Evaluates(lib, filter.value, rows[i].val, scope)
  }

  ghost predicate FilterFailsWithin(lib: Lib, scope: Scope, rows: Rows, ix: Index, low: Option<Bound>, high: Option<Bound>, filter: Option<Expr>)
    requires Wide(rows, scope)
  {
    filter.Some? && exists i :: 0 <= i < |rows| && RowWithin(ix, rows[i].val, low, high) && !Evaluates(lib, filter.value, rows[i].val, scope)
  }

  predicate RowWithin(ix: Index, row: Row, low: Option<Bound>, high: Option<Bound>) {
    ix.columns != [] && Covers(ix.columns, row) && InBounds(row[ix.columns[0]], low, high)
  }

  /**
  Reading a whole table fails exactly if the filter mentions a column that the table does not have, even where the table is empty, or if there is a row and
  the filter cannot be evaluated: what is in the rows makes no difference.
  */
  lemma TableScanFails(lib: Lib, schema: Schema, rows: Rows, indexes: seq<Index>, e: Expr)
    requires Wide(rows, schema.scope)
    ensures PlanFails(lib, schema, rows, indexes, SeqPlan(Some(e))) <==>
      || (exists x :: x in Atoms(e) && x.Column? && Resolve(schema.scope, x.table, x.name).None?)
      || (rows != [] && (HasMinus(e) || exists x :: x in Atoms(e) && !AtomReads(lib, x, schema.scope)))
  {
    ReferencesValidate(e, schema.scope);
    hide Validates, Atoms, HasMinus, Resolve, Eval, AtomReads;
    if rows != [] { EvaluatesIff(lib, e, rows[0].val, schema.scope); }
    forall i | 0 <= i < |rows|
      ensures Evaluates(lib, e, rows[i].val, schema.scope) <==> !HasMinus(e) && forall x :: x in Atoms(e) ==> AtomReads(lib, x, schema.scope)
    {
      EvaluatesIff(lib, e, rows[i].val, schema.scope);
    }
  }

  /** Runs a plan; says exactly when that fails, and otherwise what is picked. */
  method RunPlan(lib: Lib, schema: Schema, rows: Rows, indexes: seq<Index>, plan: Plan, ghost where: Option<Expr>, ghost dom: Value -> bool)
    returns (picked: Option<Rows>)
    requires PlanFor(schema.listed, where, plan) && BoundsFit(lib, dom, where)
    requires Matches(schema, indexes) && Wide(rows, schema.scope) && Sorted(CompareRowid, rows)
    requires forall k :: 0 <= k < |indexes| ==> Agrees(dom, indexes[k], rows)
    ensures picked.None? <==> PlanFails(lib, schema, rows, indexes, plan)
    ensures picked.Some? ==> PickedBy(lib, schema, rows, indexes, plan, picked.value)
    ensures picked.Some? ==> Once(picked.value) && forall c :: c in picked.value ==> c in rows && |c.val| == |schema.scope|
  {
    hide FilterFails, FilterFailsWithin, PlanFor, Agrees, Filtered, Once, PickedFrom;
    picked := None;
    if plan.filter.None? || Validates(plan.filter.value, schema.scope) {
      match plan {
        case SeqPlan(filter) =>
          picked := RunFilter(lib, rows, filter, schema.scope);
          PickedRows(lib, rows, rows, filter, schema.scope);
          FilterRuns(lib, schema.scope, rows, filter);
        case IndexPlan(i, l, h, filter) =>
          PlanBoundsFit(lib, dom, schema.listed, where, plan);
          var low, high := EvalBound(lib, l), EvalBound(lib, h);
          if low.Some? && high.Some? {
            picked := RunIndex(lib, schema.scope, rows, indexes[schema.slot[i]], low.value, high.value, filter, dom);
          }
      }
    }
  }

  lemma FilterRuns(lib: Lib, scope: Scope, rows: Rows, filter: Option<Expr>)
    requires Wide(rows, scope)
    ensures Filtered(lib, rows, filter, scope).None? <==> FilterFails(lib, scope, rows, filter)
  {
    FilteredRows(lib, rows, filter, scope);
  }

  method RunIndex(lib: Lib, scope: Scope, rows: Rows, ix: Index, low: Option<Bound>, high: Option<Bound>, filter: Option<Expr>, ghost dom: Value -> bool)
    returns (picked: Option<Rows>)
    requires Scannable(dom, ix, rows, low, high) && Wide(rows, scope)
    ensures picked.None? <==> FilterFailsWithin(lib, scope, rows, ix, low, high, filter)
    ensures picked.Some? ==> exists cells :: PickedFrom(lib, scope, rows, ix, low, high, filter, cells, picked.value)
    ensures picked.Some? ==> Once(picked.value) && forall c :: c in picked.value ==> c in rows && |c.val| == |scope|
  {
    var cells := ReadIndex(ix, rows, low, high, dom);
    hide FilterFails, FilterFailsWithin, Scannable, Filtered, Once, Fetched, Selected;
    FetchedOnce(dom, ix, rows, low, high, cells);
    FetchedWide(ix.columns, rows, Selected(ix.entries, low, high), cells, scope);
    picked := RunFilter(lib, cells, filter, scope);
    FetchedRows(ix.columns, rows, Selected(ix.entries, low, high), cells);
    PickedRows(lib, rows, cells, filter, scope);
    FilterRuns(lib, scope, cells, filter);
    FailsWithin(lib, scope, dom, rows, ix, low, high, filter, cells);
    assert picked.Some? ==> PickedFrom(lib, scope, rows, ix, low, high, filter, cells, picked.value);
  }

  lemma FetchedRows(columns: seq<nat>, rows: Rows, keys: seq<Tuples.Tuple>, cells: Rows)
    requires Fetched(columns, rows, keys, cells)
    ensures forall c :: c in cells ==> c in rows
  {
  }

  /** The filter fails on a row that is fetched exactly when it fails on one within the bounds. */
  lemma FailsWithin(lib: Lib, scope: Scope, dom: Value -> bool, rows: Rows, ix: Index, low: Option<Bound>, high: Option<Bound>, filter: Option<Expr>, cells: Rows)
    requires Scannable(dom, ix, rows, low, high) && Wide(rows, scope) && Wide(cells, scope)
    requires Fetched(ix.columns, rows, Selected(ix.entries, low, high), cells)
    ensures FilterFails(lib, scope, cells, filter) <==> FilterFailsWithin(lib, scope, rows, ix, low, high, filter)
  {
    assert ix.columns != [];
    forall c ensures c in cells <==> c in rows && RowWithin(ix, c.val, low, high) {
      FetchedAre(dom, ix, rows, low, high, cells, c);
    }
    hide Scannable, Fetched, Selected, Evaluates, RowWithin;
    if FilterFails(lib, scope, cells, filter) {
      var i :| 0 <= i < |cells| && !Evaluates(lib, filter.value, cells[i].val, scope);
      assert cells[i] in cells;
      var j :| 0 <= j < |rows| && rows[j] == cells[i];
    }
    if FilterFailsWithin(lib, scope, rows, ix, low, high, filter) {
      var i :| 0 <= i < |rows| && RowWithin(ix, rows[i].val, low, high) && !Evaluates(lib, filter.value, rows[i].val, scope);
      assert rows[i] in rows;
      var j :| 0 <= j < |cells| && cells[j] == rows[i];
    }
  }

  lemma FetchedWide(columns: seq<nat>, rows: Rows, keys: seq<Tuples.Tuple>, cells: Rows, scope: Scope)
    requires Fetched(columns, rows, keys, cells) && Wide(rows, scope)
    ensures Wide(cells, scope)
  {
    forall i | 0 <= i < |cells| ensures |cells[i].val| == |scope| {
      var p :| 0 <= p < |rows| && rows[p] == cells[i];
    }
  }

  /** What is picked from rows of a table are rows of the table, none of them twice. */
  lemma PickedRows(lib: Lib, rows: Rows, cells: Rows, filter: Option<Expr>, scope: Scope)
    requires Wide(cells, scope) && forall c :: c in cells ==> c in rows
    ensures Filtered(lib, cells, filter, scope).Some? ==> forall c :: c in Filtered(lib, cells, filter, scope).value ==> c in rows && |c.val| == |scope|
    ensures Filtered(lib, cells, filter, scope).Some? && (Once(cells) || (cells == rows && Sorted(CompareRowid, rows))) ==>
      Once(Filtered(lib, cells, filter, scope).value)
  {
    FilteredRows(lib, cells, filter, scope);
    if cells == rows && Sorted(CompareRowid, rows) { SortedOnce(rows); }
    if Filtered(lib, cells, filter, scope).Some? && Once(cells) { FilteredOnce(lib, cells, filter, scope); }
  }

  lemma SortedOnce(rows: Rows)
    requires Sorted(CompareRowid, rows)
    ensures Once(rows)
  {
    forall i, j | 0 <= i < j < |rows| ensures rows[i].key != rows[j].key {
      assert CompareRowid(rows[i].key, rows[j].key) < 0;
    }
  }

  // ---- UPDATE ----

  /** A column gets the value of an expression. */
  datatype Assign = Assign(column: nat, value: Expr)

  predicate AssignsFit(assigns: seq<Assign>, scope: Scope) {
    forall i :: 0 <= i < |assigns| ==> assigns[i].column < |scope|
  }

  /** The row with the first n assignments made; every right-hand side is evaluated on the old row. */
  function Assigned(lib: Lib, row: Row, assigns: seq<Assign>, n: nat, scope: Scope): (r: Option<Row>)
    requires |row| == |scope| && n <= |assigns| && AssignsFit(assigns, scope)
    ensures r.Some? ==> |r.value| == |row|
  {
    if n == 0 then Some(row)
    else
      match (Assigned(lib, row, assigns, n - 1, scope), Evaluation.Eval(lib, assigns[n - 1].value, row, scope))
      case (Some(r), Ok(v)) => Some(r[assigns[n - 1].column := v])
      case _ => None
  }

  lemma {:induction false} AssignedFails(lib: Lib, row: Row, assigns: seq<Assign>, n: nat, m: nat, scope: Scope)
    requires |row| == |scope| && n <= m <= |assigns| && AssignsFit(assigns, scope) && Assigned(lib, row, assigns, n, scope).None?
    ensures Assigned(lib, row, assigns, m, scope).None?
  {
    if n < m { AssignedFails(lib, row, assigns, n, m - 1, scope); }
  }

  /** What the assignments come to: the last value given to a column, and otherwise what was there. */
  lemma {:induction false} AssignedIs(lib: Lib, row: Row, assigns: seq<Assign>, n: nat, scope: Scope, i: nat)
    requires |row| == |scope| && n <= |assigns| && AssignsFit(assigns, scope) && i < |row|
    requires Assigned(lib, row, assigns, n, scope).Some?
    ensures IsAssigned(lib, row, assigns, n, scope, i, Assigned(lib, row, assigns, n, scope).value[i])
  {
    if n > 0 { AssignedIs(lib, row, assigns, n - 1, scope, i); }
  }

  /** The value of column i after n assignments. */
  ghost predicate IsAssigned(lib: Lib, row: Row, assigns: seq<Assign>, n: nat, scope: Scope, i: nat, v: Value)
    requires |row| == |scope| && n <= |assigns| && i < |row|
  {
    if n == 0 then v == row[i]
    else if assigns[n - 1].column == i then Evaluation.Eval(lib, assigns[n - 1].value, row, scope) == Ok(v)
    else IsAssigned(lib, row, assigns, n - 1, scope, i, v)
  }

  method NewRow(lib: Lib, row: Row, assigns: seq<Assign>, scope: Scope) returns (r: Option<Row>)
    requires |row| == |scope| && AssignsFit(assigns, scope)
    ensures r == Assigned(lib, row, assigns, |assigns|, scope)
  {
    var next := row;
    for i := 0 to |assigns|
      invariant |next| == |row| && Assigned(lib, row, assigns, i, scope) == Some(next)
    {
      var v := Evaluation.Eval(lib, assigns[i].value, row, scope);
      if v.Failed? {
        AssignedFails(lib, row, assigns, i + 1, |assigns|, scope);
        return None;
      }
      next := next[assigns[i].column := v.v];
    }
    r := Some(next);
  }

  /** The updates that are pending, one for each picked row. */
  ghost predicate Pending(lib: Lib, assigns: seq<Assign>, scope: Scope, picked: Rows, updates: Rows) {
    && AssignsFit(assigns, scope) && |updates| == |picked|
    && forall i :: 0 <= i < |picked| ==> Replaces(lib, assigns, scope, picked[i], updates[i])
  }

  ghost predicate Replaces(lib: Lib, assigns: seq<Assign>, scope: Scope, c: Cell<int, Row>, u: Cell<int, Row>)
    requires AssignsFit(assigns, scope)
  {
    |c.val| == |scope| && u.key == c.key && Assigned(lib, c.val, assigns, |assigns|, scope) == Some(u.val)
  }

  /** An assignment to one of the rows has no value. */
  ghost predicate AssignFails(lib: Lib, assigns: seq<Assign>, scope: Scope, picked: Rows)
    requires AssignsFit(assigns, scope) && forall c :: c in picked ==> |c.val| == |scope|
  {
    exists i :: 0 <= i < |picked| && Assigned(lib, picked[i].val, assigns, |assigns|, scope).None?
  }

  method Collect(lib: Lib, assigns: seq<Assign>, scope: Scope, picked: Rows) returns (updates: Option<Rows>)
    requires AssignsFit(assigns, scope) && forall c :: c in picked ==> |c.val| == |scope|
    ensures updates.None? <==> AssignFails(lib, assigns, scope, picked)
    ensures updates.Some? ==> Pending(lib, assigns, scope, picked, updates.value)
  {
    var done: Rows := [];
    for i := 0 to |picked|
      invariant Pending(lib, assigns, scope, picked[..i], done)
      invariant forall j :: 0 <= j < i ==> Assigned(lib, picked[j].val, assigns, |assigns|, scope).Some?
    {
      assert picked[i] in picked && picked[..i + 1] == picked[..i] + [picked[i]];
      var row := NewRow(lib, picked[i].val, assigns, scope);
      if row.None? { return None; }
      done := done + [Cell(picked[i].key, row.value)];
    }
    assert picked[..|picked|] == picked;
    updates := Some(done);
  }

  /** A table after some of its rows were replaced, by rowid. */
  function Rewritten(rows: Rows, news: map<int, Row>): (r: Rows)
    ensures |r| == |rows|
    ensures forall i {:trigger r[i]} :: 0 <= i < |r| ==> r[i] == if rows[i].key in news then Cell(rows[i].key, news[rows[i].key]) else rows[i]
  {
    seq(|rows|, i requires 0 <= i < |rows| => if rows[i].key in news then Cell(rows[i].key, news[rows[i].key]) else rows[i])
  }

  function AsMap(updates: Rows): map<int, Row> {
    if updates == [] then map[]
    else
      var n := |updates| - 1;
      AsMap(updates[..n])[updates[n].key := updates[n].val]
  }

  lemma OneMore(rows: Rows, news: map<int, Row>, i: nat, row: Row)
    requires i < |rows| && Sorted(CompareRowid, rows)
    ensures Rewritten(rows, news)[i := Cell(rows[i].key, row)] == Rewritten(rows, news[rows[i].key := row])
  {
    var next := news[rows[i].key := row];
    forall j | 0 <= j < |rows| ensures Rewritten(rows, news)[i := Cell(rows[i].key, row)][j] == Rewritten(rows, next)[j] {
      SameRowid(rows, i, j);
    }
  }

  // ---- what a run of updates leaves, room or no room ----

  /** Row i is the one that an update rewrites. */
  ghost predicate IsRow(s: Stored, u: Cell<int, Row>, i: int) {
    && 0 <= i < |StoredRows(s)| && StoredRows(s)[i].key == u.key
    && AllCover(Views(s.indexes), StoredRows(s)[i].val) && AllCover(Views(s.indexes), u.val)
  }

  /** A table after one update; a row that is not there is passed over. */
  ghost function UpdatedOnce(s: Stored, u: Cell<int, Row>): Stored {
    if i :| IsRow(s, u, i) then RowUpdate(s, StoredRows(s)[i], u.val) else s
  }

  /** A table after updates that go through. */
  ghost function AfterUpdates(s: Stored, updates: Rows): Stored {
    if updates == [] then s
    else
      var n := |updates| - 1;
      UpdatedOnce(AfterUpdates(s, updates[..n]), updates[n])
  }

  /** The leaf that an update writes to has room, or the row is not there. */
  ghost predicate RowHasRoom(s: Stored, u: Cell<int, Row>) {
    HasRow(StoredRows(s), u.key) ==> BTreeOps.UpdateFits(TableLayout(), s.tree, RowCell(u))
  }

  /** So it was for every update, on the table that those before it had left. */
  ghost predicate RowsHaveRoom(s: Stored, updates: Rows) {
    updates == [] ||
      var n := |updates| - 1;
      RowsHaveRoom(s, updates[..n]) && RowHasRoom(AfterUpdates(s, updates[..n]), updates[n])
  }

  lemma ReadableOnce(s: Stored, i: int, j: int)
    requires Readable(s) && 0 <= i < |StoredRows(s)| && 0 <= j < |StoredRows(s)| && StoredRows(s)[i].key == StoredRows(s)[j].key
    ensures i == j
  {
    StoredSorted(s);
    SameRowid(StoredRows(s), i, j);
  }

  /** One update that goes through leaves as many rows as there were if there is room for it, and fewer if there is not. */
  lemma OneCounts(s: Stored, u: Cell<int, Row>, o: Outcome, t: Stored)
    requires Readable(s) && AllCover(Views(s.indexes), u.val) && Record.StorableRow(u.val) && o in {Done, Missing}
    requires o == Missing <==> !HasRow(StoredRows(s), u.key)
    requires o == Missing ==> t == s
    requires o == Done ==> exists i :: 0 <= i < |StoredRows(s)| && StoredRows(s)[i].key == u.key && Rewrites(s, i, u.val, Done, t)
    ensures t == UpdatedOnce(s, u)
    ensures |StoredRows(t)| <= |StoredRows(s)| && (|StoredRows(t)| == |StoredRows(s)| <==> RowHasRoom(s, u))
  {
    hide BTreeOps.UpdateFits, BTreeOps.UpdateTree, TableLayout, RowFits, MovedKeysFit, KeysMoved, BTree.Grown, Decodable;
    if o == Done {
      var i :| 0 <= i < |StoredRows(s)| && StoredRows(s)[i].key == u.key && Rewrites(s, i, u.val, Done, t);
      assert IsRow(s, u, i);
      forall j | IsRow(s, u, j) ensures j == i { ReadableOnce(s, i, j); }
      RowUpdateIs(s, i, u.val);
    }
  }

  /** How many rows are left after some of the updates says whether there was room for all of them. */
  ghost predicate Counted(s: Stored, updates: Rows, t: Stored) {
    && t == AfterUpdates(s, updates)
    && |StoredRows(t)| <= |StoredRows(s)| && (|StoredRows(t)| == |StoredRows(s)| <==> RowsHaveRoom(s, updates))
  }

  lemma OneMoreCounts(s: Stored, updates: Rows, k: nat, o: Outcome, t: Stored, u: Stored)
    requires k < |updates| && Counted(s, updates[..k], t)
    requires Readable(t) && AllCover(Views(t.indexes), updates[k].val) && Record.StorableRow(updates[k].val) && o in {Done, Missing}
    requires o == Missing <==> !HasRow(StoredRows(t), updates[k].key)
    requires o == Missing ==> u == t
    requires o == Done ==> exists i :: 0 <= i < |StoredRows(t)| && StoredRows(t)[i].key == updates[k].key && Rewrites(t, i, updates[k].val, Done, u)
    ensures Counted(s, updates[..k + 1], u)
  {
    hide Readable, AllCover, Rewrites, UpdatedOnce, RowHasRoom, StoredRows;
    OneCounts(t, updates[k], o, u);
    assert updates[..k + 1][..k] == updates[..k];
  }

  /** The updates stopped at number n: it found its new key taken, or it was too large and left what such an update leaves. */
  ghost predicate StoppedHalfWay(s: Stored, updates: Rows, n: nat, t: Stored) {
    && n < |updates|
    && var was := AfterUpdates(s, updates[..n]);
       || t == was
       || exists i :: IsRow(was, updates[n], i) && UpdateStopped(was, StoredRows(was)[i], updates[n].val, t)
  }

  /** Rows that the encoding and every index of the table can take. */
  ghost predicate Takes(dom: Value -> bool, s: State, rows: Rows) {
    forall i :: 0 <= i < |rows| ==> Suits(dom, s, rows[i].val) && KeysStorable(s, rows[i].val) && Record.StorableRow(rows[i].val)
  }

  /** Every page that one of the updates splits, each on the table that those before it have left, splits into halves that fit. */
  ghost predicate UpdatesHaveRoom(s: Stored, updates: Rows)
    decreases |updates|
  {
    updates == [] ||
      forall i :: 0 <= i < |StoredRows(s)| && StoredRows(s)[i].key == updates[0].key ==>
        && UpdateHasRoom(s, StoredRows(s)[i], updates[0].val)
        && AllCover(Views(s.indexes), StoredRows(s)[i].val) && AllCover(Views(s.indexes), updates[0].val)
        && UpdatesHaveRoom(RowUpdate(s, StoredRows(s)[i], updates[0].val), updates[1..])
  }

  /** A whole table that already has the first n updates, with room for the others. */
  ghost predicate UpdatedTo(dom: Value -> bool, s: Stored, updates: Rows, n: nat, t: Stored)
    requires n <= |updates|
  {
    && Whole(dom, t) && StoredRows(t) == Rewritten(StoredRows(s), AsMap(updates[..n]))
    && t.nextID == s.nextID && SameShape(Views(s.indexes), Views(t.indexes)) && UpdatesHaveRoom(t, updates[n..])
  }

  /** An index has a key of the new row for another row, or the row or one of its new keys is too large. */
  ghost predicate CannotTake(s: Stored, u: Cell<int, Row>) {
    || (Covered(View(s)) && AllCover(Views(s.indexes), u.val) && Blocked(View(s), u.key, u.val))
    || !RowFits(u.val)
    || exists i :: 0 <= i < |StoredRows(s)| && StoredRows(s)[i].key == u.key && !MovedKeysFit(Views(s.indexes), StoredRows(s)[i], u.val)
  }

  /** One of the updates cannot be made on the table as those before it have left it. */
  ghost predicate StopsAt(dom: Value -> bool, s: Stored, updates: Rows) {
    exists k, t :: 0 <= k < |updates| && UpdatedTo(dom, s, updates, k, t) && CannotTake(t, updates[k])
  }

  lemma TooLargeStops(s: Stored, u: Cell<int, Row>, i: nat, t: Stored)
    requires i < |StoredRows(s)| && StoredRows(s)[i].key == u.key && Rewrites(s, i, u.val, TooLarge, t)
    ensures CannotTake(s, u)
  {
  }

  lemma BlockedStops(dom: Value -> bool, s: Stored, u: Cell<int, Row>)
    requires Prepared(dom, s, UpdateOp(u.key, u.val)) && Blocked(View(s), u.key, u.val)
    ensures CannotTake(s, u)
  {
    hide Blocked, Whole;
    WholeScans(dom, s);
    NewRowCovered(dom, s, u.val);
  }

  /** A whole table with the rows that are to be rewritten, what they become, and room for it. */
  ghost predicate Rewritable(dom: Value -> bool, s: Stored, updates: Rows) {
    && Whole(dom, s) && Takes(dom, View(s), StoredRows(s)) && Takes(dom, View(s), updates)
    && (forall k :: 0 <= k < |updates| ==> HasRow(StoredRows(s), updates[k].key)) && UpdatesHaveRoom(s, updates)
  }

  /** The same indexes, whatever their entries. */
  ghost predicate SameShape(a: seq<Index>, b: seq<Index>) {
    |a| == |b| && forall k :: 0 <= k < |a| ==> a[k].columns == b[k].columns && a[k].unique == b[k].unique
  }

  lemma ShapeTakes(dom: Value -> bool, s: State, t: State, rows: Rows)
    requires SameShape(s.indexes, t.indexes) && Takes(dom, s, rows)
    ensures Takes(dom, t, rows)
  {
    forall i | 0 <= i < |rows| ensures Suits(dom, t, rows[i].val) && KeysStorable(t, rows[i].val) && Record.StorableRow(rows[i].val) {
      assert Suits(dom, s, rows[i].val) && KeysStorable(s, rows[i].val);
    }
  }

  lemma RewrittenTakes(dom: Value -> bool, s: State, rows: Rows, updates: Rows, n: nat)
    requires Takes(dom, s, rows) && Takes(dom, s, updates) && n <= |updates|
    ensures Takes(dom, s, Rewritten(rows, AsMap(updates[..n])))
  {
    var news := AsMap(updates[..n]);
    forall i | 0 <= i < |rows|
      ensures Suits(dom, s, Rewritten(rows, news)[i].val) && KeysStorable(s, Rewritten(rows, news)[i].val)
      ensures Record.StorableRow(Rewritten(rows, news)[i].val)
    {
      if rows[i].key in news {
        var j := MapSource(updates[..n], rows[i].key);
        assert updates[..n][j] == updates[j];
      }
    }
  }

  lemma {:induction false} MapSource(updates: Rows, id: int) returns (j: nat)
    requires id in AsMap(updates)
    ensures j < |updates| && updates[j].key == id && updates[j].val == AsMap(updates)[id]
  {
    var n := |updates| - 1;
    if updates[n].key == id {
      j := n;
    } else {
      j := MapSource(updates[..n], id);
    }
  }

  /**
  Writes the updates one after the other; a row that is no longer there is passed over. There are as many rows afterwards as before if and only if
  the leaf of every one of them had room. It stops at the first update that fails, number n, and leaves the table as it is then.
  */
  method ApplyAll(table: Table, updates: Rows, ghost dom: Value -> bool) returns (ok: bool, ghost n: nat)
    requires Readable(table.Now())
    requires forall k :: 0 <= k < |updates| ==> AllCover(Views(table.indexes), updates[k].val) && Record.StorableRow(updates[k].val)
    modifies table
    ensures ok ==> Counted(old(table.Now()), updates, table.Now())
    ensures !ok ==> StoppedHalfWay(old(table.Now()), updates, n, table.Now())
    ensures ok && Rewritable(dom, old(table.Now()), updates) ==> UpdatedTo(dom, old(table.Now()), updates, |updates|, table.Now())
    ensures !ok && Rewritable(dom, old(table.Now()), updates) ==> StopsAt(dom, old(table.Now()), updates)
  {
    hide Rewritable, UpdatedTo, Readable, Whole, Step, Blocked, RowUpdate, Prepared, HasRoom, AllCover, Covered, StopsAt, RowFits, MovedKeysFit, SameShape;
    hide Counted, StoppedHalfWay, UpdateStopped;
    ghost var s := table.Now();
    ShapeSelf(Views(s.indexes));
    if Rewritable(dom, s, updates) { NothingYet(dom, s, updates); }
    NoneCounted(s, updates);
    var k := 0;
    ok, n := true, 0;
    while k < |updates| && ok
      invariant k <= |updates|
      invariant ok ==> Readable(table.Now()) && SameShape(Views(s.indexes), Views(table.indexes))
      invariant ok ==> Counted(s, updates[..k], table.Now())
      invariant !ok ==> StoppedHalfWay(s, updates, n, table.Now())
      invariant ok && Rewritable(dom, s, updates) ==> UpdatedTo(dom, s, updates, k, table.Now())
      invariant !ok && Rewritable(dom, s, updates) ==> StopsAt(dom, s, updates)
    {
      ghost var t := table.Now();
      ShapeCovers(Views(s.indexes), Views(t.indexes), updates[k].val);
      var o := table.Update(updates[k].key, updates[k].val, dom);
      ok := o in {Done, Missing};
      if o == Done {
        UpdateKeepsShape(t, updates[k], table.Now());
        ShapeChain(Views(s.indexes), Views(t.indexes), Views(table.indexes));
      }
      if ok { OneMoreCounts(s, updates, k, o, t, table.Now()); } else { OneStops(s, updates, k, o, t, table.Now()); }
      if Rewritable(dom, s, updates) { OneApplied(dom, s, updates, k, t, o, table.Now()); }
      n := k;
      k := k + 1;
    }
    assert updates[..|updates|] == updates;
  }

  lemma NoneCounted(s: Stored, updates: Rows)
    ensures Counted(s, updates[..0], s)
  {
  }

  lemma OneStops(s: Stored, updates: Rows, k: nat, o: Outcome, t: Stored, u: Stored)
    requires k < |updates| && Counted(s, updates[..k], t) && o in {NotUnique, TooLarge}
    requires o == NotUnique ==> u == t
    requires o == TooLarge ==>
      exists i :: 0 <= i < |StoredRows(t)| && StoredRows(t)[i].key == updates[k].key && Rewrites(t, i, updates[k].val, TooLarge, u)
    ensures StoppedHalfWay(s, updates, k, u)
  {
    hide AllCover, UpdateStopped, RowsHaveRoom, AfterUpdates, RowFits, MovedKeysFit;
    if o == TooLarge {
      var i :| 0 <= i < |StoredRows(t)| && StoredRows(t)[i].key == updates[k].key && Rewrites(t, i, updates[k].val, TooLarge, u);
      assert IsRow(t, updates[k], i);
    }
  }

  lemma NothingRewritten(rows: Rows)
    ensures Rewritten(rows, map[]) == rows
  {
  }

  lemma ShapeCovers(a: seq<Index>, b: seq<Index>, row: Row)
    requires SameShape(a, b) && AllCover(a, row)
    ensures AllCover(b, row)
  {
  }

  lemma NothingYet(dom: Value -> bool, s: Stored, updates: Rows)
    requires Rewritable(dom, s, updates)
    ensures UpdatedTo(dom, s, updates, 0, s)
  {
    hide Whole, Takes, UpdatesHaveRoom;
    NothingRewritten(StoredRows(s));
    assert updates[0..] == updates;
  }

  lemma UpdateKeepsShape(s: Stored, u: Cell<int, Row>, t: Stored)
    requires exists i :: 0 <= i < |StoredRows(s)| && StoredRows(s)[i].key == u.key && Rewrites(s, i, u.val, Done, t)
    ensures SameShape(Views(s.indexes), Views(t.indexes))
  {
    var i :| 0 <= i < |StoredRows(s)| && StoredRows(s)[i].key == u.key && Rewrites(s, i, u.val, Done, t);
    MovedShape(s.indexes, StoredRows(s)[i], u.val);
  }

  /** A table that has the first k updates is ready for the next one, and has room for it. */
  lemma NextIsPrepared(dom: Value -> bool, s: Stored, updates: Rows, k: nat, t: Stored)
    requires k < |updates| && Rewritable(dom, s, updates) && UpdatedTo(dom, s, updates, k, t)
    ensures Prepared(dom, t, UpdateOp(updates[k].key, updates[k].val)) && HasRoom(t, Do(UpdateOp(updates[k].key, updates[k].val), 0))
    ensures HasRow(StoredRows(t), updates[k].key)
  {
    var rows := StoredRows(s);
    hide Whole, Suits, KeysStorable, UpdateHasRoom, AllCover, RowUpdate, Record.StorableRow;
    assert HasRow(rows, updates[k].key);
    var i :| 0 <= i < |rows| && rows[i].key == updates[k].key;
    assert StoredRows(t)[i].key == updates[k].key;
    RewrittenTakes(dom, View(s), rows, updates, k);
    ShapeTakes(dom, View(s), View(t), StoredRows(t));
    ShapeTakes(dom, View(s), View(t), updates);
    assert updates[k..][0] == updates[k];
  }

  lemma OneUpdated(dom: Value -> bool, s: Stored, updates: Rows, k: nat, t: Stored, i: nat, u: Stored)
    requires k < |updates| && Rewritable(dom, s, updates) && UpdatedTo(dom, s, updates, k, t)
    requires i < |StoredRows(t)| && StoredRows(t)[i].key == updates[k].key && Rewrites(t, i, updates[k].val, Done, u)
    requires Whole(dom, u) && Prepared(dom, t, UpdateOp(updates[k].key, updates[k].val))
    requires Step(dom, View(t), UpdateOp(updates[k].key, updates[k].val), View(u))
    ensures UpdatedTo(dom, s, updates, k + 1, u)
  {
    hide Whole, AllCover, RowUpdate, RowFits, MovedKeysFit, Takes, Prepared, Step, UpdatesHaveRoom, Rewritten, AsMap, SameShape;
    var rows, c := StoredRows(s), updates[k];
    UpdateKeepsShape(t, c, u);
    ShapeChain(Views(s.indexes), Views(t.indexes), Views(u.indexes));
    UpdateRewrites(dom, t, c, i, u);
    RoomIsLeft(t, updates, k, i, u);
    RowsInOrder(dom, s);
    OneMore(rows, AsMap(updates[..k]), i, c.val);
    MapSnoc(updates, k);
  }

  lemma ShapeSelf(a: seq<Index>)
    ensures SameShape(a, a)
  {
  }

  lemma ShapeChain(a: seq<Index>, b: seq<Index>, c: seq<Index>)
    requires SameShape(a, b) && SameShape(b, c)
    ensures SameShape(a, c)
  {
  }

  /** What comes of one update when there is room for it. */
  lemma OneApplied(dom: Value -> bool, s: Stored, updates: Rows, k: nat, t: Stored, o: Outcome, u: Stored)
    requires k < |updates| && Rewritable(dom, s, updates) && UpdatedTo(dom, s, updates, k, t)
    requires Readable(t) && AllCover(Views(t.indexes), updates[k].val)
    requires o == Missing <==> !HasRow(StoredRows(t), updates[k].key)
    requires o in {Done, TooLarge} ==>
      exists i :: 0 <= i < |StoredRows(t)| && StoredRows(t)[i].key == updates[k].key && Rewrites(t, i, updates[k].val, o, u)
    requires var op := UpdateOp(updates[k].key, updates[k].val); Prepared(dom, t, op) ==>
      && (o == NotUnique <==> Blocked(View(t), updates[k].key, updates[k].val))
      && (o == Done && HasRoom(t, Do(op, 0)) ==> Whole(dom, u) && Step(dom, View(t), op, View(u)))
    ensures if o in {Done, Missing} then UpdatedTo(dom, s, updates, k + 1, u) else StopsAt(dom, s, updates)
  {
    hide Rewritable, UpdatedTo, Readable, Whole, Step, Blocked, Prepared, HasRoom, CannotTake, RowFits, MovedKeysFit, HasRow, Rewrites;
    NextIsPrepared(dom, s, updates, k, t);
    if o == NotUnique {
      BlockedStops(dom, t, updates[k]);
    } else {
      var i :| 0 <= i < |StoredRows(t)| && StoredRows(t)[i].key == updates[k].key && Rewrites(t, i, updates[k].val, o, u);
      if o == Done { OneUpdated(dom, s, updates, k, t, i, u); } else { TooLargeStops(t, updates[k], i, u); }
    }
  }

  lemma MapSnoc(updates: Rows, k: nat)
    requires k < |updates|
    ensures AsMap(updates[..k + 1]) == AsMap(updates[..k])[updates[k].key := updates[k].val]
  {
    assert updates[..k + 1][..k] == updates[..k];
  }

  lemma RowsInOrder(dom: Value -> bool, s: Stored)
    requires Whole(dom, s)
    ensures Sorted(CompareRowid, StoredRows(s))
  {
    assert Sorted(CompareRowid, View(s).rows);
  }

  lemma RoomIsLeft(t: Stored, updates: Rows, k: nat, i: nat, u: Stored)
    requires k < |updates| && UpdatesHaveRoom(t, updates[k..])
    requires i < |StoredRows(t)| && StoredRows(t)[i].key == updates[k].key && Rewrites(t, i, updates[k].val, Done, u)
    ensures UpdatesHaveRoom(u, updates[k + 1..])
  {
    hide RowUpdate, AllCover, RowFits, MovedKeysFit, UpdateHasRoom;
    assert updates[k..][0] == updates[k] && updates[k..][1..] == updates[k + 1..];
  }

  /** The rows after an update that succeeds. */
  lemma UpdateRewrites(dom: Value -> bool, s: Stored, c: Cell<int, Row>, i: nat, t: Stored)
    requires Prepared(dom, s, UpdateOp(c.key, c.val)) && Step(dom, View(s), UpdateOp(c.key, c.val), View(t))
    requires i < |StoredRows(s)| && StoredRows(s)[i].key == c.key
    ensures StoredRows(t) == StoredRows(s)[i := c]
  {
    hide MayMove, AllMoved, Decodable;
    var j :| 0 <= j < |StoredRows(s)| && UpdateAt(View(s), j, c.key, c.val, View(t));
    SameRowid(StoredRows(s), i, j);
  }

  /** A table in which exactly the picked rows have been given new values. */
  ghost predicate UpdatedRows(lib: Lib, assigns: seq<Assign>, scope: Scope, rows: Rows, picked: Rows, now: Rows)
    requires AssignsFit(assigns, scope)
  {
    && |now| == |rows|
    && forall i :: 0 <= i < |rows| ==> if rows[i] in picked then Replaces(lib, assigns, scope, rows[i], now[i]) else now[i] == rows[i]
  }

  lemma OnceAt(rows: Rows, j: nat, k: nat)
    requires Once(rows) && j < |rows| && k < |rows| && rows[j].key == rows[k].key
    ensures j == k
  {
  }

  lemma RewrittenIsUpdated(lib: Lib, assigns: seq<Assign>, scope: Scope, rows: Rows, picked: Rows, updates: Rows)
    requires Pending(lib, assigns, scope, picked, updates) && Once(picked) && Sorted(CompareRowid, rows)
    requires forall c :: c in picked ==> c in rows
    ensures UpdatedRows(lib, assigns, scope, rows, picked, Rewritten(rows, AsMap(updates)))
  {
    var news := AsMap(updates);
    forall i | 0 <= i < |rows|
      ensures if rows[i] in picked then Replaces(lib, assigns, scope, rows[i], Rewritten(rows, news)[i]) else Rewritten(rows, news)[i] == rows[i]
    {
      if rows[i] in picked {
        var k :| 0 <= k < |picked| && picked[k] == rows[i];
        InMap(updates, k);
        var j := MapSource(updates, rows[i].key);
        assert Replaces(lib, assigns, scope, picked[j], updates[j]);
        OnceAt(picked, j, k);
      } else if rows[i].key in news {
        var j := MapSource(updates, rows[i].key);
        assert Replaces(lib, assigns, scope, picked[j], updates[j]);
        assert picked[j] in picked;
        OneCell(rows, picked[j], rows[i]);
      }
    }
  }

  lemma {:induction false} InMap(updates: Rows, k: nat)
    requires k < |updates|
    ensures updates[k].key in AsMap(updates)
  {
    var n := |updates| - 1;
    if k < n {
      InMap(updates[..n], k);
      assert updates[..n][k] == updates[k];
    }
  }

  /** What a statement that scans a table asks of it. */
  ghost predicate Scans(dom: Value -> bool, lib: Lib, schema: Schema, s: State, where: Option<Expr>) {
    Valid(dom, s) && Matches(schema, s.indexes) && Wide(s.rows, schema.scope) && BoundsFit(lib, dom, where)
  }

  /** The indexes can take every row the assignments may come to. */
  ghost predicate NewRowsFit(dom: Value -> bool, lib: Lib, assigns: seq<Assign>, scope: Scope, s: State)
    requires AssignsFit(assigns, scope)
  {
    forall c, u :: c in s.rows && Replaces(lib, assigns, scope, c, u) ==> Takes(dom, s, [u])
  }

  /**
  Changes exactly the rows that the scan has picked from the table as it was, each once and by its old
  values, even when the scan goes over an index on a column that is assigned. Where a page has to split and a half of it
  has no room for its cells, fewer rows are left. A statement that fails half way leaves the table as it is then.
  */
  method ExecUpdate(table: Table, schema: Schema, lib: Lib, assigns: seq<Assign>, where: Option<Expr>, ghost dom: Value -> bool)
    returns (count: Option<nat>, ghost plan: Plan, ghost picked: Rows, ghost updates: Rows, ghost n: nat)
    requires Whole(dom, table.Now()) && Scans(dom, lib, schema, View(table.Now()), where) && AssignsFit(assigns, schema.scope)
    requires Takes(dom, View(table.Now()), table.Rows()) && NewRowsFit(dom, lib, assigns, schema.scope, View(table.Now()))
    modifies table
    ensures PlanFor(schema.listed, where, plan)
    ensures count.Some? ==> PickedBy(lib, schema, old(table.Rows()), old(Views(table.indexes)), plan, picked)
    ensures count.Some? ==> Once(picked) && count.value == |picked| && forall c :: c in picked ==> c in old(table.Rows())
    ensures count.Some? ==> Pending(lib, assigns, schema.scope, picked, updates)
    ensures count.None? && UpdatesHaveRoom(old(table.Now()), updates) ==>
      || PlanFails(lib, schema, old(table.Rows()), old(Views(table.indexes)), plan)
      || ((forall c :: c in picked ==> |c.val| == |schema.scope|) && AssignFails(lib, assigns, schema.scope, picked))
      || StopsAt(dom, old(table.Now()), updates)
    ensures PlanFails(lib, schema, old(table.Rows()), old(Views(table.indexes)), plan) ==> count.None? && table.Now() == old(table.Now())
    ensures count.Some? ==> Counted(old(table.Now()), updates, table.Now())
    ensures count.None? ==> table.Now() == old(table.Now()) || StoppedHalfWay(old(table.Now()), updates, n, table.Now())
    ensures count.Some? && UpdatesHaveRoom(old(table.Now()), updates) ==>
      && UpdatedRows(lib, assigns, schema.scope, old(table.Rows()), picked, table.Rows())
      && Whole(dom, table.Now()) && table.nextID == old(table.nextID)
  {
    hide Whole, Step, Takes, UpdatesHaveRoom, PickedBy, NewRowsFit, PlanFor, PlanFails, AssignFails, StopsAt, Counted, StoppedHalfWay;
    var p := Scan(schema.listed, where);
    ghost var s := table.Now();
    plan, picked, updates, count, n := p, [], [], None, 0;
    WholeScans(dom, s);
    var found := RunPlan(lib, schema, table.Rows(), Views(table.indexes), p, where, dom);
    if found.Some? {
      picked := found.value;
      var news := Collect(lib, assigns, schema.scope, found.value);
      if news.Some? {
        updates := news.value;
        UpdatesFit(dom, lib, assigns, schema.scope, s, picked, updates);
        RewrittenIsUpdated(lib, assigns, schema.scope, StoredRows(s), picked, updates);
        var ok;
        ok, n := ApplyAll(table, news.value, dom);
        assert updates[..|updates|] == updates;
        if ok { count := Some(|found.value|); }
      }
    }
  }

  lemma WholeScans(dom: Value -> bool, s: Stored)
    requires Whole(dom, s)
    ensures Readable(s) && Sorted(CompareRowid, StoredRows(s))
    ensures forall k :: 0 <= k < |s.indexes| ==> Agrees(dom, Views(s.indexes)[k], StoredRows(s))
  {
    WholeCovers(dom, s);
    hide Agrees, Covered, Decodable;
    forall k | 0 <= k < |s.indexes| ensures Agrees(dom, Views(s.indexes)[k], StoredRows(s)) {
      IndexOf(dom, s, k);
    }
  }

  lemma UpdatesFit(dom: Value -> bool, lib: Lib, assigns: seq<Assign>, scope: Scope, s: Stored, picked: Rows, updates: Rows)
    requires Whole(dom, s) && Takes(dom, View(s), StoredRows(s))
    requires Pending(lib, assigns, scope, picked, updates) && NewRowsFit(dom, lib, assigns, scope, View(s))
    requires forall c :: c in picked ==> c in StoredRows(s)
    ensures forall k :: 0 <= k < |updates| ==> AllCover(Views(s.indexes), updates[k].val) && Record.StorableRow(updates[k].val)
    ensures UpdatesHaveRoom(s, updates) ==> Rewritable(dom, s, updates)
  {
    hide Whole, UpdatesHaveRoom;
    forall k | 0 <= k < |updates|
      ensures Suits(dom, View(s), updates[k].val) && KeysStorable(View(s), updates[k].val) && Record.StorableRow(updates[k].val)
      ensures AllCover(Views(s.indexes), updates[k].val) && HasRow(StoredRows(s), updates[k].key)
    {
      assert Replaces(lib, assigns, scope, picked[k], updates[k]);
      assert picked[k] in picked;
      assert [updates[k]][0] == updates[k];
      NewRowCovered(dom, s, updates[k].val);
      var i :| 0 <= i < |StoredRows(s)| && StoredRows(s)[i] == picked[k];
      assert StoredRows(s)[i].key == updates[k].key;
    }
  }

  // ---- DELETE ----

  /** The rows that are left, in order. */
  function Survivors(rows: Rows, gone: set<int>): Rows {
    if rows == [] then []
    else
      var n := |rows| - 1;
      Survivors(rows[..n], gone) + Tail(rows[n], gone)
  }

  lemma SurvivorsBelow(rows: Rows, less: Rows)
    requires Sorted(CompareRowid, rows) && rows != [] && forall c :: c in less ==> c in rows[..|rows| - 1]
    ensures forall i :: 0 <= i < |less| ==> CompareRowid(less[i].key, rows[|rows| - 1].key) < 0
  {
    var n := |rows| - 1;
    forall i | 0 <= i < |less| ensures CompareRowid(less[i].key, rows[n].key) < 0 {
      assert less[i] in less && less[i] in rows[..n];
      var j :| 0 <= j < n && rows[..n][j] == less[i];
      assert CompareRowid(rows[j].key, rows[n].key) < 0;
    }
  }

  lemma {:induction false} SurvivorsAre(rows: Rows, gone: set<int>)
    requires Sorted(CompareRowid, rows)
    ensures Sorted(CompareRowid, Survivors(rows, gone))
    ensures forall c :: c in Survivors(rows, gone) <==> c in rows && c.key !in gone
  {
    if rows != [] {
      var n := |rows| - 1;
      var less := Survivors(rows[..n], gone);
      SurvivorsAre(rows[..n], gone);
      SurvivorsBelow(rows, less);
      OneSurvives(less, rows, gone);
    }
  }

  /** The last row behind what is left of the others. */
  lemma OneSurvives(less: Rows, rows: Rows, gone: set<int>)
    requires rows != [] && Sorted(CompareRowid, less)
    requires forall i :: 0 <= i < |less| ==> CompareRowid(less[i].key, rows[|rows| - 1].key) < 0
    requires forall c :: c in less <==> c in rows[..|rows| - 1] && c.key !in gone
    ensures var all := less + Tail(rows[|rows| - 1], gone);
      Sorted(CompareRowid, all) && forall c :: c in all <==> c in rows && c.key !in gone
  {
    hide CompareRowid;
    assert rows == rows[..|rows| - 1] + [rows[|rows| - 1]];
  }

  lemma RemoveFront(a: Rows, t: Rows, i: nat)
    requires i < |a|
    ensures RemoveAt(a + t, i) == RemoveAt(a, i) + t
  {
  }

  lemma RemoveLast(a: Rows, c: Cell<int, Row>)
    ensures RemoveAt(a + [c], |a|) == a
  {
  }

  function Tail(c: Cell<int, Row>, gone: set<int>): Rows {
    if c.key in gone then [] else [c]
  }

  /** Taking one more row out. */
  lemma {:induction false} OneFewer(rows: Rows, gone: set<int>, id: int, i: nat)
    requires Sorted(CompareRowid, rows) && i < |Survivors(rows, gone)| && Survivors(rows, gone)[i].key == id
    ensures Survivors(rows, gone + {id}) == RemoveAt(Survivors(rows, gone), i)
  {
    var n := |rows| - 1;
    var less, t := Survivors(rows[..n], gone), Tail(rows[n], gone);
    assert Survivors(rows, gone) == less + t;
    if i < |less| {
      OneFewer(rows[..n], gone, id, i);
      LastIsOther(rows, gone, i);
      RemoveFront(less, t, i);
      assert Survivors(rows, gone + {id}) == RemoveAt(less, i) + Tail(rows[n], gone + {id});
    } else {
      assert t == [rows[n]] && rows[n].key == id;
      NotThere(rows[..n], gone, id, n, rows);
      RemoveLast(less, rows[n]);
      assert Survivors(rows, gone + {id}) == less + Tail(rows[n], gone + {id});
    }
  }

  lemma LastIsOther(rows: Rows, gone: set<int>, i: nat)
    requires Sorted(CompareRowid, rows) && rows != [] && i < |Survivors(rows[..|rows| - 1], gone)|
    ensures Survivors(rows[..|rows| - 1], gone)[i].key != rows[|rows| - 1].key
  {
    var n := |rows| - 1;
    var c := Survivors(rows[..n], gone)[i];
    SurvivorsAre(rows[..n], gone);
    assert c in rows[..n];
    var j :| 0 <= j < n && rows[j] == c;
    SameRowid(rows, j, n);
  }

  lemma {:induction false} NotThere(part: Rows, gone: set<int>, id: int, n: nat, rows: Rows)
    requires n < |rows| && Sorted(CompareRowid, rows) && rows[n].key == id && part == rows[..n]
    ensures Survivors(part, gone + {id}) == Survivors(part, gone)
  {
    forall i | 0 <= i < |part| ensures part[i].key != id {
      SameRowid(rows, i, n);
    }
    Unmentioned(part, gone, id);
  }

  lemma {:induction false} Unmentioned(rows: Rows, gone: set<int>, id: int)
    requires forall i :: 0 <= i < |rows| ==> rows[i].key != id
    ensures Survivors(rows, gone + {id}) == Survivors(rows, gone)
  {
    if rows != [] { Unmentioned(rows[..|rows| - 1], gone, id); }
  }

  function Ids(rows: Rows): set<int> {
    set i | 0 <= i < |rows| :: rows[i].key
  }

  /** One deletion, on the table as the deletions before it have left it. */
  method DeleteOne(table: Table, c: Cell<int, Row>, ghost dom: Value -> bool, ghost rows: Rows, ghost gone: set<int>, ghost i: nat)
    requires Whole(dom, table.Now()) && Sorted(CompareRowid, rows) && table.Rows() == Survivors(rows, gone)
    requires i < |table.Rows()| && table.Rows()[i] == c
    modifies table
    ensures Whole(dom, table.Now()) && table.Rows() == Survivors(rows, gone + {c.key}) && table.nextID == old(table.nextID)
  {
    hide Whole, Survivors, Readable, RowDeleted, Step;
    ghost var s := table.Now();
    WholeScans(dom, s);
    assert HasRow(StoredRows(s), c.key);
    var _ := table.Delete(c.key, dom);
    StepRemoves(dom, s, c.key, i, table.Now());
    OneFewer(rows, gone, c.key, i);
  }

  lemma StepRemoves(dom: Value -> bool, s: Stored, id: int, i: nat, t: Stored)
    requires Whole(dom, s) && Step(dom, View(s), DeleteOp(id), View(t)) && i < |StoredRows(s)| && StoredRows(s)[i].key == id
    ensures StoredRows(t) == RemoveAt(StoredRows(s), i) && t.nextID == s.nextID
  {
    hide Decodable, Dropped;
    var j :| 0 <= j < |StoredRows(s)| && StoredRows(s)[j].key == id && View(t) == Deleted(View(s), j);
    SameRowid(StoredRows(s), i, j);
  }

  method DeleteAll(table: Table, picked: Rows, ghost dom: Value -> bool)
    requires Whole(dom, table.Now()) && Once(picked) && forall c :: c in picked ==> c in table.Rows()
    modifies table
    ensures Whole(dom, table.Now()) && table.Rows() == Survivors(old(table.Rows()), Ids(picked))
    ensures table.nextID == old(table.nextID)
  {
    ghost var rows := table.Rows();
    WholeScans(dom, table.Now());
    hide Whole, Survivors, Ids, Readable;
    NobodyGone(rows);
    for k := 0 to |picked|
      invariant Whole(dom, table.Now()) && table.Rows() == Survivors(rows, Ids(picked[..k])) && table.nextID == old(table.nextID)
    {
      ghost var i := StillThere(rows, picked, k);
      DeleteOne(table, picked[k], dom, rows, Ids(picked[..k]), i);
      IdsSnoc(picked, k);
    }
    assert picked[..|picked|] == picked;
  }

  lemma NobodyGone(rows: Rows)
    ensures Survivors(rows, {}) == rows && Ids(rows[..0]) == {}
  {
    if rows != [] {
      NobodyGone(rows[..|rows| - 1]);
      assert rows == rows[..|rows| - 1] + [rows[|rows| - 1]];
    }
  }

  lemma IdsSnoc(picked: Rows, k: nat)
    requires k < |picked|
    ensures Ids(picked[..k + 1]) == Ids(picked[..k]) + {picked[k].key}
  {
    var a, b := picked[..k], picked[..k + 1];
    forall id | id in Ids(b) ensures id in Ids(a) + {picked[k].key} {
      var i :| 0 <= i < |b| && b[i].key == id;
      if i < k { assert a[i].key == id; }
    }
    forall id | id in Ids(a) + {picked[k].key} ensures id in Ids(b) {
      if id == picked[k].key {
        assert b[k].key == id;
      } else {
        var i :| 0 <= i < |a| && a[i].key == id;
        assert b[i].key == id;
      }
    }
  }

  /** A picked row is there until its turn comes. */
  lemma StillThere(rows: Rows, picked: Rows, k: nat) returns (i: nat)
    requires Sorted(CompareRowid, rows) && k < |picked| && Once(picked) && forall c :: c in picked ==> c in rows
    ensures var now := Survivors(rows, Ids(picked[..k])); i < |now| && now[i] == picked[k]
  {
    SurvivorsAre(rows, Ids(picked[..k]));
    assert picked[k] in picked;
    assert picked[k].key !in Ids(picked[..k]);
    var now := Survivors(rows, Ids(picked[..k]));
    assert picked[k] in now;
    i :| 0 <= i < |now| && now[i] == picked[k];
  }

  /** Removes exactly the rows that the scan has picked. */
  method ExecDelete(table: Table, schema: Schema, lib: Lib, where: Option<Expr>, ghost dom: Value -> bool)
    returns (count: Option<nat>, ghost plan: Plan, ghost picked: Rows)
    requires Whole(dom, table.Now()) && Scans(dom, lib, schema, View(table.Now()), where)
    modifies table
    ensures PlanFor(schema.listed, where, plan)
    ensures count.Some? ==> PickedBy(lib, schema, old(table.Rows()), old(Views(table.indexes)), plan, picked)
    ensures count.Some? ==> Once(picked) && count.value == |picked| && forall c :: c in picked ==> c in old(table.Rows())
    ensures count.None? <==> PlanFails(lib, schema, old(table.Rows()), old(Views(table.indexes)), plan)
    ensures count.None? ==> table.Now() == old(table.Now())
    ensures count.Some? ==> table.Rows() == Survivors(old(table.Rows()), Ids(picked))
    ensures Whole(dom, table.Now()) && table.nextID == old(table.nextID)
  {
    hide Whole, PickedBy, PlanFor, Survivors, PlanFails;
    var p := Scan(schema.listed, where);
    plan, picked, count := p, [], None;
    WholeScans(dom, table.Now());
    var found := RunPlan(lib, schema, table.Rows(), Views(table.indexes), p, where, dom);
    if found.Some? {
      picked := found.value;
      DeleteAll(table, found.value, dom);
      count := Some(|found.value|);
    }
  }

  // ---- what is picked ----

  /**
  With an equality or a lower bound, or where no row with a NULL in the leading column passes the rest of
  the filter, what a plan picks is what the filter says, and conversely.
  */
  lemma {:induction false} PickedIsFiltered(lib: Lib, dom: Value -> bool, schema: Schema, s: State, where: Expr, plan: Plan, picked: Rows)
    requires Scans(dom, lib, schema, s, Some(where)) && PlanFor(schema.listed, Some(where), plan)
    requires forall i :: 0 <= i < |s.rows| ==> Evaluates(lib, where, s.rows[i].val, schema.scope)
    requires PickedBy(lib, schema, s.rows, s.indexes, plan, picked)
    ensures (forall c :: c in picked <==> c in s.rows && |c.val| == |schema.scope| && Passes(lib, where, c.val, schema.scope))
      <==> forall c :: !PickedStray(lib, schema, s, plan, c)
  {
    FilteredRows(lib, s.rows, Some(where), schema.scope);
    if plan.IndexPlan? {
      IndexPicks(lib, dom, schema, s, where, plan, picked);
    }
  }

  /** The index that a plan scans, as the planner and as the executor see it. */
  lemma PlannedIndex(lib: Lib, dom: Value -> bool, schema: Schema, indexes: seq<Index>, where: Expr, plan: Plan) returns (b: Bounds)
    requires Matches(schema, indexes) && BoundsFit(lib, dom, Some(where)) && PlanFor(schema.listed, Some(where), plan) && plan.IndexPlan?
    ensures plan.index < |schema.slot| && schema.slot[plan.index] < |indexes| && |indexes[schema.slot[plan.index]].columns| >= 1
    ensures schema.listed[plan.index].columns != []
    ensures Leads(schema.scope, schema.listed[plan.index].columns[0], indexes[schema.slot[plan.index]].columns[0])
    ensures b.low == plan.low && b.high == plan.high && Planned(lib, where, schema.listed[plan.index].columns[0], b, plan.filter)
    ensures EvalBound(lib, plan.low).Some? && EvalBound(lib, plan.low).value.Some? ==> dom(EvalBound(lib, plan.low).value.value.value)
    ensures EvalBound(lib, plan.high).Some? && EvalBound(lib, plan.high).value.Some? ==> dom(EvalBound(lib, plan.high).value.value.value)
  {
    PlanBoundsFit(lib, dom, schema.listed, Some(where), plan);
    b := PlanSource(schema.listed, where, plan);
  }

  lemma {:induction false} IndexPicks(lib: Lib, dom: Value -> bool, schema: Schema, s: State, where: Expr, plan: Plan, picked: Rows)
    requires Matches(schema, s.indexes) && BoundsFit(lib, dom, Some(where)) && PlanFor(schema.listed, Some(where), plan) && plan.IndexPlan?
    requires Sorted(CompareRowid, s.rows) && forall k :: 0 <= k < |s.indexes| ==> Agrees(dom, s.indexes[k], s.rows)
    requires Wide(s.rows, schema.scope)
    requires forall i :: 0 <= i < |s.rows| ==> Evaluates(lib, where, s.rows[i].val, schema.scope)
    requires PickedBy(lib, schema, s.rows, s.indexes, plan, picked)
    ensures Filtered(lib, s.rows, Some(where), schema.scope).Some?
    ensures SameRows(Filtered(lib, s.rows, Some(where), schema.scope).value, picked) <==> forall c :: !PickedStray(lib, schema, s, plan, c)
  {
    var b := PlannedIndex(lib, dom, schema, s.indexes, where, plan);
    var ix, lead := s.indexes[schema.slot[plan.index]], schema.listed[plan.index].columns[0];
    var low, high := EvalBound(lib, plan.low).value, EvalBound(lib, plan.high).value;
    var cells :| PickedFrom(lib, schema.scope, s.rows, ix, low, high, plan.filter, cells, picked);
    ScanPicks(lib, dom, ix, s.rows, where, lead, b, plan.filter, schema.scope, low, high, cells, picked);
    forall c ensures PickedStray(lib, schema, s, plan, c) <==> IsStray(lib, ix, s.rows, b, plan.filter, schema.scope, c) {
      StrayEither(lib, schema, s, plan, b, c);
    }
  }

  lemma StrayEither(lib: Lib, schema: Schema, s: State, plan: Plan, b: Bounds, c: Cell<int, Row>)
    requires plan.IndexPlan? && b.low == plan.low && plan.index < |schema.slot| && schema.slot[plan.index] < |s.indexes|
    requires |s.indexes[schema.slot[plan.index]].columns| >= 1
    ensures PickedStray(lib, schema, s, plan, c) <==>
      IsStray(lib, s.indexes[schema.slot[plan.index]], s.rows, b, plan.filter, schema.scope, c)
  {
  }

  lemma {:induction false} ScanPicks(lib: Lib, dom: Value -> bool, ix: Index, rows: Rows, where: Expr, lead: Text, b: Bounds, rest: Option<Expr>,
                                     scope: Scope, low: Option<Bound>, high: Option<Bound>, cells: Rows, picked: Rows)
    requires Planned(lib, where, lead, b, rest) && Wide(rows, scope)
    requires forall i :: 0 <= i < |rows| ==> Evaluates(lib, where, rows[i].val, scope)
    requires |ix.columns| >= 1 && Leads(scope, lead, ix.columns[0])
    requires EvalBound(lib, b.low) == Some(low) && EvalBound(lib, b.high) == Some(high)
    requires Scannable(dom, ix, rows, low, high) && PickedFrom(lib, scope, rows, ix, low, high, rest, cells, picked)
    ensures Filtered(lib, rows, Some(where), scope).Some?
    ensures SameRows(Filtered(lib, rows, Some(where), scope).value, picked) <==> forall c :: !IsStray(lib, ix, rows, b, rest, scope, c)
  {
    PathsAgree(lib, dom, ix, rows, where, lead, b, rest, scope, low, high, cells);
  }

  /** A row that an index plan without a lower bound picks although its leading value is NULL. */
  ghost predicate PickedStray(lib: Lib, schema: Schema, s: State, plan: Plan, c: Cell<int, Row>) {
    && plan.IndexPlan? && plan.low.None?
    && plan.index < |schema.slot| && schema.slot[plan.index] < |s.indexes| && |s.indexes[schema.slot[plan.index]].columns| >= 1
    && c in s.rows && |c.val| == |schema.scope| && Covers(s.indexes[schema.slot[plan.index]].columns, c.val)
    && Stray(lib, s.indexes[schema.slot[plan.index]], plan.filter, schema.scope, c)
  }

  // ---- qualifiers that nobody reads ----

  predicate AllValidate(parts: seq<Expr>, scope: Scope) {
    forall i :: 0 <= i < |parts| ==> Validates(parts[i], scope)
  }

  lemma {:induction false} ConjunctsValidate(e: Expr, scope: Scope)
    ensures Validates(e, scope) <==> AllValidate(Conjuncts(e), scope)
  {
    match e
    case Binary(left, And, right) =>
      ConjunctsValidate(left, scope);
      ConjunctsValidate(right, scope);
      var a, b := Conjuncts(left), Conjuncts(right);
      assert forall i :: 0 <= i < |a| ==> (a + b)[i] == a[i];
      assert forall i :: 0 <= i < |b| ==> (a + b)[|a| + i] == b[i];
    case _ =>
      assert Conjuncts(e) == [e] && [e][0] == e;
  }

  lemma {:induction false} ResidualValidates(parts: seq<Expr>, used: set<nat>, n: nat, scope: Scope)
    requires n <= |parts|
    ensures (Residual(parts, used, n).Some? ==> Validates(Residual(parts, used, n).value, scope)) <==>
      forall i :: 0 <= i < n && i !in used ==> Validates(parts[i], scope)
  {
    if n > 0 { ResidualValidates(parts, used, n - 1, scope); }
  }

  /** The column in a comparison of a column with a literal. */
  function ColumnOf(e: Expr): Expr
    requires exists src :: Match(e, src).Some?
    ensures ColumnOf(e).Column?
  {
    if e.left.Column? && e.right.Literal? then e.left else e.right
  }

  /** The column of the comparison is qualified with the name of the table, or not at all. */
  predicate OwnQualifier(scope: Scope, pos: nat, e: Expr)
    requires pos < |scope| && exists src :: Match(e, src).Some?
  {
    ColumnOf(e).table == [] || SameName(scope[pos].table, ColumnOf(e).table)
  }

  /** A comparison on the leading column validates if its qualifier is the table's and the table has one column of that name. */
  lemma ComparisonValidates(e: Expr, src: nat, scope: Scope, lead: Text, pos: nat)
    requires Match(e, src).Some? && SameName(Match(e, src).value.column, lead) && Leads(scope, lead, pos)
    ensures Validates(e, scope) <==> OwnQualifier(scope, pos, e) && Resolve(scope, [], lead).Some?
  {
    var c := ColumnOf(e);
    assert Validates(e, scope) <==> Resolve(scope, c.table, c.name).Some?;
    ResolveFails(scope, c.table, c.name);
    ResolveFails(scope, [], lead);
    assert Names(scope[pos], [], lead);
    forall j | 0 <= j < |scope| ensures Names(scope[j], c.table, c.name) <==> OwnQualifier(scope, pos, e) && Names(scope[j], [], lead) {
    }
  }

  /** Every conjunct that the bounds stand for is a comparison on the leading column. */
  lemma UsedAreComparisons(where: Expr, lead: Text, b: Bounds, s: nat)
    requires var parts := Conjuncts(where); BoundsFrom(OnColumn(Usable(parts, |parts|), lead), b) && s in b.used
    ensures s < |Conjuncts(where)| && Match(Conjuncts(where)[s], s).Some? && SameName(Match(Conjuncts(where)[s], s).value.column, lead)
  {
    var parts := Conjuncts(where);
    var preds := OnColumn(Usable(parts, |parts|), lead);
    var i: nat :| i < |preds| && preds[i].src == s;
    assert preds[i] in preds;
  }

  /** The conjuncts that became bounds are all qualified with the name of the table, or not at all. */
  ghost predicate UsedAreOwn(where: Expr, used: set<nat>, scope: Scope, pos: nat) {
    pos < |scope| && forall s :: s in used ==>
      s < |Conjuncts(where)| && Match(Conjuncts(where)[s], s).Some? && OwnQualifier(scope, pos, Conjuncts(where)[s])
  }

  /**
  The qualifier of a column in a conjunct that became a bound is dropped unread. With a residual filter that validates, the whole filter does
  exactly if every such qualifier is the table's, and the table has no second column of that name.
  */
  lemma {:induction false} QualifiersDropped(lib: Lib, where: Expr, lead: Text, b: Bounds, rest: Option<Expr>, scope: Scope, pos: nat)
    requires Planned(lib, where, lead, b, rest) && Leads(scope, lead, pos)
    requires rest.Some? ==> Validates(rest.value, scope)
    ensures Validates(where, scope) <==> UsedAreOwn(where, b.used, scope, pos) && Resolve(scope, [], lead).Some?
  {
    hide Conjuncts, Usable, OnColumn, BoundsFrom, Residual, Validates, Resolve, Match, OwnQualifier, Score;
    var parts := Conjuncts(where);
    ConjunctsValidate(where, scope);
    ResidualValidates(parts, b.used, |parts|, scope);
    forall s | s in b.used
      ensures s < |parts| && Match(parts[s], s).Some?
      ensures Validates(parts[s], scope) <==> OwnQualifier(scope, pos, parts[s]) && Resolve(scope, [], lead).Some?
    {
      UsedAreComparisons(where, lead, b, s);
      ComparisonValidates(parts[s], s, scope, lead, pos);
    }
    SomethingUsed(parts, lead, b);
  }

  lemma SomethingUsed(parts: seq<Expr>, lead: Text, b: Bounds)
    requires var preds := OnColumn(Usable(parts, |parts|), lead); Score(preds) > 0 && BoundsFrom(preds, b)
    ensures b.used != {}
  {
    var preds := OnColumn(Usable(parts, |parts|), lead);
    assert HasEq(preds) || b.low.Some? || b.high.Some?;
  }

  /**
  An index plan may go through where a scan of the whole table with the same filter fails: exactly if a conjunct that became a bound is qualified with
  the name of another table, or the name of its column is ambiguous, or the filter fails on some row of the table.
  */
  lemma {:induction false} IndexHidesFailures(lib: Lib, dom: Value -> bool, schema: Schema, rows: Rows, indexes: seq<Index>, where: Expr, plan: Plan) returns (b: Bounds)
    requires PlanFor(schema.listed, Some(where), plan) && plan.IndexPlan? && BoundsFit(lib, dom, Some(where))
    requires Matches(schema, indexes) && Wide(rows, schema.scope) && !PlanFails(lib, schema, rows, indexes, plan)
    ensures plan.index < |schema.listed| && schema.listed[plan.index].columns != []
    ensures Planned(lib, where, schema.listed[plan.index].columns[0], b, plan.filter)
    ensures PlanFails(lib, schema, rows, indexes, SeqPlan(Some(where))) <==>
      || !UsedAreOwn(where, b.used, schema.scope, indexes[schema.slot[plan.index]].columns[0])
      || Resolve(schema.scope, [], schema.listed[plan.index].columns[0]).None?
      || FilterFails(lib, schema.scope, rows, Some(where))
  {
    PlanBoundsFit(lib, dom, schema.listed, Some(where), plan);
    b := PlanSource(schema.listed, where, plan);
    var lead, pos := schema.listed[plan.index].columns[0], indexes[schema.slot[plan.index]].columns[0];
    QualifiersDropped(lib, where, lead, b, plan.filter, schema.scope, pos);
  }

  lemma PlanSource(listed: seq<Listed>, where: Expr, plan: Plan) returns (b: Bounds)
    requires PlanFor(listed, Some(where), plan) && plan.IndexPlan? && plan.index < |listed| && listed[plan.index].columns != []
    ensures b.low == plan.low && b.high == plan.high
    ensures var parts := Conjuncts(where); var preds := OnColumn(Usable(parts, |parts|), listed[plan.index].columns[0]);
      Score(preds) > 0 && BoundsFrom(preds, b) && plan.filter == Residual(parts, b.used, |parts|)
  {
    var parts := Conjuncts(where);
    var usable := Usable(parts, |parts|);
    var best :| IsBest(Scores(listed, usable), best) &&
      match best
      case None => plan == SeqPlan(Some(where))
      case Some(i) => exists b :: IndexPlanFrom(parts, PredsFor(listed, usable, i), i, b, plan);
    b :| IndexPlanFrom(parts, PredsFor(listed, usable, best.value), best.value, b, plan);
    assert Scores(listed, usable)[best.value] == Score(PredsFor(listed, usable, best.value));
  }
}
