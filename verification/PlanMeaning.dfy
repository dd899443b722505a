/** What the planner's rewrite means for a row: the filter as a whole, or bounds and the rest of the filter. */
module PlanMeaning {
  import opened Bytes
  import opened Values
  import opened Ast
  import opened Evaluation
  import opened IndexScans
  import opened Planner

  /** All columns belong to one table, and `lead` names the one at `pos`. */
  predicate Leads(scope: Scope, lead: Text, pos: nat) {
    pos < |scope| && SameName(scope[pos].name, lead) && forall j :: 0 <= j < |scope| ==> scope[j].table == scope[pos].table
  }

  /** A bound of a plan as a value; nothing inside when there is no bound, nothing at all on an error. */
  function EvalBound(lib: Lib, b: Option<PlanBound>): Option<Option<Bound>> {
    match b
    case None => Some(None)
    case Some(pb) =>
      match EvalConst(lib, pb.kind, pb.text)
      case Ok(v) => Some(Some(Bound(v, pb.inclusive)))
      case Failed => None
  }

  /** A filter that is left out lets every row pass. */
  predicate FilterPasses(lib: Lib, filter: Option<Expr>, row: Row, scope: Scope)
    requires |row| == |scope|
  {
    filter.Some? ==> Passes(lib, filter.value, row, scope)
  }

  // ---- conjunctions ----

  lemma AndPasses(lib: Lib, l: Expr, r: Expr, row: Row, scope: Scope)
    requires |row| == |scope|
    ensures Evaluates(lib, Binary(l, And, r), row, scope) <==> Evaluates(lib, l, row, scope) && Evaluates(lib, r, row, scope)
    ensures Passes(lib, Binary(l, And, r), row, scope) <==> Passes(lib, l, row, scope) && Passes(lib, r, row, scope)
  {
  }

  ghost predicate AllPass(lib: Lib, parts: seq<Expr>, row: Row, scope: Scope)
    requires |row| == |scope|
  {
    forall i :: 0 <= i < |parts| ==> Passes(lib, parts[i], row, scope)
  }

  ghost predicate AllEvaluate(lib: Lib, parts: seq<Expr>, row: Row, scope: Scope)
    requires |row| == |scope|
  {
    forall i :: 0 <= i < |parts| ==> Evaluates(lib, parts[i], row, scope)
  }

  lemma AllJoin(lib: Lib, a: seq<Expr>, b: seq<Expr>, row: Row, scope: Scope)
    requires |row| == |scope|
    ensures AllPass(lib, a + b, row, scope) <==> AllPass(lib, a, row, scope) && AllPass(lib, b, row, scope)
    ensures AllEvaluate(lib, a + b, row, scope) <==> AllEvaluate(lib, a, row, scope) && AllEvaluate(lib, b, row, scope)
  {
    var all := a + b;
    forall i | 0 <= i < |a| ensures all[i] == a[i] {
    }
    forall i | 0 <= i < |b| ensures all[|a| + i] == b[i] {
    }
  }

  /** A filter passes a row exactly when all its conjuncts do. */
  lemma {:induction false} ConjunctsPass(lib: Lib, e: Expr, row: Row, scope: Scope)
    requires |row| == |scope|
    ensures Evaluates(lib, e, row, scope) <==> AllEvaluate(lib, Conjuncts(e), row, scope)
    ensures Passes(lib, e, row, scope) <==> AllPass(lib, Conjuncts(e), row, scope)
  {
    match e
    case Binary(left, And, right) =>
      ConjunctsPass(lib, left, row, scope);
      ConjunctsPass(lib, right, row, scope);
      AndPasses(lib, left, right, row, scope);
      AllJoin(lib, Conjuncts(left), Conjuncts(right), row, scope);
    case _ =>
      assert Conjuncts(e) == [e];
      assert [e][0] == e;
  }

  /** The residual filter passes a row exactly when all conjuncts do that are not used. */
  lemma {:induction false} ResidualPasses(lib: Lib, parts: seq<Expr>, used: set<nat>, n: nat, row: Row, scope: Scope)
    requires n <= |parts| && |row| == |scope|
    ensures FilterPasses(lib, Residual(parts, used, n), row, scope) <==>
      forall i :: 0 <= i < n && i !in used ==> Passes(lib, parts[i], row, scope)
    ensures AllEvaluate(lib, parts, row, scope) && Residual(parts, used, n).Some? ==> Evaluates(lib, Residual(parts, used, n).value, row, scope)
  {
    if n > 0 {
      ResidualPasses(lib, parts, used, n - 1, row, scope);
      var rest := Residual(parts, used, n - 1);
      if n - 1 !in used && rest.Some? { AndPasses(lib, rest.value, parts[n - 1], row, scope); }
    }
  }

  // ---- predicates and bounds ----

  /** What a recognised predicate says of the value of its column. */
  predicate Says(p: Predicate, v: Value, lit: Value) {
    v != Null && Holds(p.op, Compare(v, lit))
  }

  lemma OnlyColumn(scope: Scope, lead: Text, pos: nat, table: Text, name: Text)
    requires Leads(scope, lead, pos) && SameName(name, lead) && Resolve(scope, table, name).Some?
    ensures Resolve(scope, table, name).value == pos
  {
    var i := Resolve(scope, table, name).value;
    assert Names(scope[i], table, name);
    assert Names(scope[pos], table, name);
  }

  lemma MatchMeaning(lib: Lib, e: Expr, src: nat, row: Row, scope: Scope, lead: Text, pos: nat) returns (lit: Value)
    requires |row| == |scope| && Leads(scope, lead, pos) && Evaluates(lib, e, row, scope)
    requires Match(e, src).Some? && SameName(Match(e, src).value.column, lead)
    ensures EvalConst(lib, Match(e, src).value.kind, Match(e, src).value.text) == Ok(lit) && lit != Null
    ensures Passes(lib, e, row, scope) <==> Says(Match(e, src).value, row[pos], lit)
  {
    var l, r := e.left, e.right;
    BothSides(lib, l, e.bop, r, row, scope);
    if l.Column? && r.Literal? {
      OnlyColumn(scope, lead, pos, l.table, l.name);
      lit := EvalConst(lib, r.kind, r.text).v;
      assert Eval(lib, l, row, scope) == Ok(row[pos]) && Eval(lib, r, row, scope) == Ok(lit);
    } else {
      OnlyColumn(scope, lead, pos, r.table, r.name);
      lit := EvalConst(lib, l.kind, l.text).v;
      assert Eval(lib, r, row, scope) == Ok(row[pos]) && Eval(lib, l, row, scope) == Ok(lit);
      CompareFlips(lit, row[pos]);
    }
    ComparisonPasses(e.bop, Eval(lib, l, row, scope).v, Eval(lib, r, row, scope).v);
  }

  lemma BothSides(lib: Lib, l: Expr, op: BinaryOp, r: Expr, row: Row, scope: Scope)
    requires |row| == |scope| && Evaluates(lib, Binary(l, op, r), row, scope)
    ensures Evaluates(lib, l, row, scope) && Evaluates(lib, r, row, scope)
    ensures Eval(lib, Binary(l, op, r), row, scope) == Ok(Apply(lib, op, Eval(lib, l, row, scope).v, Eval(lib, r, row, scope).v))
  {
  }

  lemma ComparisonPasses(op: BinaryOp, a: Value, b: Value)
    requires Comparable(op)
    ensures Truth(EvalCompare(op, a, b)) == 1 <==> a != Null && b != Null && Holds(op, Compare(a, b))
  {
  }

  /** Nothing but NULL compares equal to NULL or less than everything. */
  lemma NullIsLeast(v: Value, lit: Value)
    requires lit != Null
    ensures v == Null ==> Compare(v, lit) < 0
    ensures Compare(v, lit) >= 0 ==> v != Null
  {
  }

  lemma EqMeaning(p: Predicate, v: Value, lit: Value)
    requires p.op == Eq && lit != Null
    ensures Says(p, v, lit) <==> InBounds(v, Some(Bound(lit, true)), Some(Bound(lit, true)))
  {
    NullIsLeast(v, lit);
  }

  lemma LowMeaning(p: Predicate, v: Value, lit: Value)
    requires IsLower(p.op) && lit != Null
    ensures Says(p, v, lit) <==> Above(v, Some(Bound(lit, BoundOf(p).inclusive)))
    ensures Says(p, v, lit) ==> v != Null
  {
    NullIsLeast(v, lit);
  }

  lemma HighMeaning(p: Predicate, v: Value, lit: Value)
    requires IsUpper(p.op) && lit != Null
    ensures Says(p, v, lit) <==> v != Null && Below(v, Some(Bound(lit, BoundOf(p).inclusive)))
  {
  }

  /** A row, the filter's conjuncts, and the recognised ones among them on the leading column. */
  ghost predicate Setting(lib: Lib, parts: seq<Expr>, preds: seq<Predicate>, row: Row, scope: Scope, lead: Text, pos: nat) {
    && |row| == |scope| && Leads(scope, lead, pos) && AllEvaluate(lib, parts, row, scope)
    && forall p :: p in preds ==> p.src < |parts| && Match(parts[p.src], p.src) == Some(p) && SameName(p.column, lead)
  }

  lemma PredicateMeaning(lib: Lib, parts: seq<Expr>, preds: seq<Predicate>, i: nat, row: Row, scope: Scope, lead: Text, pos: nat)
    returns (lit: Value)
    requires Setting(lib, parts, preds, row, scope, lead, pos) && i < |preds|
    ensures EvalConst(lib, preds[i].kind, preds[i].text) == Ok(lit) && lit != Null
    ensures preds[i].src < |parts|
    ensures Passes(lib, parts[preds[i].src], row, scope) <==> Says(preds[i], row[pos], lit)
  {
    var p := preds[i];
    assert p in preds;
    lit := MatchMeaning(lib, parts[p.src], p.src, row, scope, lead, pos);
  }

  ghost predicate UsedPass(lib: Lib, parts: seq<Expr>, used: set<nat>, row: Row, scope: Scope)
    requires |row| == |scope|
  {
    forall s :: s in used ==> s < |parts| && Passes(lib, parts[s], row, scope)
  }

  /** What the used conjuncts say together is what the bounds say, but that an upper bound alone lets NULL in. */
  ghost predicate BoundsSay(lib: Lib, parts: seq<Expr>, b: Bounds, row: Row, scope: Scope, pos: nat)
    requires |row| == |scope| && pos < |row|
  {
    && EvalBound(lib, b.low).Some? && EvalBound(lib, b.high).Some?
    && (UsedPass(lib, parts, b.used, row, scope) <==>
      InBounds(row[pos], EvalBound(lib, b.low).value, EvalBound(lib, b.high).value) && (b.low.None? ==> row[pos] != Null))
  }

  lemma EqBoundsSay(lib: Lib, parts: seq<Expr>, preds: seq<Predicate>, i: nat, row: Row, scope: Scope, lead: Text, pos: nat)
    requires Setting(lib, parts, preds, row, scope, lead, pos) && i < |preds| && preds[i].op == Eq
    ensures BoundsSay(lib, parts, Bounds(Some(BoundOf(preds[i])), Some(BoundOf(preds[i])), {preds[i].src}), row, scope, pos)
  {
    var lit := PredicateMeaning(lib, parts, preds, i, row, scope, lead, pos);
    EqMeaning(preds[i], row[pos], lit);
    assert EvalBound(lib, Some(BoundOf(preds[i]))) == Some(Some(Bound(lit, true)));
  }

  /** Conjunct s is what a lower bound stands for. */
  ghost predicate IsLow(lib: Lib, parts: seq<Expr>, s: nat, row: Row, scope: Scope, pos: nat, low: Option<Bound>)
    requires |row| == |scope| && pos < |row|
  {
    s < |parts| && (Passes(lib, parts[s], row, scope) <==> Above(row[pos], low)) && (Above(row[pos], low) ==> row[pos] != Null)
  }

  /** Conjunct s is what an upper bound stands for, but for NULL. */
  ghost predicate IsHigh(lib: Lib, parts: seq<Expr>, s: nat, row: Row, scope: Scope, pos: nat, high: Option<Bound>)
    requires |row| == |scope| && pos < |row|
  {
    s < |parts| && (Passes(lib, parts[s], row, scope) <==> row[pos] != Null && Below(row[pos], high))
  }

  /** The lower bound, as far as there is one, and the conjunct it stands for. */
  lemma LowSays(lib: Lib, parts: seq<Expr>, preds: seq<Predicate>, b: Bounds, row: Row, scope: Scope, lead: Text, pos: nat)
    requires Setting(lib, parts, preds, row, scope, lead, pos) && BoundsFrom(preds, b) && !HasEq(preds)
    ensures EvalBound(lib, b.low).Some?
    ensures forall i: nat :: FirstLower(preds, i) ==> IsLow(lib, parts, preds[i].src, row, scope, pos, EvalBound(lib, b.low).value)
  {
    if b.low.Some? {
      var i: nat :| FirstLower(preds, i) && b.low.value == BoundOf(preds[i]) && preds[i].src in b.used;
      var lit := PredicateMeaning(lib, parts, preds, i, row, scope, lead, pos);
      LowMeaning(preds[i], row[pos], lit);
      assert EvalBound(lib, b.low) == Some(Some(Bound(lit, BoundOf(preds[i]).inclusive)));
      forall j: nat | FirstLower(preds, j) ensures j == i {
      }
    }
  }

  lemma HighSays(lib: Lib, parts: seq<Expr>, preds: seq<Predicate>, b: Bounds, row: Row, scope: Scope, lead: Text, pos: nat)
    requires Setting(lib, parts, preds, row, scope, lead, pos) && BoundsFrom(preds, b) && !HasEq(preds)
    ensures EvalBound(lib, b.high).Some?
    ensures forall i: nat :: FirstUpper(preds, i) ==> IsHigh(lib, parts, preds[i].src, row, scope, pos, EvalBound(lib, b.high).value)
  {
    if b.high.Some? {
      var i: nat :| FirstUpper(preds, i) && b.high.value == BoundOf(preds[i]) && preds[i].src in b.used;
      var lit := PredicateMeaning(lib, parts, preds, i, row, scope, lead, pos);
      HighMeaning(preds[i], row[pos], lit);
      assert EvalBound(lib, b.high) == Some(Some(Bound(lit, BoundOf(preds[i]).inclusive)));
      forall j: nat | FirstUpper(preds, j) ensures j == i {
      }
    }
  }

  lemma TwoBoundsSay(lib: Lib, parts: seq<Expr>, preds: seq<Predicate>, b: Bounds, row: Row, scope: Scope, lead: Text, pos: nat)
    requires Setting(lib, parts, preds, row, scope, lead, pos) && BoundsFrom(preds, b) && !HasEq(preds)
    requires HasLower(preds) || HasUpper(preds)
    ensures BoundsSay(lib, parts, b, row, scope, pos)
  {
    LowSays(lib, parts, preds, b, row, scope, lead, pos);
    HighSays(lib, parts, preds, b, row, scope, lead, pos);
    if b.low.Some? {
      var i: nat :| FirstLower(preds, i) && b.low.value == BoundOf(preds[i]) && preds[i].src in b.used;
    }
    if b.high.Some? {
      var i: nat :| FirstUpper(preds, i) && b.high.value == BoundOf(preds[i]) && preds[i].src in b.used;
    }
  }

  /**
  The rewrite of a filter: a row passes the whole filter exactly when its leading value lies within the
  bounds and the rest of the filter passes it; with an upper bound alone, NULL has to be told apart.
  */
  lemma RewriteKeepsMeaning(lib: Lib, where: Expr, b: Bounds, row: Row, scope: Scope, lead: Text, pos: nat)
    requires |row| == |scope| && Leads(scope, lead, pos) && Evaluates(lib, where, row, scope)
    requires var parts := Conjuncts(where); var preds := OnColumn(Usable(parts, |parts|), lead);
      Score(preds) > 0 && BoundsFrom(preds, b)
    ensures EvalBound(lib, b.low).Some? && EvalBound(lib, b.high).Some? && (b.low.Some? || b.high.Some?)
    ensures var parts := Conjuncts(where); var rest := Residual(parts, b.used, |parts|);
      && (rest.Some? ==> Evaluates(lib, rest.value, row, scope))
      && (Passes(lib, where, row, scope) <==>
        && InBounds(row[pos], EvalBound(lib, b.low).value, EvalBound(lib, b.high).value)
        && FilterPasses(lib, rest, row, scope)
        && (b.low.None? ==> row[pos] != Null))
  {
    var parts := Conjuncts(where);
    var preds := OnColumn(Usable(parts, |parts|), lead);
    ConjunctsPass(lib, where, row, scope);
    ResidualPasses(lib, parts, b.used, |parts|, row, scope);
    if HasEq(preds) {
      var i: nat :| FirstEq(preds, i) && b == Bounds(Some(BoundOf(preds[i])), Some(BoundOf(preds[i])), {preds[i].src});
      EqBoundsSay(lib, parts, preds, i, row, scope, lead, pos);
    } else {
      TwoBoundsSay(lib, parts, preds, b, row, scope, lead, pos);
    }
    UsedAreConjuncts(parts, preds, b, lead);
    SplitPass(lib, parts, b.used, row, scope);
  }

  lemma UsedAreConjuncts(parts: seq<Expr>, preds: seq<Predicate>, b: Bounds, lead: Text)
    requires preds == OnColumn(Usable(parts, |parts|), lead) && BoundsFrom(preds, b)
    ensures forall s :: s in b.used ==> s < |parts|
  {
    hide Usable, OnColumn;
    forall s | s in b.used ensures s < |parts| {
      if HasEq(preds) {
        var i: nat :| FirstEq(preds, i) && b == Bounds(Some(BoundOf(preds[i])), Some(BoundOf(preds[i])), {preds[i].src});
        assert preds[i] in preds;
      } else {
        var i: nat :| BoundAt(preds, b, i) && preds[i].src == s;
        assert preds[i] in preds;
      }
    }
  }

  lemma SplitPass(lib: Lib, parts: seq<Expr>, used: set<nat>, row: Row, scope: Scope)
    requires |row| == |scope| && forall s :: s in used ==> s < |parts|
    ensures AllPass(lib, parts, row, scope) <==>
      UsedPass(lib, parts, used, row, scope) && forall i :: 0 <= i < |parts| && i !in used ==> Passes(lib, parts[i], row, scope)
  {
  }
}
