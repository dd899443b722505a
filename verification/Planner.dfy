/**
The choice between reading a whole table and reading a part of it through an index, and the proof that
both ways select the same rows.
*/
module Planner {
  import opened Bytes
  import opened Ast
  import opened Evaluation

  /** A conjunct of the form column-operator-literal; `src` is its position among the conjuncts. */
  datatype Predicate = Predicate(src: nat, column: Text, op: BinaryOp, kind: LiteralKind, text: Text)

  datatype PlanBound = PlanBound(kind: LiteralKind, text: Text, inclusive: bool)

  /** The bounds an index scan gets, and the conjuncts they stand for. */
  datatype Bounds = Bounds(low: Option<PlanBound>, high: Option<PlanBound>, used: set<nat>)

  /** An index in the catalog. */
  datatype Listed = Listed(name: Text, columns: seq<Text>)

  datatype Plan =
    | SeqPlan(filter: Option<Expr>)
    | IndexPlan(index: nat, low: Option<PlanBound>, high: Option<PlanBound>, filter: Option<Expr>)

  // ---- conjuncts ----

  function Conjuncts(e: Expr): (parts: seq<Expr>)
    ensures parts != []
  {
    match e
    case Binary(left, And, right) => Conjuncts(left) + Conjuncts(right)
    case _ => [e]
  }

  /** No AND is left between the conjuncts. */
  lemma {:induction false} ConjunctsAreWhole(e: Expr)
    ensures forall part :: part in Conjuncts(e) ==> !(part.Binary? && part.bop == And)
  {
    if e.Binary? && e.bop == And {
      ConjunctsAreWhole(e.left);
      ConjunctsAreWhole(e.right);
    }
  }

  function Mirror(op: BinaryOp): BinaryOp {
    match op
    case Lt => Gt
    case Gt => Lt
    case Lte => Gte
    case Gte => Lte
    case _ => op
  }

  predicate Comparable(op: BinaryOp) { op in {Eq, Lt, Lte, Gt, Gte} }

  /** Recognises a comparison of a column with a literal other than NULL, either way round. */
  function Match(e: Expr, src: nat): Option<Predicate> {
    match e
    case Binary(Column(_, name), op, Literal(kind, text)) =>
      if Comparable(op) && kind != NullLiteral then Some(Predicate(src, name, op, kind, text)) else None
    case Binary(Literal(kind, text), op, Column(_, name)) =>
      if Comparable(op) && kind != NullLiteral then Some(Predicate(src, name, Mirror(op), kind, text)) else None
    case _ => None
  }

  /**
  Every comparison of a column with a literal is recognised, unless it is != or the literal is NULL, and nothing else is. With the literal
  on the left the comparison is the one that holds of the sides swapped.
  */
  lemma MatchIff(e: Expr, src: nat, c: int)
    ensures Match(e, src).Some? <==>
      && e.Binary? && e.bop in {Eq, Lt, Lte, Gt, Gte}
      && ((e.left.Column? && e.right.Literal? && e.right.kind != NullLiteral) || (e.left.Literal? && e.right.Column? && e.left.kind != NullLiteral))
    ensures Match(e, src).Some? ==>
      var p, column, literal := Match(e, src).value, if e.left.Column? then e.left else e.right, if e.left.Column? then e.right else e.left;
      && p.src == src && p.column == column.name && p.kind == literal.kind && p.text == literal.text
      && (Holds(p.op, c) <==> Holds(e.bop, if e.left.Column? then c else -c))
  {
  }

  /** The recognised ones among the first n conjuncts, in order. */
  function Usable(parts: seq<Expr>, n: nat): (preds: seq<Predicate>)
    requires n <= |parts|
    ensures forall p :: p in preds ==> p.src < n && Match(parts[p.src], p.src) == Some(p)
  {
    if n == 0 then []
    else
      match Match(parts[n - 1], n - 1)
      case Some(p) => Usable(parts, n - 1) + [p]
      case None => Usable(parts, n - 1)
  }

  function OnColumn(preds: seq<Predicate>, column: Text): (r: seq<Predicate>)
    ensures forall p :: p in r ==> p in preds && SameName(p.column, column)
  {
    if preds == [] then []
    else
      var n := |preds| - 1;
      OnColumn(preds[..n], column) + if SameName(preds[n].column, column) then [preds[n]] else []
  }

  // ---- bounds ----

  predicate IsLower(op: BinaryOp) { op == Gt || op == Gte }
  predicate IsUpper(op: BinaryOp) { op == Lt || op == Lte }

  predicate HasEq(preds: seq<Predicate>) { exists i :: 0 <= i < |preds| && preds[i].op == Eq }
  predicate HasLower(preds: seq<Predicate>) { exists i :: 0 <= i < |preds| && IsLower(preds[i].op) }
  predicate HasUpper(preds: seq<Predicate>) { exists i :: 0 <= i < |preds| && IsUpper(preds[i].op) }

  function Score(preds: seq<Predicate>): nat {
    if HasEq(preds) then 3
    else if HasLower(preds) && HasUpper(preds) then 2
    else if HasLower(preds) || HasUpper(preds) then 1
    else 0
  }

  /** An equality beats everything, bounds on both sides beat one bound, and any bound beats none. */
  lemma ScoreOrder(ps: seq<Predicate>, qs: seq<Predicate>)
    ensures HasEq(ps) && !HasEq(qs) ==> Score(ps) > Score(qs)
    ensures !HasEq(qs) && HasLower(ps) && HasUpper(ps) && !(HasLower(qs) && HasUpper(qs)) ==> Score(ps) > Score(qs)
    ensures (HasEq(ps) || HasLower(ps) || HasUpper(ps)) && !HasEq(qs) && !HasLower(qs) && !HasUpper(qs) ==> Score(ps) > Score(qs)
    ensures HasEq(ps) && HasEq(qs) ==> Score(ps) == Score(qs)
    ensures !HasEq(ps) && !HasEq(qs) && HasLower(ps) && HasUpper(ps) && HasLower(qs) && HasUpper(qs) ==> Score(ps) == Score(qs)
    ensures !HasEq(ps) && !HasEq(qs) && HasLower(ps) != HasUpper(ps) && HasLower(qs) != HasUpper(qs) ==> Score(ps) == Score(qs)
    ensures Score(ps) == 0 <==> !HasEq(ps) && !HasLower(ps) && !HasUpper(ps)
  {
  }

  method ComputeScore(preds: seq<Predicate>) returns (s: nat)
    ensures s == Score(preds)
  {
    var eq, low, high := false, false, false;
    for i := 0 to |preds|
      invariant eq <==> exists j :: 0 <= j < i && preds[j].op == Eq
      invariant low <==> exists j :: 0 <= j < i && IsLower(preds[j].op)
      invariant high <==> exists j :: 0 <= j < i && IsUpper(preds[j].op)
    {
      match preds[i].op {
        case Eq => eq := true;
        case Lt => high := true;
        case Lte => high := true;
        case Gt => low := true;
        case Gte => low := true;
        case _ =>
      }
    }
    s := if eq then 3 else if low && high then 2 else if low || high then 1 else 0;
  }

  /** The first predicate that is an equality gives both bounds. */
  predicate FirstEq(preds: seq<Predicate>, i: nat) {
    i < |preds| && preds[i].op == Eq && forall j :: 0 <= j < i ==> preds[j].op != Eq
  }

  predicate FirstLower(preds: seq<Predicate>, i: nat) {
    i < |preds| && IsLower(preds[i].op) && forall j :: 0 <= j < i ==> !IsLower(preds[j].op)
  }

  predicate FirstUpper(preds: seq<Predicate>, i: nat) {
    i < |preds| && IsUpper(preds[i].op) && forall j :: 0 <= j < i ==> !IsUpper(preds[j].op)
  }

  function BoundOf(p: Predicate): PlanBound {
    PlanBound(p.kind, p.text, p.op in {Eq, Gte, Lte})
  }

  /** What the bounds are: an equality, or the first lower and the first upper bound. */
  ghost predicate BoundsFrom(preds: seq<Predicate>, b: Bounds) {
    if HasEq(preds) then
      exists i: nat :: FirstEq(preds, i) && b == Bounds(Some(BoundOf(preds[i])), Some(BoundOf(preds[i])), {preds[i].src})
    else
      && (b.low.None? <==> !HasLower(preds)) && (b.high.None? <==> !HasUpper(preds))
      && (b.low.Some? ==> exists i: nat :: FirstLower(preds, i) && b.low.value == BoundOf(preds[i]) && preds[i].src in b.used)
      && (b.high.Some? ==> exists i: nat :: FirstUpper(preds, i) && b.high.value == BoundOf(preds[i]) && preds[i].src in b.used)
      && (forall s :: s in b.used ==> exists i: nat :: BoundAt(preds, b, i) && preds[i].src == s)
  }

  /** Predicate i is one of the bounds. */
  ghost predicate BoundAt(preds: seq<Predicate>, b: Bounds, i: nat) {
    || (FirstLower(preds, i) && b.low == Some(BoundOf(preds[i])))
    || (FirstUpper(preds, i) && b.high == Some(BoundOf(preds[i])))
  }

  method ComputeBounds(preds: seq<Predicate>) returns (b: Bounds)
    ensures BoundsFrom(preds, b)
  {
    for i := 0 to |preds|
      invariant forall j :: 0 <= j < i ==> preds[j].op != Eq
    {
      if preds[i].op == Eq {
        assert FirstEq(preds, i);
        return Bounds(Some(BoundOf(preds[i])), Some(BoundOf(preds[i])), {preds[i].src});
      }
    }
    b := TwoBounds(preds);
  }

  method TwoBounds(preds: seq<Predicate>) returns (b: Bounds)
    requires !HasEq(preds)
    ensures BoundsFrom(preds, b)
  {
    var low: Option<PlanBound>, high: Option<PlanBound>, used: set<nat> := None, None, {};
    ghost var l: nat, h: nat := 0, 0;
    for i := 0 to |preds|
      invariant if low.None? then forall j :: 0 <= j < i ==> !IsLower(preds[j].op) else l < i && FirstLower(preds, l) && low.value == BoundOf(preds[l])
      invariant if high.None? then forall j :: 0 <= j < i ==> !IsUpper(preds[j].op) else h < i && FirstUpper(preds, h) && high.value == BoundOf(preds[h])
      invariant used == (if low.Some? then {preds[l].src} else {}) + (if high.Some? then {preds[h].src} else {})
    {
      var p := preds[i];
      if IsLower(p.op) {
        if low.None? {
          low, used, l := Some(PlanBound(p.kind, p.text, p.op == Gte)), used + {p.src}, i;
        }
      } else if IsUpper(p.op) {
        if high.None? {
          high, used, h := Some(PlanBound(p.kind, p.text, p.op == Lte)), used + {p.src}, i;
        }
      }
    }
    b := Bounds(low, high, used);
  }

  // ---- the rest of the filter ----

  /** The conjuncts in front of n that are not used, joined from the left. */
  function Residual(parts: seq<Expr>, used: set<nat>, n: nat): Option<Expr>
    requires n <= |parts|
  {
    if n == 0 then None
    else
      var rest := Residual(parts, used, n - 1);
      if n - 1 in used then rest
      else if rest.None? then Some(parts[n - 1])
      else Some(Binary(rest.value, And, parts[n - 1]))
  }

  /** The first n conjuncts without the used ones. */
  function Unused(parts: seq<Expr>, used: set<nat>, n: nat): seq<Expr>
    requires n <= |parts|
  {
    if n == 0 then [] else Unused(parts, used, n - 1) + if n - 1 in used then [] else [parts[n - 1]]
  }

  /** The conjuncts of what is left of a filter are those that are not used, in their order, and with none nothing is left. */
  lemma {:induction false} ResidualKeepsOrder(where: Expr, used: set<nat>, n: nat)
    requires n <= |Conjuncts(where)|
    ensures var r, u := Residual(Conjuncts(where), used, n), Unused(Conjuncts(where), used, n);
      (r.None? <==> u == []) && (r.Some? ==> Conjuncts(r.value) == u)
  {
    var parts := Conjuncts(where);
    if n > 0 {
      var part := parts[n - 1];
      ResidualKeepsOrder(where, used, n - 1);
      ConjunctsAreWhole(where);
      assert part in parts && Conjuncts(part) == [part];
    }
  }

  method ComputeResidual(parts: seq<Expr>, used: set<nat>) returns (out: Option<Expr>)
    ensures out == Residual(parts, used, |parts|)
  {
    out := None;
    for i := 0 to |parts|
      invariant out == Residual(parts, used, i)
    {
      if i in used { continue; }
      if out.None? {
        out := Some(parts[i]);
      } else {
        out := Some(Binary(out.value, And, parts[i]));
      }
    }
  }

  // ---- the plan ----

  /** The predicates that an index can use are those on its first column. */
  function PredsFor(indexes: seq<Listed>, usable: seq<Predicate>, i: nat): seq<Predicate>
    requires i < |indexes|
  {
    if indexes[i].columns == [] then [] else OnColumn(usable, indexes[i].columns[0])
  }

  function Scores(indexes: seq<Listed>, usable: seq<Predicate>): (r: seq<nat>)
    ensures |r| == |indexes|
    ensures forall i {:trigger r[i]} :: 0 <= i < |r| ==> r[i] == Score(PredsFor(indexes, usable, i))
  {
    seq(|indexes|, i requires 0 <= i < |indexes| => Score(PredsFor(indexes, usable, i)))
  }

  /** The first of the highest scores, if that is more than nothing. */
  predicate IsBest(scores: seq<nat>, best: Option<nat>) {
    match best
    case None => forall j :: 0 <= j < |scores| ==> scores[j] == 0
    case Some(i) =>
      && i < |scores| && scores[i] > 0
      && (forall j :: 0 <= j < |scores| ==> scores[j] <= scores[i])
      && (forall j :: 0 <= j < i ==> scores[j] < scores[i])
  }

  /** A plan for a filter: the index scan it calls for, or else the whole table. */
  ghost predicate PlanFor(indexes: seq<Listed>, where: Option<Expr>, plan: Plan) {
    if where.None? then plan == SeqPlan(None)
    else
      var parts := Conjuncts(where.value);
      var usable := Usable(parts, |parts|);
      exists best :: IsBest(Scores(indexes, usable), best) &&
        match best
        case None => plan == SeqPlan(where)
        case Some(i) => exists b :: IndexPlanFrom(parts, PredsFor(indexes, usable, i), i, b, plan)
  }

  ghost predicate IndexPlanFrom(parts: seq<Expr>, preds: seq<Predicate>, index: nat, b: Bounds, plan: Plan) {
    BoundsFrom(preds, b) && plan == IndexPlan(index, b.low, b.high, Residual(parts, b.used, |parts|))
  }

  method ComputeUsable(parts: seq<Expr>) returns (usable: seq<Predicate>)
    ensures usable == Usable(parts, |parts|)
  {
    usable := [];
    for i := 0 to |parts|
      invariant usable == Usable(parts, i)
    {
      var p := Match(parts[i], i);
      if p.Some? { usable := usable + [p.value]; }
    }
  }

  method ComputeOnColumn(preds: seq<Predicate>, column: Text) returns (r: seq<Predicate>)
    ensures r == OnColumn(preds, column)
  {
    r := [];
    for i := 0 to |preds|
      invariant r == OnColumn(preds[..i], column)
    {
      assert preds[..i + 1][..i] == preds[..i];
      if SameName(preds[i].column, column) { r := r + [preds[i]]; }
    }
    assert preds[..|preds|] == preds;
  }

  method ScoreIndex(ix: Listed, usable: seq<Predicate>) returns (s: nat)
    ensures s == Score(if ix.columns == [] then [] else OnColumn(usable, ix.columns[0]))
  {
    if ix.columns == [] {
      s := 0;
    } else {
      var preds := ComputeOnColumn(usable, ix.columns[0]);
      s := ComputeScore(preds);
    }
  }

  method Choose(indexes: seq<Listed>, usable: seq<Predicate>) returns (best: Option<nat>)
    ensures IsBest(Scores(indexes, usable), best)
  {
    best := None;
    var bestScore := 0;
    ghost var scores := Scores(indexes, usable);
    for i := 0 to |indexes|
      invariant IsBest(scores[..i], best)
      invariant bestScore == if best.None? then 0 else scores[best.value]
    {
      var s := ScoreIndex(indexes[i], usable);
      assert s == scores[i];
      BestStep(scores, i, best);
      if s > bestScore { best, bestScore := Some(i), s; }
    }
    assert scores[..|indexes|] == scores;
  }

  lemma BestStep(scores: seq<nat>, i: nat, best: Option<nat>)
    requires i < |scores| && IsBest(scores[..i], best)
    ensures IsBest(scores[..i + 1], if scores[i] > (if best.None? then 0 else scores[best.value]) then Some(i) else best)
  {
  }

  method Scan(indexes: seq<Listed>, where: Option<Expr>) returns (plan: Plan)
    ensures PlanFor(indexes, where, plan)
    ensures if where.None? then plan == SeqPlan(None) else Preferred(indexes, where.value, plan)
  {
    plan := MakePlan(indexes, where);
    if where.Some? { PlanIsPreferred(indexes, where.value, plan); }
  }

  method MakePlan(indexes: seq<Listed>, where: Option<Expr>) returns (plan: Plan)
    ensures PlanFor(indexes, where, plan)
  {
    if where.None? { return SeqPlan(None); }
    var parts := Conjuncts(where.value);
    var usable := ComputeUsable(parts);
    NothingUsable(indexes, usable);
    if indexes == [] || usable == [] {
      assert IsBest(Scores(indexes, usable), None);
      return SeqPlan(where);
    }
    var best := Choose(indexes, usable);
    if best.None? { return SeqPlan(where); }
    var preds := ComputeOnColumn(usable, indexes[best.value].columns[0]);
    var b := ComputeBounds(preds);
    var filter := ComputeResidual(parts, b.used);
    plan := IndexPlan(best.value, b.low, b.high, filter);
    assert IndexPlanFrom(parts, preds, best.value, b, plan);
  }

  lemma NothingUsable(indexes: seq<Listed>, usable: seq<Predicate>)
    ensures usable == [] ==> forall i :: 0 <= i < |indexes| ==> Score(PredsFor(indexes, usable, i)) == 0
  {
  }

  // ---- which index it is ----

  /** A conjunct compares the first column of index j with a literal by one of these operators, the column taken to be on the left. */
  ghost predicate Offers(indexes: seq<Listed>, where: Expr, j: nat, ops: set<BinaryOp>) {
    && j < |indexes| && indexes[j].columns != []
    && exists s :: 0 <= s < |Conjuncts(where)| && Offer(Conjuncts(where)[s], s, indexes[j].columns[0], ops)
  }

  ghost predicate Offer(e: Expr, s: nat, column: Text, ops: set<BinaryOp>) {
    Match(e, s).Some? && SameName(Match(e, s).value.column, column) && Match(e, s).value.op in ops
  }

  ghost predicate OffersEq(indexes: seq<Listed>, where: Expr, j: nat) { Offers(indexes, where, j, {Eq}) }
  ghost predicate OffersLow(indexes: seq<Listed>, where: Expr, j: nat) { Offers(indexes, where, j, {Gt, Gte}) }
  ghost predicate OffersHigh(indexes: seq<Listed>, where: Expr, j: nat) { Offers(indexes, where, j, {Lt, Lte}) }

  /**
  What index a filter calls for: none exactly if no conjunct is about the first column of any. Otherwise the first one with an
  equality, whose bounds are that equality; without any the first one with bounds on both sides; without any of those the first one with a bound.
  */
  ghost predicate Preferred(indexes: seq<Listed>, where: Expr, plan: Plan) {
    match plan
    case SeqPlan(filter) =>
      filter == Some(where) && forall j: nat :: !OffersEq(indexes, where, j) && !OffersLow(indexes, where, j) && !OffersHigh(indexes, where, j)
    case IndexPlan(i, low, high, _) =>
      && (low.Some? || high.Some?)
      && if exists j: nat :: OffersEq(indexes, where, j) then
           && OffersEq(indexes, where, i) && (forall j: nat :: j < i ==> !OffersEq(indexes, where, j))
           && low == high && low.Some? && low.value.inclusive
         else if exists j: nat :: OffersLow(indexes, where, j) && OffersHigh(indexes, where, j) then
           && OffersLow(indexes, where, i) && OffersHigh(indexes, where, i)
           && (forall j: nat :: j < i ==> !(OffersLow(indexes, where, j) && OffersHigh(indexes, where, j)))
           && low.Some? && high.Some?
         else
           && (low.Some? <==> OffersLow(indexes, where, i)) && (high.Some? <==> OffersHigh(indexes, where, i))
           && forall j: nat :: j < i ==> !OffersLow(indexes, where, j) && !OffersHigh(indexes, where, j)
  }

  lemma {:induction false} UsableHasAll(parts: seq<Expr>, n: nat, s: nat)
    requires s < n <= |parts| && Match(parts[s], s).Some?
    ensures Match(parts[s], s).value in Usable(parts, n)
  {
    if s < n - 1 { UsableHasAll(parts, n - 1, s); }
  }

  lemma {:induction false} OnColumnHasAll(preds: seq<Predicate>, column: Text, p: Predicate)
    requires p in preds && SameName(p.column, column)
    ensures p in OnColumn(preds, column)
  {
    var n := |preds| - 1;
    if p != preds[n] {
      assert preds == preds[..n] + [preds[n]];
      OnColumnHasAll(preds[..n], column, p);
    }
  }

  /** The conjuncts that an index offers are the predicates that it is scored by. */
  lemma OffersAre(indexes: seq<Listed>, where: Expr, j: nat, ops: set<BinaryOp>)
    requires j < |indexes|
    ensures var preds := PredsFor(indexes, Usable(Conjuncts(where), |Conjuncts(where)|), j);
      Offers(indexes, where, j, ops) <==> exists i :: 0 <= i < |preds| && preds[i].op in ops
  {
    var parts := Conjuncts(where);
    var preds := PredsFor(indexes, Usable(parts, |parts|), j);
    if indexes[j].columns != [] {
      var column := indexes[j].columns[0];
      if s :| 0 <= s < |parts| && Offer(parts[s], s, column, ops) {
        UsableHasAll(parts, |parts|, s);
        OnColumnHasAll(Usable(parts, |parts|), column, Match(parts[s], s).value);
        var i :| 0 <= i < |preds| && preds[i] == Match(parts[s], s).value;
      }
      if i :| 0 <= i < |preds| && preds[i].op in ops {
        assert preds[i] in preds;
        assert Offer(parts[preds[i].src], preds[i].src, column, ops);
      }
    }
  }

  lemma KindsAre(indexes: seq<Listed>, where: Expr, j: nat)
    requires j < |indexes|
    ensures var preds := PredsFor(indexes, Usable(Conjuncts(where), |Conjuncts(where)|), j);
      && (OffersEq(indexes, where, j) <==> HasEq(preds))
      && (OffersLow(indexes, where, j) <==> HasLower(preds))
      && (OffersHigh(indexes, where, j) <==> HasUpper(preds))
  {
    hide Conjuncts, Usable, PredsFor, Offers;
    OffersAre(indexes, where, j, {Eq});
    OffersAre(indexes, where, j, {Gt, Gte});
    OffersAre(indexes, where, j, {Lt, Lte});
  }

  /** Of two indexes the one with the higher score is preferred, and of equals the first. */
  lemma NoneIsBetter(indexes: seq<Listed>, where: Expr, i: nat, j: nat)
    requires i < |indexes| && j < |indexes|
    requires var usable := Usable(Conjuncts(where), |Conjuncts(where)|);
      && 0 < Score(PredsFor(indexes, usable, i)) && Score(PredsFor(indexes, usable, j)) <= Score(PredsFor(indexes, usable, i))
      && (j < i ==> Score(PredsFor(indexes, usable, j)) < Score(PredsFor(indexes, usable, i)))
    ensures OffersEq(indexes, where, j) ==> OffersEq(indexes, where, i) && i <= j
    ensures OffersLow(indexes, where, j) && OffersHigh(indexes, where, j) ==>
      OffersEq(indexes, where, i) || (OffersLow(indexes, where, i) && OffersHigh(indexes, where, i) && i <= j)
    ensures OffersLow(indexes, where, j) || OffersHigh(indexes, where, j) ==>
      OffersEq(indexes, where, i) || (OffersLow(indexes, where, i) && OffersHigh(indexes, where, i)) || i <= j
    ensures OffersEq(indexes, where, i) || OffersLow(indexes, where, i) || OffersHigh(indexes, where, i)
  {
    hide Conjuncts, Usable, Score, PredsFor, HasEq, HasLower, HasUpper, Offers, OffersEq, OffersLow, OffersHigh;
    var usable := Usable(Conjuncts(where), |Conjuncts(where)|);
    KindsAre(indexes, where, i);
    KindsAre(indexes, where, j);
    ScoreOrder(PredsFor(indexes, usable, i), PredsFor(indexes, usable, j));
    ScoreOrder(PredsFor(indexes, usable, j), PredsFor(indexes, usable, i));
  }

  lemma NothingOffered(indexes: seq<Listed>, where: Expr)
    requires IsBest(Scores(indexes, Usable(Conjuncts(where), |Conjuncts(where)|)), None)
    ensures forall j: nat :: !OffersEq(indexes, where, j) && !OffersLow(indexes, where, j) && !OffersHigh(indexes, where, j)
  {
    hide Conjuncts, Usable, Score, PredsFor, HasEq, HasLower, HasUpper;
    var usable := Usable(Conjuncts(where), |Conjuncts(where)|);
    forall j: nat ensures !OffersEq(indexes, where, j) && !OffersLow(indexes, where, j) && !OffersHigh(indexes, where, j) {
      if j < |indexes| {
        KindsAre(indexes, where, j);
        assert Scores(indexes, usable)[j] == 0;
        ScoreOrder(PredsFor(indexes, usable, j), PredsFor(indexes, usable, j));
      }
    }
  }

  /** The bounds of the plan are those that its index offers. */
  lemma OfferedBounds(indexes: seq<Listed>, where: Expr, i: nat, b: Bounds)
    requires i < |indexes| && BoundsFrom(PredsFor(indexes, Usable(Conjuncts(where), |Conjuncts(where)|), i), b)
    ensures OffersEq(indexes, where, i) ==> b.low == b.high && b.low.Some? && b.low.value.inclusive
    ensures !OffersEq(indexes, where, i) ==>
      (b.low.Some? <==> OffersLow(indexes, where, i)) && (b.high.Some? <==> OffersHigh(indexes, where, i))
  {
    hide Conjuncts, Usable, Score, PredsFor, Offers, OffersEq, OffersLow, OffersHigh;
    KindsAre(indexes, where, i);
  }

  /** The plan for a filter is on the index that the filter calls for. */
  lemma PlanIsPreferred(indexes: seq<Listed>, where: Expr, plan: Plan)
    requires PlanFor(indexes, Some(where), plan)
    ensures Preferred(indexes, where, plan)
  {
    var parts := Conjuncts(where);
    var usable := Usable(parts, |parts|);
    var scores := Scores(indexes, usable);
    var best :| IsBest(scores, best) &&
      match best
      case None => plan == SeqPlan(Some(where))
      case Some(i) => exists b :: IndexPlanFrom(parts, PredsFor(indexes, usable, i), i, b, plan);
    hide Conjuncts, Usable, Score, PredsFor, Offers, OffersEq, OffersLow, OffersHigh, BoundsFrom;
    if best.None? {
      NothingOffered(indexes, where);
    } else {
      var i := best.value;
      var b :| IndexPlanFrom(parts, PredsFor(indexes, usable, i), i, b, plan);
      OfferedBounds(indexes, where, i, b);
      hide Preferred;
      BestIsPreferred(indexes, where, i, plan);
    }
  }

  lemma BestIsPreferred(indexes: seq<Listed>, where: Expr, i: nat, plan: Plan)
    requires IsBest(Scores(indexes, Usable(Conjuncts(where), |Conjuncts(where)|)), Some(i))
    requires plan.IndexPlan? && plan.index == i
    requires OffersEq(indexes, where, i) ==> plan.low == plan.high && plan.low.Some? && plan.low.value.inclusive
    requires !OffersEq(indexes, where, i) ==>
      (plan.low.Some? <==> OffersLow(indexes, where, i)) && (plan.high.Some? <==> OffersHigh(indexes, where, i))
    ensures Preferred(indexes, where, plan)
  {
    hide Conjuncts, Usable, Scores, IsBest, OffersEq, OffersLow, OffersHigh;
    Ranked(indexes, where, i, i);
    if j: nat :| OffersEq(indexes, where, j) { Ranked(indexes, where, i, j); }
    if j: nat :| OffersLow(indexes, where, j) && OffersHigh(indexes, where, j) { Ranked(indexes, where, i, j); }
    forall j: nat | j < i
      ensures OffersEq(indexes, where, i) ==> !OffersEq(indexes, where, j)
      ensures !OffersEq(indexes, where, i) ==> !(OffersLow(indexes, where, j) && OffersHigh(indexes, where, j))
      ensures !OffersEq(indexes, where, i) && !(OffersLow(indexes, where, i) && OffersHigh(indexes, where, i)) ==>
        !OffersLow(indexes, where, j) && !OffersHigh(indexes, where, j)
    {
      Ranked(indexes, where, i, j);
    }
  }

  /** What any index offers compared with the best one. */
  lemma Ranked(indexes: seq<Listed>, where: Expr, i: nat, j: nat)
    requires IsBest(Scores(indexes, Usable(Conjuncts(where), |Conjuncts(where)|)), Some(i))
    ensures OffersEq(indexes, where, j) ==> OffersEq(indexes, where, i) && i <= j
    ensures OffersLow(indexes, where, j) && OffersHigh(indexes, where, j) ==>
      OffersEq(indexes, where, i) || (OffersLow(indexes, where, i) && OffersHigh(indexes, where, i) && i <= j)
    ensures OffersLow(indexes, where, j) || OffersHigh(indexes, where, j) ==>
      OffersEq(indexes, where, i) || (OffersLow(indexes, where, i) && OffersHigh(indexes, where, i)) || i <= j
    ensures OffersEq(indexes, where, i) || OffersLow(indexes, where, i) || OffersHigh(indexes, where, i)
  {
    var usable := Usable(Conjuncts(where), |Conjuncts(where)|);
    var scores := Scores(indexes, usable);
    OnlyListed(indexes, where);
    hide Conjuncts, Usable, Score, PredsFor, Offers, OffersEq, OffersLow, OffersHigh;
    assert scores[i] > 0 && scores[i] == Score(PredsFor(indexes, usable, i));
    NoneIsBetter(indexes, where, i, i);
    if j < |indexes| {
      assert scores[j] <= scores[i] && (j < i ==> scores[j] < scores[i]) && scores[j] == Score(PredsFor(indexes, usable, j));
      NoneIsBetter(indexes, where, i, j);
    }
  }

  lemma OnlyListed(indexes: seq<Listed>, where: Expr)
    ensures forall j: nat :: OffersEq(indexes, where, j) || OffersLow(indexes, where, j) || OffersHigh(indexes, where, j) ==> j < |indexes|
  {
  }
}
