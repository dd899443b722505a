/** Evaluation of expressions over a row, in three-valued logic. */
module Evaluation {
  import opened Bytes
  import opened Values
  import opened Ast
  import Record

  type Row = Record.Row

  /** What the standard library and float64 arithmetic do, which this model does not look into. */
  datatype Lib = Lib(parseInt: Text -> Option<int>, parseFloat: Text -> Option<nat>, compute: (BinaryOp, Value, Value) -> Value)

  datatype Result = Ok(v: Value) | Failed

  // ---- names ----

  datatype Name = Name(table: Text, name: Text)

  type Scope = seq<Name>

  function LowerByte(b: Byte): Byte {
    if 65 <= b <= 90 then b + 32 else b
  }

  function Lower(s: Text): (r: Text)
    ensures |r| == |s|
  {
    seq(|s|, i requires 0 <= i < |s| => LowerByte(s[i]))
  }

  predicate SameName(a: Text, b: Text) { Lower(a) == Lower(b) }

  /** Capital and small letters are the same, those of the alphabet only. */
  lemma SameNameIs(a: Text, b: Text)
    ensures SameName(a, b) <==> |a| == |b| && forall i :: 0 <= i < |a| ==>
      a[i] == b[i] || (65 <= a[i] <= 90 && b[i] == a[i] + 32) || (65 <= b[i] <= 90 && a[i] == b[i] + 32)
  {
    var x, y := Lower(a), Lower(b);
    assert forall i :: 0 <= i < |a| ==> x[i] == LowerByte(a[i]);
    assert forall i :: 0 <= i < |b| ==> y[i] == LowerByte(b[i]);
    if x == y {
      assert forall i :: 0 <= i < |a| ==> x[i] == y[i];
    }
  }

  predicate Names(n: Name, table: Text, name: Text) {
    SameName(n.name, name) && (table == [] || SameName(n.table, table))
  }

  ghost predicate OnlyMatch(scope: Scope, table: Text, name: Text, n: nat, i: Option<nat>)
    requires n <= |scope|
  {
    match i
    case None => forall j :: 0 <= j < n ==> !Names(scope[j], table, name)
    case Some(k) => k < n && Names(scope[k], table, name) && forall j :: 0 <= j < n && j != k ==> !Names(scope[j], table, name)
  }

  /** Looks on from position n; `found` is the only match before it. A second match is an error. */
  function ResolveFrom(scope: Scope, table: Text, name: Text, n: nat, found: Option<nat>): (i: Option<nat>)
    requires n <= |scope| && OnlyMatch(scope, table, name, n, found)
    ensures i.Some? ==> OnlyMatch(scope, table, name, |scope|, i)
    ensures forall k: nat :: OnlyMatch(scope, table, name, |scope|, Some(k)) ==> i == Some(k)
    decreases |scope| - n
  {
    if n == |scope| then found
    else if !Names(scope[n], table, name) then ResolveFrom(scope, table, name, n + 1, found)
    else if found.Some? then None
    else ResolveFrom(scope, table, name, n + 1, Some(n))
  }

  /** The one column that a reference names; nothing when there is none or more than one. */
  function Resolve(scope: Scope, table: Text, name: Text): (i: Option<nat>)
    ensures i.Some? ==> OnlyMatch(scope, table, name, |scope|, i)
    ensures i.None? <==> forall k: nat :: !OnlyMatch(scope, table, name, |scope|, Some(k))
  {
    ResolveFrom(scope, table, name, 0, None)
  }

  /** A reference fails exactly when no column of the scope or more than one has its name. */
  lemma ResolveFails(scope: Scope, table: Text, name: Text)
    ensures Resolve(scope, table, name).None? <==>
      (forall j :: 0 <= j < |scope| ==> !Names(scope[j], table, name))
      || exists j, k :: 0 <= j < k < |scope| && Names(scope[j], table, name) && Names(scope[k], table, name)
  {
    if Resolve(scope, table, name).None? {
      if j :| 0 <= j < |scope| && Names(scope[j], table, name) {
        assert !OnlyMatch(scope, table, name, |scope|, Some(j));
        var k :| 0 <= k < |scope| && k != j && Names(scope[k], table, name);
        assert (j < k && Names(scope[k], table, name)) || (k < j && Names(scope[j], table, name));
      }
    }
  }

  /** A reference is to the one column that has its name, and its table if it gives one. */
  lemma ResolveMeans(scope: Scope, table: Text, name: Text, i: nat)
    requires i < |scope|
    ensures Resolve(scope, table, name) == Some(i) <==> forall j :: 0 <= j < |scope| ==>
      (j == i <==> SameName(scope[j].name, name) && (table == [] || SameName(scope[j].table, table)))
  {
    assert OnlyMatch(scope, table, name, |scope|, Some(i)) <==> forall j :: 0 <= j < |scope| ==> (j == i <==> Names(scope[j], table, name));
  }

  // ---- logic ----

  /** 1 for true, 0 for false, -1 for unknown; only a nonzero integer is true. */
  function Truth(v: Value): int {
    match v
    case Null => -1
    case Integer(n) => if n != 0 then 1 else 0
    case _ => 0
  }

  function FromBool(b: bool): Value { Integer(if b then 1 else 0) }

  function And3(l: Value, r: Value): Value {
    if Truth(l) == 0 || Truth(r) == 0 then Integer(0)
    else if Truth(l) == 1 && Truth(r) == 1 then Integer(1)
    else Null
  }

  function Or3(l: Value, r: Value): Value {
    if Truth(l) == 1 || Truth(r) == 1 then Integer(1)
    else if Truth(l) == 0 && Truth(r) == 0 then Integer(0)
    else Null
  }

  function Not3(v: Value): Value {
    if Truth(v) == 0 then Integer(1) else if Truth(v) == 1 then Integer(0) else Null
  }

  /** False below unknown below true. */
  function Level(v: Value): nat {
    if Truth(v) == 0 then 0 else if Truth(v) == -1 then 1 else 2
  }

  /** The connectives are minimum, maximum and reversal of the three levels. */
  lemma ThreeLevels(l: Value, r: Value)
    ensures Level(And3(l, r)) == if Level(l) < Level(r) then Level(l) else Level(r)
    ensures Level(Or3(l, r)) == if Level(l) > Level(r) then Level(l) else Level(r)
    ensures Level(Not3(l)) == 2 - Level(l)
    ensures (Level(l) == 2 <==> l.Integer? && l.n != 0) && (Level(l) == 1 <==> l == Null)
  {
  }

  /** What a comparison operator makes of the sign of a comparison. */
  predicate Holds(op: BinaryOp, c: int) {
    match op
    case Eq => c == 0
    case Neq => c != 0
    case Lt => c < 0
    case Lte => c <= 0
    case Gt => c > 0
    case Gte => c >= 0
    case _ => false
  }

  function EvalCompare(op: BinaryOp, a: Value, b: Value): Value {
    if a == Null || b == Null then Null else FromBool(Holds(op, Compare(a, b)))
  }

  /** What the comparison operators have to do with each other: != is not =, <= is < or =, and > is < with its sides swapped. */
  lemma ComparisonsRelate(a: Value, b: Value)
    ensures EvalCompare(Neq, a, b) == Not3(EvalCompare(Eq, a, b))
    ensures EvalCompare(Lte, a, b) == Or3(EvalCompare(Lt, a, b), EvalCompare(Eq, a, b))
    ensures EvalCompare(Gt, a, b) == EvalCompare(Lt, b, a) && EvalCompare(Gte, a, b) == EvalCompare(Lte, b, a)
    ensures EvalCompare(Eq, a, b) == EvalCompare(Eq, b, a)
    ensures a == Null || b == Null ==> forall op :: EvalCompare(op, a, b) == Null
    ensures a != Null && b != Null ==> (Truth(EvalCompare(Lt, a, b)) == 1 <==> Compare(a, b) == -1)
    ensures a != Null && b != Null ==> (Truth(EvalCompare(Eq, a, b)) == 1 <==> Compare(a, b) == 0)
    ensures a != Null && b != Null ==> forall op :: EvalCompare(op, a, b) in {Integer(0), Integer(1)}
  {
    CompareFlips(a, b);
    hide Compare;
  }

  function EvalConst(lib: Lib, kind: LiteralKind, text: Text): Result {
    match kind
    case IntLiteral => (match lib.parseInt(text) case Some(n) => Ok(Integer(n)) case None => Failed)
    case FloatLiteral => (match lib.parseFloat(text) case Some(bits) => Ok(Real(bits)) case None => Failed)
    case StringLiteral => Ok(Value.Text(text))
    case NullLiteral => Ok(Null)
  }

  function Apply(lib: Lib, op: BinaryOp, l: Value, r: Value): Value {
    match op
    case And => And3(l, r)
    case Or => Or3(l, r)
    case Is => if Truth(l) == 1 then Integer(0) else Integer(1)
    case Eq => EvalCompare(op, l, r)
    case Neq => EvalCompare(op, l, r)
    case Lt => EvalCompare(op, l, r)
    case Lte => EvalCompare(op, l, r)
    case Gt => EvalCompare(op, l, r)
    case Gte => EvalCompare(op, l, r)
    case _ => lib.compute(op, l, r)
  }

  /** Both sides are always evaluated, and minus in front of an expression always fails. */
  function Eval(lib: Lib, e: Expr, row: Row, scope: Scope): Result
    requires |row| == |scope|
  {
    match e
    case Literal(kind, text) => EvalConst(lib, kind, text)
    case Column(table, name) => (match Resolve(scope, table, name) case Some(i) => Ok(row[i]) case None => Failed)
    case Star(_) => Failed
    case Unary(op, operand) =>
      (match Eval(lib, operand, row, scope)
       case Ok(v) => if op == Not then Ok(Not3(v)) else Failed
       case Failed => Failed)
    case Binary(left, op, right) =>
      match (Eval(lib, left, row, scope), Eval(lib, right, row, scope))
      case (Ok(l), Ok(r)) => Ok(Apply(lib, op, l, r))
      case _ => Failed
  }

  /** The row passes the filter. */
  predicate Passes(lib: Lib, e: Expr, row: Row, scope: Scope)
    requires |row| == |scope|
  {
    var r := Eval(lib, e, row, scope);
    r.Ok? && Truth(r.v) == 1
  }

  predicate Evaluates(lib: Lib, e: Expr, row: Row, scope: Scope)
    requires |row| == |scope|
  {
    Eval(lib, e, row, scope).Ok?
  }

  /** What an expression of two parts means, the values of its parts given. */
  lemma OperatorsMean(lib: Lib, l: Expr, r: Expr, row: Row, scope: Scope, a: Value, b: Value)
    requires |row| == |scope| && Eval(lib, l, row, scope) == Ok(a) && Eval(lib, r, row, scope) == Ok(b)
    ensures Passes(lib, Binary(l, And, r), row, scope) <==> Passes(lib, l, row, scope) && Passes(lib, r, row, scope)
    ensures Passes(lib, Binary(l, Or, r), row, scope) <==> Passes(lib, l, row, scope) || Passes(lib, r, row, scope)
    ensures Passes(lib, Unary(Not, l), row, scope) <==> a != Null && !Passes(lib, l, row, scope)
    ensures Passes(lib, Binary(l, Eq, r), row, scope) <==> a != Null && b != Null && Compare(a, b) == 0
    ensures Passes(lib, Binary(l, Neq, r), row, scope) <==> a != Null && b != Null && Compare(a, b) != 0
    ensures Passes(lib, Binary(l, Lt, r), row, scope) <==> a != Null && b != Null && Compare(a, b) == -1
    ensures Passes(lib, Binary(l, Gt, r), row, scope) <==> a != Null && b != Null && Compare(a, b) == 1
    ensures Passes(lib, Binary(l, Lte, r), row, scope) <==> a != Null && b != Null && Compare(a, b) != 1
    ensures Passes(lib, Binary(l, Gte, r), row, scope) <==> a != Null && b != Null && Compare(a, b) != -1
    ensures forall op :: op in {Plus, Sub, Mul, Div, Mod, Concat} ==> Eval(lib, Binary(l, op, r), row, scope) == Ok(lib.compute(op, a, b))
  {
    AppliedMeans(lib, a, b);
    assert Passes(lib, Unary(Not, l), row, scope) <==> Truth(Not3(a)) == 1;
    hide Eval, Passes, Apply, Not3, Truth, Compare;
    AtomPasses(lib, l, row, scope, a);
    AtomPasses(lib, r, row, scope, b);
    forall op ensures Eval(lib, Binary(l, op, r), row, scope) == Ok(Apply(lib, op, a, b))
      ensures Passes(lib, Binary(l, op, r), row, scope) <==> Truth(Apply(lib, op, a, b)) == 1
    {
      BinaryPasses(lib, l, op, r, row, scope, a, b);
    }
  }

  lemma AtomPasses(lib: Lib, e: Expr, row: Row, scope: Scope, v: Value)
    requires |row| == |scope| && Eval(lib, e, row, scope) == Ok(v)
    ensures Passes(lib, e, row, scope) <==> Truth(v) == 1
  {
    hide Eval;
  }

  lemma BinaryPasses(lib: Lib, l: Expr, op: BinaryOp, r: Expr, row: Row, scope: Scope, a: Value, b: Value)
    requires |row| == |scope| && Eval(lib, l, row, scope) == Ok(a) && Eval(lib, r, row, scope) == Ok(b)
    ensures Eval(lib, Binary(l, op, r), row, scope) == Ok(Apply(lib, op, a, b))
    ensures Passes(lib, Binary(l, op, r), row, scope) <==> Truth(Apply(lib, op, a, b)) == 1
  {
    hide Apply, Truth;
  }

  lemma AppliedMeans(lib: Lib, a: Value, b: Value)
    ensures Truth(Apply(lib, And, a, b)) == 1 <==> Truth(a) == 1 && Truth(b) == 1
    ensures Truth(Apply(lib, Or, a, b)) == 1 <==> Truth(a) == 1 || Truth(b) == 1
    ensures Truth(Not3(a)) == 1 <==> a != Null && Truth(a) != 1
    ensures Truth(Apply(lib, Eq, a, b)) == 1 <==> a != Null && b != Null && Compare(a, b) == 0
    ensures Truth(Apply(lib, Neq, a, b)) == 1 <==> a != Null && b != Null && Compare(a, b) != 0
    ensures Truth(Apply(lib, Lt, a, b)) == 1 <==> a != Null && b != Null && Compare(a, b) == -1
    ensures Truth(Apply(lib, Gt, a, b)) == 1 <==> a != Null && b != Null && Compare(a, b) == 1
    ensures Truth(Apply(lib, Lte, a, b)) == 1 <==> a != Null && b != Null && Compare(a, b) != 1
    ensures Truth(Apply(lib, Gte, a, b)) == 1 <==> a != Null && b != Null && Compare(a, b) != -1
    ensures forall op :: op in {Plus, Sub, Mul, Div, Mod, Concat} ==> Apply(lib, op, a, b) == lib.compute(op, a, b)
  {
    CompareFlips(a, b);
    hide Compare, Apply, Not3, And3, Or3, Truth, EvalCompare;
    LogicApplied(lib, a, b);
    forall op ensures op in {Eq, Neq, Lt, Gt, Lte, Gte} ==> (Truth(Apply(lib, op, a, b)) == 1 <==> a != Null && b != Null && Holds(op, Compare(a, b))) {
      ComparisonApplied(lib, op, a, b);
    }
  }

  lemma LogicApplied(lib: Lib, a: Value, b: Value)
    ensures Truth(Apply(lib, And, a, b)) == 1 <==> Truth(a) == 1 && Truth(b) == 1
    ensures Truth(Apply(lib, Or, a, b)) == 1 <==> Truth(a) == 1 || Truth(b) == 1
    ensures Truth(Not3(a)) == 1 <==> a != Null && Truth(a) != 1
    ensures forall op :: op in {Plus, Sub, Mul, Div, Mod, Concat} ==> Apply(lib, op, a, b) == lib.compute(op, a, b)
  {
    hide EvalCompare;
  }

  lemma ComparisonApplied(lib: Lib, op: BinaryOp, a: Value, b: Value)
    ensures op in {Eq, Neq, Lt, Gt, Lte, Gte} ==> (Truth(Apply(lib, op, a, b)) == 1 <==> a != Null && b != Null && Holds(op, Compare(a, b)))
  {
    hide Compare, Holds;
  }

  // ---- what fails ----

  /** The literals, references and stars of an expression. */
  function Atoms(e: Expr): seq<Expr> {
    match e
    case Unary(_, operand) => Atoms(operand)
    case Binary(left, _, right) => Atoms(left) + Atoms(right)
    case _ => [e]
  }

  /** A literal that its kind can read, or a reference to a column. */
  predicate AtomReads(lib: Lib, e: Expr, scope: Scope) {
    match e
    case Literal(IntLiteral, text) => lib.parseInt(text).Some?
    case Literal(FloatLiteral, text) => lib.parseFloat(text).Some?
    case Literal(_, _) => true
    case Column(table, name) => Resolve(scope, table, name).Some?
    case _ => false
  }

  /**
  Whether an expression has a value does not depend on the row: it has one exactly if there is no minus in front of any part, all its literals can be
  read and all its references name a column. Nothing is spared by AND and OR.
  */
  lemma {:induction false} EvaluatesIff(lib: Lib, e: Expr, row: Row, scope: Scope)
    requires |row| == |scope|
    ensures Evaluates(lib, e, row, scope) <==> !HasMinus(e) && forall x :: x in Atoms(e) ==> AtomReads(lib, x, scope)
  {
    match e
    case Unary(_, operand) => EvaluatesIff(lib, operand, row, scope);
    case Binary(left, _, right) =>
      EvaluatesIff(lib, left, row, scope);
      EvaluatesIff(lib, right, row, scope);
    case _ =>
      AtomEvaluates(lib, e, row, scope);
      hide Atoms, AtomReads, Eval, HasMinus;
      assert forall x :: x in Atoms(e) <==> x == e;
  }

  lemma AtomEvaluates(lib: Lib, e: Expr, row: Row, scope: Scope)
    requires |row| == |scope| && !e.Unary? && !e.Binary?
    ensures Atoms(e) == [e] && !HasMinus(e) && (Evaluates(lib, e, row, scope) <==> AtomReads(lib, e, scope))
  {
  }

  /** What an atom is worth. */
  lemma AtomsMean(lib: Lib, text: Text, row: Row, scope: Scope, table: Text, i: nat)
    requires |row| == |scope|
    ensures Eval(lib, Literal(NullLiteral, text), row, scope) == Ok(Null)
    ensures Eval(lib, Literal(StringLiteral, text), row, scope) == Ok(Value.Text(text))
    ensures forall n :: lib.parseInt(text) == Some(n) ==> Eval(lib, Literal(IntLiteral, text), row, scope) == Ok(Integer(n))
    ensures forall bits :: lib.parseFloat(text) == Some(bits) ==> Eval(lib, Literal(FloatLiteral, text), row, scope) == Ok(Real(bits))
    ensures i < |scope| && (forall j :: 0 <= j < |scope| ==>
        (j == i <==> SameName(scope[j].name, text) && (table == [] || SameName(scope[j].table, table)))) ==>
      Eval(lib, Column(table, text), row, scope) == Ok(row[i])
  {
    if i < |scope| { ResolveMeans(scope, table, text, i); }
  }

  /**
  IS asks whether its left side is anything but true, whatever stands on the right. Taken for IS NULL that is the right answer exactly if the left
  side is NULL or true.
  */
  lemma IsAsksForTruth(lib: Lib, left: Expr, right: Expr, row: Row, scope: Scope)
    requires |row| == |scope| && Evaluates(lib, left, row, scope) && Evaluates(lib, right, row, scope)
    ensures Passes(lib, Binary(left, Is, right), row, scope) <==> !Passes(lib, left, row, scope)
    ensures var v := Eval(lib, left, row, scope).v;
      (Passes(lib, Binary(left, Is, right), row, scope) <==> v == Null) <==> v == Null || Truth(v) == 1
  {
    assert Eval(lib, Binary(left, Is, right), row, scope) ==
      Ok(Apply(lib, Is, Eval(lib, left, row, scope).v, Eval(lib, right, row, scope).v));
  }

  /** A minus in front of an expression, anywhere. */
  predicate HasMinus(e: Expr) {
    match e
    case Unary(op, operand) => op == Minus || HasMinus(operand)
    case Binary(left, _, right) => HasMinus(left) || HasMinus(right)
    case _ => false
  }

  /** An expression with a minus in front of a part of it has no value on any row. */
  lemma {:induction false} MinusFails(lib: Lib, e: Expr, row: Row, scope: Scope)
    requires |row| == |scope| && HasMinus(e)
    ensures !Evaluates(lib, e, row, scope)
  {
    match e
    case Unary(op, operand) => if HasMinus(operand) { MinusFails(lib, operand, row, scope); }
    case Binary(left, _, right) => if HasMinus(left) { MinusFails(lib, left, row, scope); } else { MinusFails(lib, right, row, scope); }
  }
}
