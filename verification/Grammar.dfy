/** The expression grammar as functions on tokens: operator precedence by binding powers. */
module Grammar {
  import opened Ast

  /** Op(Sub) is also the minus sign in front of an expression, Op(Mul) the star of `t.*`. */
  datatype Token = Ident(text: Text) | Lit(kind: LiteralKind, text: Text) | Op(op: BinaryOp) | NotKey | LParen | RParen | Dot | End | Other

  function InfixBP(t: Token): nat {
    match t
    case Op(Or) => 10
    case Op(And) => 20
    case Op(Eq) => 40
    case Op(Neq) => 40
    case Op(Lt) => 40
    case Op(Lte) => 40
    case Op(Gt) => 40
    case Op(Gte) => 40
    case Op(Is) => 40
    case Op(Plus) => 50
    case Op(Sub) => 50
    case Op(Mul) => 60
    case Op(Div) => 60
    case Op(Mod) => 60
    case Op(Concat) => 70
    case _ => 0
  }

  function PrefixBP(op: UnaryOp): nat {
    match op
    case Not => 30
    case Minus => 100
  }

  /** The lexer ends every input with an end token. */
  predicate Ended(ts: seq<Token>) {
    ts != [] && ts[|ts| - 1] == End
  }

  /** The tokens behind the first, which is not the end. */
  function After(ts: seq<Token>): (r: seq<Token>)
    requires Ended(ts) && ts[0] != End
    ensures Ended(r) && |r| == |ts| - 1
  {
    ts[1..]
  }

  datatype Parsed = Parsed(e: Expr, rest: seq<Token>) | Error

  /** What an expression leaves: fewer tokens, still ended. */
  predicate Leaves(r: Parsed, ts: seq<Token>) {
    r.Parsed? ==> Ended(r.rest) && |r.rest| < |ts|
  }

  function NullExpr(): Expr { Literal(NullLiteral, [78, 85, 76, 76]) }

  function ParseExpr(ts: seq<Token>, minBP: nat): (r: Parsed)
    requires Ended(ts)
    ensures Leaves(r, ts)
    decreases |ts|, 2
  {
    match ParsePrefix(ts)
    case Error => Error
    case Parsed(left, rest) => ParseInfix(left, rest, minBP)
  }

  /** Goes on behind a left operand as long as operators bind more tightly than minBP. */
  function ParseInfix(left: Expr, ts: seq<Token>, minBP: nat): (r: Parsed)
    requires Ended(ts)
    ensures r.Parsed? ==> Ended(r.rest) && |r.rest| <= |ts|
    decreases |ts|, 0
  {
    var bp := InfixBP(ts[0]);
    if bp <= minBP then Parsed(left, ts)
    else
      var op, ts1 := ts[0].op, After(ts);
      var negated := op == Is && ts1[0] == NotKey;
      var ts2 := if negated then After(ts1) else ts1;
      if op == Is && IsNull(ts2[0]) then
        var test := Binary(left, Is, NullExpr());
        ParseInfix(if negated then Unary(Not, test) else test, After(ts2), minBP)
      else
        match ParseExpr(ts2, bp)
        case Error => Error
        case Parsed(right, rest) => ParseInfix(Binary(left, op, right), rest, minBP)
  }

  predicate IsNull(t: Token) { t.Lit? && t.kind == NullLiteral }

  function ParsePrefix(ts: seq<Token>): (r: Parsed)
    requires Ended(ts)
    ensures Leaves(r, ts)
    decreases |ts|, 1
  {
    match ts[0]
    case Ident(name) => ParseName(name, After(ts))
    case Lit(kind, text) => Parsed(Literal(kind, text), After(ts))
    case LParen => Closed(ParseExpr(After(ts), 0))
    case Op(Sub) => Prefixed(Minus, ParseExpr(After(ts), PrefixBP(Minus)))
    case NotKey => Prefixed(Not, ParseExpr(After(ts), PrefixBP(Not)))
    case _ => Error
  }

  /** A name, by itself or with a dot and a column or star behind it. */
  function ParseName(name: Text, ts: seq<Token>): (r: Parsed)
    requires Ended(ts)
    ensures r.Parsed? ==> Ended(r.rest) && |r.rest| <= |ts|
  {
    if ts[0] != Dot then Parsed(Column([], name), ts)
    else
      var ts1 := After(ts);
      if ts1[0] == Op(Mul) then Parsed(Star(name), After(ts1))
      else if ts1[0].Ident? then Parsed(Column(name, ts1[0].text), After(ts1))
      else Error
  }

  /** An expression that has to be followed by a closing parenthesis. */
  function Closed(r: Parsed): Parsed
    requires r.Parsed? ==> Ended(r.rest)
  {
    match r
    case Error => Error
    case Parsed(e, rest) => if rest[0] == RParen then Parsed(e, After(rest)) else Error
  }

  function Prefixed(op: UnaryOp, r: Parsed): Parsed {
    match r
    case Error => Error
    case Parsed(e, rest) => Parsed(Unary(op, e), rest)
  }

  // ---- printing ----

  /**
  Whether an expression has to stand in parentheses between an operator of power l to its left and one
  of power r to its right.
  */
  predicate Wrapped(e: Expr, l: nat, r: nat) {
    match e
    case Unary(op, _) => r > PrefixBP(op)
    case Binary(_, op, _) => InfixBP(Op(op)) <= l || r > InfixBP(Op(op))
    case _ => false
  }

  function Show(e: Expr, l: nat, r: nat): seq<Token>
    decreases e, 1
  {
    if Wrapped(e, l, r) then [LParen] + Bare(e, 0, 0) + [RParen] else Bare(e, l, r)
  }

  function Bare(e: Expr, l: nat, r: nat): seq<Token>
    decreases e, 0
  {
    match e
    case Literal(kind, text) => [Lit(kind, text)]
    case Column(table, name) => if table == [] then [Ident(name)] else [Ident(table), Dot, Ident(name)]
    case Star(table) => [Ident(table), Dot, Op(Mul)]
    case Unary(op, x) => [if op == Not then NotKey else Op(Sub)] + Show(x, PrefixBP(op), r)
    case Binary(x, op, y) => Show(x, l, InfixBP(Op(op))) + ([Op(op)] + Show(y, InfixBP(Op(op)), r))
  }

  /** What may follow IS without being taken for a part of it. */
  predicate FollowsIs(ts: seq<Token>) {
    ts != [] && ts[0] != NotKey && !IsNull(ts[0])
  }

  /** Every IS is a test for NULL, or its right side does not begin with NOT or NULL. */
  predicate Readable(e: Expr, l: nat, r: nat)
    decreases e, 1
  {
    if Wrapped(e, l, r) then ReadableBare(e, 0, 0) else ReadableBare(e, l, r)
  }

  predicate ReadableBare(e: Expr, l: nat, r: nat)
    decreases e, 0
  {
    match e
    case Unary(op, x) => Readable(x, PrefixBP(op), r)
    case Binary(x, op, y) =>
      && Readable(x, l, InfixBP(Op(op))) && Readable(y, InfixBP(Op(op)), r)
      && (op == Is ==> y == NullExpr() || FollowsIs(Show(y, InfixBP(Op(op)), r)))
    case _ => true
  }

  // ---- round trip ----

  lemma EndedAppend(a: seq<Token>, ts: seq<Token>)
    requires Ended(ts)
    ensures Ended(a + ts)
  {
  }

  lemma FourParts<T>(a: seq<T>, b: seq<T>, c: seq<T>, d: seq<T>)
    ensures a + b + c + d == a + (b + (c + d))
  {
  }

  lemma FourPartsInner<T>(a: seq<T>, b: seq<T>, c: seq<T>, d: seq<T>)
    ensures a + (b + c) + d == a + (b + (c + d))
  {
  }

  lemma AfterFirst(t: Token, ts: seq<Token>)
    requires Ended(ts) && t != End
    ensures Ended([t] + ts) && After([t] + ts) == ts
  {
    assert ([t] + ts)[1..] == ts;
  }

  lemma ThreeFirst(a: Token, b: Token, c: Token, ts: seq<Token>)
    requires Ended(ts) && a != End && b != End && c != End
    ensures Ended([a, b, c] + ts) && After([a, b, c] + ts) == [b, c] + ts
    ensures Ended([b, c] + ts) && After([b, c] + ts) == [c] + ts
    ensures Ended([c] + ts) && After([c] + ts) == ts
  {
    assert ([a, b, c] + ts)[1..] == [b, c] + ts;
    assert ([b, c] + ts)[1..] == [c] + ts;
    assert ([c] + ts)[1..] == ts;
  }

  /** An operand is read, and the rest goes on behind it. */
  lemma OperandThen(ts: seq<Token>, e: Expr, rest: seq<Token>, l: nat)
    requires Ended(ts) && ParsePrefix(ts) == Parsed(e, rest)
    ensures ParseExpr(ts, l) == ParseInfix(e, rest, l)
  {
  }

  lemma ParenPrefix(ts: seq<Token>)
    requires Ended(ts)
    ensures Ended([LParen] + ts) && ParsePrefix([LParen] + ts) == Closed(ParseExpr(ts, 0))
  {
    AfterFirst(LParen, ts);
  }

  lemma UnaryPrefix(op: UnaryOp, ts: seq<Token>)
    requires Ended(ts)
    ensures var all := [if op == Not then NotKey else Op(Sub)] + ts;
      Ended(all) && ParsePrefix(all) == Prefixed(op, ParseExpr(ts, PrefixBP(op)))
  {
    AfterFirst(if op == Not then NotKey else Op(Sub), ts);
  }

  /** An expression in parentheses reads as one operand. */
  lemma WrappedReads(e: Expr, bare: seq<Token>, l: nat, ts: seq<Token>)
    requires Ended(ts) && Ended(bare + ([RParen] + ts))
    requires ParseExpr(bare + ([RParen] + ts), 0) == Parsed(e, [RParen] + ts)
    ensures Ended([LParen] + bare + [RParen] + ts)
    ensures ParseExpr([LParen] + bare + [RParen] + ts, l) == ParseInfix(e, ts, l)
  {
    var inner := bare + ([RParen] + ts);
    AfterFirst(RParen, ts);
    ParenPrefix(inner);
    OperandThen([LParen] + inner, e, ts, l);
    FourParts([LParen], bare, [RParen], ts);
  }

  /** Printed between operators of power l and r, an expression reads as one operand of what surrounds it. */
  lemma {:induction false} ShowReads(e: Expr, l: nat, r: nat, ts: seq<Token>)
    requires Readable(e, l, r) && Ended(ts) && InfixBP(ts[0]) <= r && ts[0] != Dot
    ensures Ended(Show(e, l, r) + ts)
    ensures ParseExpr(Show(e, l, r) + ts, l) == ParseInfix(e, ts, l)
    decreases e, 1
  {
    EndedAppend(Show(e, l, r), ts);
    if Wrapped(e, l, r) {
      BareReads(e, 0, 0, [RParen] + ts);
      WrappedReads(e, Bare(e, 0, 0), l, ts);
    } else {
      BareReads(e, l, r, ts);
    }
  }

  lemma {:induction false} BareReads(e: Expr, l: nat, r: nat, ts: seq<Token>)
    requires ReadableBare(e, l, r) && !Wrapped(e, l, r) && Ended(ts) && InfixBP(ts[0]) <= r && ts[0] != Dot
    ensures Ended(Bare(e, l, r) + ts)
    ensures ParseExpr(Bare(e, l, r) + ts, l) == ParseInfix(e, ts, l)
    decreases e, 0
  {
    EndedAppend(Bare(e, l, r), ts);
    match e
    case Literal(kind, text) =>
      AfterFirst(Lit(kind, text), ts);
      OperandThen([Lit(kind, text)] + ts, e, ts, l);
    case Column(table, name) => ColumnReads(table, name, ts, l);
    case Star(table) => StarReads(table, ts, l);
    case Unary(op, x) =>
      ShowReads(x, PrefixBP(op), r, ts);
      UnaryReads(op, x, Show(x, PrefixBP(op), r), l, ts);
    case Binary(x, op, y) => BinaryBare(x, op, y, l, r, ts);
  }

  lemma {:induction false} BinaryBare(x: Expr, op: BinaryOp, y: Expr, l: nat, r: nat, ts: seq<Token>)
    requires var e := Binary(x, op, y); ReadableBare(e, l, r) && !Wrapped(e, l, r)
    requires Ended(ts) && InfixBP(ts[0]) <= r && ts[0] != Dot
    ensures Ended(Bare(Binary(x, op, y), l, r) + ts)
    ensures ParseExpr(Bare(Binary(x, op, y), l, r) + ts, l) == ParseInfix(Binary(x, op, y), ts, l)
    decreases Binary(x, op, y), 0, 0
  {
    var bp := InfixBP(Op(op));
    var left, right := Show(x, l, bp), Show(y, bp, r);
    ShowReads(y, bp, r, ts);
    AfterFirst(Op(op), right + ts);
    ShowReads(x, l, bp, [Op(op)] + (right + ts));
    BinaryReads(x, op, y, right, l, ts);
    FourPartsInner(left, [Op(op)], right, ts);
  }

  lemma {:induction false} ColumnReads(table: Text, name: Text, ts: seq<Token>, l: nat)
    requires Ended(ts) && ts[0] != Dot
    ensures var shown := Bare(Column(table, name), l, 0) + ts;
      Ended(shown) && ParseExpr(shown, l) == ParseInfix(Column(table, name), ts, l)
  {
    AfterFirst(Ident(name), ts);
    if table == [] {
      OperandThen([Ident(name)] + ts, Column(table, name), ts, l);
    } else {
      QualifiedReads(table, name, ts, l);
    }
  }

  lemma QualifiedReads(table: Text, name: Text, ts: seq<Token>, l: nat)
    requires Ended(ts)
    ensures var shown := [Ident(table), Dot, Ident(name)] + ts;
      Ended(shown) && ParseExpr(shown, l) == ParseInfix(Column(table, name), ts, l)
  {
    ThreeFirst(Ident(table), Dot, Ident(name), ts);
    OperandThen([Ident(table), Dot, Ident(name)] + ts, Column(table, name), ts, l);
  }

  lemma StarReads(table: Text, ts: seq<Token>, l: nat)
    requires Ended(ts)
    ensures var shown := [Ident(table), Dot, Op(Mul)] + ts;
      Ended(shown) && ParseExpr(shown, l) == ParseInfix(Star(table), ts, l)
  {
    ThreeFirst(Ident(table), Dot, Op(Mul), ts);
    OperandThen([Ident(table), Dot, Op(Mul)] + ts, Star(table), ts, l);
  }

  lemma UnaryReads(op: UnaryOp, x: Expr, shown: seq<Token>, l: nat, ts: seq<Token>)
    requires Ended(ts) && InfixBP(ts[0]) <= PrefixBP(op) && Ended(shown + ts)
    requires ParseExpr(shown + ts, PrefixBP(op)) == ParseInfix(x, ts, PrefixBP(op))
    ensures var all := [if op == Not then NotKey else Op(Sub)] + shown + ts;
      Ended(all) && ParseExpr(all, l) == ParseInfix(Unary(op, x), ts, l)
  {
    var t := if op == Not then NotKey else Op(Sub);
    UnaryPrefix(op, shown + ts);
    OperandThen([t] + (shown + ts), Unary(op, x), ts, l);
    assert [t] + shown + ts == [t] + (shown + ts);
  }

  lemma BinaryReads(x: Expr, op: BinaryOp, y: Expr, shown: seq<Token>, l: nat, ts: seq<Token>)
    requires Ended(ts) && InfixBP(ts[0]) <= InfixBP(Op(op)) && InfixBP(Op(op)) > l && Ended(shown + ts)
    requires ParseExpr(shown + ts, InfixBP(Op(op))) == ParseInfix(y, ts, InfixBP(Op(op)))
    requires op == Is ==> (y == NullExpr() && shown == [Lit(NullLiteral, y.text)]) || FollowsIs(shown)
    ensures Ended([Op(op)] + (shown + ts))
    ensures ParseInfix(x, [Op(op)] + (shown + ts), l) == ParseInfix(Binary(x, op, y), ts, l)
  {
    AfterFirst(Op(op), shown + ts);
    if op == Is && !FollowsIs(shown) {
      AfterFirst(Lit(NullLiteral, y.text), ts);
    } else if op == Is {
      assert (shown + ts)[0] == shown[0];
    }
  }

  // ---- what does not come back ----

  /** Words weigh one, parentheses nothing, and neither does an IS with NOT or NULL behind it. */
  function WeightOf(t: Token, rest: seq<Token>): nat {
    if t == LParen || t == RParen || (t == Op(Is) && rest != [] && !FollowsIs(rest)) then 0 else 1
  }

  function Weight(ts: seq<Token>): nat {
    if ts == [] then 0 else WeightOf(ts[0], ts[1..]) + Weight(ts[1..])
  }

  /** What the words of an expression weigh: an IS is weightless exactly in a test for NULL. */
  function Substance(e: Expr): nat {
    match e
    case Literal(_, _) => 1
    case Column(table, _) => if table == [] then 1 else 3
    case Star(_) => 3
    case Unary(_, x) => 1 + Substance(x)
    case Binary(x, op, y) => Substance(x) + (if op == Is && y == NullExpr() then 0 else 1) + Substance(y)
  }

  lemma WeightFirst(t: Token, ts: seq<Token>)
    ensures Weight([t] + ts) == WeightOf(t, ts) + Weight(ts)
  {
    assert ([t] + ts)[1..] == ts;
  }

  lemma WeightAfter(ts: seq<Token>)
    requires Ended(ts) && ts[0] != End
    ensures Weight(ts) == WeightOf(ts[0], After(ts)) + Weight(After(ts))
  {
  }

  /** An expression never has more substance than the tokens it was read from. */
  lemma {:induction false} ReadWeighs(ts: seq<Token>, minBP: nat)
    requires Ended(ts) && ParseExpr(ts, minBP).Parsed?
    ensures var r := ParseExpr(ts, minBP); Weight(ts) >= Substance(r.e) + Weight(r.rest)
    decreases |ts|, 2
  {
    PrefixWeighs(ts);
    InfixWeighs(ParsePrefix(ts).e, ParsePrefix(ts).rest, minBP);
  }

  lemma {:induction false} PrefixWeighs(ts: seq<Token>)
    requires Ended(ts) && ParsePrefix(ts).Parsed?
    ensures var r := ParsePrefix(ts); Weight(ts) >= Substance(r.e) + Weight(r.rest)
    decreases |ts|, 1
  {
    WeightAfter(ts);
    match ts[0]
    case Ident(name) => NameWeighs(name, After(ts));
    case Lit(_, _) =>
    case LParen =>
      ReadWeighs(After(ts), 0);
      WeightAfter(ParseExpr(After(ts), 0).rest);
    case Op(_) => ReadWeighs(After(ts), PrefixBP(Minus));
    case NotKey => ReadWeighs(After(ts), PrefixBP(Not));
  }

  lemma NameWeighs(name: Text, ts: seq<Token>)
    requires Ended(ts) && ParseName(name, ts).Parsed?
    ensures var r := ParseName(name, ts); 1 + Weight(ts) >= Substance(r.e) + Weight(r.rest)
  {
    if ts[0] == Dot {
      WeightAfter(ts);
      WeightAfter(After(ts));
    }
  }

  lemma {:induction false} InfixWeighs(left: Expr, ts: seq<Token>, minBP: nat)
    requires Ended(ts) && ParseInfix(left, ts, minBP).Parsed?
    ensures var r := ParseInfix(left, ts, minBP); Substance(left) + Weight(ts) >= Substance(r.e) + Weight(r.rest)
    decreases |ts|, 0
  {
    if InfixBP(ts[0]) > minBP {
      OperatorWeighs(ts);
      TestWeighs(left);
      var op, ts1 := ts[0].op, After(ts);
      var negated := op == Is && ts1[0] == NotKey;
      var ts2 := if negated then After(ts1) else ts1;
      hide Weight, Substance;
      if op == Is && IsNull(ts2[0]) {
        var test := Binary(left, Is, NullExpr());
        InfixWeighs(if negated then Unary(Not, test) else test, After(ts2), minBP);
      } else {
        OperandWeighs(left, op, ts, ts2, minBP);
      }
    }
  }

  lemma TestWeighs(left: Expr)
    ensures Substance(Binary(left, Is, NullExpr())) == 1 + Substance(left)
    ensures Substance(Unary(Not, Binary(left, Is, NullExpr()))) == 2 + Substance(left)
    ensures forall op, right :: Substance(Binary(left, op, right)) <= Substance(left) + 1 + Substance(right)
  {
  }

  /** An operator with its right operand. */
  lemma {:induction false} OperandWeighs(left: Expr, op: BinaryOp, ts: seq<Token>, ts2: seq<Token>, minBP: nat)
    requires Ended(ts) && Ended(ts2) && |ts2| < |ts| && ParseExpr(ts2, InfixBP(Op(op))).Parsed?
    requires var right := ParseExpr(ts2, InfixBP(Op(op))); ParseInfix(Binary(left, op, right.e), right.rest, minBP).Parsed?
    ensures var right := ParseExpr(ts2, InfixBP(Op(op)));
      var r := ParseInfix(Binary(left, op, right.e), right.rest, minBP);
      Substance(left) + 1 + Weight(ts2) >= Substance(r.e) + Weight(r.rest)
    decreases |ts2|, 3
  {
    hide Weight, ParseInfix, ParseExpr;
    var right := ParseExpr(ts2, InfixBP(Op(op)));
    TestWeighs(left);
    ReadWeighs(ts2, InfixBP(Op(op)));
    InfixWeighs(Binary(left, op, right.e), right.rest, minBP);
  }

  /** The tokens of an operator weigh as much as the operator has substance; those of a test for NULL as much as the test adds. */
  lemma OperatorWeighs(ts: seq<Token>)
    requires Ended(ts) && InfixBP(ts[0]) > 0
    ensures ts[0].Op? && ts[0] != End
    ensures var ts1 := After(ts);
      var negated := ts[0].op == Is && ts1[0] == NotKey;
      var ts2 := if negated then After(ts1) else ts1;
      if ts[0].op == Is && IsNull(ts2[0]) then Weight(ts) == (if negated then 2 else 1) + Weight(After(ts2)) else Weight(ts) == 1 + Weight(ts2)
  {
    WeightAfter(ts);
    var ts1 := After(ts);
    if ts[0].op == Is {
      if ts1[0] == NotKey {
        WeightAfter(ts1);
        if IsNull(After(ts1)[0]) { WeightAfter(After(ts1)); }
      } else if IsNull(ts1[0]) {
        WeightAfter(ts1);
      }
    }
  }

  lemma ShowIsNotEmpty(e: Expr, l: nat, r: nat)
    ensures Show(e, l, r) != []
    decreases e
  {
    match e
    case Unary(op, x) => ShowIsNotEmpty(x, PrefixBP(op), r);
    case Binary(x, op, y) => ShowIsNotEmpty(x, l, InfixBP(Op(op)));
    case _ =>
  }

  /** A print weighs no more than the expression has substance, and less where the expression is not readable. */
  lemma {:induction false} ShowWeighs(e: Expr, l: nat, r: nat, ts: seq<Token>)
    ensures Weight(Show(e, l, r) + ts) <= Substance(e) + Weight(ts)
    ensures !Readable(e, l, r) ==> Weight(Show(e, l, r) + ts) < Substance(e) + Weight(ts)
    decreases e, 1
  {
    if Wrapped(e, l, r) {
      BareWeighs(e, 0, 0, [RParen] + ts);
      WeightFirst(RParen, ts);
      WeightFirst(LParen, Bare(e, 0, 0) + ([RParen] + ts));
      FourParts([LParen], Bare(e, 0, 0), [RParen], ts);
    } else {
      BareWeighs(e, l, r, ts);
    }
  }

  lemma {:induction false} BareWeighs(e: Expr, l: nat, r: nat, ts: seq<Token>)
    ensures Weight(Bare(e, l, r) + ts) <= Substance(e) + Weight(ts)
    ensures !ReadableBare(e, l, r) ==> Weight(Bare(e, l, r) + ts) < Substance(e) + Weight(ts)
    decreases e, 0
  {
    match e
    case Literal(kind, text) => WeightFirst(Lit(kind, text), ts);
    case Column(table, name) => NameIsLight(e, l, r, ts);
    case Star(table) => NameIsLight(e, l, r, ts);
    case Unary(op, x) =>
      var t, shown := if op == Not then NotKey else Op(Sub), Show(x, PrefixBP(op), r);
      ShowWeighs(x, PrefixBP(op), r, ts);
      WeightFirst(t, shown + ts);
      assert [t] + shown + ts == [t] + (shown + ts);
    case Binary(x, op, y) =>
      var bp := InfixBP(Op(op));
      var left, right := Show(x, l, bp), Show(y, bp, r);
      ShowWeighs(y, bp, r, ts);
      ShowWeighs(x, l, bp, [Op(op)] + (right + ts));
      WeightFirst(Op(op), right + ts);
      ShowIsNotEmpty(y, bp, r);
      assert (right + ts)[0] == right[0];
      FourPartsInner(left, [Op(op)], right, ts);
  }

  lemma NameIsLight(e: Expr, l: nat, r: nat, ts: seq<Token>)
    requires e.Column? || e.Star?
    ensures Weight(Bare(e, l, r) + ts) <= Substance(e) + Weight(ts)
  {
    var shown := Bare(e, l, r);
    if |shown| == 1 {
      WeightFirst(shown[0], ts);
    } else {
      assert shown == [shown[0], shown[1], shown[2]] && Substance(e) == 3;
      hide Bare, Weight, Substance;
      ThreeAreLight(shown[0], shown[1], shown[2], ts);
    }
  }

  lemma ThreeAreLight(a: Token, b: Token, c: Token, ts: seq<Token>)
    ensures Weight([a, b, c] + ts) <= 3 + Weight(ts)
  {
    hide Weight;
    WeightFirst(c, ts);
    WeightFirst(b, [c] + ts);
    WeightFirst(a, [b] + ([c] + ts));
    assert [a, b, c] + ts == [a] + ([b] + ([c] + ts));
  }

  /**
  Printing an expression with parentheses only where binding powers call for them and parsing it gives
  the expression back and takes exactly its tokens, whatever comes next but an operator or a dot, if and only if
  no IS in it other than a test for NULL has a NOT or a NULL printed right behind it.
  */
  lemma RoundTrip(e: Expr, ts: seq<Token>)
    requires Ended(ts) && InfixBP(ts[0]) == 0 && ts[0] != Dot
    ensures Ended(Show(e, 0, 0) + ts)
    ensures ParseExpr(Show(e, 0, 0) + ts, 0) == Parsed(e, ts) <==> Readable(e, 0, 0)
  {
    EndedAppend(Show(e, 0, 0), ts);
    if Readable(e, 0, 0) {
      ShowReads(e, 0, 0, ts);
    } else if ParseExpr(Show(e, 0, 0) + ts, 0) == Parsed(e, ts) {
      ReadWeighs(Show(e, 0, 0) + ts, 0);
      ShowWeighs(e, 0, 0, ts);
    }
  }

  /** The parentheses are called for: without them a loosely bound operand is not read whole. */
  lemma {:induction false} ParenthesesAreNeeded(x: Expr, op: BinaryOp, y: Expr, l: nat, r: nat, ts: seq<Token>)
    requires InfixBP(Op(op)) <= l && Readable(x, l, InfixBP(Op(op))) && Ended(ts)
    ensures var bare := Bare(Binary(x, op, y), l, r) + ts;
      Ended(bare) && ParseExpr(bare, l) == Parsed(x, [Op(op)] + Show(y, InfixBP(Op(op)), r) + ts)
  {
    var rest := [Op(op)] + Show(y, InfixBP(Op(op)), r) + ts;
    EndedAppend([Op(op)] + Show(y, InfixBP(Op(op)), r), ts);
    ShowReads(x, l, InfixBP(Op(op)), rest);
    assert rest[0] == Op(op);
    assert Bare(Binary(x, op, y), l, r) + ts == Show(x, l, InfixBP(Op(op))) + rest;
  }

  lemma NameReads(a: Text, ts: seq<Token>, l: nat)
    requires Ended(ts) && ts[0] != Dot
    ensures Ended([Ident(a)] + ts) && ParseExpr([Ident(a)] + ts, l) == ParseInfix(Column([], a), ts, l)
  {
    AfterFirst(Ident(a), ts);
    OperandThen([Ident(a)] + ts, Column([], a), ts, l);
  }

  /**
  Behind a left operand `IS NOT` keeps its NOT exactly when NULL comes next. Otherwise it reads as `IS` with the
  operand behind the NOT, and where no further NOT follows, just as if the NOT were not there.
  */
  lemma IsNotLosesNot(left: Expr, ts: seq<Token>, minBP: nat)
    requires Ended(ts) && minBP < InfixBP(Op(Is))
    ensures Ended([Op(Is), NotKey] + ts) && Ended([Op(Is)] + ts)
    ensures IsNull(ts[0]) ==>
      ParseInfix(left, [Op(Is), NotKey] + ts, minBP) == ParseInfix(Unary(Not, Binary(left, Is, NullExpr())), After(ts), minBP)
    ensures !IsNull(ts[0]) ==>
      ParseInfix(left, [Op(Is), NotKey] + ts, minBP) ==
        match ParseExpr(ts, InfixBP(Op(Is)))
        case Error => Error
        case Parsed(right, rest) => ParseInfix(Binary(left, Is, right), rest, minBP)
    ensures FollowsIs(ts) ==> ParseInfix(left, [Op(Is), NotKey] + ts, minBP) == ParseInfix(left, [Op(Is)] + ts, minBP)
  {
    AfterFirst(NotKey, ts);
    AfterFirst(Op(Is), [NotKey] + ts);
    AfterFirst(Op(Is), ts);
    assert [Op(Is), NotKey] + ts == [Op(Is)] + ([NotKey] + ts);
  }

  /** `a IS NOT b` reads as `a IS b`. */
  lemma IsNotReadsAsIs(a: Text, b: Text)
    ensures var ts := [Ident(a)] + ([Op(Is), NotKey] + ([Ident(b)] + [End]));
      Ended(ts) && ParseExpr(ts, 0) == Parsed(Binary(Column([], a), Is, Column([], b)), [End])
  {
    var left, right := Column([], a), [Ident(b)] + [End];
    NameReads(b, [End], 40);
    IsNotLosesNot(left, right, 0);
    NameReads(a, [Op(Is), NotKey] + right, 0);
    assert ParseInfix(Column([], b), [End], 40) == Parsed(Column([], b), [End]);
  }

  /** Behind IS only NULL itself is read as NULL; any other literal is an operand. */
  lemma IsReadsLiteral(x: Text, kind: LiteralKind, text: Text)
    ensures var plain, negated := ParseExpr([Ident(x), Op(Is), Lit(kind, text), End], 0), ParseExpr([Ident(x), Op(Is), NotKey, Lit(kind, text), End], 0);
      if kind == NullLiteral then
        plain == Parsed(Binary(Column([], x), Is, NullExpr()), [End]) && negated == Parsed(Unary(Not, Binary(Column([], x), Is, NullExpr())), [End])
      else plain == negated == Parsed(Binary(Column([], x), Is, Literal(kind, text)), [End])
  {
    var left := Column([], x);
    var end: seq<Token> := [End];
    var ts := [Lit(kind, text)] + end;
    assert [Ident(x), Op(Is), Lit(kind, text), End] == [Ident(x)] + ([Op(Is)] + ts);
    assert [Ident(x), Op(Is), NotKey, Lit(kind, text), End] == [Ident(x)] + ([Op(Is), NotKey] + ts);
    NameReads(x, [Op(Is)] + ts, 0);
    NameReads(x, [Op(Is), NotKey] + ts, 0);
    IsNotLosesNot(left, ts, 0);
    LiteralReads(kind, text, end, InfixBP(Op(Is)));
    AfterFirst(Op(Is), ts);
    AfterFirst(Lit(kind, text), end);
  }

  lemma LiteralReads(kind: LiteralKind, text: Text, ts: seq<Token>, minBP: nat)
    requires Ended(ts)
    ensures ParseExpr([Lit(kind, text)] + ts, minBP) == ParseInfix(Literal(kind, text), ts, minBP)
  {
    AfterFirst(Lit(kind, text), ts);
  }

  // ---- which operator binds more tightly ----

  /** The operators in classes, from the loosest to the tightest: OR, AND, comparisons, sums, products, concatenation. */
  function Class(op: BinaryOp): nat {
    if op == Or then 0
    else if op == And then 1
    else if op in {Eq, Neq, Lt, Lte, Gt, Gte, Is} then 2
    else if op in {Plus, Sub} then 3
    else if op in {Mul, Div, Mod} then 4
    else 5
  }

  /** A name as an expression. */
  function Name(x: Text): Expr { Column([], x) }

  /** The binding powers order the operators by class, all of them above the start of an expression. */
  lemma PowersAreClasses(p: BinaryOp, q: BinaryOp)
    ensures InfixBP(Op(p)) > 0 && (InfixBP(Op(p)) < InfixBP(Op(q)) <==> Class(p) < Class(q))
  {
  }

  /** An operator and a name behind a left operand, where the operator binds tightly enough. */
  lemma OperandIs(left: Expr, p: BinaryOp, y: Text, ts: seq<Token>, minBP: nat)
    requires Ended(ts) && ts[0] != Dot && InfixBP(Op(p)) > minBP
    ensures ParseInfix(left, [Op(p), Ident(y)] + ts, minBP) ==
      match ParseInfix(Name(y), ts, InfixBP(Op(p)))
      case Error => Error
      case Parsed(right, rest) => ParseInfix(Binary(left, p, right), rest, minBP)
  {
    var all := [Op(p), Ident(y)] + ts;
    assert all[1..] == [Ident(y)] + ts;
    NameReads(y, ts, InfixBP(Op(p)));
  }

  /** An operator stops where the next one binds no more tightly, and at the end. */
  lemma StopsAt(e: Expr, ts: seq<Token>, minBP: nat)
    requires Ended(ts) && InfixBP(ts[0]) <= minBP
    ensures ParseInfix(e, ts, minBP) == Parsed(e, ts)
  {
  }

  /** Between two operators a name belongs to the one that binds more tightly, and to the left one of two that bind alike. */
  lemma TwoOperators(x: Text, p: BinaryOp, y: Text, q: BinaryOp, z: Text)
    ensures ParseExpr([Ident(x), Op(p), Ident(y), Op(q), Ident(z), End], 0) == Parsed(
      if Class(p) < Class(q) then Binary(Name(x), p, Binary(Name(y), q, Name(z))) else Binary(Binary(Name(x), p, Name(y)), q, Name(z)), [End])
  {
    PowersAreClasses(p, q);
    PowersAreClasses(q, p);
    assert InfixBP(End) == 0;
    hide InfixBP, Class, ParseInfix, ParseExpr;
    var end: seq<Token> := [End];
    var tail := [Op(q), Ident(z)] + end;
    assert [Ident(x), Op(p), Ident(y), Op(q), Ident(z), End] == [Ident(x)] + ([Op(p), Ident(y)] + tail);
    NameReads(x, [Op(p), Ident(y)] + tail, 0);
    OperandIs(Name(x), p, y, tail, 0);
    if Class(p) < Class(q) {
      var right := Binary(Name(y), q, Name(z));
      OperandIs(Name(y), q, z, end, InfixBP(Op(p)));
      StopsAt(Name(z), end, InfixBP(Op(q)));
      StopsAt(right, end, InfixBP(Op(p)));
      StopsAt(Binary(Name(x), p, right), end, 0);
    } else {
      var left := Binary(Name(x), p, Name(y));
      StopsAt(Name(y), tail, InfixBP(Op(p)));
      OperandIs(left, q, z, end, 0);
      StopsAt(Name(z), end, InfixBP(Op(q)));
      StopsAt(Binary(left, q, Name(z)), end, 0);
    }
  }

  /** A prefix operator takes an operand of its own power. */
  lemma PrefixReads(op: UnaryOp, ts: seq<Token>, minBP: nat)
    requires Ended(ts)
    ensures var tok := if op == Not then NotKey else Op(Sub);
      ParseExpr([tok] + ts, minBP) ==
        match ParseExpr(ts, PrefixBP(op))
        case Error => Error
        case Parsed(e, rest) => ParseInfix(Unary(op, e), rest, minBP)
  {
    var tok := if op == Not then NotKey else Op(Sub);
    assert ([tok] + ts)[1..] == ts;
  }

  /** NOT takes a comparison with it and everything that binds more tightly, but neither AND nor OR; a minus takes only the name behind it. */
  lemma PrefixThenOperator(x: Text, q: BinaryOp, y: Text)
    ensures ParseExpr([NotKey, Ident(x), Op(q), Ident(y), End], 0) == Parsed(
      if q in {Or, And} then Binary(Unary(Not, Name(x)), q, Name(y)) else Unary(Not, Binary(Name(x), q, Name(y))), [End])
    ensures ParseExpr([Op(Sub), Ident(x), Op(q), Ident(y), End], 0) == Parsed(Binary(Unary(Minus, Name(x)), q, Name(y)), [End])
  {
    assert InfixBP(End) == 0 && 0 < InfixBP(Op(q)) <= PrefixBP(Minus) && (InfixBP(Op(q)) <= PrefixBP(Not) <==> q in {Or, And});
    hide InfixBP, PrefixBP, ParseInfix, ParseExpr;
    var end: seq<Token> := [End];
    var tail := [Op(q), Ident(y)] + end;
    assert [NotKey, Ident(x), Op(q), Ident(y), End] == [NotKey] + ([Ident(x)] + tail);
    assert [Op(Sub), Ident(x), Op(q), Ident(y), End] == [Op(Sub)] + ([Ident(x)] + tail);
    PrefixReads(Not, [Ident(x)] + tail, 0);
    PrefixReads(Minus, [Ident(x)] + tail, 0);
    NameReads(x, tail, PrefixBP(Not));
    NameReads(x, tail, PrefixBP(Minus));
    StopsAt(Name(y), end, InfixBP(Op(q)));
    StopsAt(Name(x), tail, PrefixBP(Minus));
    OperandIs(Unary(Minus, Name(x)), q, y, end, 0);
    StopsAt(Binary(Unary(Minus, Name(x)), q, Name(y)), end, 0);
    if q in {Or, And} {
      StopsAt(Name(x), tail, PrefixBP(Not));
      OperandIs(Unary(Not, Name(x)), q, y, end, 0);
      StopsAt(Binary(Unary(Not, Name(x)), q, Name(y)), end, 0);
    } else {
      OperandIs(Name(x), q, y, end, PrefixBP(Not));
      StopsAt(Binary(Name(x), q, Name(y)), end, PrefixBP(Not));
      StopsAt(Unary(Not, Binary(Name(x), q, Name(y))), end, 0);
    }
  }
}
