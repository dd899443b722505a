/** The expression parser as it moves along its tokens. */
module Parsers {
  import opened Bytes
  import opened Ast
  import opened Grammar

  class Parser {
    const toks: seq<Token>
    var pos: nat

    ghost predicate Valid()
      reads this
    {
      Ended(toks) && pos < |toks|
    }

    /** The tokens not yet taken. */
    ghost function Rest(): (r: seq<Token>)
      requires Valid()
      reads this
      ensures Ended(r)
    {
      toks[pos..]
    }

    constructor (toks: seq<Token>)
      requires Ended(toks)
      ensures this.toks == toks && Valid() && Rest() == toks
    {
      this.toks, pos := toks, 0;
    }

    // ---- cursor ----

    /** The source has a guard for a position past the end, which no parser ever comes to. */
    method Peek() returns (t: Token)
      requires Valid()
      ensures t == Rest()[0]
    {
      t := toks[pos];
    }

    /** Takes a token; the last one is never passed. */
    method Advance() returns (t: Token)
      requires Valid()
      modifies this
      ensures Valid() && t == old(Rest())[0]
      ensures Rest() == if |old(Rest())| == 1 then old(Rest()) else old(Rest())[1..]
      ensures t != End ==> Rest() == After(old(Rest())) && pos == old(pos) + 1
    {
      t := Peek();
      if pos < |toks| - 1 { pos := pos + 1; }
    }

    method Accept(t: Token) returns (ok: bool)
      requires Valid() && t != End
      modifies this
      ensures Valid() && ok == (old(Rest())[0] == t)
      ensures Rest() == (if ok then After(old(Rest())) else old(Rest())) && pos >= old(pos)
    {
      var next := Peek();
      ok := next == t;
      if ok { var _ := Advance(); }
    }

    /** NULL, with whatever text it was written. */
    method AcceptNull() returns (ok: bool)
      requires Valid()
      modifies this
      ensures Valid() && ok == IsNull(old(Rest())[0])
      ensures Rest() == (if ok then After(old(Rest())) else old(Rest())) && pos >= old(pos)
    {
      var next := Peek();
      ok := IsNull(next);
      if ok { var _ := Advance(); }
    }

    // ---- expressions ----

    /** The method and the grammar agree on what was read and on what is left. */
    ghost predicate Agrees(e: Option<Expr>, r: Parsed)
      reads this
    {
      Valid() && match r case Error => e.None? case Parsed(x, rest) => e == Some(x) && Rest() == rest
    }

    method ParseExpr(minBP: nat) returns (e: Option<Expr>)
      requires Valid()
      modifies this
      ensures Agrees(e, Grammar.ParseExpr(old(Rest()), minBP)) && pos >= old(pos)
      ensures e.Some? ==> pos > old(pos)
      decreases |toks| - pos, 2
    {
      ghost var result := Grammar.ParseExpr(old(Rest()), minBP);
      e := ParsePrefix();
      var more := e.Some?;
      while more
        invariant Valid() && pos >= old(pos) && (e.Some? ==> pos > old(pos)) && (more ==> e.Some?)
        invariant if more then result == ParseInfix(e.value, Rest(), minBP) else Agrees(e, result)
        decreases |toks| - pos, more
      {
        var tok := Peek();
        if InfixBP(tok) <= minBP {
          more := false;
        } else {
          e := ParseOperand(e.value, tok, minBP);
          more := e.Some?;
        }
      }
    }

    /** Takes an infix operator and what belongs behind it. */
    method ParseOperand(left: Expr, tok: Token, ghost minBP: nat) returns (e: Option<Expr>)
      requires Valid() && tok == Rest()[0] && InfixBP(tok) > minBP
      modifies this
      ensures Valid() && pos >= old(pos)
      ensures e.Some? ==> pos > old(pos)
      ensures ParseInfix(left, old(Rest()), minBP) == if e.Some? then ParseInfix(e.value, Rest(), minBP) else Error
      decreases |toks| - pos, 1
    {
      var _ := Advance();
      var negated, isNull := false, false;
      if tok == Op(Is) {
        negated := Accept(NotKey);
        isNull := AcceptNull();
      }
      if isNull {
        var test := Binary(left, Is, NullExpr());
        e := Some(if negated then Unary(Not, test) else test);
      } else {
        e := ParseExpr(InfixBP(tok));
        if e.Some? { e := Some(Binary(left, tok.op, e.value)); }
      }
    }

    method ParsePrefix() returns (e: Option<Expr>)
      requires Valid()
      modifies this
      ensures Agrees(e, Grammar.ParsePrefix(old(Rest()))) && pos >= old(pos)
      ensures e.Some? ==> pos > old(pos)
      decreases |toks| - pos, 1
    {
      hide Grammar.ParseInfix, Grammar.ParseExpr, Grammar.ParseName, InfixBP, Closed, Prefixed, PrefixBP, Ended;
      var tok := Peek();
      match tok {
        case Ident(name) =>
          var _ := Advance();
          e := ParseName(name);
        case Lit(kind, text) =>
          var _ := Advance();
          e := Some(Literal(kind, text));
        case LParen =>
          var _ := Advance();
          e := ParseClosed();
        case Op(Sub) =>
          var _ := Advance();
          e := ParseUnary(Minus);
        case NotKey =>
          var _ := Advance();
          e := ParseUnary(Not);
        case _ => e := None;
      }
    }

    /** Behind an opening parenthesis. */
    method ParseClosed() returns (e: Option<Expr>)
      requires Valid()
      modifies this
      ensures Agrees(e, Closed(Grammar.ParseExpr(old(Rest()), 0))) && pos >= old(pos)
      decreases |toks| - pos, 3
    {
      e := ParseExpr(0);
      if e.Some? {
        var closed := Accept(RParen);
        if !closed { e := None; }
      }
    }

    /** Behind a prefix operator. */
    method ParseUnary(op: UnaryOp) returns (e: Option<Expr>)
      requires Valid()
      modifies this
      ensures Agrees(e, Prefixed(op, Grammar.ParseExpr(old(Rest()), PrefixBP(op)))) && pos >= old(pos)
      decreases |toks| - pos, 3
    {
      e := ParseExpr(PrefixBP(op));
      if e.Some? { e := Some(Unary(op, e.value)); }
    }

    method ParseName(name: Text) returns (e: Option<Expr>)
      requires Valid()
      modifies this
      ensures Agrees(e, Grammar.ParseName(name, old(Rest()))) && pos >= old(pos)
      decreases |toks| - pos, 0
    {
      var dotted := Accept(Dot);
      if !dotted { return Some(Column([], name)); }
      var starred := Accept(Op(Mul));
      if starred { return Some(Star(name)); }
      var member := Peek();
      if !member.Ident? { return None; }
      var _ := Advance();
      e := Some(Column(name, member.text));
    }
  }
}
