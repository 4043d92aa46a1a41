// Model of db/internal/dbsp/expr/parser.go. The class Parser advances a position over
// the tokens as the source does; the functions say what each method must return.
module Parsing {
  import opened Outcomes
  import opened Values
  import opened Syntax
  import Lexing

  function KindAt(ts: seq<Token>, p: nat): TokenKind
  {
    if p < |ts| then ts[p].kind else EndOfInput
  }

  // An expression and the position after it.
  type Parsed = Option<(Expr, nat)>

  function ParseSum(ts: seq<Token>, p: nat): (r: Parsed)
    requires p <= |ts|
    ensures r.Some? ==> p < r.value.1 <= |ts|
    decreases |ts| - p, 4
  {
    match ParseProduct(ts, p)
    case None => None
    case Some(first) => SumTail(ts, first.1, first.0)
  }

  function SumTail(ts: seq<Token>, p: nat, left: Expr): (r: Parsed)
    requires p <= |ts|
    ensures r.Some? ==> p <= r.value.1 <= |ts|
    decreases |ts| - p, 4
  {
    if !Additive(KindAt(ts, p)) then Some((left, p))
    else
      match ParseProduct(ts, p + 1)
      case None => None
      case Some(right) => SumTail(ts, right.1, BinaryOp(ts[p].kind, left, right.0))
  }

  function ParseProduct(ts: seq<Token>, p: nat): (r: Parsed)
    requires p <= |ts|
    ensures r.Some? ==> p < r.value.1 <= |ts|
    decreases |ts| - p, 3
  {
    match ParseUnary(ts, p)
    case None => None
    case Some(first) => ProductTail(ts, first.1, first.0)
  }

  function ProductTail(ts: seq<Token>, p: nat, left: Expr): (r: Parsed)
    requires p <= |ts|
    ensures r.Some? ==> p <= r.value.1 <= |ts|
    decreases |ts| - p, 3
  {
    if !Multiplicative(KindAt(ts, p)) then Some((left, p))
    else
      match ParseUnary(ts, p + 1)
      case None => None
      case Some(right) => ProductTail(ts, right.1, BinaryOp(ts[p].kind, left, right.0))
  }

  function Negated(e: Expr): Expr { BinaryOp(Minus, IntLit(0), e) }

  function ParseUnary(ts: seq<Token>, p: nat): (r: Parsed)
    requires p <= |ts|
    ensures r.Some? ==> p < r.value.1 <= |ts|
    decreases |ts| - p, 2
  {
    if KindAt(ts, p).Minus? then
      match ParsePrimary(ts, p + 1)
      case None => None
      case Some(operand) => Some((Negated(operand.0), operand.1))
    else ParsePrimary(ts, p)
  }

  function ParsePrimary(ts: seq<Token>, p: nat): (r: Parsed)
    requires p <= |ts|
    ensures r.Some? ==> p < r.value.1 <= |ts|
    decreases |ts| - p, 1
  {
    match KindAt(ts, p)
    case IntToken =>
      (match ParseInt(ts[p].text) case None => None case Some(n) => Some((IntLit(n), p + 1)))
    case StringToken => Some((StrLit(ts[p].text), p + 1))
    case ColRefToken => Some((ColRef(ts[p].text), p + 1))
    case VarRefToken => Some((VarRef(ts[p].text), p + 1))
    case IdentToken =>
      if KindAt(ts, p + 1).LParen? then ParseCall(ts, p) else Some((StrLit(ts[p].text), p + 1))
    case LParen =>
      (match ParseSum(ts, p + 1)
       case None => None
       case Some(inner) => if KindAt(ts, inner.1).RParen? then Some((inner.0, inner.1 + 1)) else None)
    case _ => None
  }

  function ParseCall(ts: seq<Token>, p: nat): (r: Parsed)
    requires p + 1 < |ts|
    ensures r.Some? ==> p < r.value.1 <= |ts|
    decreases |ts| - p, 0
  {
    if KindAt(ts, p + 2).RParen? then Some((FuncCall(ts[p].text, []), p + 3))
    else
      match ParseSum(ts, p + 2)
      case None => None
      case Some(arg) =>
        match ArgumentsTail(ts, arg.1, [arg.0])
        case None => None
        case Some(args) =>
          if KindAt(ts, args.1).RParen? then Some((FuncCall(ts[p].text, args.0), args.1 + 1)) else None
  }

  function ArgumentsTail(ts: seq<Token>, p: nat, args: seq<Expr>): (r: Option<(seq<Expr>, nat)>)
    requires p <= |ts|
    ensures r.Some? ==> p <= r.value.1 <= |ts|
    decreases |ts| - p, 5
  {
    if !KindAt(ts, p).Comma? then Some((args, p))
    else
      match ParseSum(ts, p + 1)
      case None => None
      case Some(arg) => ArgumentsTail(ts, arg.1, args + [arg.0])
  }

  // ParseExpressionString: the whole input must be one expression.
  function ParseTokens(ts: seq<Token>): Option<Expr>
  {
    match ParseSum(ts, 0)
    case None => None
    case Some(r) => if KindAt(ts, r.1).EndOfInput? then Some(r.0) else None
  }

  function ParseText(s: string): Option<Expr>
  {
    match Lexing.Tokens(s, 0) case None => None case Some(ts) => ParseTokens(ts)
  }

  // ---- the parser itself ----

  class Parser {
    const tokens: seq<Token>
    var pos: nat

    ghost predicate Valid() reads this { pos <= |tokens| }

    // The outcome r is what the specification gives at position from, and on success
    // the parser stands after it.
    ghost predicate Matches(r: Option<Expr>, spec: Parsed)
      reads this
    {
      if spec.Some? then r == Some(spec.value.0) && pos == spec.value.1 else r.None?
    }

    constructor (ts: seq<Token>)
      ensures Valid() && tokens == ts && pos == 0
    {
      tokens := ts;
      pos := 0;
    }

    method Peek() returns (t: Token)
      requires Valid()
      ensures t.kind == KindAt(tokens, pos)
      ensures pos < |tokens| ==> t == tokens[pos]
    {
      if pos >= |tokens| { return Lexing.END; }
      return tokens[pos];
    }

    method Advance() returns (t: Token)
      requires pos < |tokens|
      modifies this
      ensures Valid() && pos == old(pos) + 1 && t == tokens[old(pos)]
    {
      t := tokens[pos];
      pos := pos + 1;
    }

    // Beyond the last token there is no end marker left to consume.
    method Expect(kind: TokenKind) returns (t: Token, ok: bool)
      requires Valid() && (kind.EndOfInput? ==> pos < |tokens|)
      modifies this
      ensures Valid() && ok == (KindAt(tokens, old(pos)) == kind)
      ensures t.kind == KindAt(tokens, old(pos)) && (old(pos) < |tokens| ==> t == tokens[old(pos)])
      ensures pos == if ok then old(pos) + 1 else old(pos)
    {
      t := Peek();
      if t.kind != kind { return t, false; }
      t := Advance();
      return t, true;
    }

    method ParseExpression() returns (r: Option<Expr>)
      requires Valid()
      modifies this
      ensures Valid() && Matches(r, ParseSum(tokens, old(pos)))
      decreases |tokens| - pos, 5
    {
      r := ParseAddSub();
    }

    method ParseAddSub() returns (r: Option<Expr>)
      requires Valid()
      modifies this
      ensures Valid() && Matches(r, ParseSum(tokens, old(pos)))
      decreases |tokens| - pos, 4
    {
      var left := ParseMulDivMod();
      if left.None? { return None; }
      r := left;
      var op := Peek();
      while Additive(op.kind)
        invariant Valid() && r.Some? && old(pos) < pos
        invariant op.kind == KindAt(tokens, pos)
        invariant ParseSum(tokens, old(pos)) == SumTail(tokens, pos, r.value)
        decreases |tokens| - pos
      {
        op := Advance();
        var right := ParseMulDivMod();
        if right.None? { return None; }
        r := Some(BinaryOp(op.kind, r.value, right.value));
        op := Peek();
      }
    }

    method ParseMulDivMod() returns (r: Option<Expr>)
      requires Valid()
      modifies this
      ensures Valid() && Matches(r, ParseProduct(tokens, old(pos)))
      decreases |tokens| - pos, 3
    {
      var left := ParseUnaryMinus();
      if left.None? { return None; }
      r := left;
      var op := Peek();
      while Multiplicative(op.kind)
        invariant Valid() && r.Some? && old(pos) < pos
        invariant op.kind == KindAt(tokens, pos)
        invariant ParseProduct(tokens, old(pos)) == ProductTail(tokens, pos, r.value)
        decreases |tokens| - pos
      {
        op := Advance();
        var right := ParseUnaryMinus();
        if right.None? { return None; }
        r := Some(BinaryOp(op.kind, r.value, right.value));
        op := Peek();
      }
    }

    method ParseUnaryMinus() returns (r: Option<Expr>)
      requires Valid()
      modifies this
      ensures Valid() && Matches(r, ParseUnary(tokens, old(pos)))
      decreases |tokens| - pos, 2
    {
      var t := Peek();
      if t.kind.Minus? {
        var _ := Advance();
        var operand := ParseAtom();
        if operand.None? { return None; }
        return Some(Negated(operand.value));
      }
      r := ParseAtom();
    }

    method ParseAtom() returns (r: Option<Expr>)
      requires Valid()
      modifies this
      ensures Valid() && Matches(r, ParsePrimary(tokens, old(pos)))
      decreases |tokens| - pos, 1
    {
      var t := Peek();
      match t.kind {
        case IntToken =>
          var _ := Advance();
          var n := ParseInt(t.text);
          if n.None? { return None; }
          return Some(IntLit(n.value));
        case StringToken =>
          var _ := Advance();
          return Some(StrLit(t.text));
        case ColRefToken =>
          var _ := Advance();
          return Some(ColRef(t.text));
        case VarRefToken =>
          var _ := Advance();
          return Some(VarRef(t.text));
        case IdentToken =>
          if pos + 1 < |tokens| && tokens[pos + 1].kind.LParen? {
            r := ParseFuncCall();
            return r;
          }
          var _ := Advance();
          return Some(StrLit(t.text));
        case LParen =>
          var _ := Advance();
          var inner := ParseExpression();
          if inner.None? { return None; }
          var _, ok := Expect(RParen);
          if !ok { return None; }
          return inner;
        case _ =>
          return None;
      }
    }

    method ParseFuncCall() returns (r: Option<Expr>)
      requires pos + 1 < |tokens|
      modifies this
      ensures Valid() && Matches(r, ParseCall(tokens, old(pos)))
      decreases |tokens| - pos, 0
    {
      var name := Advance();
      var _ := Advance();
      var args: seq<Expr> := [];
      var t := Peek();
      if !t.kind.RParen? {
        var first := ParseExpression();
        if first.None? { return None; }
        args := [first.value];
        ghost var afterFirst := pos;
        t := Peek();
        while t.kind.Comma?
          invariant Valid() && old(pos) < pos
          invariant t.kind == KindAt(tokens, pos)
          invariant ArgumentsTail(tokens, afterFirst, [first.value]) == ArgumentsTail(tokens, pos, args)
          decreases |tokens| - pos
        {
          var _ := Advance();
          var arg := ParseExpression();
          if arg.None? { return None; }
          args := args + [arg.value];
          t := Peek();
        }
      }
      var _, ok := Expect(RParen);
      if !ok { return None; }
      return Some(FuncCall(name.text, args));
    }
  }

  method ParseExpressionString(input: string) returns (r: Option<Expr>)
    ensures r == ParseText(input)
  {
    var lexer := new Lexing.Lexer(input);
    var tokens := lexer.Tokenize();
    if tokens.None? { return None; }
    var parser := new Parser(tokens.value);
    r := parser.ParseExpression();
    if r.None? { return None; }
    var t := parser.Peek();
    if !t.kind.EndOfInput? { return None; }
  }
}
