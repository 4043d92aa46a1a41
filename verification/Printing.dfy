// A printer for expressions that uses as few parentheses as possible, and the proof
// that db/internal/dbsp/expr/lexer.go and parser.go read its output back.
module Printing {
  import opened Outcomes
  import opened Values
  import opened Syntax
  import opened Lexing
  import opened Parsing
  import opened Grammar

  // The expressions that can be written down at all: literals are non-negative, names
  // and strings have a spelling.
  predicate Representable(e: Expr)
  {
    match e
    case IntLit(v) => v >= 0
    case StrLit(s) => Quotable(s)
    case ColRef(n) => BraceFree(n)
    case VarRef(n) => BraceFree(n)
    case BinaryOp(op, l, r) => op in {Plus, Minus, Star, Slash, Percent} && Representable(l) && Representable(r)
    case FuncCall(f, args) => Identifier(f) && forall k :: 0 <= k < |args| ==> Representable(args[k])
  }

  predicate IsSum(e: Expr) { e.BinaryOp? && Additive(e.op) }

  predicate IsProduct(e: Expr) { e.BinaryOp? && Multiplicative(e.op) }

  predicate IsNegated(e: Expr) { e.BinaryOp? && e.op == Minus && e.left == IntLit(0) }

  // ---- the printer ----

  function PrintSum(e: Expr): (s: Sum)
    requires Representable(e)
    ensures SumOk(s) && SumExpr(s) == e
    decreases e, if e.BinaryOp? then 9 else 3
  {
    if IsSum(e) then AddSub(PrintSum(e.left), e.op, PrintProduct(e.right)) else OnlyProduct(PrintProduct(e))
  }

  function PrintProduct(e: Expr): (s: Product)
    requires Representable(e)
    ensures ProductOk(s) && ProductExpr(s) == e
    decreases e, if IsSum(e) then 12 else if e.BinaryOp? then 8 else 2
  {
    if IsProduct(e) then MulDivMod(PrintProduct(e.left), e.op, PrintUnary(e.right)) else OnlyUnary(PrintUnary(e))
  }

  function PrintUnary(e: Expr): (u: Unary)
    requires Representable(e)
    ensures AtomOk(u.atom) && UnaryExpr(u) == e
    decreases e, if e.BinaryOp? then 11 else 1
  {
    if IsNegated(e) then Minused(PrintAtom(e.right)) else Plain(PrintAtom(e))
  }

  function PrintAtom(e: Expr): (a: Atom)
    requires Representable(e)
    ensures AtomOk(a) && AtomExpr(a) == e
    decreases e, if e.BinaryOp? then 10 else 0
  {
    match e
    case IntLit(v) => ParseFormat(v); Leaf(Token(IntToken, Digits(v)))
    case StrLit(s) => Leaf(Token(StringToken, s))
    case ColRef(n) => Leaf(Token(ColRefToken, n))
    case VarRef(n) => Leaf(Token(VarRefToken, n))
    case FuncCall(f, args) => Call(f, PrintArguments(args))
    case BinaryOp(_, _, _) => Parens(PrintSum(e))
  }

  function PrintArguments(args: seq<Expr>): (a: Arguments)
    requires forall k :: 0 <= k < |args| ==> Representable(args[k])
    ensures ArgumentsOk(a) && ArgumentExprs(a) == args
    ensures a.NoArguments? <==> args == []
    decreases args, 0
  {
    if args == [] then NoArguments
    else if |args| == 1 then First(PrintSum(args[0]))
    else
      var n := |args| - 1;
      assert args == args[..n] + [args[n]];
      More(PrintArguments(args[..n]), PrintSum(args[n]))
  }

  // ---- every token it prints has a spelling ----

  lemma {:induction false} SumLexemes(e: Expr)
    requires Representable(e)
    ensures Lexemes(SumTokens(PrintSum(e)))
    decreases e, if e.BinaryOp? then 9 else 3
  {
    if IsSum(e) {
      SumLexemes(e.left);
      ProductLexemes(e.right);
    } else {
      ProductLexemes(e);
    }
  }

  lemma {:induction false} ProductLexemes(e: Expr)
    requires Representable(e)
    ensures Lexemes(ProductTokens(PrintProduct(e)))
    decreases e, if IsSum(e) then 12 else if e.BinaryOp? then 8 else 2
  {
    if IsProduct(e) {
      ProductLexemes(e.left);
      UnaryLexemes(e.right);
    } else {
      UnaryLexemes(e);
    }
  }

  lemma {:induction false} UnaryLexemes(e: Expr)
    requires Representable(e)
    ensures Lexemes(UnaryTokens(PrintUnary(e)))
    decreases e, if e.BinaryOp? then 11 else 1
  {
    AtomLexemes(if IsNegated(e) then e.right else e);
  }

  lemma {:induction false} AtomLexemes(e: Expr)
    requires Representable(e)
    ensures Lexemes(AtomTokens(PrintAtom(e)))
    decreases e, if e.BinaryOp? then 10 else 0
  {
    hide Lexeme;
    match e
    case FuncCall(f, args) =>
      ArgumentLexemes(args);
      NamesAndMarks(f);
    case BinaryOp(_, _, _) =>
      SumLexemes(e);
      NamesAndMarks("f");
    case _ => LeafLexemes(e);
  }

  lemma NamesAndMarks(name: string)
    ensures Lexeme(Token(LParen, "(")) && Lexeme(Token(RParen, ")"))
    ensures Identifier(name) ==> Lexeme(Token(IdentToken, name))
  {
  }

  lemma LeafLexemes(e: Expr)
    requires Representable(e) && !e.FuncCall? && !e.BinaryOp?
    ensures Lexemes(AtomTokens(PrintAtom(e)))
  {
  }

  lemma {:induction false} ArgumentLexemes(args: seq<Expr>)
    requires forall k :: 0 <= k < |args| ==> Representable(args[k])
    ensures Lexemes(ArgumentTokens(PrintArguments(args)))
    decreases args, 0
  {
    if args != [] {
      SumLexemes(args[|args| - 1]);
      ArgumentLexemes(args[..|args| - 1]);
    }
  }

  // ---- round trip ----

  function PrintText(e: Expr): string
    requires Representable(e)
  {
    Spaced(SumTokens(PrintSum(e)))
  }

  lemma LexemesAreSymbols(ts: seq<Token>)
    requires Lexemes(ts)
    ensures SymbolsSpelled(ts) && forall k :: 0 <= k < |ts| ==> !ts[k].kind.EndOfInput?
  {
    forall k | 0 <= k < |ts| ensures !ts[k].kind.EndOfInput?
      ensures Symbol(ts[k].kind) != "" ==> ts[k].text == Symbol(ts[k].kind)
    {
      assert Lexeme(ts[k]);
    }
  }

  lemma RoundTrip(e: Expr)
    requires Representable(e)
    ensures ParseText(PrintText(e)) == Some(e)
  {
    var s := PrintSum(e);
    var ts := SumTokens(s);
    SumLexemes(e);
    SpelledParses(ts, e, s);
  }

  lemma SpelledParses(ts: seq<Token>, e: Expr, s: Sum)
    requires Lexemes(ts) && SumOk(s) && SumTokens(s) == ts && SumExpr(s) == e
    ensures ParseText(Spaced(ts)) == Some(e)
  {
    var text := Spaced(ts);
    assert text[0..] == text;
    SpacedReadsBackFrom(text, 0, ts);
    LexemesAreSymbols(ts);
    ParserDecidesGrammar(ts, e);
  }

  // The expressions the parser can return are exactly the representable ones.
  lemma ParserImage(e: Expr)
    ensures (exists text: string :: ParseText(text) == Some(e)) <==> Representable(e)
  {
    if Representable(e) {
      RoundTrip(e);
    }
    forall text: string | ParseText(text) == Some(e) ensures Representable(e) {
      ParsedIsRepresentable(text, e);
    }
  }

  lemma ParsedIsRepresentable(text: string, e: Expr)
    requires ParseText(text) == Some(e)
    ensures Representable(e)
  {
    hide Tokens, ParseSum, SumOk, SumTokens, SumExpr, Representable, Lexeme, Spell;
    TokensAreSpelled(text, 0);
    var all := Tokens(text, 0).value;
    var ts := all[..|all| - 1];
    assert all == ts + [END];
    SpelledAreLexemes(text, 0, ts);
    LexemesAreSymbols(ts);
    ParserDecidesGrammar(ts, e);
    var s: Sum :| SumOk(s) && SumTokens(s) == ts && SumExpr(s) == e;
    SumRepresentable(s);
  }

  lemma SplitLexemes(a: seq<Token>, t: Token, b: seq<Token>)
    requires Lexemes(a + [t] + b)
    ensures Lexemes(a) && Lexeme(t) && Lexemes(b)
  {
    var all := a + [t] + b;
    assert all[|a|] == t;
    assert forall k :: 0 <= k < |a| ==> a[k] == all[k];
    assert forall k :: 0 <= k < |b| ==> b[k] == all[|a| + 1 + k];
  }

  lemma {:induction false} SumRepresentable(s: Sum)
    requires SumOk(s) && Lexemes(SumTokens(s))
    ensures Representable(SumExpr(s))
    decreases s
  {
    match s
    case OnlyProduct(p) => ProductRepresentable(p);
    case AddSub(l, op, p) =>
      SplitLexemes(SumTokens(l), Token(op, Symbol(op)), ProductTokens(p));
      SumRepresentable(l);
      ProductRepresentable(p);
  }

  lemma {:induction false} ProductRepresentable(p: Product)
    requires ProductOk(p) && Lexemes(ProductTokens(p))
    ensures Representable(ProductExpr(p))
    decreases p
  {
    match p
    case OnlyUnary(u) => UnaryRepresentable(u);
    case MulDivMod(l, op, u) =>
      SplitLexemes(ProductTokens(l), Token(op, Symbol(op)), UnaryTokens(u));
      ProductRepresentable(l);
      UnaryRepresentable(u);
  }

  lemma {:induction false} UnaryRepresentable(u: Unary)
    requires AtomOk(u.atom) && Lexemes(UnaryTokens(u))
    ensures Representable(UnaryExpr(u))
    decreases u
  {
    if u.Minused? {
      assert UnaryTokens(u) == [] + [Token(Minus, "-")] + AtomTokens(u.atom);
      SplitLexemes([], Token(Minus, "-"), AtomTokens(u.atom));
    }
    AtomRepresentable(u.atom);
  }

  lemma {:induction false} AtomRepresentable(a: Atom)
    requires AtomOk(a) && Lexemes(AtomTokens(a))
    ensures Representable(AtomExpr(a))
    decreases a
  {
    match a
    case Leaf(t) =>
      assert Lexeme(AtomTokens(a)[0]);
      LeafRepresentable(t);
    case Call(f, args) =>
      var open, close := Token(LParen, "("), Token(RParen, ")");
      assert AtomTokens(a) == [Token(IdentToken, f)] + [open] + (ArgumentTokens(args) + [close]);
      SplitLexemes([Token(IdentToken, f)], open, ArgumentTokens(args) + [close]);
      assert ArgumentTokens(args) + [close] == ArgumentTokens(args) + [close] + [];
      SplitLexemes(ArgumentTokens(args), close, []);
      assert Lexeme([Token(IdentToken, f)][0]);
      ArgumentsRepresentable(args);
    case Parens(s) =>
      var open, close := Token(LParen, "("), Token(RParen, ")");
      assert AtomTokens(a) == [] + [open] + (SumTokens(s) + [close]);
      SplitLexemes([], open, SumTokens(s) + [close]);
      assert SumTokens(s) + [close] == SumTokens(s) + [close] + [];
      SplitLexemes(SumTokens(s), close, []);
      SumRepresentable(s);
  }

  lemma LeafRepresentable(t: Token)
    requires Lexeme(t) && LeafValue(t).Some?
    ensures Representable(LeafValue(t).value)
  {
    if t.kind.IntToken? {
      assert IsDigit(t.text[0]);
    }
    if t.kind.IdentToken? {
      IdentifiersAreQuotable(t.text);
    }
  }

  lemma {:induction false} IdentifiersAreQuotable(text: string)
    requires forall i :: 0 <= i < |text| ==> IsIdentChar(text[i])
    ensures Quotable(text)
  {
    if text != "" { IdentifiersAreQuotable(text[1..]); }
  }

  lemma {:induction false} ArgumentsRepresentable(args: Arguments)
    requires ArgumentsOk(args) && Lexemes(ArgumentTokens(args))
    ensures forall k :: 0 <= k < |ArgumentExprs(args)| ==> Representable(ArgumentExprs(args)[k])
    decreases args
  {
    match args
    case NoArguments =>
    case First(s) => SumRepresentable(s);
    case More(init, s) =>
      SplitLexemes(ArgumentTokens(init), Token(Comma, ","), SumTokens(s));
      ArgumentsRepresentable(init);
      SumRepresentable(s);
  }

  // ---- no tree with the same meaning uses fewer parentheses ----

  function SumParens(s: Sum): nat
  {
    match s
    case OnlyProduct(p) => ProductParens(p)
    case AddSub(l, _, p) => SumParens(l) + ProductParens(p)
  }

  function ProductParens(p: Product): nat
  {
    match p
    case OnlyUnary(u) => AtomParens(u.atom)
    case MulDivMod(l, _, u) => ProductParens(l) + AtomParens(u.atom)
  }

  function AtomParens(a: Atom): nat
  {
    match a
    case Leaf(_) => 0
    case Call(_, args) => ArgumentParens(args)
    case Parens(s) => 1 + SumParens(s)
  }

  function ArgumentParens(args: Arguments): nat
  {
    match args
    case NoArguments => 0
    case First(s) => SumParens(s)
    case More(init, s) => ArgumentParens(init) + SumParens(s)
  }

  // A looser context never needs more parentheses than a tighter one.
  lemma {:induction false} ContextsOrdered(e: Expr)
    requires Representable(e)
    ensures SumParens(PrintSum(e)) <= ProductParens(PrintProduct(e)) <= AtomParens(PrintUnary(e).atom)
    ensures AtomParens(PrintUnary(e).atom) <= AtomParens(PrintAtom(e))
    decreases e
  {
    if !e.BinaryOp? {
      AtomPrintsBare(e);
    } else {
      assert PrintAtom(e) == Parens(PrintSum(e));
      ContextsOrdered(e.left);
      ContextsOrdered(e.right);
      if IsNegated(e) {
        assert AtomParens(PrintAtom(e.left)) == 0;
      }
    }
  }

  lemma AtomPrintsBare(e: Expr)
    requires Representable(e) && !e.BinaryOp?
    ensures SumParens(PrintSum(e)) == ProductParens(PrintProduct(e)) == AtomParens(PrintAtom(e))
    ensures PrintUnary(e) == Plain(PrintAtom(e))
  {
    assert PrintProduct(e) == OnlyUnary(PrintUnary(e));
    assert PrintSum(e) == OnlyProduct(PrintProduct(e));
  }

  lemma {:induction false} SumMinimal(s: Sum)
    requires SumOk(s) && Representable(SumExpr(s))
    ensures SumParens(PrintSum(SumExpr(s))) <= SumParens(s)
    decreases s
  {
    match s
    case OnlyProduct(p) =>
      ProductMinimal(p);
      ContextsOrdered(ProductExpr(p));
    case AddSub(l, op, p) =>
      SumMinimal(l);
      ProductMinimal(p);
  }

  lemma {:induction false} ProductMinimal(p: Product)
    requires ProductOk(p) && Representable(ProductExpr(p))
    ensures ProductParens(PrintProduct(ProductExpr(p))) <= ProductParens(p)
    decreases p
  {
    match p
    case OnlyUnary(u) =>
      UnaryMinimal(u);
      ContextsOrdered(UnaryExpr(u));
    case MulDivMod(l, op, u) =>
      ProductMinimal(l);
      UnaryMinimal(u);
  }

  lemma {:induction false} UnaryMinimal(u: Unary)
    requires AtomOk(u.atom) && Representable(UnaryExpr(u))
    ensures AtomParens(PrintUnary(UnaryExpr(u)).atom) <= AtomParens(u.atom)
    decreases u
  {
    AtomMinimal(u.atom);
    ContextsOrdered(AtomExpr(u.atom));
  }

  lemma {:induction false} AtomMinimal(a: Atom)
    requires AtomOk(a) && Representable(AtomExpr(a))
    ensures AtomParens(PrintAtom(AtomExpr(a))) <= AtomParens(a)
    decreases a
  {
    match a
    case Leaf(t) =>
    case Call(f, args) => ArgumentsMinimal(args);
    case Parens(s) => SumMinimal(s);
      AtomOverSum(SumExpr(s));
  }

  lemma AtomOverSum(e: Expr)
    requires Representable(e)
    ensures AtomParens(PrintAtom(e)) <= 1 + SumParens(PrintSum(e))
  {
    if !e.BinaryOp? {
      AtomPrintsBare(e);
    }
  }

  lemma {:induction false} ArgumentsMinimal(args: Arguments)
    requires ArgumentsOk(args)
    requires forall k :: 0 <= k < |ArgumentExprs(args)| ==> Representable(ArgumentExprs(args)[k])
    ensures ArgumentParens(PrintArguments(ArgumentExprs(args))) <= ArgumentParens(args)
    decreases args
  {
    match args
    case NoArguments =>
    case First(s) =>
      assert ArgumentExprs(args)[0] == SumExpr(s);
      SumMinimal(s);
    case More(init, s) =>
      var es := ArgumentExprs(args);
      assert es[..|es| - 1] == ArgumentExprs(init) && es[|es| - 1] == SumExpr(s);
      ArgumentsMinimal(init);
      SumMinimal(s);
      NonEmptyArguments(init);
  }

  lemma NonEmptyArguments(args: Arguments)
    requires ArgumentsOk(args) && !args.NoArguments?
    ensures ArgumentExprs(args) != []
  {
  }

  // Among all ways to write e, the printed one has the fewest parentheses.
  lemma FewestParentheses(e: Expr, s: Sum)
    requires Representable(e) && SumOk(s) && SumExpr(s) == e
    ensures SumParens(PrintSum(e)) <= SumParens(s)
  {
    SumMinimal(s);
  }
}
