// The grammar that db/internal/dbsp/expr/parser.go implements, given independently of
// the parser as concrete syntax trees, and the proof that the parser accepts exactly
// its sentences and returns exactly their meaning.
module Grammar {
  import opened Outcomes
  import opened Values
  import opened Syntax
  import opened Lexing
  import opened Parsing

  // Left recursion makes the binary operators left-associative; the layers give
  // * / % precedence over + -, and allow at most one unary minus per operand, which is
  // subtraction from zero.
  datatype Sum = OnlyProduct(product: Product) | AddSub(sum: Sum, op: TokenKind, product: Product)
  datatype Product = OnlyUnary(unary: Unary) | MulDivMod(product: Product, op: TokenKind, unary: Unary)
  datatype Unary = Plain(atom: Atom) | Minused(atom: Atom)
  datatype Atom =
    | Leaf(token: Token)
    | Call(name: string, args: Arguments)
    | Parens(inner: Sum)
  datatype Arguments = NoArguments | First(arg: Sum) | More(init: Arguments, arg: Sum)

  // ---- which trees are sentences of the grammar ----

  predicate SumOk(s: Sum)
  {
    match s
    case OnlyProduct(p) => ProductOk(p)
    case AddSub(l, op, p) => SumOk(l) && (op.Plus? || op.Minus?) && ProductOk(p)
  }

  predicate ProductOk(p: Product)
  {
    match p
    case OnlyUnary(u) => AtomOk(u.atom)
    case MulDivMod(l, op, u) => ProductOk(l) && (op.Star? || op.Slash? || op.Percent?) && AtomOk(u.atom)
  }

  predicate AtomOk(a: Atom)
  {
    match a
    case Leaf(t) => LeafValue(t).Some?
    case Call(_, args) => ArgumentsOk(args)
    case Parens(s) => SumOk(s)
  }

  predicate ArgumentsOk(args: Arguments)
  {
    match args
    case NoArguments => true
    case First(s) => SumOk(s)
    case More(init, s) => !init.NoArguments? && ArgumentsOk(init) && SumOk(s)
  }

  // ---- the tokens of a tree, left to right ----

  function SumTokens(s: Sum): (ts: seq<Token>)
    ensures ts != []
  {
    match s
    case OnlyProduct(p) => ProductTokens(p)
    case AddSub(l, op, p) => SumTokens(l) + [Token(op, Symbol(op))] + ProductTokens(p)
  }

  function ProductTokens(p: Product): (ts: seq<Token>)
    ensures ts != []
  {
    match p
    case OnlyUnary(u) => UnaryTokens(u)
    case MulDivMod(l, op, u) => ProductTokens(l) + [Token(op, Symbol(op))] + UnaryTokens(u)
  }

  function UnaryTokens(u: Unary): (ts: seq<Token>)
    ensures ts != []
  {
    match u
    case Plain(a) => AtomTokens(a)
    case Minused(a) => [Token(Minus, "-")] + AtomTokens(a)
  }

  function AtomTokens(a: Atom): (ts: seq<Token>)
    ensures ts != []
  {
    match a
    case Leaf(t) => [t]
    case Call(f, args) => [Token(IdentToken, f), Token(LParen, "(")] + ArgumentTokens(args) + [Token(RParen, ")")]
    case Parens(s) => [Token(LParen, "(")] + SumTokens(s) + [Token(RParen, ")")]
  }

  function ArgumentTokens(args: Arguments): seq<Token>
  {
    match args
    case NoArguments => []
    case First(s) => SumTokens(s)
    case More(init, s) => ArgumentTokens(init) + [Token(Comma, ",")] + SumTokens(s)
  }

  // ---- the expression a tree denotes ----

  function LeafValue(t: Token): Option<Expr>
  {
    match t.kind
    case IntToken => (match ParseInt(t.text) case None => None case Some(n) => Some(IntLit(n)))
    case StringToken => Some(StrLit(t.text))
    case IdentToken => Some(StrLit(t.text))
    case ColRefToken => Some(ColRef(t.text))
    case VarRefToken => Some(VarRef(t.text))
    case _ => None
  }

  function SumExpr(s: Sum): Expr
    requires SumOk(s)
  {
    match s
    case OnlyProduct(p) => ProductExpr(p)
    case AddSub(l, op, p) => BinaryOp(op, SumExpr(l), ProductExpr(p))
  }

  function ProductExpr(p: Product): Expr
    requires ProductOk(p)
  {
    match p
    case OnlyUnary(u) => UnaryExpr(u)
    case MulDivMod(l, op, u) => BinaryOp(op, ProductExpr(l), UnaryExpr(u))
  }

  function UnaryExpr(u: Unary): Expr
    requires AtomOk(u.atom)
  {
    if u.Plain? then AtomExpr(u.atom) else BinaryOp(Minus, IntLit(0), AtomExpr(u.atom))
  }

  function AtomExpr(a: Atom): Expr
    requires AtomOk(a)
  {
    match a
    case Leaf(t) => LeafValue(t).value
    case Call(f, args) => FuncCall(f, ArgumentExprs(args))
    case Parens(s) => SumExpr(s)
  }

  function ArgumentExprs(args: Arguments): seq<Expr>
    requires ArgumentsOk(args)
  {
    match args
    case NoArguments => []
    case First(s) => [SumExpr(s)]
    case More(init, s) => ArgumentExprs(init) + [SumExpr(s)]
  }

  // ---- completeness: every sentence is parsed to what it denotes ----

  ghost predicate Occurs(ts: seq<Token>, p: nat, part: seq<Token>)
  {
    p + |part| <= |ts| && ts[p..p + |part|] == part
  }

  lemma OccursSplit(ts: seq<Token>, p: nat, a: seq<Token>, b: seq<Token>)
    requires Occurs(ts, p, a + b)
    ensures Occurs(ts, p, a) && Occurs(ts, p + |a|, b)
  {
    assert ts[p..p + |a|] == ts[p..p + |a + b|][..|a|] == a;
    assert ts[p + |a|..p + |a| + |b|] == ts[p..p + |a + b|][|a|..] == b;
  }

  lemma OccursAt(ts: seq<Token>, p: nat, t: Token)
    requires Occurs(ts, p, [t])
    ensures p < |ts| && ts[p] == t
  {
    assert ts[p] == ts[p..p + 1][0];
  }

  lemma SplitAround(ts: seq<Token>, p: nat, a: seq<Token>, t: Token, b: seq<Token>)
    requires Occurs(ts, p, a + [t] + b)
    ensures Occurs(ts, p, a) && p + |a| < |ts| && ts[p + |a|] == t && Occurs(ts, p + |a| + 1, b)
  {
    OccursSplit(ts, p, a + [t], b);
    OccursSplit(ts, p, a, [t]);
    OccursAt(ts, p + |a|, t);
  }

  // What may follow: never '(' (a bare identifier would become a call).
  predicate FollowsSum(k: TokenKind) { !Multiplicative(k) && !k.LParen? }

  lemma {:induction false} SumComplete(ts: seq<Token>, p: nat, s: Sum)
    requires SumOk(s) && Occurs(ts, p, SumTokens(s))
    requires FollowsSum(KindAt(ts, p + |SumTokens(s)|))
    ensures ParseSum(ts, p) == SumTail(ts, p + |SumTokens(s)|, SumExpr(s))
    decreases s
  {
    hide ParseSum, SumTail, ParseProduct, ProductTail;
    match s
    case OnlyProduct(q) =>
      ProductComplete(ts, p, q);
      SumStart(ts, p, ProductExpr(q), p + |ProductTokens(q)|);
    case AddSub(l, op, q) =>
      SplitAround(ts, p, SumTokens(l), Token(op, Symbol(op)), ProductTokens(q));
      var m := p + |SumTokens(l)|;
      SumComplete(ts, p, l);
      ProductComplete(ts, m + 1, q);
      SumTailStep(ts, m, SumExpr(l), ProductExpr(q), m + 1 + |ProductTokens(q)|);
  }

  lemma SumStart(ts: seq<Token>, p: nat, e: Expr, q: nat)
    requires p <= |ts| && q <= |ts| && ParseProduct(ts, p) == ProductTail(ts, q, e) && !Multiplicative(KindAt(ts, q))
    ensures ParseSum(ts, p) == SumTail(ts, q, e)
  {
    hide ParseProduct, SumTail;
  }

  lemma SumTailStep(ts: seq<Token>, m: nat, left: Expr, right: Expr, n: nat)
    requires m < |ts| && n <= |ts| && Additive(ts[m].kind)
    requires ParseProduct(ts, m + 1) == ProductTail(ts, n, right) && !Multiplicative(KindAt(ts, n))
    ensures SumTail(ts, m, left) == SumTail(ts, n, BinaryOp(ts[m].kind, left, right))
  {
    hide ParseProduct;
  }

  lemma SumEnd(ts: seq<Token>, p: nat, e: Expr)
    requires p <= |ts| && !Additive(KindAt(ts, p))
    ensures SumTail(ts, p, e) == Some((e, p))
  {
  }

  lemma {:induction false} ProductComplete(ts: seq<Token>, p: nat, q: Product)
    requires ProductOk(q) && Occurs(ts, p, ProductTokens(q))
    requires !KindAt(ts, p + |ProductTokens(q)|).LParen?
    ensures ParseProduct(ts, p) == ProductTail(ts, p + |ProductTokens(q)|, ProductExpr(q))
    decreases q
  {
    hide ParseProduct, ProductTail, ParseUnary;
    match q
    case OnlyUnary(u) =>
      UnaryComplete(ts, p, u);
      ProductStart(ts, p, UnaryExpr(u), p + |UnaryTokens(u)|);
    case MulDivMod(l, op, u) =>
      SplitAround(ts, p, ProductTokens(l), Token(op, Symbol(op)), UnaryTokens(u));
      var m := p + |ProductTokens(l)|;
      ProductComplete(ts, p, l);
      UnaryComplete(ts, m + 1, u);
      ProductTailStep(ts, m, ProductExpr(l), UnaryExpr(u), m + 1 + |UnaryTokens(u)|);
  }

  lemma ProductStart(ts: seq<Token>, p: nat, e: Expr, q: nat)
    requires p <= |ts| && ParseUnary(ts, p) == Some((e, q))
    ensures ParseProduct(ts, p) == ProductTail(ts, q, e)
  {
    hide ParseUnary, ProductTail;
  }

  lemma ProductTailStep(ts: seq<Token>, m: nat, left: Expr, right: Expr, n: nat)
    requires m < |ts| && Multiplicative(ts[m].kind) && ParseUnary(ts, m + 1) == Some((right, n))
    ensures ProductTail(ts, m, left) == ProductTail(ts, n, BinaryOp(ts[m].kind, left, right))
  {
    hide ParseUnary;
  }

  lemma {:induction false} UnaryComplete(ts: seq<Token>, p: nat, u: Unary)
    requires AtomOk(u.atom) && Occurs(ts, p, UnaryTokens(u))
    requires !KindAt(ts, p + |UnaryTokens(u)|).LParen?
    ensures ParseUnary(ts, p) == Some((UnaryExpr(u), p + |UnaryTokens(u)|))
    decreases u
  {
    if u.Minused? {
      OccursSplit(ts, p, [Token(Minus, "-")], AtomTokens(u.atom));
      OccursAt(ts, p, Token(Minus, "-"));
      AtomComplete(ts, p + 1, u.atom);
    } else {
      AtomComplete(ts, p, u.atom);
    }
  }

  lemma {:induction false} AtomComplete(ts: seq<Token>, p: nat, a: Atom)
    requires AtomOk(a) && Occurs(ts, p, AtomTokens(a))
    requires !KindAt(ts, p + |AtomTokens(a)|).LParen?
    ensures ParsePrimary(ts, p) == Some((AtomExpr(a), p + |AtomTokens(a)|))
    ensures !KindAt(ts, p).Minus?
    decreases a
  {
    hide ParseSum, SumTail, ParseCall;
    match a
    case Leaf(t) =>
      OccursAt(ts, p, t);
    case Call(f, args) =>
      CallComplete(ts, p, f, args);
    case Parens(s) =>
      ParensComplete(ts, p, s);
  }

  lemma {:induction false} ParensComplete(ts: seq<Token>, p: nat, s: Sum)
    requires SumOk(s) && Occurs(ts, p, AtomTokens(Parens(s)))
    ensures ParsePrimary(ts, p) == Some((SumExpr(s), p + |AtomTokens(Parens(s))|)) && KindAt(ts, p).LParen?
    decreases Parens(s), 0
  {
    hide ParseSum, SumTail, ParsePrimary, SumOk, SumTokens, SumExpr;
    var open, close := Token(LParen, "("), Token(RParen, ")");
    OccursSplit(ts, p, [open] + SumTokens(s), [close]);
    OccursSplit(ts, p, [open], SumTokens(s));
    OccursAt(ts, p, open);
    OccursAt(ts, p + 1 + |SumTokens(s)|, close);
    SumComplete(ts, p + 1, s);
    SumEnd(ts, p + 1 + |SumTokens(s)|, SumExpr(s));
    ParensStep(ts, p, SumExpr(s), p + 1 + |SumTokens(s)|);
  }

  lemma ParensStep(ts: seq<Token>, p: nat, e: Expr, q: nat)
    requires p < |ts| && ts[p].kind.LParen? && ParseSum(ts, p + 1) == Some((e, q)) && KindAt(ts, q).RParen?
    ensures ParsePrimary(ts, p) == Some((e, q + 1))
  {
    hide ParseSum;
  }

  lemma CallTokensAt(ts: seq<Token>, p: nat, f: string, args: Arguments)
    requires Occurs(ts, p, AtomTokens(Call(f, args)))
    ensures var n := |ArgumentTokens(args)|;
            && p + 2 + n < |ts| && |AtomTokens(Call(f, args))| == n + 3
            && ts[p] == Token(IdentToken, f) && ts[p + 1] == Token(LParen, "(")
            && Occurs(ts, p + 2, ArgumentTokens(args)) && ts[p + 2 + n] == Token(RParen, ")")
  {
    hide ArgumentTokens;
    var name, open, close := Token(IdentToken, f), Token(LParen, "("), Token(RParen, ")");
    OccursSplit(ts, p, [name, open] + ArgumentTokens(args), [close]);
    OccursSplit(ts, p, [name, open], ArgumentTokens(args));
    OccursAt(ts, p + 2 + |ArgumentTokens(args)|, close);
    assert ts[p] == ts[p..p + 2][0] && ts[p + 1] == ts[p..p + 2][1];
  }

  lemma {:induction false} CallComplete(ts: seq<Token>, p: nat, f: string, args: Arguments)
    requires ArgumentsOk(args) && Occurs(ts, p, AtomTokens(Call(f, args)))
    ensures ParsePrimary(ts, p) == Some((FuncCall(f, ArgumentExprs(args)), p + |AtomTokens(Call(f, args))|))
    ensures KindAt(ts, p).IdentToken?
    decreases args, 1
  {
    hide ParseSum, SumTail, ParsePrimary, ArgumentsTail;
    var n := |ArgumentTokens(args)|;
    CallTokensAt(ts, p, f, args);
    if args.NoArguments? {
      CallStep(ts, p);
    } else {
      var first := ArgumentsComplete(ts, p + 2, args);
      FirstOfSum(ts, p + 2);
      ArgumentsEnd(ts, p + 2 + n, ArgumentExprs(args));
      CallStep(ts, p);
    }
  }

  lemma CallStep(ts: seq<Token>, p: nat)
    requires p + 1 < |ts| && ts[p].kind.IdentToken? && ts[p + 1].kind.LParen?
    ensures ParsePrimary(ts, p) == ParseCall(ts, p)
  {
    hide ParseCall, ParseSum;
  }

  lemma ArgumentsEnd(ts: seq<Token>, p: nat, es: seq<Expr>)
    requires p <= |ts| && !KindAt(ts, p).Comma?
    ensures ArgumentsTail(ts, p, es) == Some((es, p))
  {
  }

  lemma ArgumentsStep(ts: seq<Token>, m: nat, es: seq<Expr>, e: Expr, n: nat)
    requires m < |ts| && ts[m].kind.Comma? && ParseSum(ts, m + 1) == Some((e, n))
    ensures ArgumentsTail(ts, m, es) == ArgumentsTail(ts, n, es + [e])
  {
    hide ParseSum;
  }

  // A sum cannot start with a closing parenthesis.
  lemma FirstOfSum(ts: seq<Token>, p: nat)
    requires p <= |ts| && ParseSum(ts, p).Some?
    ensures !KindAt(ts, p).RParen?
  {
    assert ParseProduct(ts, p).Some?;
    assert ParseUnary(ts, p).Some?;
    if !KindAt(ts, p).Minus? {
      assert ParsePrimary(ts, p).Some?;
    }
  }

  lemma {:induction false} ArgumentsComplete(ts: seq<Token>, p: nat, args: Arguments)
      returns (first: (Expr, nat))
    requires !args.NoArguments? && ArgumentsOk(args) && Occurs(ts, p, ArgumentTokens(args))
    requires var k := KindAt(ts, p + |ArgumentTokens(args)|); k.Comma? || k.RParen?
    ensures ParseSum(ts, p) == Some(first)
    ensures ArgumentsTail(ts, first.1, [first.0]) ==
            ArgumentsTail(ts, p + |ArgumentTokens(args)|, ArgumentExprs(args))
    decreases args, 0
  {
    hide ParseSum, SumTail, ArgumentsTail;
    match args
    case First(s) =>
      SumComplete(ts, p, s);
      first := (SumExpr(s), p + |SumTokens(s)|);
      SumEnd(ts, first.1, first.0);
    case More(init, s) =>
      SplitAround(ts, p, ArgumentTokens(init), Token(Comma, ","), SumTokens(s));
      var m := p + |ArgumentTokens(init)|;
      var n := m + 1 + |SumTokens(s)|;
      first := ArgumentsComplete(ts, p, init);
      SumComplete(ts, m + 1, s);
      SumEnd(ts, n, SumExpr(s));
      ArgumentsStep(ts, m, ArgumentExprs(init), SumExpr(s), n);
  }

  // ---- soundness: what is parsed was a sentence ----

  // The tokens from p to q, none of them an end marker.
  ghost predicate Consumed(ts: seq<Token>, p: nat, q: nat)
  {
    p <= q <= |ts| && forall k :: p <= k < q ==> !ts[k].kind.EndOfInput?
  }

  // The tokens from p to q are those of the tree, which denotes e.
  ghost predicate SumSpans(ts: seq<Token>, p: nat, q: nat, s: Sum, e: Expr)
  {
    SumOk(s) && SumExpr(s) == e && Consumed(ts, p, q) && ts[p..q] == SumTokens(s)
  }

  ghost predicate ProductSpans(ts: seq<Token>, p: nat, q: nat, s: Product, e: Expr)
  {
    ProductOk(s) && ProductExpr(s) == e && Consumed(ts, p, q) && ts[p..q] == ProductTokens(s)
  }

  ghost predicate UnarySpans(ts: seq<Token>, p: nat, q: nat, u: Unary, e: Expr)
  {
    AtomOk(u.atom) && UnaryExpr(u) == e && Consumed(ts, p, q) && ts[p..q] == UnaryTokens(u)
  }

  ghost predicate AtomSpans(ts: seq<Token>, p: nat, q: nat, a: Atom, e: Expr)
  {
    AtomOk(a) && AtomExpr(a) == e && Consumed(ts, p, q) && ts[p..q] == AtomTokens(a)
  }

  ghost predicate ArgumentsSpan(ts: seq<Token>, p: nat, q: nat, args: Arguments, es: seq<Expr>)
  {
    !args.NoArguments? && ArgumentsOk(args) && ArgumentExprs(args) == es && Consumed(ts, p, q) &&
      ts[p..q] == ArgumentTokens(args)
  }

  // Operator and punctuation tokens carry their own symbol, as the lexer emits them.
  predicate SymbolsSpelled(ts: seq<Token>)
  {
    forall k :: 0 <= k < |ts| && Symbol(ts[k].kind) != "" ==> ts[k].text == Symbol(ts[k].kind)
  }

  lemma Join(ts: seq<Token>, p: nat, m: nat, q: nat)
    requires p <= m <= q <= |ts|
    ensures ts[p..q] == ts[p..m] + ts[m..q]
  {
  }

  lemma {:induction false} SumSound(ts: seq<Token>, p: nat) returns (s: Sum)
    requires SymbolsSpelled(ts) && p <= |ts| && ParseSum(ts, p).Some?
    ensures SumSpans(ts, p, ParseSum(ts, p).value.1, s, ParseSum(ts, p).value.0)
    decreases |ts| - p, 4
  {
    var q := ProductSound(ts, p);
    var (e, m) := ParseProduct(ts, p).value;
    s := SumTailSound(ts, p, m, OnlyProduct(q), e);
  }

  lemma {:induction false} SumTailSound(ts: seq<Token>, p: nat, m: nat, l: Sum, left: Expr) returns (s: Sum)
    requires SymbolsSpelled(ts) && p < m && SumSpans(ts, p, m, l, left) && SumTail(ts, m, left).Some?
    ensures SumSpans(ts, p, SumTail(ts, m, left).value.1, s, SumTail(ts, m, left).value.0)
    decreases |ts| - m, 4
  {
    hide SumOk, SumExpr, SumTokens, ParseProduct;
    if !Additive(KindAt(ts, m)) { return l; }
    var q := ProductSound(ts, m + 1);
    var (e, n) := ParseProduct(ts, m + 1).value;
    SumJoined(ts, p, m, n, l, left, q, e);
    s := SumTailSound(ts, p, n, AddSub(l, ts[m].kind, q), BinaryOp(ts[m].kind, left, e));
  }

  lemma SumJoined(ts: seq<Token>, p: nat, m: nat, n: nat, l: Sum, left: Expr, r: Product, right: Expr)
    requires SymbolsSpelled(ts) && SumSpans(ts, p, m, l, left) && ProductSpans(ts, m + 1, n, r, right)
    requires Additive(ts[m].kind)
    ensures SumSpans(ts, p, n, AddSub(l, ts[m].kind, r), BinaryOp(ts[m].kind, left, right))
  {
    Join(ts, p, m, n);
    Join(ts, m, m + 1, n);
    assert ts[m..m + 1] == [Token(ts[m].kind, Symbol(ts[m].kind))];
  }

  lemma {:induction false} ProductSound(ts: seq<Token>, p: nat) returns (s: Product)
    requires SymbolsSpelled(ts) && p <= |ts| && ParseProduct(ts, p).Some?
    ensures ProductSpans(ts, p, ParseProduct(ts, p).value.1, s, ParseProduct(ts, p).value.0)
    decreases |ts| - p, 3
  {
    var u := UnarySound(ts, p);
    var (e, m) := ParseUnary(ts, p).value;
    s := ProductTailSound(ts, p, m, OnlyUnary(u), e);
  }

  lemma {:induction false} ProductTailSound(ts: seq<Token>, p: nat, m: nat, l: Product, left: Expr) returns (s: Product)
    requires SymbolsSpelled(ts) && p < m && ProductSpans(ts, p, m, l, left) && ProductTail(ts, m, left).Some?
    ensures ProductSpans(ts, p, ProductTail(ts, m, left).value.1, s, ProductTail(ts, m, left).value.0)
    decreases |ts| - m, 3
  {
    hide ProductOk, ProductExpr, ProductTokens, ParseUnary;
    if !Multiplicative(KindAt(ts, m)) { return l; }
    var u := UnarySound(ts, m + 1);
    var (e, n) := ParseUnary(ts, m + 1).value;
    ProductJoined(ts, p, m, n, l, left, u, e);
    s := ProductTailSound(ts, p, n, MulDivMod(l, ts[m].kind, u), BinaryOp(ts[m].kind, left, e));
  }

  lemma ProductJoined(ts: seq<Token>, p: nat, m: nat, n: nat, l: Product, left: Expr, r: Unary, right: Expr)
    requires SymbolsSpelled(ts) && ProductSpans(ts, p, m, l, left) && UnarySpans(ts, m + 1, n, r, right)
    requires Multiplicative(ts[m].kind)
    ensures ProductSpans(ts, p, n, MulDivMod(l, ts[m].kind, r), BinaryOp(ts[m].kind, left, right))
  {
    Join(ts, p, m, n);
    Join(ts, m, m + 1, n);
    assert ts[m..m + 1] == [Token(ts[m].kind, Symbol(ts[m].kind))];
  }

  lemma {:induction false} UnarySound(ts: seq<Token>, p: nat) returns (u: Unary)
    requires SymbolsSpelled(ts) && p <= |ts| && ParseUnary(ts, p).Some?
    ensures UnarySpans(ts, p, ParseUnary(ts, p).value.1, u, ParseUnary(ts, p).value.0)
    decreases |ts| - p, 2
  {
    if KindAt(ts, p).Minus? {
      var a := AtomSound(ts, p + 1);
      Join(ts, p, p + 1, ParseUnary(ts, p).value.1);
      assert ts[p..p + 1] == [Token(Minus, "-")];
      u := Minused(a);
    } else {
      var a := AtomSound(ts, p);
      u := Plain(a);
    }
  }

  lemma {:induction false} AtomSound(ts: seq<Token>, p: nat) returns (a: Atom)
    requires SymbolsSpelled(ts) && p <= |ts| && ParsePrimary(ts, p).Some?
    ensures AtomSpans(ts, p, ParsePrimary(ts, p).value.1, a, ParsePrimary(ts, p).value.0)
    decreases |ts| - p, 1
  {
    hide ParseSum, ParseCall, SumOk, SumTokens, SumExpr;
    if KindAt(ts, p).LParen? {
      var s := SumSound(ts, p + 1);
      var (e, m) := ParseSum(ts, p + 1).value;
      ParensSpan(ts, p, m, s, e);
      a := Parens(s);
    } else if KindAt(ts, p).IdentToken? && KindAt(ts, p + 1).LParen? {
      a := CallSound(ts, p);
    } else {
      assert ts[p..p + 1] == [ts[p]];
      a := Leaf(ts[p]);
    }
  }

  lemma ParensSpan(ts: seq<Token>, p: nat, m: nat, s: Sum, e: Expr)
    requires SymbolsSpelled(ts) && p + 1 <= m < |ts| && ts[p].kind.LParen? && ts[m].kind.RParen?
    requires SumSpans(ts, p + 1, m, s, e)
    ensures AtomSpans(ts, p, m + 1, Parens(s), e)
  {
    hide SumOk, SumTokens, SumExpr;
    assert Token(LParen, "(") == ts[p] && Token(RParen, ")") == ts[m];
    InParens(ts, p, m);
  }

  lemma InParens(ts: seq<Token>, p: nat, m: nat)
    requires p + 1 <= m < |ts|
    ensures ts[p..m + 1] == [ts[p]] + ts[p + 1..m] + [ts[m]]
  {
  }

  lemma {:induction false} CallSound(ts: seq<Token>, p: nat) returns (a: Atom)
    requires SymbolsSpelled(ts) && p + 1 < |ts| && ParseCall(ts, p).Some?
    requires ts[p].kind.IdentToken? && ts[p + 1].kind.LParen?
    ensures AtomSpans(ts, p, ParseCall(ts, p).value.1, a, ParseCall(ts, p).value.0)
    decreases |ts| - p, 0
  {
    if KindAt(ts, p + 2).RParen? {
      assert ts[p + 2..p + 2] == [];
      a := CallSpans(ts, p, p + 2, NoArguments);
    } else {
      var s := SumSound(ts, p + 2);
      var (e, m) := ParseSum(ts, p + 2).value;
      var args := ArgumentsTailSound(ts, p + 2, m, First(s), [e]);
      a := CallSpans(ts, p, ArgumentsTail(ts, m, [e]).value.1, args);
    }
  }

  lemma CallSpans(ts: seq<Token>, p: nat, n: nat, args: Arguments) returns (a: Atom)
    requires SymbolsSpelled(ts) && p + 2 <= n < |ts| && Consumed(ts, p + 2, n)
    requires ts[p].kind.IdentToken? && ts[p + 1].kind.LParen? && ts[n].kind.RParen?
    requires ArgumentsOk(args) && ts[p + 2..n] == ArgumentTokens(args)
    ensures AtomSpans(ts, p, n + 1, a, FuncCall(ts[p].text, ArgumentExprs(args)))
  {
    hide ArgumentExprs, ArgumentTokens, ArgumentsOk;
    a := Call(ts[p].text, args);
    assert Token(IdentToken, ts[p].text) == ts[p] && Token(LParen, "(") == ts[p + 1] && Token(RParen, ")") == ts[n];
    Enclosed(ts, p, n);
  }

  lemma Enclosed(ts: seq<Token>, p: nat, n: nat)
    requires p + 2 <= n < |ts|
    ensures ts[p..n + 1] == [ts[p], ts[p + 1]] + ts[p + 2..n] + [ts[n]]
  {
  }

  lemma {:induction false} ArgumentsTailSound(ts: seq<Token>, p: nat, m: nat, l: Arguments, left: seq<Expr>)
      returns (args: Arguments)
    requires SymbolsSpelled(ts) && p < m && ArgumentsSpan(ts, p, m, l, left) && ArgumentsTail(ts, m, left).Some?
    ensures ArgumentsSpan(ts, p, ArgumentsTail(ts, m, left).value.1, args, ArgumentsTail(ts, m, left).value.0)
    decreases |ts| - m, 5
  {
    if !KindAt(ts, m).Comma? { return l; }
    var s := SumSound(ts, m + 1);
    var (e, n) := ParseSum(ts, m + 1).value;
    MoreSpans(ts, p, m, n, l, left, s, e);
    args := ArgumentsTailSound(ts, p, n, More(l, s), left + [e]);
  }

  lemma MoreSpans(ts: seq<Token>, p: nat, m: nat, n: nat, l: Arguments, left: seq<Expr>, s: Sum, e: Expr)
    requires SymbolsSpelled(ts) && p < m && KindAt(ts, m).Comma?
    requires ArgumentsSpan(ts, p, m, l, left) && SumSpans(ts, m + 1, n, s, e)
    ensures ArgumentsSpan(ts, p, n, More(l, s), left + [e])
  {
    hide SumOk, SumTokens, SumExpr;
    Join(ts, p, m, n);
    Join(ts, m, m + 1, n);
    assert ts[m..m + 1] == [Token(Comma, ",")];
    assert ts[p..m] + (ts[m..m + 1] + ts[m + 1..n]) == ts[p..m] + ts[m..m + 1] + ts[m + 1..n];
  }

  // The parser accepts exactly the sentences of the grammar, and returns exactly what
  // they denote.
  lemma ParserDecidesGrammar(ts: seq<Token>, e: Expr)
    requires SymbolsSpelled(ts) && forall k :: 0 <= k < |ts| ==> !ts[k].kind.EndOfInput?
    ensures ParseTokens(ts + [END]) == Some(e) <==>
            exists s: Sum :: SumOk(s) && SumTokens(s) == ts && SumExpr(s) == e
  {
    hide *;
    if ParseTokens(ts + [END]) == Some(e) { var s := AcceptedIsSentence(ts, e); }
    forall s: Sum | SumOk(s) && SumTokens(s) == ts && SumExpr(s) == e ensures ParseTokens(ts + [END]) == Some(e) {
      SentenceIsAccepted(ts, s);
    }
  }

  lemma AcceptedIsSentence(ts: seq<Token>, e: Expr) returns (s: Sum)
    requires SymbolsSpelled(ts) && forall k :: 0 <= k < |ts| ==> !ts[k].kind.EndOfInput?
    requires ParseTokens(ts + [END]) == Some(e)
    ensures SumOk(s) && SumTokens(s) == ts && SumExpr(s) == e
  {
    hide SumOk, SumTokens, SumExpr, ParseSum;
    s := SumSound(ts + [END], 0);
    WholeInput(ts, ParseSum(ts + [END], 0).value.1);
  }

  lemma SentenceIsAccepted(ts: seq<Token>, s: Sum)
    requires SumOk(s) && SumTokens(s) == ts
    ensures ParseTokens(ts + [END]) == Some(SumExpr(s))
  {
    hide SumOk, SumTokens, SumExpr, ParseSum;
    var all := ts + [END];
    assert Occurs(all, 0, SumTokens(s)) by { assert all[0..|ts|] == ts; }
    SumComplete(all, 0, s);
    SumEnd(all, |ts|, SumExpr(s));
  }

  lemma WholeInput(ts: seq<Token>, q: nat)
    requires forall k :: 0 <= k < |ts| ==> !ts[k].kind.EndOfInput?
    requires var all := ts + [END]; Consumed(all, 0, q) && KindAt(all, q).EndOfInput?
    ensures q == |ts| && (ts + [END])[0..q] == ts
  {
    var all := ts + [END];
    assert all[|ts|] == END;
    assert forall k :: 0 <= k < |ts| ==> all[k] == ts[k];
  }
}
