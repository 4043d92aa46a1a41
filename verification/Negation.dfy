// Unary minus in db/internal/dbsp/expr/parser.go: what a minus in front of an operand
// does to its value, and which numbers can be written as literals.
module Negation {
  import opened Outcomes
  import opened Values
  import opened Syntax
  import opened Lexing
  import opened Parsing
  import opened Grammar
  import opened Builtins
  import opened Evaluation
  import opened Arithmetic

  // Wherever an operand has an integer value, a minus in front of its tokens gives the
  // opposite value, modulo 2^64.
  lemma MinusNegates(a: Atom, env: Env, v: int64)
    requires AtomOk(a) && IntOf(AtomExpr(a), env, v)
    ensures ParseTokens(AtomTokens(a) + [END]) == Some(AtomExpr(a))
    ensures var n := ParseTokens([Token(Minus, "-")] + AtomTokens(a) + [END]); n.Some? && Yields(n.value, env, 0 - v)
  {
    hide AtomOk, AtomTokens, ParseTokens;
    OperandParses(Plain(a));
    OperandParses(Minused(a));
    assert IntOf(IntLit(0), env, 0);
    RingOperators(IntLit(0), AtomExpr(a), env, 0, v);
  }

  lemma OperandParses(u: Unary)
    requires AtomOk(u.atom)
    ensures ParseTokens(UnaryTokens(u) + [END]) == Some(UnaryExpr(u))
  {
    hide UnaryTokens, UnaryExpr, ParseTokens;
    var p := OnlyUnary(u);
    assert ProductOk(p) && ProductTokens(p) == UnaryTokens(u) && ProductExpr(p) == UnaryExpr(u);
    SentenceIsAccepted(UnaryTokens(u), OnlyProduct(p));
  }

  // ---- literals ----

  lemma {:induction false} ScanToEnd(s: string, p: nat, chars: CharClass)
    requires p <= |s| && forall k :: p <= k < |s| ==> InClass(s[k], chars)
    ensures Scan(s, p, chars) == |s|
    decreases |s| - p
  {
    if p < |s| { ScanToEnd(s, p + 1, chars); }
  }

  // Digits up to the end of the text are one token.
  lemma DigitsToEnd(s: string, p: nat)
    requires p < |s| && forall k :: p <= k < |s| ==> IsDigit(s[k])
    ensures Tokens(s, p) == Some([Token(IntToken, s[p..]), END])
  {
    ScanToEnd(s, p, DecimalDigits);
    assert Scan(s, p, Spaces) == p && s[p..|s|] == s[p..];
    assert IsDigit(s[p]) && Scan(s, |s|, Spaces) == |s|;
    assert NextToken(s, p) == Some((Token(IntToken, s[p..]), |s|));
    assert Tokens(s, |s|) == Some([END]);
    assert [Token(IntToken, s[p..])] + [END] == [Token(IntToken, s[p..]), END];
  }

  lemma FormatTokens(v: int64)
    ensures var digits := Token(IntToken, Digits(Abs(v)));
            Tokens(FormatInt(v), 0) == Some((if v < 0 then [Token(Minus, "-"), digits] else [digits]) + [END])
  {
    hide Digits;
    var s := FormatInt(v);
    var digits := Token(IntToken, Digits(Abs(v)));
    if v < 0 {
      DigitsToEnd(s, 1);
      assert s[1..] == Digits(Abs(v));
      assert Scan(s, 0, Spaces) == 0 && NextToken(s, 0) == Some((Token(Minus, "-"), 1));
      assert [Token(Minus, "-")] + [digits, END] == [Token(Minus, "-"), digits] + [END];
    } else {
      DigitsToEnd(s, 0);
      assert s[0..] == s && [digits] + [END] == [digits, END];
    }
  }

  // The notation of a number parses to an expression with that value, for every number
  // but the smallest, whose digits alone are out of range.
  lemma NumbersCanBeWritten(v: int64, env: Env)
    ensures ParseText(FormatInt(v)).Some? <==> v != -TWO63
    ensures v != -TWO63 ==> Eval(ParseText(FormatInt(v)).value, env) == Ok(IntValue(v))
  {
    hide Digits, Tokens;
    FormatTokens(v);
    var digits := Token(IntToken, Digits(Abs(v)));
    LiteralValue(Abs(v));
    assert [Token(Minus, "-")] + [digits] + [END] == [Token(Minus, "-"), digits] + [END];
    if v == -TWO63 {
      var ts := [Token(Minus, "-"), digits, END];
      assert [Token(Minus, "-"), digits] + [END] == ts;
      assert ParsePrimary(ts, 1) == None && ParseUnary(ts, 0) == None;
      assert ParseProduct(ts, 0) == None && ParseTokens(ts) == None;
    } else if v < 0 {
      MinusNegates(Leaf(digits), env, 0 - v);
    } else {
      assert IntOf(IntLit(v), env, v);
      MinusNegates(Leaf(digits), env, v);
    }
  }

  lemma LiteralValue(n: nat)
    ensures ParseInt(Digits(n)) == if n < TWO63 then Some(n) else None
  {
    hide Digits;
    MagnitudeOfDigits(n);
    AfterSign(Digits(n));
  }
}
