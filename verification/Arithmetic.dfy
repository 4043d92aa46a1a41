// What operators and built-in functions compute (db/internal/dbsp/expr/eval.go and
// functions.go), as laws about the values of expressions.
module Arithmetic {
  import opened Outcomes
  import opened Values
  import opened Syntax
  import opened Builtins
  import opened Evaluation

  // The expression has a value that can be read as this integer.
  predicate IntOf(e: Expr, env: Env, a: int64) { Eval(e, env).Ok? && AsInt(Eval(e, env).value) == Ok(a) }

  // The expression has an integer value: the one congruent to x modulo 2^64.
  predicate Yields(e: Expr, env: Env, x: int)
  {
    match Eval(e, env) case Ok(IntValue(c)) => (x - c) % TWO64 == 0 case _ => false
  }

  // Congruence modulo 2^64 leaves one int64.
  lemma YieldsOne(e: Expr, f: Expr, env: Env, x: int)
    requires Yields(e, env, x) && Yields(f, env, x)
    ensures Eval(e, env) == Eval(f, env)
  {
    hide Eval;
    OneResidue(x, Eval(e, env).value.i, Eval(f, env).value.i);
  }

  lemma OneResidue(x: int, c: int64, d: int64)
    requires (x - c) % TWO64 == 0 && (x - d) % TWO64 == 0
    ensures c == d
  {
    assert x - c == TWO64 * ((x - c) / TWO64);
    assert x - d == TWO64 * ((x - d) / TWO64);
  }

  lemma RingOperators(l: Expr, r: Expr, env: Env, a: int64, b: int64)
    requires IntOf(l, env, a) && IntOf(r, env, b)
    ensures Yields(BinaryOp(Plus, l, r), env, a + b)
    ensures Yields(BinaryOp(Minus, l, r), env, a - b)
    ensures Yields(BinaryOp(Star, l, r), env, a * b)
  {
    hide AsInt, Wrap, Quotient, Remainder;
    var product := a * b;
    assert Eval(BinaryOp(Star, l, r), env) == Ok(IntValue(Wrap(product)));
  }

  // ---- division ----

  // Quotient and remainder of division towards zero.
  predicate Divides(a: int, b: int, q: int, r: int)
  {
    a == b * q + r && Abs(r) < Abs(b) && (r == 0 || (r < 0 <==> a < 0))
  }

  lemma DivisionIsUnique(a: int, b: int, q: int, r: int, s: int, t: int)
    requires b != 0 && Divides(a, b, q, r) && Divides(a, b, s, t)
    ensures q == s && r == t
  {
    assert Abs(t - r) < Abs(b);
    SmallMultiple(b, q, s, t - r);
  }

  lemma SmallMultiple(b: int, q: int, s: int, d: int)
    requires b * q - b * s == d && Abs(d) < Abs(b)
    ensures q == s
  {
    var n: int := Abs(b);
    assert n * (q - s) == if b < 0 then 0 - d else d by {
      assert b * (q - s) == b * q - b * s;
      assert (0 - b) * (q - s) == 0 - b * (q - s);
    }
    if q > s { OneMultiple(n, q - s); }
    if q < s {
      assert n * (s - q) == 0 - n * (q - s);
      OneMultiple(n, s - q);
    }
  }

  lemma OneMultiple(n: nat, k: int)
    requires k >= 1
    ensures n * k >= n
  {
    assert n * k == n + n * (k - 1);
  }

  // Only the smallest integer divided by -1 wraps around.
  lemma DivisionOperators(l: Expr, r: Expr, env: Env, a: int64, b: int64) returns (q: int64, rem: int64)
    requires IntOf(l, env, a) && IntOf(r, env, b) && b != 0
    ensures Eval(BinaryOp(Slash, l, r), env) == Ok(IntValue(q))
    ensures Eval(BinaryOp(Percent, l, r), env) == Ok(IntValue(rem))
    ensures if a == -TWO63 && b == -1 then q == a && rem == 0 else Divides(a, b, q, rem)
  {
    hide AsInt;
    TruncatedDivision(a, b);
    QuotientFits(a, b);
    q, rem := Wrap(Quotient(a, b)), Wrap(Remainder(a, b));
  }

  lemma QuotientFits(a: int64, b: int64)
    requires b != 0
    ensures -TWO63 <= Remainder(a, b) < TWO63
    ensures if a == -TWO63 && b == -1 then Quotient(a, b) == TWO63 && Remainder(a, b) == 0
            else -TWO63 <= Quotient(a, b) < TWO63
  {
    TruncatedDivision(a, b);
    QuotientShrinks(Abs(a), Abs(b));
  }

  lemma QuotientShrinks(m: nat, n: nat)
    requires n > 0
    ensures if n == 1 then m / n == m else 2 * (m / n) <= m
  {
    var q: int := m / n;
    assert m == n * q + m % n;
    if n >= 2 { assert n * q == 2 * q + (n - 2) * q; }
  }

  // An operation has a value exactly when both operands read as integers, the operator
  // is one of the five, and nothing is divided by zero.
  lemma OperationSucceedsExactly(op: TokenKind, l: Expr, r: Expr, env: Env)
    ensures Eval(BinaryOp(op, l, r), env).Ok? <==>
            exists a, b ::
              && IntOf(l, env, a) && IntOf(r, env, b) && op in {Plus, Minus, Star, Slash, Percent}
              && (op in {Slash, Percent} ==> b != 0)
  {
    hide AsInt;
    if Eval(l, env).Ok? && Eval(r, env).Ok? && AsInt(Eval(l, env).value).Ok? && AsInt(Eval(r, env).value).Ok? {
      assert IntOf(l, env, AsInt(Eval(l, env).value).value) && IntOf(r, env, AsInt(Eval(r, env).value).value);
    }
  }

  // div is the operator, errors included.
  lemma DivIsSlash(l: Expr, r: Expr, env: Env)
    ensures Eval(FuncCall("div", [l, r]), env) == Eval(BinaryOp(Slash, l, r), env)
  {
    hide AsInt;
    EvalTwo(l, r, env);
  }

  lemma EvalTwo(l: Expr, r: Expr, env: Env)
    ensures EvalAll([l, r], env) ==
            match Eval(l, env)
            case Err(x) => Err(x)
            case Ok(a) => match Eval(r, env) case Err(x) => Err(x) case Ok(b) => Ok([a, b])
  {
    EvalSingle(r, env);
    assert [l, r][0] == l && [l, r][1..] == [r];
    if Eval(l, env).Ok? && Eval(r, env).Ok? { EvalPair(l, r, env); }
  }

  // mod(a, b) differs from a by a multiple of b, before wrapping. For positive b it is
  // the residue; for negative b it is at least b only when a is not negative.
  lemma ModOf(l: Expr, r: Expr, env: Env, a: int64, b: int64) returns (q: int, m: int)
    requires IntOf(l, env, a) && IntOf(r, env, b) && b != 0
    ensures a == b * q + m && Eval(FuncCall("mod", [l, r]), env) == Ok(IntValue(Wrap(m)))
    ensures if b > 0 then 0 <= m < b else if a >= 0 || m == 0 then 0 <= m < Abs(b) else 2 * b < m < b
  {
    hide AsInt, EvalAll;
    EvalTwo(l, r, env);
    TruncatedDivision(a, b);
    var rem := Remainder(a, b);
    if rem < 0 {
      assert b * (Quotient(a, b) - 1) == b * Quotient(a, b) - b;
      q, m := Quotient(a, b) - 1, rem + b;
    } else {
      q, m := Quotient(a, b), rem;
    }
  }

  // Division by zero has no value, in any of its forms.
  lemma ZeroDivides(l: Expr, r: Expr, env: Env)
    requires IntOf(r, env, 0)
    ensures Eval(BinaryOp(Slash, l, r), env).Err? && Eval(BinaryOp(Percent, l, r), env).Err?
    ensures Eval(FuncCall("div", [l, r]), env).Err? && Eval(FuncCall("mod", [l, r]), env).Err?
  {
    hide AsInt, EvalAll;
    EvalTwo(l, r, env);
  }
}
