// The table names of the rules that the guide of db documents, from the value in the
// sharding column to the last character.
module DocumentedNames {
  import opened Outcomes
  import opened Values
  import opened Syntax
  import opened Builtins
  import opened Sequences
  import opened Evaluation
  import opened Expansion
  import opened ExpandParsing
  import opened Templates
  import opened ShardRules
  import opened Agreement
  import opened Arithmetic
  import opened Padding
  import opened Enumeration
  import opened ScatterGather

  // What the first computation of a table rule reads.
  function KeyEnv(table: string, key: Fields): Env
    requires Loadable(key)
  {
    Env(map["table" := StrValue(table)], Loaded(key))
  }

  lemma DocumentedRun(e: Expr, n: int64, env: Env, x: int64)
    requires Eval(e, env) == Ok(IntValue(x))
    ensures RunStrict(DocumentedRule(e, n).expands.computes, env) ==
            Ok(Define(Define(env, "idx", IntValue(x)), "index", StrValue(Fill(x, 8))))
  {
    hide Eval, Fill;
    var cs := DocumentedRule(e, n).expands.computes;
    var first := Define(env, "idx", IntValue(x));
    assert cs[..1] == [Compute("idx", e)] && cs[..1][..0] == [];
    assert RunStrict(cs[..1][..0], env) == Ok(env);
    assert RunStrict(cs[..1], env) == Ok(first);
    EvalFill("idx", 8, first, x);
  }

  // The name is the prefix and the index, padded with zeros to eight characters.
  lemma DocumentedName(e: Expr, n: int64, table: string, key: Fields, x: int64)
    requires Loadable(key) && Eval(e, KeyEnv(table, key)) == Ok(IntValue(x))
    ensures ResolveTable(DocumentedRule(e, n), table, Some(key)) == Ok("order_tab_" + Fill(x, 8))
    ensures Signed(Fill(x, 8), x) && ParseInt(Fill(x, 8)) == Some(x) && |Fill(x, 8)| == Max(8, |FormatInt(x)|)
  {
    hide Eval, Fill, RunStrict, Render, FormatInt, ParseInt, Signed, Max;
    DocumentedRun(e, n, KeyEnv(table, key), x);
    var vars := Define(Define(KeyEnv(table, key), "idx", IntValue(x)), "index", StrValue(Fill(x, 8))).vars;
    RenderPrefixed("order_tab_", "index", vars);
    PaddedExactly(x, 8, Fill(x, 8));
  }

  // With `${idx} = mod(@{c}, n)`: the residue of the column's number, whether it is held
  // as an integer of any type or as text.
  lemma ModName(c: string, n: int64, table: string, key: Fields, a: int64)
    requires n > 0 && Loadable(key) && c in key && AsInt(Convert(key[c]).value) == Ok(a)
    ensures ResolveTable(DocumentedRule(FuncCall("mod", [ColRef(c), IntLit(n)]), n), table, Some(key)) ==
            Ok("order_tab_" + Fill(a % n, 8))
  {
    hide Fill, ResolveTable, AsInt;
    var env := KeyEnv(table, key);
    EvalPair(ColRef(c), IntLit(n), env);
    assert AsInt(IntValue(n)) == Ok(n) by { IntReads(n); }
    ModIsEuclidean(a, n);
    DocumentedName(FuncCall("mod", [ColRef(c), IntLit(n)]), n, table, key, a % n);
  }

  lemma IntReads(n: int64)
    ensures AsInt(IntValue(n)) == Ok(n)
  {
  }

  // With `${idx} = @{c} / m`: the column's number divided towards zero.
  lemma QuotientName(c: string, m: int64, n: int64, table: string, key: Fields, a: int64, q: int64)
    requires m > 0 && Loadable(key) && c in key && AsInt(Convert(key[c]).value) == Ok(a)
    requires exists r :: Divides(a, m, q, r)
    ensures ResolveTable(DocumentedRule(BinaryOp(Slash, ColRef(c), IntLit(m)), n), table, Some(key)) ==
            Ok("order_tab_" + Fill(q, 8))
  {
    hide Fill, ResolveTable, AsInt, Divides;
    var env := KeyEnv(table, key);
    var e := BinaryOp(Slash, ColRef(c), IntLit(m));
    IntReads(m);
    assert IntOf(ColRef(c), env, a) && IntOf(IntLit(m), env, m);
    var s, t := DivisionOperators(ColRef(c), IntLit(m), env, a, m);
    var r :| Divides(a, m, q, r);
    DivisionIsUnique(a, m, q, r, s, t);
    DocumentedName(e, n, table, key, q);
  }

  // With `${idx} = hash(@{c}) % n`: the hash of the column's text, reduced.
  lemma HashName(c: string, n: int64, table: string, key: Fields)
    requires n > 0 && Loadable(key) && c in key
    ensures var e := BinaryOp(Percent, FuncCall("hash", [ColRef(c)]), IntLit(n));
            ResolveTable(DocumentedRule(e, n), table, Some(key)) ==
            Ok("order_tab_" + Fill(Hash(Convert(key[c]).value) % n, 8))
  {
    hide Fill, ResolveTable, AsInt, Hash, Divides;
    var env := KeyEnv(table, key);
    var h, e := FuncCall("hash", [ColRef(c)]), BinaryOp(Percent, FuncCall("hash", [ColRef(c)]), IntLit(n));
    var v := Hash(Convert(key[c]).value);
    EvalSingle(ColRef(c), env);
    assert Eval(h, env) == Ok(IntValue(v));
    IntReads(v);
    IntReads(n);
    var q, r := DivisionOperators(h, IntLit(n), env, v, n);
    assert Divides(v, n, v / n, v % n) by { Residue(v, n); }
    DivisionIsUnique(v, n, v / n, v % n, q, r);
    DocumentedName(e, n, table, key, v % n);
  }

  lemma Residue(a: nat, n: nat)
    requires n > 0
    ensures Divides(a, n, a / n, a % n)
  {
  }
}
