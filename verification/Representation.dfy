// Numbers and their decimal text are interchangeable in db/internal/dbsp: a sharding
// column may hold an id as an integer of any type or as text, and is routed alike.
module Representation {
  import opened Outcomes
  import opened Values
  import opened Syntax
  import opened Builtins
  import opened Sequences
  import opened Evaluation
  import opened Expansion
  import opened ExpandParsing
  import opened Templates
  import opened ShardRules
  import opened Queries
  import opened TableStore

  // One text. Which kind of value carries it can be told apart by nothing below.
  predicate Alike(v: Value, w: Value) { AsString(v) == AsString(w) }

  predicate AllAlike(vs: seq<Value>, ws: seq<Value>)
  {
    |vs| == |ws| && forall k :: 0 <= k < |vs| ==> Alike(vs[k], ws[k])
  }

  // Both fail alike, or both succeed with values alike.
  predicate SameValueOut(a: Result<Value>, b: Result<Value>)
  {
    match (a, b) case (Ok(v), Ok(w)) => Alike(v, w) case (Err(x), Err(y)) => x == y case _ => false
  }

  predicate MapsAlike(m: map<string, Value>, n: map<string, Value>)
  {
    m.Keys == n.Keys && forall k :: k in m ==> Alike(m[k], n[k])
  }

  predicate EnvsAlike(a: Env, b: Env) { MapsAlike(a.vars, b.vars) && MapsAlike(a.cols, b.cols) }

  // A value reads as what its text reads as.
  lemma ReadAlike(v: Value, w: Value)
    requires Alike(v, w)
    ensures AsInt(v) == AsInt(w)
  {
    TextReads(v);
    TextReads(w);
  }

  lemma TextReads(v: Value)
    ensures AsInt(v) == AsInt(StrValue(AsString(v)))
  {
    if v.IntValue? { ParseFormat(v.i); }
  }

  lemma {:induction false} ConcatAlike(vs: seq<Value>, ws: seq<Value>)
    requires AllAlike(vs, ws)
    ensures Concat(vs) == Concat(ws)
  {
    hide AsString;
    if vs != [] {
      assert Alike(vs[0], ws[0]);
      assert forall k :: 0 <= k < |vs| - 1 ==> vs[1..][k] == vs[k + 1] && ws[1..][k] == ws[k + 1];
      ConcatAlike(vs[1..], ws[1..]);
    }
  }

  // No built-in function and no operator tells values that are alike apart.
  lemma AppliedAlike(f: string, vs: seq<Value>, ws: seq<Value>)
    requires AllAlike(vs, ws)
    ensures Apply(f, vs) == Apply(f, ws)
  {
    hide AsInt, AsString, Fill, Mod, Quotient, Concat, Fnv1a, Utf8, Lower, Upper;
    ConcatAlike(vs, ws);
    if |vs| > 0 { ReadAlike(vs[0], ws[0]); }
    if |vs| > 1 { ReadAlike(vs[1], ws[1]); }
  }

  lemma {:induction false} EvaluatedAlike(e: Expr, a: Env, b: Env)
    requires EnvsAlike(a, b)
    ensures SameValueOut(Eval(e, a), Eval(e, b))
    decreases e, 1
  {
    hide AsInt, AsString, Apply;
    match e
    case BinaryOp(op, l, r) =>
      EvaluatedAlike(l, a, b);
      EvaluatedAlike(r, a, b);
      if Eval(l, a).Ok? { ReadAlike(Eval(l, a).value, Eval(l, b).value); }
      if Eval(r, a).Ok? { ReadAlike(Eval(r, a).value, Eval(r, b).value); }
    case FuncCall(f, args) =>
      AllEvaluatedAlike(args, a, b);
      if EvalAll(args, a).Ok? { AppliedAlike(f, EvalAll(args, a).value, EvalAll(args, b).value); }
    case _ =>
  }

  lemma {:induction false} AllEvaluatedAlike(es: seq<Expr>, a: Env, b: Env)
    requires EnvsAlike(a, b)
    ensures match (EvalAll(es, a), EvalAll(es, b))
            case (Ok(vs), Ok(ws)) => AllAlike(vs, ws)
            case (Err(x), Err(y)) => x == y
            case _ => false
    decreases es, 0
  {
    hide AsInt, AsString, Apply;
    if es != [] {
      EvaluatedAlike(es[0], a, b);
      AllEvaluatedAlike(es[1..], a, b);
    }
  }

  predicate SameRunOut(a: Result<Env>, b: Result<Env>)
  {
    match (a, b) case (Ok(x), Ok(y)) => EnvsAlike(x, y) case (Err(x), Err(y)) => x == y case _ => false
  }

  lemma {:induction false} RunAlike(cs: seq<Compute>, a: Env, b: Env)
    requires EnvsAlike(a, b)
    ensures SameRunOut(RunStrict(cs, a), RunStrict(cs, b))
  {
    hide AsString, Eval;
    if cs != [] {
      var n := |cs| - 1;
      RunAlike(cs[..n], a, b);
      if RunStrict(cs[..n], a).Ok? {
        EvaluatedAlike(cs[n].expr, RunStrict(cs[..n], a).value, RunStrict(cs[..n], b).value);
      }
    }
  }

  lemma {:induction false} RenderedAlike(t: Template, a: map<string, Value>, b: map<string, Value>)
    requires MapsAlike(a, b)
    ensures Render(t, a) == Render(t, b)
  {
    hide AsString;
    if t != [] { RenderedAlike(t[..|t| - 1], a, b); }
  }

  // ---- keys ----

  // The same columns, holding the same numbers or texts.
  predicate KeysAlike(f: Fields, g: Fields)
  {
    f.Keys == g.Keys && Loadable(f) && Loadable(g) && MapsAlike(Loaded(f), Loaded(g))
  }

  lemma ResolvedAlike(t: Template, cs: seq<Compute>, vars: map<string, Value>, f: Fields, g: Fields)
    requires KeysAlike(f, g)
    ensures Resolve(t, cs, vars, f) == Resolve(t, cs, vars, g)
  {
    hide AsString, RunStrict, Render;
    var a, b := Env(vars, Loaded(f)), Env(vars, Loaded(g));
    RunAlike(cs, a, b);
    if RunStrict(cs, a).Ok? { RenderedAlike(t, RunStrict(cs, a).value.vars, RunStrict(cs, b).value.vars); }
  }

  lemma {:induction false} DbResolvedAlike(rule: DbRule, f: Fields, g: Fields)
    requires KeysAlike(f, g)
    ensures ResolveDb(rule, Some(f)) == ResolveDb(rule, Some(g))
  {
    hide KeysAlike, Resolve;
    match rule
    case ExprDb(tmpl, expands) => ResolvedAlike(tmpl, expands.computes, map[], f, g);
    case TxBound(inner, _) => DbResolvedAlike(inner, f, g);
  }

  // Whatever the rules: keys that hold the same numbers or texts lead to the same
  // database and table, or fail alike.
  lemma RepresentationDoesNotMatter(st: Store, f: Fields, g: Fields)
    requires KeysAlike(f, g)
    ensures TargetOf(st, f) == TargetOf(st, g)
  {
    hide KeysAlike, Resolve, ResolveDb;
    if st.dbRule.Some? { DbResolvedAlike(st.dbRule.value, f, g); }
    if st.tableRule.Some? {
      var rule := st.tableRule.value;
      ResolvedAlike(rule.tmpl, rule.expands.computes, map["table" := StrValue(st.table)], f, g);
    }
  }

  // For example, an id as an int64 and the same id as decimal text.
  lemma NumberOrText(st: Store, f: Fields, c: string, id: int64)
    requires Loadable(f)
    ensures TargetOf(st, f[c := Int64(id)]) == TargetOf(st, f[c := Text(FormatInt(id))])
  {
    hide TargetOf;
    RepresentationDoesNotMatter(st, f[c := Int64(id)], f[c := Text(FormatInt(id))]);
  }
}
