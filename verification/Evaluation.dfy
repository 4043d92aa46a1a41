// Model of db/internal/dbsp/expr/eval.go. EvalContext is updated in place as in the
// source; Eval reads its contents as a value.
module Evaluation {
  import opened Outcomes
  import opened Values
  import opened Syntax
  import opened Builtins
  import opened Sequences

  // What an evaluation context holds.
  datatype Env = Env(vars: map<string, Value>, cols: map<string, Value>)

  const EMPTY := Env(map[], map[])

  type uint64 = x: int | 0 <= x < 0x1_0000_0000_0000_0000
  type int32 = x: int | -0x8000_0000 <= x < 0x8000_0000
  type uint32 = x: int | 0 <= x < 0x1_0000_0000

  // A dynamically typed column value. SmallInt stands for the integer types that the
  // source does not accept as sharding values, Opaque for everything else.
  datatype Datum =
    | Int64(i: int64)
    | Int(i: int64)
    | Uint64(u: uint64)
    | Int32(n: int32)
    | Uint32(m: uint32)
    | Text(s: string)
    | Null
    | SmallInt(n8: int32)
    | Opaque(id: nat)

  type Fields = map<string, Datum>

  // anyToValue
  function Convert(d: Datum): Result<Value>
  {
    match d
    case Int64(i) => Ok(IntValue(i))
    case Int(i) => Ok(IntValue(i))
    case Uint64(u) => Ok(IntValue(Wrap(u)))
    case Int32(n) => Ok(IntValue(n))
    case Uint32(m) => Ok(IntValue(m))
    case Text(s) => Ok(StrValue(s))
    case _ => Err(UnsupportedType)
  }

  predicate Loadable(fields: Fields) { forall c :: c in fields ==> Convert(fields[c]).Ok? }

  function Loaded(fields: Fields): map<string, Value>
    requires Loadable(fields)
  {
    map c | c in fields :: Convert(fields[c]).value
  }

  // ---- evaluation ----

  function Eval(e: Expr, env: Env): Result<Value>
    decreases e, 1
  {
    match e
    case IntLit(v) => Ok(IntValue(v))
    case StrLit(s) => Ok(StrValue(s))
    case ColRef(c) => if c in env.cols then Ok(env.cols[c]) else Err(MissingColumn(c))
    case VarRef(v) => if v in env.vars then Ok(env.vars[v]) else Err(UndefinedVariable(v))
    case BinaryOp(op, l, r) =>
      (match Eval(l, env)
       case Err(x) => Err(x)
       case Ok(a) => match Eval(r, env) case Err(x) => Err(x) case Ok(b) => Operate(op, a, b))
    case FuncCall(f, args) =>
      (match EvalAll(args, env) case Err(x) => Err(x) case Ok(vs) => Apply(f, vs))
  }

  function EvalAll(es: seq<Expr>, env: Env): (r: Result<seq<Value>>)
    decreases es, 0
  {
    if es == [] then Ok([])
    else
      match Eval(es[0], env)
      case Err(x) => Err(x)
      case Ok(v) => match EvalAll(es[1..], env) case Err(x) => Err(x) case Ok(vs) => Ok([v] + vs)
  }

  // collectVarRefsFromExpr and collectColRefsFromExpr, in db/internal/dbsp/expr/expand.go.
  function VarRefs(e: Expr): seq<string>
    decreases e, 1
  {
    match e
    case VarRef(v) => [v]
    case BinaryOp(_, l, r) => VarRefs(l) + VarRefs(r)
    case FuncCall(_, args) => AllVarRefs(args)
    case _ => []
  }

  function AllVarRefs(es: seq<Expr>): seq<string>
    decreases es, 0
  {
    if es == [] then [] else VarRefs(es[0]) + AllVarRefs(es[1..])
  }

  function ColRefs(e: Expr): seq<string>
    decreases e, 1
  {
    match e
    case ColRef(c) => [c]
    case BinaryOp(_, l, r) => ColRefs(l) + ColRefs(r)
    case FuncCall(_, args) => AllColRefs(args)
    case _ => []
  }

  function AllColRefs(es: seq<Expr>): seq<string>
    decreases es, 0
  {
    if es == [] then [] else ColRefs(es[0]) + AllColRefs(es[1..])
  }

  // ---- evaluation reads exactly the references collected ----

  lemma {:induction false} EvalReadsOnlyRefs(e: Expr, a: Env, b: Env)
    requires Agree(Elements(VarRefs(e)), a.vars, b.vars) && Agree(Elements(ColRefs(e)), a.cols, b.cols)
    ensures Eval(e, a) == Eval(e, b)
    decreases e, 1
  {
    match e
    case ColRef(c) => assert c in Elements(ColRefs(e));
    case VarRef(v) => assert v in Elements(VarRefs(e));
    case BinaryOp(_, l, r) =>
      EvalReadsOnlyRefs(l, a, b);
      EvalReadsOnlyRefs(r, a, b);
    case FuncCall(_, args) => EvalAllReadsOnlyRefs(args, a, b);
    case _ =>
  }

  lemma {:induction false} EvalAllReadsOnlyRefs(es: seq<Expr>, a: Env, b: Env)
    requires Agree(Elements(AllVarRefs(es)), a.vars, b.vars) && Agree(Elements(AllColRefs(es)), a.cols, b.cols)
    ensures EvalAll(es, a) == EvalAll(es, b)
    decreases es, 0
  {
    if es != [] {
      EvalReadsOnlyRefs(es[0], a, b);
      EvalAllReadsOnlyRefs(es[1..], a, b);
    }
  }

  // Evaluation is strict: it succeeds only when every reference is bound, and blames a
  // missing column only when one of those it reads is missing.
  lemma {:induction false} EvalIsStrict(e: Expr, env: Env)
    ensures Eval(e, env).Ok? ==> Elements(VarRefs(e)) <= env.vars.Keys && Elements(ColRefs(e)) <= env.cols.Keys
    ensures forall c :: Eval(e, env) == Err(MissingColumn(c)) ==> c in ColRefs(e) && c !in env.cols
    decreases e, 1
  {
    match e
    case BinaryOp(op, l, r) =>
      EvalIsStrict(l, env);
      EvalIsStrict(r, env);
    case FuncCall(_, args) => EvalAllIsStrict(args, env);
    case _ =>
  }

  lemma {:induction false} EvalAllIsStrict(es: seq<Expr>, env: Env)
    ensures EvalAll(es, env).Ok? ==>
            Elements(AllVarRefs(es)) <= env.vars.Keys && Elements(AllColRefs(es)) <= env.cols.Keys
    ensures forall c :: EvalAll(es, env) == Err(MissingColumn(c)) ==> c in AllColRefs(es) && c !in env.cols
    decreases es, 0
  {
    if es != [] {
      EvalIsStrict(es[0], env);
      EvalAllIsStrict(es[1..], env);
    }
  }

  lemma EvalSingle(a: Expr, env: Env)
    ensures EvalAll([a], env) == match Eval(a, env) case Err(x) => Err(x) case Ok(v) => Ok([v])
  {
    assert [a][0] == a && [a][1..] == [];
    assert EvalAll([a][1..], env) == Ok([]);
    if Eval(a, env).Ok? {
      assert [Eval(a, env).value] + [] == [Eval(a, env).value];
    }
  }

  lemma EvalPair(a: Expr, b: Expr, env: Env)
    requires Eval(a, env).Ok? && Eval(b, env).Ok?
    ensures EvalAll([a, b], env) == Ok([Eval(a, env).value, Eval(b, env).value])
  {
    EvalSingle(b, env);
    assert [a, b][0] == a && [a, b][1..] == [b];
    var va, vb := Eval(a, env).value, Eval(b, env).value;
    assert [va] + [vb] == [va, vb];
  }

  lemma PairFails(a: Expr, b: Expr, env: Env)
    requires Eval(a, env).Err?
    ensures EvalAll([a, b], env).Err?
  {
    assert [a, b][0] == a;
  }

  // ---- the context object ----

  lemma MergeStep(from: map<string, Value>, todo: set<string>, k: string, base: map<string, Value>)
    requires k in todo && todo <= from.Keys
    ensures var merged := (from - todo) + base;
            (from - (todo - {k})) + base == if k in merged then merged else merged[k := from[k]]
  {
  }

  class EvalContext {
    var vars: map<string, Value>
    var cols: map<string, Value>

    ghost function Contents(): Env reads this { Env(vars, cols) }

    constructor ()
      ensures Contents() == EMPTY
    {
      vars := map[];
      cols := map[];
    }

    method SetVar(name: string, v: Value)
      modifies this
      ensures vars == old(vars)[name := v] && cols == old(cols)
    {
      vars := vars[name := v];
    }

    method SetCol(name: string, v: Value)
      modifies this
      ensures cols == old(cols)[name := v] && vars == old(vars)
    {
      cols := cols[name := v];
    }

    // Entries already present in the target win, also when the two are one object.
    method CopyTo(target: EvalContext)
      modifies target
      ensures target.vars == old(vars) + old(target.vars)
      ensures target.cols == old(cols) + old(target.cols)
    {
      var from := vars;
      var todo := from.Keys;
      while todo != {}
        invariant todo <= from.Keys && cols == old(cols) && target.cols == old(target.cols)
        invariant target.vars == (from - todo) + old(target.vars)
        decreases todo
      {
        var k :| k in todo;
        if k !in target.vars {
          target.vars := target.vars[k := from[k]];
        }
        MergeStep(from, todo, k, old(target.vars));
        todo := todo - {k};
      }
      assert from - {} == from;
      CopyColsTo(target);
    }

    method CopyColsTo(target: EvalContext)
      modifies target`cols
      ensures target.cols == old(cols) + old(target.cols)
    {
      var from := cols;
      var todo := from.Keys;
      while todo != {}
        invariant todo <= from.Keys
        invariant target.cols == (from - todo) + old(target.cols)
        decreases todo
      {
        var k :| k in todo;
        if k !in target.cols {
          target.cols := target.cols[k := from[k]];
        }
        MergeStep(from, todo, k, old(target.cols));
        todo := todo - {k};
      }
      assert from - {} == from;
    }

    // Fails exactly when some field has an unsupported type, whatever the order in
    // which the fields are visited.
    method LoadColumnsFromMap(fields: Fields) returns (ok: bool)
      modifies this
      ensures vars == old(vars)
      ensures ok <==> Loadable(fields)
      ensures ok ==> cols == old(cols) + Loaded(fields)
    {
      var todo := fields.Keys;
      while todo != {}
        invariant todo <= fields.Keys && vars == old(vars)
        invariant Loadable(fields - todo) && cols == old(cols) + Loaded(fields - todo)
        decreases todo
      {
        var c :| c in todo;
        todo := todo - {c};
        match Convert(fields[c]) {
          case Err(_) => return false;
          case Ok(v) => SetCol(c, v);
        }
      }
      ok := true;
      assert fields - {} == fields;
    }
  }
}
