// Model of db/internal/dbsp/sharding_expr_rule.go: rules that turn a sharding key into
// a database key or a table name, and that enumerate the names in advance.
module ShardRules {
  import opened Outcomes
  import opened Values
  import opened Syntax
  import opened Sequences
  import opened Evaluation
  import opened Expansion
  import opened ExpandParsing
  import opened Templates

  // A database rule from expressions, or one bound to a transaction's target
  // (txBoundDbRule in db/internal/dbsp/sharding_factory.go).
  datatype DbRule =
    | ExprDb(tmpl: Template, expands: ExpandSet)
    | TxBound(rule: DbRule, target: string)

  datatype TableRule = TableRule(tmpl: Template, expands: ExpandSet, indexVar: string, count: int)

  // ---- running the computations ----

  function Define(env: Env, name: string, v: Value): Env { env.(vars := env.vars[name := v]) }

  // In sequence, stopping at the first failure.
  function RunStrict(cs: seq<Compute>, env: Env): Result<Env>
  {
    if cs == [] then Ok(env)
    else
      var last := cs[|cs| - 1];
      match RunStrict(cs[..|cs| - 1], env)
      case Err(x) => Err(x)
      case Ok(before) =>
        match Eval(last.expr, before) case Err(x) => Err(x) case Ok(v) => Ok(Define(before, last.name, v))
  }

  // In sequence, skipping what fails.
  function RunSkipping(cs: seq<Compute>, env: Env): Env
  {
    if cs == [] then env
    else
      var last := cs[|cs| - 1];
      var before := RunSkipping(cs[..|cs| - 1], env);
      match Eval(last.expr, before) case Err(_) => before case Ok(v) => Define(before, last.name, v)
  }

  lemma {:induction false} StrictStuck(cs: seq<Compute>, env: Env, k: nat)
    requires k <= |cs| && RunStrict(cs[..k], env).Err?
    ensures RunStrict(cs, env) == RunStrict(cs[..k], env)
    decreases |cs| - k
  {
    if k < |cs| {
      assert cs[..k + 1][..k] == cs[..k];
      StrictStuck(cs, env, k + 1);
    } else {
      assert cs[..k] == cs;
    }
  }

  method RunAll(cs: seq<Compute>, ctx: EvalContext) returns (failure: Option<Error>)
    modifies ctx
    ensures match RunStrict(cs, old(ctx.Contents()))
            case Err(x) => failure == Some(x)
            case Ok(env) => failure == None && ctx.Contents() == env
  {
    for i := 0 to |cs|
      invariant RunStrict(cs[..i], old(ctx.Contents())) == Ok(ctx.Contents())
    {
      assert cs[..i + 1][..i] == cs[..i];
      var v := Eval(cs[i].expr, Env(ctx.vars, ctx.cols));
      match v {
        case Err(x) =>
          StrictStuck(cs, old(ctx.Contents()), i + 1);
          return Some(x);
        case Ok(value) => ctx.SetVar(cs[i].name, value);
      }
    }
    assert cs[..|cs|] == cs;
    return None;
  }

  method RunSatisfiable(cs: seq<Compute>, ctx: EvalContext)
    modifies ctx
    ensures ctx.Contents() == RunSkipping(cs, old(ctx.Contents()))
  {
    for i := 0 to |cs|
      invariant ctx.Contents() == RunSkipping(cs[..i], old(ctx.Contents()))
    {
      assert cs[..i + 1][..i] == cs[..i];
      var v := Eval(cs[i].expr, Env(ctx.vars, ctx.cols));
      match v {
        case Err(_) => continue;
        case Ok(value) => ctx.SetVar(cs[i].name, value);
      }
    }
    assert cs[..|cs|] == cs;
  }

  // ---- resolving a key ----

  function Resolve(tmpl: Template, cs: seq<Compute>, vars: map<string, Value>, fields: Fields): Result<string>
  {
    if !Loadable(fields) then Err(UnsupportedType)
    else
      match RunStrict(cs, Env(vars, Loaded(fields)))
      case Err(x) => Err(x)
      case Ok(env) => Render(tmpl, env.vars)
  }

  function ResolveDb(rule: DbRule, key: Option<Fields>): Result<string>
  {
    match rule
    case ExprDb(tmpl, expands) =>
      if key.None? then Err(KeyRequired) else Resolve(tmpl, expands.computes, map[], key.value)
    case TxBound(inner, target) =>
      match ResolveDb(inner, key)
      case Err(x) => Err(x)
      case Ok(got) => if got == target then Ok(got) else Err(CrossShard)
  }

  function ResolveTable(rule: TableRule, table: string, key: Option<Fields>): Result<string>
  {
    if key.None? then Err(KeyRequired)
    else Resolve(rule.tmpl, rule.expands.computes, map["table" := StrValue(table)], key.value)
  }

  function DbColumns(rule: DbRule): seq<string>
  {
    match rule
    case ExprDb(_, expands) => RequiredColumns(expands.computes)
    case TxBound(inner, _) => DbColumns(inner)
  }

  function TableColumns(rule: TableRule): seq<string> { RequiredColumns(rule.expands.computes) }

  method ResolveDatabaseTargetKey(rule: DbRule, key: Option<Fields>) returns (r: Result<string>)
    ensures r == ResolveDb(rule, key)
    decreases rule
  {
    match rule {
      case TxBound(inner, target) =>
        var got := ResolveDatabaseTargetKey(inner, key);
        match got {
          case Err(_) => return got;
          case Ok(name) => return if name == target then got else Err(CrossShard);
        }
      case ExprDb(tmpl, expands) =>
        if key.None? { return Err(KeyRequired); }
        var ctx := new EvalContext();
        var loaded := ctx.LoadColumnsFromMap(key.value);
        if !loaded { return Err(UnsupportedType); }
        assert map[] + Loaded(key.value) == Loaded(key.value);
        var failure := RunAll(expands.computes, ctx);
        if failure.Some? { return Err(failure.value); }
        r := RenderTemplate(tmpl, ctx.vars);
    }
  }

  method ResolvePhysicalTable(rule: TableRule, table: string, key: Option<Fields>) returns (r: Result<string>)
    ensures r == ResolveTable(rule, table, key)
  {
    if key.None? { return Err(KeyRequired); }
    var ctx := new EvalContext();
    ctx.SetVar("table", StrValue(table));
    var loaded := ctx.LoadColumnsFromMap(key.value);
    if !loaded { return Err(UnsupportedType); }
    assert map[] + Loaded(key.value) == Loaded(key.value);
    var failure := RunAll(rule.expands.computes, ctx);
    if failure.Some? { return Err(failure.value); }
    r := RenderTemplate(rule.tmpl, ctx.vars);
  }

  // ---- enumerating tables ----

  predicate FirstOfKind(ds: seq<Decl>, k: nat, wantRange: bool)
  {
    k < |ds| && ds[k].RangeDecl? == wantRange && forall j :: 0 <= j < k ==> ds[j].RangeDecl? != wantRange
  }

  // The index variable is the first range, or the first enum when there is no range.
  ghost predicate IndexedBy(ds: seq<Decl>, k: nat)
  {
    FirstOfKind(ds, k, true) || (FirstOfKind(ds, k, false) && forall d :: d in ds ==> d.EnumDecl?)
  }

  function ShardsOf(d: Decl): int
  {
    match d
    case EnumDecl(_, values) => |values|
    case RangeDecl(_, start, end) => Wrap(end - start)
  }

  ghost predicate RuleOk(rule: TableRule)
  {
    var ds := rule.expands.decls;
    && DeclNamesDiffer(ds)
    && (forall k :: 0 <= k < |ds| ==> DeclOk(ds[k]))
    && (ds == [] ==> rule.indexVar == "" && rule.count == 0)
    && (forall k: nat :: IndexedBy(ds, k) ==> rule.indexVar == ds[k].name && rule.count == ShardsOf(ds[k]))
  }

  // A declaration named "" cannot come out of parsing, so "" means none was found.
  method NewExprTableRule(tmpl: Template, expands: ExpandSet) returns (rule: TableRule)
    requires DeclNamesDiffer(expands.decls)
    requires forall k :: 0 <= k < |expands.decls| ==> DeclOk(expands.decls[k]) && expands.decls[k].name != ""
    ensures rule.tmpl == tmpl && rule.expands == expands && RuleOk(rule)
  {
    var ds := expands.decls;
    var indexVar, count := "", 0;
    for i := 0 to |ds|
      invariant indexVar == "" && count == 0 && forall j :: 0 <= j < i ==> ds[j].EnumDecl?
    {
      if ds[i].RangeDecl? {
        rule := TableRule(tmpl, expands, ds[i].name, ShardsOf(ds[i]));
        assert FirstOfKind(ds, i, true);
        return;
      }
    }
    for i := 0 to |ds|
      invariant indexVar == "" && count == 0 && forall j :: 0 <= j < i ==> ds[j].RangeDecl?
    {
      if ds[i].EnumDecl? {
        rule := TableRule(tmpl, expands, ds[i].name, ShardsOf(ds[i]));
        return;
      }
    }
    rule := TableRule(tmpl, expands, indexVar, count);
  }

  // The first declaration of the index variable.
  function IndexDecl(ds: seq<Decl>, name: string): Option<Decl>
  {
    if ds == [] then None else if ds[0].name == name then Some(ds[0]) else IndexDecl(ds[1..], name)
  }

  function ShardEnv(rule: TableRule, table: string, index: nat): Env
  {
    var env := Env(map["table" := StrValue(table)], map[]);
    match IndexDecl(rule.expands.decls, rule.indexVar)
    case None => env
    case Some(EnumDecl(_, values)) =>
      if index < |values| then
        Env(env.vars[rule.indexVar := StrValue(values[index])], map[rule.indexVar := StrValue(values[index])])
      else env
    case Some(RangeDecl(_, start, _)) => Define(env, rule.indexVar, IntValue(Wrap(start + index)))
  }

  function ShardName(rule: TableRule, table: string, index: int): Result<string>
  {
    if index < 0 || index >= rule.count then Err(IndexOutOfRange)
    else Render(rule.tmpl, RunSkipping(rule.expands.computes, ShardEnv(rule, table, index)).vars)
  }

  method EnumerateShardName(rule: TableRule, table: string, index: int) returns (r: Result<string>)
    requires RuleOk(rule)
    ensures r == ShardName(rule, table, index)
  {
    hide RunSkipping, Render, RuleOk, Wrap;
    if index < 0 || index >= rule.count { return Err(IndexOutOfRange); }
    var ctx := new EvalContext();
    ctx.SetVar("table", StrValue(table));
    var ds := rule.expands.decls;
    var i := 0;
    while i < |ds|
      invariant i <= |ds| && ctx.Contents() == Env(map["table" := StrValue(table)], map[])
      invariant IndexDecl(ds, rule.indexVar) == IndexDecl(ds[i..], rule.indexVar)
    {
      if ds[i].name == rule.indexVar {
        IndexWithin(rule, i);
        match ds[i] {
          case EnumDecl(_, values) =>
            ctx.SetVar(rule.indexVar, StrValue(values[index]));
            ctx.SetCol(rule.indexVar, StrValue(values[index]));
          case RangeDecl(_, start, _) =>
            ctx.SetVar(rule.indexVar, IntValue(Wrap(start + index)));
        }
        break;
      }
      assert ds[i + 1..] == ds[i..][1..];
      i := i + 1;
    }
    assert ctx.Contents() == ShardEnv(rule, table, index);
    RunSatisfiable(rule.expands.computes, ctx);
    r := RenderTemplate(rule.tmpl, ctx.vars);
  }

  lemma IndexExists(ds: seq<Decl>) returns (k: nat)
    requires ds != []
    ensures IndexedBy(ds, k)
  {
    if i: nat :| i < |ds| && ds[i].RangeDecl? {
      k := FirstRange(ds, 0, i);
    } else {
      k := 0;
    }
  }

  lemma FirstRange(ds: seq<Decl>, from: nat, i: nat) returns (k: nat)
    requires from <= i < |ds| && ds[i].RangeDecl? && forall j :: 0 <= j < from ==> ds[j].EnumDecl?
    ensures FirstOfKind(ds, k, true)
    decreases i - from
  {
    if ds[from].RangeDecl? { k := from; } else { k := FirstRange(ds, from + 1, i); }
  }

  lemma SameDecl(ds: seq<Decl>, i: nat, k: nat)
    requires DeclNamesDiffer(ds) && i < |ds| && k < |ds| && ds[i].name == ds[k].name
    ensures i == k
  {
  }

  // The shard count is the number of values of the declaration of the index variable.
  lemma IndexWithin(rule: TableRule, i: nat)
    requires RuleOk(rule) && i < |rule.expands.decls| && rule.expands.decls[i].name == rule.indexVar
    ensures rule.count == ShardsOf(rule.expands.decls[i])
  {
    var ds := rule.expands.decls;
    var k := IndexExists(ds);
    SameDecl(ds, i, k);
  }

  // ---- enumerating databases ----

  function DeclValues(d: Decl): seq<Value>
    requires DeclOk(d)
  {
    match d
    case EnumDecl(_, values) => seq(|values|, k requires 0 <= k < |values| => StrValue(values[k]))
    case RangeDecl(_, start, end) =>
      seq(end - start, k requires 0 <= k < end - start => IntValue(start + k))
  }

  function Bound(env: Env, name: string, v: Value): Env { Env(env.vars[name := v], env.cols[name := v]) }

  // The name of the database that a full choice of declared values denotes.
  function NameIn(tmpl: Template, cs: seq<Compute>, env: Env): Result<string>
  {
    Render(tmpl, RunSkipping(cs, env).vars)
  }

  function Names(tmpl: Template, cs: seq<Compute>, env: Env, ds: seq<Decl>): Result<seq<string>>
    requires forall k :: 0 <= k < |ds| ==> DeclOk(ds[k])
    decreases |ds|, 0
  {
    if ds == [] then
      match NameIn(tmpl, cs, env) case Err(x) => Err(x) case Ok(name) => Ok([name])
    else NamesFor(tmpl, cs, env, ds, |DeclValues(ds[0])|)
  }

  // The names for the first n values of the first declaration.
  function NamesFor(tmpl: Template, cs: seq<Compute>, env: Env, ds: seq<Decl>, n: nat): Result<seq<string>>
    requires ds != [] && forall k :: 0 <= k < |ds| ==> DeclOk(ds[k])
    requires n <= |DeclValues(ds[0])|
    decreases |ds| - 1, 1, n
  {
    if n == 0 then Ok([])
    else
      match NamesFor(tmpl, cs, env, ds, n - 1)
      case Err(x) => Err(x)
      case Ok(front) =>
        match Names(tmpl, cs, Bound(env, ds[0].name, DeclValues(ds[0])[n - 1]), ds[1..])
        case Err(x) => Err(x)
        case Ok(more) => Ok(front + more)
  }

  lemma {:induction false} NamesStuck(tmpl: Template, cs: seq<Compute>, env: Env, ds: seq<Decl>, k: nat, n: nat)
    requires ds != [] && forall k :: 0 <= k < |ds| ==> DeclOk(ds[k])
    requires k <= n <= |DeclValues(ds[0])| && NamesFor(tmpl, cs, env, ds, k).Err?
    ensures NamesFor(tmpl, cs, env, ds, n) == NamesFor(tmpl, cs, env, ds, k)
    decreases n - k
  {
    if k < n { NamesStuck(tmpl, cs, env, ds, k, n - 1); }
  }

  lemma NamesOfNone(tmpl: Template, cs: seq<Compute>, env: Env, ds: seq<Decl>)
    requires ds == []
    ensures Names(tmpl, cs, env, ds) ==
            match Render(tmpl, RunSkipping(cs, env).vars) case Err(x) => Err(x) case Ok(name) => Ok([name])
  {
  }

  lemma NamesByFirst(tmpl: Template, cs: seq<Compute>, env: Env, ds: seq<Decl>)
    requires ds != [] && forall k :: 0 <= k < |ds| ==> DeclOk(ds[k])
    ensures NamesFor(tmpl, cs, env, ds, 0) == Ok([])
    ensures Names(tmpl, cs, env, ds) == NamesFor(tmpl, cs, env, ds, |DeclValues(ds[0])|)
  {
  }

  lemma NamesForNext(tmpl: Template, cs: seq<Compute>, env: Env, ds: seq<Decl>, i: nat)
    requires ds != [] && forall k :: 0 <= k < |ds| ==> DeclOk(ds[k])
    requires i < |DeclValues(ds[0])| && NamesFor(tmpl, cs, env, ds, i).Ok?
    ensures NamesFor(tmpl, cs, env, ds, i + 1) ==
            match Names(tmpl, cs, Bound(env, ds[0].name, DeclValues(ds[0])[i]), ds[1..])
            case Err(x) => Err(x)
            case Ok(more) => Ok(NamesFor(tmpl, cs, env, ds, i).value + more)
  {
  }

  method EnumerateNamesRecursive(tmpl: Template, cs: seq<Compute>, ctx: EvalContext, ds: seq<Decl>)
      returns (r: Result<seq<string>>)
    requires forall k :: 0 <= k < |ds| ==> DeclOk(ds[k])
    modifies ctx
    ensures r == Names(tmpl, cs, old(ctx.Contents()), ds)
    ensures ds != [] ==> ctx.Contents() == old(ctx.Contents())
    decreases |ds|
  {
    hide RunSkipping, Render, NameIn, Names, NamesFor;
    if ds == [] {
      NamesOfNone(tmpl, cs, ctx.Contents(), ds);
      RunSatisfiable(cs, ctx);
      var name := RenderTemplate(tmpl, ctx.vars);
      match name {
        case Err(x) => return Err(x);
        case Ok(text) => return Ok([text]);
      }
    }
    var values := DeclValues(ds[0]);
    var all: seq<string> := [];
    NamesByFirst(tmpl, cs, ctx.Contents(), ds);
    for i := 0 to |values|
      invariant ctx.Contents() == old(ctx.Contents())
      invariant NamesFor(tmpl, cs, ctx.Contents(), ds, i) == Ok(all)
    {
      var child := new EvalContext();
      child.SetVar(ds[0].name, values[i]);
      child.SetCol(ds[0].name, values[i]);
      ctx.CopyTo(child);
      assert child.Contents() == Bound(ctx.Contents(), ds[0].name, values[i]);
      NamesForNext(tmpl, cs, ctx.Contents(), ds, i);
      var more := EnumerateNamesRecursive(tmpl, cs, child, ds[1..]);
      match more {
        case Err(x) =>
          NamesStuck(tmpl, cs, ctx.Contents(), ds, i + 1, |values|);
          return Err(x);
        case Ok(names) => all := all + names;
      }
    }
    return Ok(all);
  }

  function DbNames(tmpl: Template, expands: ExpandSet): Result<seq<string>>
    requires forall k :: 0 <= k < |expands.decls| ==> DeclOk(expands.decls[k])
  {
    if expands.decls == [] then Err(NoDeclarations) else Names(tmpl, expands.computes, EMPTY, expands.decls)
  }

  method EnumerateDbNames(tmpl: Template, expands: ExpandSet) returns (r: Result<seq<string>>)
    requires forall k :: 0 <= k < |expands.decls| ==> DeclOk(expands.decls[k])
    ensures r == DbNames(tmpl, expands)
  {
    if expands.decls == [] { return Err(NoDeclarations); }
    var ctx := new EvalContext();
    r := EnumerateNamesRecursive(tmpl, expands.computes, ctx, expands.decls);
  }
}
