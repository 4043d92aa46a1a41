// The two evaluators of db/internal/dbsp/sharding_expr_rule.go agree: the name a key
// resolves to, where every computation must succeed, and the name enumerated in
// advance, where failing computations are skipped.
module Agreement {
  import opened Outcomes
  import opened Values
  import opened Syntax
  import opened Builtins
  import opened Sequences
  import opened Evaluation
  import opened Expansion
  import opened ExpandParsing
  import opened Templates
  import opened ShardRules

  // ---- what enumeration can and cannot compute ----

  // Computation i reads no column, and no variable beyond the given ones and earlier
  // computations of the same kind.
  predicate Static(cs: seq<Compute>, i: nat, given: set<string>)
    requires i < |cs|
    decreases i
  {
    && ColRefs(cs[i].expr) == []
    && cs[i].name !in given
    && forall u :: u in VarRefs(cs[i].expr) ==>
         u in given || exists j :: 0 <= j < i && cs[j].name == u && Static(cs, j, given)
  }

  // Computation i reads, directly or through other computations, something that is
  // not there before a key is known: a column outside cols, or an undefined variable.
  predicate NeedsKey(cs: seq<Compute>, i: nat, given: set<string>, cols: set<string>)
    requires i < |cs|
    decreases i
  {
    || (exists c :: c in ColRefs(cs[i].expr) && c !in cols)
    || (exists u :: u in VarRefs(cs[i].expr) && u !in given &&
          forall j :: 0 <= j < i && cs[j].name == u ==> NeedsKey(cs, j, given, cols))
  }

  predicate Identity(c: Compute) { c.expr == ColRef(c.name) }

  // The template reads only given variables and static computations.
  predicate Covered(tmpl: Template, cs: seq<Compute>, given: set<string>)
  {
    forall h :: h in HoleNames(tmpl) ==>
      h in given || exists i :: 0 <= i < |cs| && cs[i].name == h && Static(cs, i, given)
  }

  // The setting of one enumeration: base variables are known to both evaluators, the
  // pinned ones are declared values that stand for what a key would compute.
  datatype Setting = Setting(base: map<string, Value>, pinned: map<string, Value>, cols: map<string, Value>) {
    function Given(): set<string> { base.Keys + pinned.Keys }

    function Start(): Env { Env(base + pinned, cols) }

    // No computation redefines a base variable; each that defines a pinned one either
    // needs a key or copies the column of the same name.
    ghost predicate Fits(cs: seq<Compute>) {
      && base.Keys !! pinned.Keys
      && UniqueNames(cs)
      && forall i :: 0 <= i < |cs| ==>
           && cs[i].name !in base
           && (cs[i].name in pinned ==>
                NeedsKey(cs, i, Given(), cols.Keys) ||
                (Identity(cs[i]) && cs[i].name in cols && cols[cs[i].name] == pinned[cs[i].name]))
    }
  }

  // ---- the skipping run ----

  ghost predicate Skipped(cs: seq<Compute>, k: nat, s: Setting, now: Env)
    requires k <= |cs|
  {
    && now.cols == s.cols
    && (forall n :: n in s.base ==> n in now.vars && now.vars[n] == s.base[n])
    && (forall n :: n in s.pinned ==> n in now.vars && now.vars[n] == s.pinned[n])
    && (forall n :: n in now.vars ==>
          n in s.Given() ||
          exists j :: 0 <= j < k && cs[j].name == n && !NeedsKey(cs, j, s.Given(), s.cols.Keys))
  }

  lemma KeyNeeded(cs: seq<Compute>, k: nat, s: Setting, now: Env)
    requires k < |cs| && Skipped(cs, k, s, now) && NeedsKey(cs, k, s.Given(), s.cols.Keys)
    ensures Eval(cs[k].expr, now).Err?
  {
    EvalIsStrict(cs[k].expr, now);
    if c :| c in ColRefs(cs[k].expr) && c !in s.cols.Keys {
      assert c in Elements(ColRefs(cs[k].expr));
    } else {
      var u :| u in VarRefs(cs[k].expr) && u !in s.Given() &&
        forall j :: 0 <= j < k && cs[j].name == u ==> NeedsKey(cs, j, s.Given(), s.cols.Keys);
      assert u in Elements(VarRefs(cs[k].expr));
      assert u !in now.vars;
    }
  }

  lemma {:induction false} SkippingKeeps(cs: seq<Compute>, k: nat, s: Setting)
    requires k <= |cs| && s.Fits(cs)
    ensures Skipped(cs, k, s, RunSkipping(cs[..k], s.Start()))
    decreases k
  {
    hide NeedsKey;
    if k > 0 {
      assert cs[..k][..k - 1] == cs[..k - 1];
      SkippingKeeps(cs, k - 1, s);
      SkippedExtends(cs, k - 1, s, RunSkipping(cs[..k - 1], s.Start()));
    }
  }

  lemma SkippedExtends(cs: seq<Compute>, k: nat, s: Setting, before: Env)
    requires k < |cs| && s.Fits(cs) && Skipped(cs, k, s, before)
    ensures Skipped(cs, k + 1, s, Stepped(before, cs[k]))
  {
    hide NeedsKey;
    if NeedsKey(cs, k, s.Given(), s.cols.Keys) { KeyNeeded(cs, k, s, before); }
  }

  // ---- the strict run ----

  ghost predicate Ran(cs: seq<Compute>, k: nat, env: Env, now: Env)
    requires k <= |cs|
  {
    && now.cols == env.cols
    && (forall n :: n in now.vars <==> n in env.vars || exists j :: 0 <= j < k && cs[j].name == n)
    && (forall n :: n in env.vars && (forall j :: 0 <= j < k ==> cs[j].name != n) ==> now.vars[n] == env.vars[n])
  }

  lemma {:induction false} StrictKeeps(cs: seq<Compute>, k: nat, env: Env)
    requires k <= |cs| && RunStrict(cs[..k], env).Ok?
    ensures Ran(cs, k, env, RunStrict(cs[..k], env).value)
    ensures forall j :: 0 <= j <= k ==> RunStrict(cs[..j], env).Ok?
    decreases k
  {
    if k > 0 {
      assert cs[..k][..k - 1] == cs[..k - 1];
      StrictKeeps(cs, k - 1, env);
    }
  }

  // Once computed, a variable keeps its value.
  lemma {:induction false} StrictFinal(cs: seq<Compute>, j: nat, k: nat, env: Env)
    requires UniqueNames(cs) && j < k <= |cs| && RunStrict(cs[..k], env).Ok?
    ensures RunStrict(cs[..j + 1], env).Ok? && cs[j].name in RunStrict(cs[..j + 1], env).value.vars
    ensures cs[j].name in RunStrict(cs[..k], env).value.vars
    ensures RunStrict(cs[..k], env).value.vars[cs[j].name] == RunStrict(cs[..j + 1], env).value.vars[cs[j].name]
    decreases k
  {
    assert cs[..k][..k - 1] == cs[..k - 1];
    if j + 1 < k {
      StrictFinal(cs, j, k - 1, env);
      assert cs[k - 1].name != cs[j].name;
    }
  }

  // ---- agreement ----

  // What the key computes for a pinned variable is the pinned value.
  ghost predicate Routed(cs: seq<Compute>, s: Setting, fields: map<string, Value>)
  {
    && RunStrict(cs, Env(s.base, fields)).Ok?
    && forall i :: 0 <= i < |cs| && cs[i].name in s.pinned ==>
         var final := RunStrict(cs, Env(s.base, fields)).value;
         cs[i].name in final.vars && final.vars[cs[i].name] == s.pinned[cs[i].name]
  }

  ghost predicate Same(cs: seq<Compute>, k: nat, s: Setting, strict: Env, skipping: Env)
    requires k <= |cs|
  {
    forall j :: 0 <= j < k && Static(cs, j, s.Given()) ==>
      cs[j].name in strict.vars && cs[j].name in skipping.vars && strict.vars[cs[j].name] == skipping.vars[cs[j].name]
  }

  lemma {:induction false} RunsAgree(cs: seq<Compute>, k: nat, s: Setting, fields: map<string, Value>)
    requires k <= |cs| && s.Fits(cs) && Routed(cs, s, fields)
    ensures RunStrict(cs[..k], Env(s.base, fields)).Ok?
    ensures Same(cs, k, s, RunStrict(cs[..k], Env(s.base, fields)).value, RunSkipping(cs[..k], s.Start()))
    decreases k
  {
    hide NeedsKey, Static, Same, Routed;
    var env := Env(s.base, fields);
    PrefixesRun(cs, k, s, fields);
    if k > 0 {
      PrefixesRun(cs, k - 1, s, fields);
      RunsAgree(cs, k - 1, s, fields);
      assert cs[..k][..k - 1] == cs[..k - 1];
      if Static(cs, k - 1, s.Given()) {
        StaticStep(cs, k - 1, s, fields);
      }
      SameExtends(cs, k - 1, s, RunStrict(cs[..k - 1], env).value, RunSkipping(cs[..k - 1], s.Start()));
    } else {
      assert Same(cs, k, s, RunStrict(cs[..k], env).value, RunSkipping(cs[..k], s.Start())) by {
        NothingToCompare(cs, s, RunStrict(cs[..k], env).value, RunSkipping(cs[..k], s.Start()));
      }
    }
  }

  lemma NothingToCompare(cs: seq<Compute>, s: Setting, strict: Env, skipping: Env)
    ensures Same(cs, 0, s, strict, skipping)
  {
  }

  lemma PrefixesRun(cs: seq<Compute>, k: nat, s: Setting, fields: map<string, Value>)
    requires k <= |cs| && Routed(cs, s, fields)
    ensures RunStrict(cs[..k], Env(s.base, fields)).Ok?
  {
    assert cs[..|cs|] == cs;
    StrictKeeps(cs, |cs|, Env(s.base, fields));
  }

  function Stepped(env: Env, c: Compute): Env
  {
    match Eval(c.expr, env) case Err(_) => env case Ok(v) => Define(env, c.name, v)
  }

  lemma SameExtends(cs: seq<Compute>, k: nat, s: Setting, strict: Env, skipping: Env)
    requires k < |cs| && UniqueNames(cs) && Same(cs, k, s, strict, skipping)
    requires Static(cs, k, s.Given()) ==>
               Eval(cs[k].expr, strict) == Eval(cs[k].expr, skipping) && Eval(cs[k].expr, strict).Ok?
    ensures Same(cs, k + 1, s, Stepped(strict, cs[k]), Stepped(skipping, cs[k]))
  {
    hide Static, NeedsKey, Eval;
    assert forall j :: 0 <= j < k ==> cs[j].name != cs[k].name;
  }

  // A variable that enumeration may read has one value in both runs.
  lemma VariableAgrees(cs: seq<Compute>, k: nat, s: Setting, fields: map<string, Value>, u: string)
    requires k <= |cs| && s.Fits(cs) && Routed(cs, s, fields) && RunStrict(cs[..k], Env(s.base, fields)).Ok?
    requires Same(cs, k, s, RunStrict(cs[..k], Env(s.base, fields)).value, RunSkipping(cs[..k], s.Start()))
    requires u in RunStrict(cs[..k], Env(s.base, fields)).value.vars
    requires u in s.Given() || exists j :: 0 <= j < k && cs[j].name == u && Static(cs, j, s.Given())
    ensures u in RunSkipping(cs[..k], s.Start()).vars
    ensures RunSkipping(cs[..k], s.Start()).vars[u] == RunStrict(cs[..k], Env(s.base, fields)).value.vars[u]
  {
    hide NeedsKey, Static, RunStrict, RunSkipping;
    var env := Env(s.base, fields);
    StrictKeeps(cs, k, env);
    SkippingKeeps(cs, k, s);
    if u in s.pinned {
      var j :| 0 <= j < k && cs[j].name == u;
      assert cs[..|cs|] == cs;
      StrictFinal(cs, j, k, env);
      StrictFinal(cs, j, |cs|, env);
    } else if u in s.base {
      assert forall j :: 0 <= j < k ==> cs[j].name != u;
    }
  }

  lemma StaticStep(cs: seq<Compute>, k: nat, s: Setting, fields: map<string, Value>)
    requires k < |cs| && s.Fits(cs) && Routed(cs, s, fields) && Static(cs, k, s.Given())
    requires RunStrict(cs[..k], Env(s.base, fields)).Ok?
    requires Same(cs, k, s, RunStrict(cs[..k], Env(s.base, fields)).value, RunSkipping(cs[..k], s.Start()))
    ensures Eval(cs[k].expr, RunStrict(cs[..k], Env(s.base, fields)).value) ==
            Eval(cs[k].expr, RunSkipping(cs[..k], s.Start()))
    ensures Eval(cs[k].expr, RunStrict(cs[..k], Env(s.base, fields)).value).Ok?
  {
    hide NeedsKey, Same, Routed, Eval;
    var env := Env(s.base, fields);
    var strict, skipping := RunStrict(cs[..k], env).value, RunSkipping(cs[..k], s.Start());
    PrefixesRun(cs, k + 1, s, fields);
    assert cs[..k + 1][..k] == cs[..k];
    EvalIsStrict(cs[k].expr, strict);
    forall u | u in Elements(VarRefs(cs[k].expr))
      ensures u in strict.vars && u in skipping.vars && strict.vars[u] == skipping.vars[u]
    {
      VariableAgrees(cs, k, s, fields, u);
    }
    EvalReadsOnlyRefs(cs[k].expr, strict, skipping);
  }

  // Whenever the key resolves to a name, enumeration with the routed values pinned
  // produces that very name.
  lemma EvaluatorsAgree(tmpl: Template, cs: seq<Compute>, s: Setting, fields: map<string, Value>)
    requires s.Fits(cs) && Covered(tmpl, cs, s.Given()) && Routed(cs, s, fields)
    requires var final := RunStrict(cs, Env(s.base, fields)).value; Render(tmpl, final.vars).Ok?
    ensures Render(tmpl, RunSkipping(cs, s.Start()).vars) == Render(tmpl, RunStrict(cs, Env(s.base, fields)).value.vars)
  {
    hide NeedsKey, Static, Same, RunStrict, RunSkipping;
    assert cs[..|cs|] == cs;
    var strict, skipping := RunStrict(cs, Env(s.base, fields)).value, RunSkipping(cs, s.Start());
    RunsAgree(cs, |cs|, s, fields);
    RenderNeedsHoles(tmpl, strict.vars);
    forall h | h in HoleNames(tmpl)
      ensures h in strict.vars && h in skipping.vars && strict.vars[h] == skipping.vars[h]
    {
      VariableAgrees(cs, |cs|, s, fields, h);
    }
    RenderReadsHoles(tmpl, skipping.vars, strict.vars);
  }

  // ---- tables ----

  // The rule's index is computed from the key, and the template shows nothing else of
  // the key: only the table, the index, and static computations of these.
  ghost predicate RoutedByIndex(rule: TableRule, d: Decl)
  {
    var cs, idx := rule.expands.computes, rule.indexVar;
    && RuleOk(rule)
    && IndexDecl(rule.expands.decls, idx) == Some(d) && DeclOk(d)
    && UniqueNames(cs)
    && idx != "table"
    && (exists i :: 0 <= i < |cs| && cs[i].name == idx)
    && (forall i :: 0 <= i < |cs| ==> cs[i].name != "table")
    && (forall i :: 0 <= i < |cs| && cs[i].name == idx ==> IndexNeedsKey(cs, i, d))
    && Covered(rule.tmpl, cs, {"table", idx})
  }

  // For a range, enumeration defines the index variable only; for an enum, also the
  // column of that name, so that copying the column is fine.
  predicate IndexNeedsKey(cs: seq<Compute>, i: nat, d: Decl)
    requires i < |cs|
  {
    match d
    case RangeDecl(idx, _, _) => NeedsKey(cs, i, {"table", idx}, {})
    case EnumDecl(idx, _) => NeedsKey(cs, i, {"table", idx}, {idx}) || Identity(cs[i])
  }

  function TableSetting(table: string, d: Decl, v: Value): Setting
  {
    Setting(map["table" := StrValue(table)], map[d.name := v], if d.EnumDecl? then map[d.name := v] else map[])
  }

  lemma {:induction false} IndexDeclIsDeclared(ds: seq<Decl>, name: string, d: Decl)
    requires IndexDecl(ds, name) == Some(d)
    ensures d.name == name && exists k :: 0 <= k < |ds| && ds[k] == d
  {
    if ds[0].name != name {
      IndexDeclIsDeclared(ds[1..], name, d);
      var k :| 0 <= k < |ds[1..]| && ds[1..][k] == d;
      assert ds[k + 1] == d;
    }
  }

  // A range so wide that its size is not an int64 has a negative shard count.
  predicate Countable(d: Decl)
  {
    d.RangeDecl? ==> d.end - d.start < TWO63
  }

  lemma ShardEnvIsStart(rule: TableRule, table: string, d: Decl, k: nat)
    requires RoutedByIndex(rule, d) && Countable(d) && k < |DeclValues(d)|
    ensures rule.count == |DeclValues(d)|
    ensures ShardEnv(rule, table, k) == TableSetting(table, d, DeclValues(d)[k]).Start()
  {
    hide NeedsKey, Static, Covered, RuleOk, UniqueNames;
    IndexDeclIsDeclared(rule.expands.decls, rule.indexVar, d);
    var i :| 0 <= i < |rule.expands.decls| && rule.expands.decls[i] == d;
    IndexWithin(rule, i);
    var s := TableSetting(table, d, DeclValues(d)[k]);
    assert s.base + s.pinned == s.base[d.name := DeclValues(d)[k]];
  }

  lemma TableSettingFits(rule: TableRule, table: string, d: Decl, v: Value)
    requires RoutedByIndex(rule, d)
    ensures var s := TableSetting(table, d, v); s.Fits(rule.expands.computes) && s.Given() == {"table", d.name}
  {
    hide NeedsKey;
    var s := TableSetting(table, d, v);
    var cs := rule.expands.computes;
    IndexDeclIsDeclared(rule.expands.decls, rule.indexVar, d);
    assert s.Given() == {"table", d.name} && s.base.Keys == {"table"} && s.pinned.Keys == {d.name};
    assert s.cols.Keys == if d.EnumDecl? then {d.name} else {};
    forall i | 0 <= i < |cs| && cs[i].name in s.pinned
      ensures NeedsKey(cs, i, s.Given(), s.cols.Keys) ||
              (Identity(cs[i]) && cs[i].name in s.cols && s.cols[cs[i].name] == s.pinned[cs[i].name])
    {
      assert IndexNeedsKey(cs, i, d);
    }
  }

  // The name a key resolves to is the enumerated name of its index: whenever the key
  // routes to the k-th declared value, ResolveTable and ShardName(k) agree.
  lemma ResolvedIsEnumerated(rule: TableRule, table: string, d: Decl, fields: Fields, k: nat)
    requires RoutedByIndex(rule, d) && Countable(d) && k < |DeclValues(d)| && Loadable(fields)
    requires var run := RunStrict(rule.expands.computes, Env(map["table" := StrValue(table)], Loaded(fields)));
             run.Ok? && rule.indexVar in run.value.vars && run.value.vars[rule.indexVar] == DeclValues(d)[k]
    ensures ResolveTable(rule, table, Some(fields)).Ok?
    ensures ResolveTable(rule, table, Some(fields)) == ShardName(rule, table, k)
  {
    hide NeedsKey, Static, RunSkipping;
    var cs := rule.expands.computes;
    IndexDeclIsDeclared(rule.expands.decls, rule.indexVar, d);
    ShardEnvIsStart(rule, table, d, k);
    var s := TableSetting(table, d, DeclValues(d)[k]);
    TableSettingFits(rule, table, d, DeclValues(d)[k]);
    assert cs[..|cs|] == cs;
    var final := RunStrict(cs, Env(s.base, Loaded(fields))).value;
    StrictKeeps(cs, |cs|, Env(s.base, Loaded(fields)));
    RenderNeedsHoles(rule.tmpl, final.vars);
    EvaluatorsAgree(rule.tmpl, cs, s, Loaded(fields));
  }

  // ---- enumerated names differ ----

  // The template shows the index in one hole, plainly or padded by fill, and nothing
  // else that depends on it.
  ghost predicate ShowsIndex(rule: TableRule, hole: string, width: Option<int64>)
  {
    var cs, idx := rule.expands.computes, rule.indexVar;
    && hole in HoleNames(rule.tmpl)
    && (match width
        case None => hole == idx
        case Some(w) =>
          0 <= w <= MAX_PAD_WIDTH && hole != idx && hole != "table" &&
          exists i :: 0 <= i < |cs| && cs[i] == Compute(hole, FuncCall("fill", [VarRef(idx), IntLit(w)])))
    && (forall h :: h in HoleNames(rule.tmpl) && h != hole ==>
          h == "table" || exists i :: 0 <= i < |cs| && cs[i].name == h && Static(cs, i, {"table"}))
  }

  lemma {:induction false} StaticNeedsNoKey(cs: seq<Compute>, j: nat, few: set<string>, given: set<string>,
                                            cols: set<string>)
    requires j < |cs| && few <= given && Static(cs, j, few)
    ensures !NeedsKey(cs, j, given, cols)
    decreases j
  {
    forall u | u in VarRefs(cs[j].expr) && u !in given
      ensures exists i :: 0 <= i < j && cs[i].name == u && !NeedsKey(cs, i, given, cols)
    {
      var i :| 0 <= i < j && cs[i].name == u && Static(cs, i, few);
      StaticNeedsNoKey(cs, i, few, given, cols);
    }
  }

  ghost predicate FixedSame(cs: seq<Compute>, k: nat, s: Setting, a: Env, b: Env)
    requires k <= |cs|
  {
    forall j :: 0 <= j < k && Static(cs, j, s.base.Keys) ==> Agree({cs[j].name}, a.vars, b.vars)
  }

  // Variables that do not depend on the index are the same in every enumeration run.
  lemma {:induction false} FixedParts(cs: seq<Compute>, k: nat, s: Setting, t: Setting)
    requires k <= |cs| && s.Fits(cs) && t.Fits(cs) && s.base == t.base
    ensures FixedSame(cs, k, s, RunSkipping(cs[..k], s.Start()), RunSkipping(cs[..k], t.Start()))
    decreases k
  {
    hide NeedsKey, Static, FixedSame;
    if k > 0 {
      assert cs[..k][..k - 1] == cs[..k - 1];
      FixedParts(cs, k - 1, s, t);
      FixedStep(cs, k - 1, s, t, RunSkipping(cs[..k - 1], s.Start()), RunSkipping(cs[..k - 1], t.Start()));
    } else {
      NothingFixed(cs, s, RunSkipping(cs[..k], s.Start()), RunSkipping(cs[..k], t.Start()));
    }
  }

  lemma NothingFixed(cs: seq<Compute>, s: Setting, a: Env, b: Env)
    ensures FixedSame(cs, 0, s, a, b)
  {
  }

  lemma FixedStep(cs: seq<Compute>, k: nat, s: Setting, t: Setting, a: Env, b: Env)
    requires k < |cs| && s.Fits(cs) && t.Fits(cs) && s.base == t.base
    requires a == RunSkipping(cs[..k], s.Start()) && b == RunSkipping(cs[..k], t.Start())
    requires FixedSame(cs, k, s, a, b)
    ensures FixedSame(cs, k + 1, s, Stepped(a, cs[k]), Stepped(b, cs[k]))
  {
    hide NeedsKey, RunSkipping, Static, Eval, FixedSame;
    assert Static(cs, k, s.base.Keys) ==>
      Eval(cs[k].expr, a) == Eval(cs[k].expr, b) && Agree({cs[k].name}, a.vars, b.vars) by {
      if Static(cs, k, s.base.Keys) {
        FixedRefs(cs, k, s, t, a, b);
        FixedNameAbsent(cs, k, s, a);
        FixedNameAbsent(cs, k, t, b);
      }
    }
    FixedExtends(cs, k, s, a, b);
  }

  lemma FixedNameAbsent(cs: seq<Compute>, k: nat, s: Setting, a: Env)
    requires k < |cs| && s.Fits(cs) && a == RunSkipping(cs[..k], s.Start()) && Static(cs, k, s.base.Keys)
    ensures cs[k].name !in a.vars
  {
    hide NeedsKey, RunSkipping;
    SkippingKeeps(cs, k, s);
    StaticNeedsNoKey(cs, k, s.base.Keys, s.Given(), s.cols.Keys);
    assert forall j :: 0 <= j < k ==> cs[j].name != cs[k].name;
  }

  lemma FixedRefs(cs: seq<Compute>, k: nat, s: Setting, t: Setting, a: Env, b: Env)
    requires k < |cs| && s.Fits(cs) && t.Fits(cs) && s.base == t.base && Static(cs, k, s.base.Keys)
    requires a == RunSkipping(cs[..k], s.Start()) && b == RunSkipping(cs[..k], t.Start())
    requires FixedSame(cs, k, s, a, b)
    ensures Eval(cs[k].expr, a) == Eval(cs[k].expr, b)
  {
    hide NeedsKey, RunSkipping, Eval;
    SkippingKeeps(cs, k, s);
    SkippingKeeps(cs, k, t);
    forall u | u in Elements(VarRefs(cs[k].expr))
      ensures (u in a.vars <==> u in b.vars) && (u in a.vars ==> a.vars[u] == b.vars[u])
    {
      if u !in s.base {
        var j :| 0 <= j < k && cs[j].name == u && Static(cs, j, s.base.Keys);
        assert Agree({cs[j].name}, a.vars, b.vars);
        assert u in {cs[j].name};
      }
    }
    EvalReadsOnlyRefs(cs[k].expr, a, b);
  }

  lemma FixedExtends(cs: seq<Compute>, k: nat, s: Setting, a: Env, b: Env)
    requires k < |cs| && UniqueNames(cs) && FixedSame(cs, k, s, a, b)
    requires Static(cs, k, s.base.Keys) ==>
             Eval(cs[k].expr, a) == Eval(cs[k].expr, b) && Agree({cs[k].name}, a.vars, b.vars)
    ensures FixedSame(cs, k + 1, s, Stepped(a, cs[k]), Stepped(b, cs[k]))
  {
    hide Static, Eval;
    forall j | 0 <= j < k + 1 && Static(cs, j, s.base.Keys)
      ensures Agree({cs[j].name}, Stepped(a, cs[k]).vars, Stepped(b, cs[k]).vars)
    {
      assert Agree({cs[j].name}, a.vars, b.vars);
      assert cs[j].name in {cs[j].name};
      assert j < k ==> cs[j].name != cs[k].name;
    }
  }

  // A computed value stays to the end of the run.
  lemma {:induction false} SkippingFinal(cs: seq<Compute>, j: nat, k: nat, env: Env)
    requires UniqueNames(cs) && j < k <= |cs| && Eval(cs[j].expr, RunSkipping(cs[..j], env)).Ok?
    ensures cs[j].name in RunSkipping(cs[..k], env).vars
    ensures Eval(cs[j].expr, RunSkipping(cs[..j], env)) == Ok(RunSkipping(cs[..k], env).vars[cs[j].name])
    decreases k
  {
    hide Eval;
    assert cs[..k][..k - 1] == cs[..k - 1];
    if j + 1 < k {
      SkippingFinal(cs, j, k - 1, env);
      assert cs[k - 1].name != cs[j].name;
    }
  }

  // What the index hole shows. Padding is for numbers.
  predicate Showable(v: Value, width: Option<int64>) { width.Some? ==> v.IntValue? }

  function Shown(v: Value, width: Option<int64>): string
    requires Showable(v, width)
  {
    match width case None => AsString(v) case Some(w) => Fill(v.i, w)
  }

  lemma HoleShowsIndex(rule: TableRule, table: string, d: Decl, hole: string, width: Option<int64>, v: Value)
    requires RoutedByIndex(rule, d) && ShowsIndex(rule, hole, width) && Showable(v, width)
    ensures var vars := RunSkipping(rule.expands.computes, TableSetting(table, d, v).Start()).vars;
            hole in vars && AsString(vars[hole]) == Shown(v, width)
  {
    hide NeedsKey, Static, RunSkipping;
    var cs := rule.expands.computes;
    var s := TableSetting(table, d, v);
    TableSettingFits(rule, table, d, v);
    IndexDeclIsDeclared(rule.expands.decls, rule.indexVar, d);
    assert cs[..|cs|] == cs;
    SkippingKeeps(cs, |cs|, s);
    if width.Some? {
      var w := width.value;
      var i :| 0 <= i < |cs| && cs[i] == Compute(hole, FuncCall("fill", [VarRef(rule.indexVar), IntLit(w)]));
      SkippingKeeps(cs, i, s);
      EvalFill(rule.indexVar, w, RunSkipping(cs[..i], s.Start()), v.i);
      SkippingFinal(cs, i, |cs|, s.Start());
    }
  }

  lemma EvalFill(idx: string, w: int64, env: Env, v: int64)
    requires idx in env.vars && env.vars[idx] == IntValue(v)
    ensures Eval(FuncCall("fill", [VarRef(idx), IntLit(w)]), env) == Ok(StrValue(Fill(v, w)))
  {
    EvalPair(VarRef(idx), IntLit(w), env);
  }

  lemma OtherHolesSame(rule: TableRule, table: string, d: Decl, hole: string, width: Option<int64>, v: Value,
                       w: Value, h: string)
    requires RoutedByIndex(rule, d) && ShowsIndex(rule, hole, width)
    requires h in HoleNames(rule.tmpl) && h != hole
    ensures Agree({h}, RunSkipping(rule.expands.computes, TableSetting(table, d, v).Start()).vars,
                       RunSkipping(rule.expands.computes, TableSetting(table, d, w).Start()).vars)
  {
    hide NeedsKey, RunSkipping, Static;
    var cs := rule.expands.computes;
    var s, t := TableSetting(table, d, v), TableSetting(table, d, w);
    TableSettingFits(rule, table, d, v);
    TableSettingFits(rule, table, d, w);
    assert cs[..|cs|] == cs && s.base.Keys == {"table"};
    SkippingKeeps(cs, |cs|, s);
    SkippingKeeps(cs, |cs|, t);
    FixedParts(cs, |cs|, s, t);
    if h != "table" {
      var n :| 0 <= n < |cs| && cs[n].name == h && Static(cs, n, {"table"});
    }
  }

  lemma ShownInjective(v: Value, w: Value, width: Option<int64>)
    requires v != w && (v.IntValue? <==> w.IntValue?) && Showable(v, width) && Showable(w, width)
    requires width.Some? ==> 0 <= width.value <= MAX_PAD_WIDTH
    ensures Shown(v, width) != Shown(w, width)
  {
    if Shown(v, width) == Shown(w, width) {
      match width {
        case None => if v.IntValue? { FormatInjective(v.i, w.i); }
        case Some(p) => FillInjective(v.i, w.i, p);
      }
    }
  }

  lemma HolesDiffer(rule: TableRule, table: string, d: Decl, hole: string, width: Option<int64>, v: Value, w: Value)
    requires RoutedByIndex(rule, d) && ShowsIndex(rule, hole, width)
    requires v != w && (v.IntValue? <==> w.IntValue?) && Showable(v, width) && Showable(w, width)
    requires NameIn(rule.tmpl, rule.expands.computes, TableSetting(table, d, v).Start()).Ok?
    requires NameIn(rule.tmpl, rule.expands.computes, TableSetting(table, d, w).Start()).Ok?
    ensures DifferAt(rule.tmpl, RunSkipping(rule.expands.computes, TableSetting(table, d, v).Start()).vars,
                     RunSkipping(rule.expands.computes, TableSetting(table, d, w).Start()).vars, hole)
  {
    hide RunSkipping, RoutedByIndex, TableSetting, AsString, Shown;
    var a := RunSkipping(rule.expands.computes, TableSetting(table, d, v).Start()).vars;
    var b := RunSkipping(rule.expands.computes, TableSetting(table, d, w).Start()).vars;
    HoleShowsIndex(rule, table, d, hole, width, v);
    HoleShowsIndex(rule, table, d, hole, width, w);
    RenderNeedsHoles(rule.tmpl, a);
    RenderNeedsHoles(rule.tmpl, b);
    forall h | h in HoleNames(rule.tmpl) && h != hole ensures h in a && h in b && a[h] == b[h] {
      OtherHolesSame(rule, table, d, hole, width, v, w, h);
      assert h in {h};
    }
    ShownInjective(v, w, width);
  }

  // Two indexes have the same name only if they stand for the same value: never for a
  // range, and for an enum only where it lists a value twice.
  lemma EnumeratedNamesDiffer(rule: TableRule, table: string, d: Decl, hole: string, width: Option<int64>, i: nat,
                              j: nat)
    requires RoutedByIndex(rule, d) && Countable(d) && ShowsIndex(rule, hole, width) && (d.EnumDecl? ==> width.None?)
    requires i < |DeclValues(d)| && j < |DeclValues(d)|
    requires ShardName(rule, table, i).Ok? && ShardName(rule, table, j).Ok?
    ensures ShardName(rule, table, i) == ShardName(rule, table, j) <==> DeclValues(d)[i] == DeclValues(d)[j]
  {
    hide RunSkipping, Static, Covered, RuleOk, ShowsIndex, TableSetting, IndexNeedsKey;
    var v, w := DeclValues(d)[i], DeclValues(d)[j];
    ShardEnvIsStart(rule, table, d, i);
    ShardEnvIsStart(rule, table, d, j);
    if v != w {
      HolesDiffer(rule, table, d, hole, width, v, w);
      DistinctHolesDistinctNames(rule.tmpl, RunSkipping(rule.expands.computes, TableSetting(table, d, v).Start()).vars,
                                 RunSkipping(rule.expands.computes, TableSetting(table, d, w).Start()).vars, hole);
    }
  }

  // ---- which indexes stay in range ----

  // Routing by mod(_, n) can only produce 0 .. n-1.
  lemma ModRoutesInRange(arg: Expr, n: int64, env: Env)
    requires n > 0 && Eval(FuncCall("mod", [arg, IntLit(n)]), env).Ok?
    ensures exists r: int64 :: 0 <= r < n && Eval(FuncCall("mod", [arg, IntLit(n)]), env) == Ok(IntValue(r))
  {
    if Eval(arg, env).Err? {
      PairFails(arg, IntLit(n), env);
    } else {
      EvalPair(arg, IntLit(n), env);
      ModIsEuclidean(AsInt(Eval(arg, env).value).value, n);
    }
  }

  // Routing by hash(_) % n can only produce 0 .. n-1.
  lemma HashRoutesInRange(arg: Expr, n: int64, env: Env)
    requires n > 0 && Eval(BinaryOp(Percent, FuncCall("hash", [arg]), IntLit(n)), env).Ok?
    ensures exists r: int64 :: 0 <= r < n &&
              Eval(BinaryOp(Percent, FuncCall("hash", [arg]), IntLit(n)), env) == Ok(IntValue(r))
  {
    hide Hash;
    EvalSingle(arg, env);
    var h := Hash(Eval(arg, env).value);
    assert Eval(FuncCall("hash", [arg]), env) == Ok(IntValue(h));
    TruncatedDivision(h, n);
    assert Wrap(Remainder(h, n)) == Remainder(h, n);
  }

  // Routing by the operator % stays in range exactly for non-negative values and
  // multiples of n: the remainder takes the sign of the value.
  lemma PercentRoutesInRange(a: int64, n: int64)
    requires n > 0
    ensures exists r: int64 :: Operate(Percent, IntValue(a), IntValue(n)) == Ok(IntValue(r)) &&
              (0 <= r < n <==> a >= 0 || a % n == 0)
  {
    TruncatedDivision(a, n);
    var r := Remainder(a, n);
    assert Operate(Percent, IntValue(a), IntValue(n)) == Ok(IntValue(r));
    ModIsEuclidean(a, n);
  }
}
