// Running sorted computations in sequence (db/internal/dbsp/sharding_expr_rule.go)
// against the declarative meaning of the equations.
module OrderedEvaluation {
  import opened Outcomes
  import opened Values
  import opened Syntax
  import opened Builtins
  import opened Sequences
  import opened Evaluation
  import opened Expansion
  import opened ExpandParsing
  import opened Templates
  import opened ShardRules

  // The equations as a table: no order left.
  function Definitions(cs: seq<Compute>): map<string, Expr>
  {
    if cs == [] then map[] else Definitions(cs[..|cs| - 1])[cs[|cs| - 1].name := cs[|cs| - 1].expr]
  }

  // Evaluation that computes the variables it meets on demand. The set open holds the
  // definitions not being evaluated already; meeting another one is a circle. A
  // definition that mentions itself means the value from before.
  function Demand(e: Expr, defs: map<string, Expr>, env: Env, self: string, open: set<string>): Result<Value>
    requires open <= defs.Keys
    decreases open, e, 1
  {
    match e
    case VarRef(v) =>
      if v in defs && v != self then
        if v in open then Demand(defs[v], defs, env, v, open - {v}) else Err(CircularDependency)
      else if v in env.vars then Ok(env.vars[v])
      else Err(UndefinedVariable(v))
    case BinaryOp(op, l, r) =>
      (match Demand(l, defs, env, self, open)
       case Err(x) => Err(x)
       case Ok(a) =>
         match Demand(r, defs, env, self, open) case Err(x) => Err(x) case Ok(b) => Operate(op, a, b))
    case FuncCall(f, args) =>
      (match DemandAll(args, defs, env, self, open) case Err(x) => Err(x) case Ok(vs) => Apply(f, vs))
    case _ => Eval(e, env)
  }

  function DemandAll(es: seq<Expr>, defs: map<string, Expr>, env: Env, self: string, open: set<string>)
      : Result<seq<Value>>
    requires open <= defs.Keys
    decreases open, es, 0
  {
    if es == [] then Ok([])
    else
      match Demand(es[0], defs, env, self, open)
      case Err(x) => Err(x)
      case Ok(v) =>
        match DemandAll(es[1..], defs, env, self, open) case Err(x) => Err(x) case Ok(vs) => Ok([v] + vs)
  }

  // The meaning of one variable.
  function Meaning(defs: map<string, Expr>, env: Env, name: string): Result<Value>
    requires name in defs
  {
    Demand(defs[name], defs, env, name, defs.Keys - {name})
  }

  lemma {:induction false} DefinitionsHold(cs: seq<Compute>, name: string)
    requires UniqueNames(cs)
    ensures name in Definitions(cs) <==> exists k :: 0 <= k < |cs| && cs[k].name == name
    ensures forall k :: 0 <= k < |cs| && cs[k].name == name ==> Definitions(cs)[name] == cs[k].expr
  {
    if cs != [] {
      var front := cs[..|cs| - 1];
      assert forall k :: 0 <= k < |front| ==> front[k] == cs[k];
      DefinitionsHold(front, name);
    }
  }

  // What the prefixes of a run leave in the context.
  lemma {:induction false} PrefixOfRun(cs: seq<Compute>, env: Env, i: nat, name: string)
    requires UniqueNames(cs) && i <= |cs| && RunStrict(cs[..i], env).Ok?
    ensures var after := RunStrict(cs[..i], env).value;
      && after.cols == env.cols
      && (forall j :: 0 <= j < i ==> RunStrict(cs[..j], env).Ok?)
      && ((forall j :: 0 <= j < i ==> cs[j].name != name) ==>
            (name in after.vars <==> name in env.vars) && (name in env.vars ==> after.vars[name] == env.vars[name]))
      && (forall j :: 0 <= j < i && cs[j].name == name ==>
            name in after.vars && Eval(cs[j].expr, RunStrict(cs[..j], env).value) == Ok(after.vars[name]))
    decreases i
  {
    hide RunStrict;
    LastStep(cs, env, i);
    if i > 0 { PrefixOfRun(cs, env, i - 1, name); }
  }

  lemma LastStep(cs: seq<Compute>, env: Env, i: nat)
    requires i <= |cs|
    ensures i == 0 ==> RunStrict(cs[..i], env) == Ok(env)
    ensures i > 0 ==>
      RunStrict(cs[..i], env) ==
      match RunStrict(cs[..i - 1], env)
      case Err(x) => Err(x)
      case Ok(before) =>
        match Eval(cs[i - 1].expr, before) case Err(x) => Err(x) case Ok(v) => Ok(Define(before, cs[i - 1].name, v))
  {
    if i > 0 { assert cs[..i][..i - 1] == cs[..i - 1]; }
  }

  predicate Earlier(cs: seq<Compute>, i: nat, open: set<string>)
    requires i <= |cs|
  {
    forall j :: 0 <= j < i ==> cs[j].name in open
  }

  // Within the i-th computation, demanding a subexpression gives what the run gives.
  lemma {:induction false} DemandMatchesRun(cs: seq<Compute>, env: Env, i: nat, e: Expr, open: set<string>)
    requires UniqueNames(cs) && InOrder(cs) && i < |cs| && RunStrict(cs[..i], env).Ok?
    requires forall v :: v in VarRefs(e) ==> v in VarRefs(cs[i].expr)
    requires open <= Definitions(cs).Keys && Earlier(cs, i, open)
    ensures Demand(e, Definitions(cs), env, cs[i].name, open) == Eval(e, RunStrict(cs[..i], env).value)
    decreases i, e, 1
  {
    var now := RunStrict(cs[..i], env).value;
    match e
    case VarRef(v) =>
      assert v in VarRefs(e);
      DefinitionsHold(cs, v);
      PrefixOfRun(cs, env, i, v);
      if v in Definitions(cs) && v != cs[i].name {
        VariableMatchesRun(cs, env, i, v, open);
      } else if v == cs[i].name {
        assert forall j :: 0 <= j < i ==> cs[j].name != v;
      }
    case BinaryOp(op, l, r) =>
      DemandMatchesRun(cs, env, i, l, open);
      DemandMatchesRun(cs, env, i, r, open);
    case FuncCall(_, args) =>
      DemandAllMatchesRun(cs, env, i, args, open);
    case _ =>
      PrefixOfRun(cs, env, i, "");
  }

  lemma {:induction false} VariableMatchesRun(cs: seq<Compute>, env: Env, i: nat, v: string, open: set<string>)
    requires UniqueNames(cs) && InOrder(cs) && i < |cs| && RunStrict(cs[..i], env).Ok?
    requires v in VarRefs(cs[i].expr) && v in Definitions(cs) && v != cs[i].name
    requires open <= Definitions(cs).Keys && Earlier(cs, i, open)
    ensures Demand(VarRef(v), Definitions(cs), env, cs[i].name, open) == Eval(VarRef(v), RunStrict(cs[..i], env).value)
    decreases i, VarRef(v), 0
  {
    DefinitionsHold(cs, v);
    PrefixOfRun(cs, env, i, v);
    var j: nat :| j < |cs| && cs[j].name == v;
    assert Owner(cs, j);
    assert DependsOn(cs, i, j);
    assert j < i;
    assert Earlier(cs, j, open - {v});
    DemandMatchesRun(cs, env, j, cs[j].expr, open - {v});
  }

  lemma {:induction false} DemandAllMatchesRun(cs: seq<Compute>, env: Env, i: nat, es: seq<Expr>, open: set<string>)
    requires UniqueNames(cs) && InOrder(cs) && i < |cs| && RunStrict(cs[..i], env).Ok?
    requires forall v :: v in AllVarRefs(es) ==> v in VarRefs(cs[i].expr)
    requires open <= Definitions(cs).Keys && Earlier(cs, i, open)
    ensures DemandAll(es, Definitions(cs), env, cs[i].name, open) == EvalAll(es, RunStrict(cs[..i], env).value)
    decreases i, es, 0
  {
    if es != [] {
      DemandMatchesRun(cs, env, i, es[0], open);
      DemandAllMatchesRun(cs, env, i, es[1..], open);
    }
  }

  lemma StepMeaning(cs: seq<Compute>, env: Env, i: nat)
    requires UniqueNames(cs) && InOrder(cs) && i < |cs| && RunStrict(cs[..i], env).Ok?
    ensures cs[i].name in Definitions(cs)
    ensures Meaning(Definitions(cs), env, cs[i].name) == Eval(cs[i].expr, RunStrict(cs[..i], env).value)
  {
    var name := cs[i].name;
    DefinitionsHold(cs, name);
    forall j | 0 <= j < i ensures cs[j].name in Definitions(cs).Keys - {name} {
      DefinitionsHold(cs, cs[j].name);
    }
    DemandMatchesRun(cs, env, i, cs[i].expr, Definitions(cs).Keys - {name});
  }

  ghost predicate AllMean(defs: map<string, Expr>, env: Env)
  {
    forall n :: n in defs ==> Meaning(defs, env, n).Ok?
  }

  // The sequential run succeeds exactly when every equation has a meaning, and then
  // leaves exactly those meanings.
  lemma OrderedIsDeclarative(cs: seq<Compute>, env: Env)
    requires UniqueNames(cs) && InOrder(cs)
    ensures RunStrict(cs, env).Ok? <==> AllMean(Definitions(cs), env)
    ensures RunStrict(cs, env).Ok? ==>
      RunStrict(cs, env).value ==
      Env(env.vars + (map n | n in Definitions(cs) && Meaning(Definitions(cs), env, n).Ok? ::
                        Meaning(Definitions(cs), env, n).value),
          env.cols)
  {
    hide Definitions, Meaning, InOrder, RunStrict;
    var defs := Definitions(cs);
    assert cs[..|cs|] == cs;
    if RunStrict(cs, env).Ok? {
      forall n | n in defs
        ensures n in RunStrict(cs, env).value.vars && Meaning(defs, env, n) == Ok(RunStrict(cs, env).value.vars[n])
      {
        MeaningAfterRun(cs, env, n);
      }
      forall n ensures n in RunStrict(cs, env).value.vars <==> n in env.vars || n in defs
        ensures n !in defs && n in env.vars ==> RunStrict(cs, env).value.vars[n] == env.vars[n]
      {
        DefinitionsHold(cs, n);
        PrefixOfRun(cs, env, |cs|, n);
      }
      PrefixOfRun(cs, env, |cs|, "");
    } else {
      RunUntilFailure(cs, env, |cs|);
    }
  }

  lemma MeaningAfterRun(cs: seq<Compute>, env: Env, n: string)
    requires UniqueNames(cs) && InOrder(cs) && RunStrict(cs, env).Ok? && n in Definitions(cs)
    ensures n in RunStrict(cs, env).value.vars
    ensures Meaning(Definitions(cs), env, n) == Ok(RunStrict(cs, env).value.vars[n])
  {
    assert cs[..|cs|] == cs;
    DefinitionsHold(cs, n);
    PrefixOfRun(cs, env, |cs|, n);
    var j: nat :| j < |cs| && cs[j].name == n;
    StepMeaning(cs, env, j);
  }

  lemma {:induction false} RunUntilFailure(cs: seq<Compute>, env: Env, i: nat)
    requires UniqueNames(cs) && InOrder(cs) && i <= |cs| && RunStrict(cs[..i], env).Err?
    ensures !AllMean(Definitions(cs), env)
    decreases i
  {
    assert i > 0 && cs[..i][..i - 1] == cs[..i - 1];
    if RunStrict(cs[..i - 1], env).Err? {
      RunUntilFailure(cs, env, i - 1);
    } else {
      StepMeaning(cs, env, i - 1);
    }
  }

  // ---- reordering the lines of a rule ----

  lemma SameDefinitions(cs: seq<Compute>, other: seq<Compute>)
    requires UniqueNames(cs) && UniqueNames(other) && forall c :: c in cs <==> c in other
    ensures Definitions(cs) == Definitions(other)
  {
    forall n ensures n in Definitions(cs) <==> n in Definitions(other)
      ensures n in Definitions(cs) && n in Definitions(other) ==> Definitions(cs)[n] == Definitions(other)[n]
    {
      DefinitionsHold(cs, n);
      DefinitionsHold(other, n);
      if n in Definitions(cs) {
        var k :| 0 <= k < |cs| && cs[k].name == n;
        assert cs[k] in other;
      }
      if n in Definitions(other) {
        var k :| 0 <= k < |other| && other[k].name == n;
        assert other[k] in cs;
      }
    }
  }

  // Two outcomes that differ at most in which failure is reported.
  predicate SameOutcome<T(==)>(a: Result<T>, b: Result<T>) { a == b || (a.Err? && b.Err?) }

  lemma SameRun(cs: seq<Compute>, other: seq<Compute>, env: Env)
    requires UniqueNames(cs) && InOrder(cs) && UniqueNames(other) && InOrder(other)
    requires forall c :: c in cs <==> c in other
    ensures SameOutcome(RunStrict(cs, env), RunStrict(other, env))
  {
    SameDefinitions(cs, other);
    OrderedIsDeclarative(cs, env);
    OrderedIsDeclarative(other, env);
  }

  lemma {:induction false} LinesConcat(a: seq<string>, b: seq<string>)
    requires LinesOk(a + b)
    ensures LinesOk(a) && LinesOk(b)
    ensures ComputesOf(a + b) == ComputesOf(a) + ComputesOf(b) && DeclsOf(a + b) == DeclsOf(a) + DeclsOf(b)
    decreases |b|
  {
    hide ItemOf;
    forall k | 0 <= k < |a| ensures ItemOf(a[k]).Ok? { assert (a + b)[k] == a[k]; }
    forall k | 0 <= k < |b| ensures ItemOf(b[k]).Ok? { assert (a + b)[|a| + k] == b[k]; }
    if b == [] {
      assert a + b == a;
    } else {
      var n := |b| - 1;
      assert (a + b)[..|a + b| - 1] == a + b[..n];
      LinesConcat(a, b[..n]);
    }
  }

  lemma OneLineOut(a: seq<string>, line: string, b: seq<string>)
    requires LinesOk(a + ([line] + b))
    ensures LinesOk(a + b) && LinesOk([line])
    ensures multiset(ComputesOf(a + ([line] + b))) == multiset(ComputesOf(a + b)) + multiset(ComputesOf([line]))
    ensures multiset(DeclsOf(a + ([line] + b))) == multiset(DeclsOf(a + b)) + multiset(DeclsOf([line]))
  {
    hide ItemOf, ComputesOf, DeclsOf;
    LinesConcat(a, [line] + b);
    LinesConcat([line], b);
    assert forall k :: 0 <= k < |a + b| ==> (a + b)[k] == if k < |a| then a[k] else b[k - |a|];
    LinesConcat(a, b);
  }

  lemma TakeOut(front: seq<string>, line: string, other: seq<string>) returns (a: seq<string>, b: seq<string>)
    requires multiset(front) + multiset{line} == multiset(other)
    ensures other == a + ([line] + b) && multiset(a + b) == multiset(front)
  {
    assert line in multiset(other);
    var k :| 0 <= k < |other| && other[k] == line;
    a, b := other[..k], other[k + 1..];
    assert other == a + ([line] + b);
    Parts(a, line, b);
    SameRest(multiset(a + b), multiset(front), line);
  }

  lemma SameRest(x: multiset<string>, y: multiset<string>, line: string)
    requires x + multiset{line} == y + multiset{line}
    ensures x == y
  {
    assert x == (x + multiset{line}) - multiset{line};
    assert y == (y + multiset{line}) - multiset{line};
  }

  lemma Parts(a: seq<string>, line: string, b: seq<string>)
    ensures multiset(a + ([line] + b)) == multiset(a + b) + multiset{line}
  {
  }

  lemma {:induction false} ReorderedItems(raw: seq<string>, other: seq<string>)
    requires multiset(raw) == multiset(other) && LinesOk(raw) && LinesOk(other)
    ensures multiset(ComputesOf(raw)) == multiset(ComputesOf(other)) &&
            multiset(DeclsOf(raw)) == multiset(DeclsOf(other))
    decreases |raw|
  {
    hide ItemOf, LinesOk;
    if raw == [] {
      assert |other| == |multiset(other)| == 0;
    } else {
      hide ComputesOf, DeclsOf;
      var front, line := raw[..|raw| - 1], raw[|raw| - 1];
      assert raw == front + [line] == front + ([line] + []) && front + [] == front;
      var a, b := TakeOut(front, line, other);
      OneLineOut(front, line, []);
      OneLineOut(a, line, b);
      ReorderedItems(front, a + b);
    }
  }

  lemma Twice<T>(s: seq<T>, i: nat, j: nat)
    requires i < j < |s| && s[i] == s[j]
    ensures multiset(s)[s[i]] >= 2
  {
    assert s == s[..i] + [s[i]] + s[i + 1..j] + [s[j]] + s[j + 1..];
  }

  lemma ApartReordered<T(!new)>(a: seq<T>, b: seq<T>, key: T -> string)
    requires multiset(a) == multiset(b) && forall i, j :: 0 <= i < j < |a| ==> key(a[i]) != key(a[j])
    ensures forall i, j :: 0 <= i < j < |b| ==> key(b[i]) != key(b[j])
  {
    forall i, j | 0 <= i < j < |b| ensures key(b[i]) != key(b[j]) {
      if b[i] == b[j] {
        Twice(b, i, j);
        OnceEach(a, b[i]);
      } else {
        assert b[i] in multiset(b) && b[j] in multiset(b);
        assert b[i] in a && b[j] in a;
      }
    }
  }

  // The place of a computation in a reordered list.
  lemma SamePlace(cs: seq<Compute>, other: seq<Compute>, i: nat) returns (k: nat)
    requires multiset(cs) == multiset(other) && i < |other|
    ensures k < |cs| && cs[k] == other[i]
  {
    assert other[i] in multiset(other);
    k :| k < |cs| && cs[k] == other[i];
  }

  lemma DependsReordered(cs: seq<Compute>, other: seq<Compute>, i: nat, j: nat, k: nat, l: nat)
    requires UniqueNames(cs) && DependsOn(other, i, j) && k < |cs| && l < |cs| && cs[k] == other[i] && cs[l] == other[j]
    requires UniqueNames(other)
    ensures DependsOn(cs, k, l)
  {
  }

  lemma {:induction false} ChainReordered(cs: seq<Compute>, other: seq<Compute>, c: seq<nat>) returns (d: seq<nat>)
    requires UniqueNames(cs) && UniqueNames(other) && multiset(cs) == multiset(other)
    requires c != [] && (forall k :: 0 <= k < |c| ==> c[k] < |other|) && Chain(other, c)
    ensures |d| == |c| && Chain(cs, d) && forall k :: 0 <= k < |c| ==> d[k] < |cs| && cs[d[k]] == other[c[k]]
  {
    hide DependsOn;
    var n := |c| - 1;
    var last := SamePlace(cs, other, c[n]);
    if n == 0 {
      d := [last];
    } else {
      var front := ChainReordered(cs, other, c[..n]);
      assert DependsOn(other, c[n - 1 + 1], c[n - 1]);
      DependsReordered(cs, other, c[n], c[n - 1], last, front[n - 1]);
      d := front + [last];
      forall k | 0 <= k < |d| - 1 ensures DependsOn(cs, d[k + 1], d[k]) {
        assert k < n - 1 ==> DependsOn(cs, front[k + 1], front[k]);
      }
    }
  }

  lemma CycleReordered(cs: seq<Compute>, other: seq<Compute>)
    requires UniqueNames(cs) && UniqueNames(other) && multiset(cs) == multiset(other) && HasCycle(other)
    ensures HasCycle(cs)
  {
    var c :| Cycle(other, c);
    CycleElements(other, c);
    var d := ChainReordered(cs, other, c);
    DependsReordered(cs, other, c[0], c[|c| - 1], d[0], d[|d| - 1]);
    assert Cycle(cs, d);
  }

  // Lines that parse do so in any order.
  lemma ReorderedLinesParse(raw: seq<string>, other: seq<string>)
    requires multiset(raw) == multiset(other) && Parses(raw) && UniqueNames(ComputesOf(raw))
    ensures Parses(other) && UniqueNames(ComputesOf(other))
  {
    hide ItemOf, CallsKnown, LinesOk, ComputesOf, DeclsOf, HasCycle;
    ReorderedLinesSameComputes(raw, other);
    ReorderedItems(raw, other);
    ApartReordered(DeclsOf(raw), DeclsOf(other), (d: Decl) => d.name);
    ApartReordered(ComputesOf(raw), ComputesOf(other), (c: Compute) => c.name);
    assert UniqueNames(ComputesOf(other));
    forall k | 0 <= k < |ComputesOf(other)| ensures CallsKnown(ComputesOf(other)[k].expr) {
      assert ComputesOf(other)[k] in ComputesOf(raw);
    }
    if HasCycle(ComputesOf(other)) { CycleReordered(ComputesOf(raw), ComputesOf(other)); }
  }

  // Writing the same lines in another order never changes the name a key resolves to.
  lemma LineOrderIrrelevant(raw: seq<string>, other: seq<string>, a: ExpandSet, b: ExpandSet,
                            tmpl: Template, vars: map<string, Value>, fields: Fields)
    requires multiset(raw) == multiset(other) && ParsesTo(raw, a) && ParsesTo(other, b)
    requires UniqueNames(ComputesOf(raw))
    ensures SameOutcome(Resolve(tmpl, a.computes, vars, fields), Resolve(tmpl, b.computes, vars, fields))
  {
    hide ItemOf, RunStrict, SortedVersion, LinesOk, ComputesOf, DeclsOf;
    ReorderedItems(raw, other);
    ApartReordered(ComputesOf(raw), ComputesOf(other), (c: Compute) => c.name);
    assert UniqueNames(ComputesOf(other));
    ReorderedLinesSameComputes(raw, other);
    SortedIsInOrder(ComputesOf(raw), a.computes);
    SortedIsInOrder(ComputesOf(other), b.computes);
    if Loadable(fields) {
      SameRun(a.computes, b.computes, Env(vars, Loaded(fields)));
    }
  }
}
