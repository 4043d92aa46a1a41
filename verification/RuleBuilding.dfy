// Model of BuildExprDbRule and BuildExprTableRule in db/internal/dbsp/sharding_factory.go:
// rules built from a template and lines, with identity computations inferred.
module RuleBuilding {
  import opened Outcomes
  import opened Values
  import opened Syntax
  import opened Lexing
  import opened Sequences
  import opened Evaluation
  import opened Expansion
  import opened ExpandParsing
  import opened Templates
  import opened ShardRules
  import opened OrderedEvaluation
  import opened Agreement
  import opened Enumeration

  function WithInferred(tmpl: Template, expands: ExpandSet): ExpandSet
  {
    expands.(computes := expands.computes + Inferred(tmpl, expands))
  }

  // ---- building ----

  lemma {:induction false} PartsAreNamed(s: string, p: nat, literal: string, k: nat)
    requires p <= |s| && TemplateFrom(s, p, literal).Ok? && k < |TemplateFrom(s, p, literal).value|
    ensures TemplateFrom(s, p, literal).value[k].Hole? ==> Identifier(TemplateFrom(s, p, literal).value[k].name)
    decreases |s| - p
  {
    var parts := TemplateFrom(s, p, literal).value;
    if p < |s| {
      if HoleOpensAt(s, p) {
        var end := ClosingBrace(s, p + 2, 1).value;
        var rest := TemplateFrom(s, end + 1, "").value;
        var front := |parts| - |rest|;
        if k >= front {
          PartsAreNamed(s, end + 1, "", k - front);
          assert parts[k] == rest[k - front];
        }
      } else {
        PartsAreNamed(s, p + 1, literal + [s[p]], k);
      }
    }
  }

  lemma {:induction false} HoleHasPart(t: Template, h: string)
    requires h in HoleNames(t)
    ensures exists k :: 0 <= k < |t| && t[k] == Hole(h)
  {
    var n := |t| - 1;
    if t[n] != Hole(h) {
      HoleHasPart(t[..n], h);
      var k :| 0 <= k < n && t[..n][k] == Hole(h);
      assert t[k] == Hole(h);
    }
  }

  lemma HolesAreIdentifiers(s: string, t: Template)
    requires TemplateFrom(s, 0, "") == Ok(t)
    ensures forall h :: h in HoleNames(t) ==> Identifier(h)
  {
    forall h | h in HoleNames(t) ensures Identifier(h) {
      HoleHasPart(t, h);
      var k :| 0 <= k < |t| && t[k] == Hole(h);
      PartsAreNamed(s, 0, "", k);
    }
  }

  lemma {:induction false} DeclaredNames(raw: seq<string>, k: nat)
    requires LinesOk(raw) && k < |DeclsOf(raw)|
    ensures DeclOk(DeclsOf(raw)[k]) && DeclsOf(raw)[k].name != ""
  {
    hide DeclOf, Find, Trim;
    if k < |DeclsOf(raw[..|raw| - 1])| { DeclaredNames(raw[..|raw| - 1], k); }
  }

  // What building a rule from these texts yields.
  ghost predicate DbRuleFrom(nameExpr: string, lines: seq<string>, rule: DbRule)
  {
    && rule.ExprDb? && TemplateFrom(nameExpr, 0, "") == Ok(rule.tmpl)
    && exists parsed :: ParsesTo(lines, parsed) && rule.expands == WithInferred(rule.tmpl, parsed)
  }

  method BuildExprDbRule(nameExpr: string, lines: seq<string>) returns (r: Result<DbRule>)
    ensures r.Ok? <==> TemplateFrom(nameExpr, 0, "").Ok? && Parses(lines)
    ensures r.Ok? ==> DbRuleFrom(nameExpr, lines, r.value)
  {
    var tmpl := ParseTemplate(nameExpr);
    if tmpl.Err? { return Err(tmpl.error); }
    var expands := ParseExpands(lines);
    if expands.Err? { return Err(expands.error); }
    HolesAreIdentifiers(nameExpr, tmpl.value);
    var full := AutoInferIdentityComputes(tmpl.value, expands.value);
    assert full == WithInferred(tmpl.value, expands.value);
    return Ok(ExprDb(tmpl.value, full));
  }

  method BuildExprTableRule(nameExpr: string, lines: seq<string>) returns (r: Result<TableRule>)
    ensures r.Ok? <==> TemplateFrom(nameExpr, 0, "").Ok? && Parses(lines)
    ensures r.Ok? ==>
              TemplateFrom(nameExpr, 0, "") == Ok(r.value.tmpl) && ParsesTo(lines, r.value.expands) && RuleOk(r.value)
  {
    var tmpl := ParseTemplate(nameExpr);
    if tmpl.Err? { return Err(tmpl.error); }
    var expands := ParseExpands(lines);
    if expands.Err? { return Err(expands.error); }
    forall k | 0 <= k < |expands.value.decls|
      ensures DeclOk(expands.value.decls[k]) && expands.value.decls[k].name != ""
    {
      DeclaredNames(lines, k);
    }
    var rule := NewExprTableRule(tmpl.value, expands.value);
    return Ok(rule);
  }

  // ---- order after inference ----

  // A written computation reads a variable that inference will define.
  ghost predicate ReadsInferred(tmpl: Template, expands: ExpandSet)
  {
    exists i, u :: 0 <= i < |expands.computes| && ReadsAt(tmpl, expands, i, u)
  }

  predicate ReadsAt(tmpl: Template, expands: ExpandSet, i: nat, u: string)
    requires i < |expands.computes|
  {
    && u in VarRefs(expands.computes[i].expr)
    && u in HoleNames(tmpl) && u in NamesOfDecls(expands.decls) && u !in NamesOfComputes(expands.computes)
  }

  lemma InferredNamed(tmpl: Template, expands: ExpandSet, j: nat)
    requires j < |Inferred(tmpl, expands)|
    ensures var c := Inferred(tmpl, expands)[j];
            Identity(c) && VarRefs(c.expr) == [] &&
            c.name in HoleNames(tmpl) && c.name in NamesOfDecls(expands.decls) &&
            c.name !in NamesOfComputes(expands.computes)
  {
    var declared, computed := NamesOfDecls(expands.decls), NamesOfComputes(expands.computes);
    InferredAreIdentities(HoleNames(tmpl), declared, computed, Inferred(tmpl, expands)[j]);
  }

  // The inferred computations are appended after sorting. The list stays in dependency
  // order if and only if no written computation reads one of them.
  lemma InferredInOrder(tmpl: Template, expands: ExpandSet)
    requires UniqueNames(WithInferred(tmpl, expands).computes) && InOrder(expands.computes)
    ensures InOrder(WithInferred(tmpl, expands).computes) <==> !ReadsInferred(tmpl, expands)
  {
    hide Inferred;
    var cs, inferred := expands.computes, Inferred(tmpl, expands);
    var all := cs + inferred;
    assert forall k :: 0 <= k < |cs| ==> all[k] == cs[k];
    if ReadsInferred(tmpl, expands) {
      var i, u :| 0 <= i < |cs| && ReadsAt(tmpl, expands, i, u);
      var c := Compute(u, ColRef(u));
      InferredHolds(tmpl, expands, u);
      var j :| 0 <= j < |inferred| && inferred[j] == c;
      assert all[|cs| + j] == c && all[i] == cs[i];
      assert DependsOn(all, i, |cs| + j);
    } else {
      forall i, j | 0 <= i < |all| && 0 <= j < |all| && DependsOn(all, i, j) ensures j < i {
        if i >= |cs| {
          InferredNamed(tmpl, expands, i - |cs|);
        } else if j >= |cs| {
          InferredNamed(tmpl, expands, j - |cs|);
          NotReadAt(tmpl, expands, i, all[j].name);
        } else {
          assert DependsOn(cs, i, j);
        }
      }
    }
  }

  lemma NotReadAt(tmpl: Template, expands: ExpandSet, i: nat, u: string)
    requires !ReadsInferred(tmpl, expands) && i < |expands.computes|
    ensures !ReadsAt(tmpl, expands, i, u)
  {
  }

  lemma InferredHolds(tmpl: Template, expands: ExpandSet, u: string)
    requires u in HoleNames(tmpl) && u in NamesOfDecls(expands.decls) && u !in NamesOfComputes(expands.computes)
    ensures Compute(u, ColRef(u)) in Inferred(tmpl, expands)
  {
    var declared, computed := NamesOfDecls(expands.decls), NamesOfComputes(expands.computes);
    InferredAreIdentities(HoleNames(tmpl), declared, computed, Compute(u, ColRef(u)));
  }

  // The computations of a built database rule run in sequence if and only if no written
  // one reads an inferred variable and every equation has a meaning; then they leave
  // exactly those meanings.
  lemma BuiltRuleIsDeclarative(tmpl: Template, expands: ExpandSet, cols: map<string, Value>)
    requires UniqueNames(WithInferred(tmpl, expands).computes) && InOrder(expands.computes)
    ensures var cs, env := WithInferred(tmpl, expands).computes, Env(map[], cols);
            && (RunStrict(cs, env).Ok? <==> !ReadsInferred(tmpl, expands) && AllMean(Definitions(cs), env))
            && (RunStrict(cs, env).Ok? ==>
                  RunStrict(cs, env).value.vars ==
                  map n | n in Definitions(cs) && Meaning(Definitions(cs), env, n).Ok? ::
                    Meaning(Definitions(cs), env, n).value)
  {
    hide Inferred, RunStrict, Meaning;
    var cs, env := WithInferred(tmpl, expands).computes, Env(map[], cols);
    InferredInOrder(tmpl, expands);
    if ReadsInferred(tmpl, expands) {
      var i, u :| 0 <= i < |expands.computes| && ReadsAt(tmpl, expands, i, u);
      forall j | 0 <= j < i ensures cs[j].name != u {
        assert cs[j] == expands.computes[j] && expands.computes[j].name in NamesOfComputes(expands.computes);
      }
      ReadTooEarly(cs, env, i, u);
    } else {
      OrderedIsDeclarative(cs, env);
    }
  }

  // ---- the order of the lines ----

  lemma {:induction false} RunAppended(a: seq<Compute>, b: seq<Compute>, env: Env)
    ensures RunStrict(a + b, env) ==
            match RunStrict(a, env) case Err(x) => Err(x) case Ok(between) => RunStrict(b, between)
  {
    if b == [] {
      assert a + b == a;
    } else {
      var n := |b| - 1;
      assert (a + b)[..|a + b| - 1] == a + b[..n];
      RunAppended(a, b[..n], env);
    }
  }

  lemma SameNames(raw: seq<string>, other: seq<string>, a: ExpandSet, b: ExpandSet)
    requires multiset(raw) == multiset(other) && ParsesTo(raw, a) && ParsesTo(other, b) && UniqueNames(ComputesOf(raw))
    ensures NamesOfDecls(a.decls) == NamesOfDecls(b.decls)
    ensures NamesOfComputes(a.computes) == NamesOfComputes(b.computes)
    ensures UniqueNames(a.computes) && InOrder(a.computes) && UniqueNames(b.computes) && InOrder(b.computes)
    ensures forall c :: c in a.computes <==> c in b.computes
  {
    hide ItemOf, SortedVersion, LinesOk, ComputesOf, DeclsOf;
    ReorderedItems(raw, other);
    ApartReordered(ComputesOf(raw), ComputesOf(other), (c: Compute) => c.name);
    assert UniqueNames(ComputesOf(other));
    ReorderedLinesSameComputes(raw, other);
    SortedIsInOrder(ComputesOf(raw), a.computes);
    SortedIsInOrder(ComputesOf(other), b.computes);
    SameDeclNames(a.decls, b.decls);
    SameComputeNames(a.computes, b.computes);
  }

  lemma SameDeclNames(a: seq<Decl>, b: seq<Decl>)
    requires multiset(a) == multiset(b)
    ensures NamesOfDecls(a) == NamesOfDecls(b)
  {
    SomeDeclNames(a, b);
    SomeDeclNames(b, a);
  }

  lemma SomeDeclNames(a: seq<Decl>, b: seq<Decl>)
    requires multiset(a) == multiset(b)
    ensures NamesOfDecls(a) <= NamesOfDecls(b)
  {
    forall k | 0 <= k < |a| ensures a[k].name in NamesOfDecls(b) {
      var d := a[k];
      assert d in multiset(a);
      assert d in b;
      var j :| 0 <= j < |b| && b[j] == d;
    }
  }

  lemma SameComputeNames(a: seq<Compute>, b: seq<Compute>)
    requires forall c :: c in a <==> c in b
    ensures NamesOfComputes(a) == NamesOfComputes(b)
  {
    SomeComputeNames(a, b);
    SomeComputeNames(b, a);
  }

  lemma SomeComputeNames(a: seq<Compute>, b: seq<Compute>)
    requires forall c :: c in a ==> c in b
    ensures NamesOfComputes(a) <= NamesOfComputes(b)
  {
    forall k | 0 <= k < |a| ensures a[k].name in NamesOfComputes(b) {
      var c := a[k];
      assert c in b;
      var j :| 0 <= j < |b| && b[j] == c;
    }
  }

  // Database rules built from the same lines in another order resolve every key alike.
  lemma BuiltRulesIgnoreLineOrder(nameExpr: string, raw: seq<string>, other: seq<string>, a: DbRule, b: DbRule,
                                  key: Option<Fields>)
    requires multiset(raw) == multiset(other) && LinesOk(raw) && UniqueNames(ComputesOf(raw))
    requires DbRuleFrom(nameExpr, raw, a) && DbRuleFrom(nameExpr, other, b)
    ensures SameOutcome(ResolveDb(a, key), ResolveDb(b, key))
  {
    hide ItemOf, SortedVersion, LinesOk, ComputesOf, DeclsOf, RunStrict, TemplateFrom, Render;
    var p :| ParsesTo(raw, p) && a.expands == WithInferred(a.tmpl, p);
    var q :| ParsesTo(other, q) && b.expands == WithInferred(b.tmpl, q);
    SameNames(raw, other, p, q);
    var inferred := Inferred(a.tmpl, p);
    assert inferred == Inferred(b.tmpl, q);
    if key.Some? && Loadable(key.value) {
      var env := Env(map[], Loaded(key.value));
      SameRun(p.computes, q.computes, env);
      RunAppended(p.computes, inferred, env);
      RunAppended(q.computes, inferred, env);
    }
  }
}
