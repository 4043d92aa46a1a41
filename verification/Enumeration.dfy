// Enumerating database names ahead of time (db/internal/dbsp/sharding_expr_rule.go and
// autoInferIdentityComputes in db/internal/dbsp/sharding_factory.go).
module Enumeration {
  import opened Outcomes
  import opened Values
  import opened Syntax
  import opened Builtins
  import opened Sequences
  import opened Lexing
  import opened Evaluation
  import opened Expansion
  import opened ExpandParsing
  import opened Templates
  import opened ShardRules
  import opened Agreement
  import Parsing

  predicate DeclsOk(ds: seq<Decl>) { forall k :: 0 <= k < |ds| ==> DeclOk(ds[k]) }

  // ---- the full product, in lexicographic order ----

  // One index into the values of each declaration.
  predicate Choice(ds: seq<Decl>, x: seq<nat>)
    requires DeclsOk(ds)
  {
    |x| == |ds| && forall k :: 0 <= k < |x| ==> x[k] < |DeclValues(ds[k])|
  }

  function Chosen(env: Env, ds: seq<Decl>, x: seq<nat>): Env
    requires DeclsOk(ds) && Choice(ds, x)
    decreases |ds|
  {
    if ds == [] then env else Chosen(Bound(env, ds[0].name, DeclValues(ds[0])[x[0]]), ds[1..], x[1..])
  }

  function Times(i: nat, size: nat): nat { i * size }

  // The number of choices, and the place of each in the enumeration.
  function Size(ds: seq<Decl>): nat
    requires DeclsOk(ds)
  {
    if ds == [] then 1 else Times(|DeclValues(ds[0])|, Size(ds[1..]))
  }

  function Position(ds: seq<Decl>, x: seq<nat>): nat
    requires DeclsOk(ds) && Choice(ds, x)
    decreases |ds|
  {
    if ds == [] then 0 else Times(x[0], Size(ds[1..])) + Position(ds[1..], x[1..])
  }

  lemma {:induction false} PositionInRange(ds: seq<Decl>, x: seq<nat>)
    requires DeclsOk(ds) && Choice(ds, x)
    ensures Position(ds, x) < Size(ds)
    decreases |ds|
  {
    if ds != [] {
      PositionInRange(ds[1..], x[1..]);
      BlockFits(x[0], |DeclValues(ds[0])|, Size(ds[1..]));
    }
  }

  lemma BlockFits(i: nat, n: nat, size: nat)
    requires i < n
    ensures i * size + size <= n * size
  {
    assert n * size == (i + 1) * size + (n - i - 1) * size;
  }

  // The names that start with the j-th value of the first declaration.
  function SubNames(tmpl: Template, cs: seq<Compute>, env: Env, ds: seq<Decl>, j: nat): Result<seq<string>>
    requires ds != [] && DeclsOk(ds) && j < |DeclValues(ds[0])|
  {
    Names(tmpl, cs, Bound(env, ds[0].name, DeclValues(ds[0])[j]), ds[1..])
  }

  lemma SliceKept(front: seq<string>, more: seq<string>, a: nat, b: nat)
    requires a <= b <= |front|
    ensures (front + more)[a..b] == front[a..b]
  {
  }

  lemma OneMore(n: nat, size: nat)
    requires n > 0
    ensures n * size == (n - 1) * size + size
  {
  }

  // For the first n values, the names come in n blocks of equal size.
  lemma {:induction false} Blocks(tmpl: Template, cs: seq<Compute>, env: Env, ds: seq<Decl>, n: nat, size: nat, i: nat)
    requires ds != [] && DeclsOk(ds) && i < n <= |DeclValues(ds[0])|
    requires NamesFor(tmpl, cs, env, ds, n).Ok?
    requires forall j :: 0 <= j < n && SubNames(tmpl, cs, env, ds, j).Ok? ==>
             |SubNames(tmpl, cs, env, ds, j).value| == size
    ensures var names := NamesFor(tmpl, cs, env, ds, n).value;
            |names| == n * size && i * size + size <= |names| &&
            SubNames(tmpl, cs, env, ds, i) == Ok(names[i * size..i * size + size])
    decreases n
  {
    hide Names, DeclValues, Bound;
    var front := NamesFor(tmpl, cs, env, ds, n - 1).value;
    var more := SubNames(tmpl, cs, env, ds, n - 1).value;
    OneMore(n, size);
    if n > 1 {
      Blocks(tmpl, cs, env, ds, n - 1, size, if i < n - 1 then i else 0);
    }
    assert |front| == (n - 1) * size;
    BlockFits(i, n, size);
    if i < n - 1 {
      BlockFits(i, n - 1, size);
      SliceKept(front, more, i * size, i * size + size);
    } else {
      assert (front + more)[|front|..|front| + size] == more;
    }
  }

  // The enumeration holds exactly one name per choice, each at the choice's place.
  lemma {:induction false} NameOfChoice(tmpl: Template, cs: seq<Compute>, env: Env, ds: seq<Decl>, x: seq<nat>)
    requires DeclsOk(ds) && Choice(ds, x) && Names(tmpl, cs, env, ds).Ok?
    ensures var names := Names(tmpl, cs, env, ds).value;
            |names| == Size(ds) && Position(ds, x) < |names| &&
            NameIn(tmpl, cs, Chosen(env, ds, x)) == Ok(names[Position(ds, x)])
    decreases |ds|
  {
    if ds == [] {
      EmptyChoice(tmpl, cs, env, ds, x);
    } else {
      hide NameIn, Names, NamesFor, DeclValues, DeclOk, Position, Size;
      forall j | 0 <= j < |DeclValues(ds[0])| && SubNames(tmpl, cs, env, ds, j).Ok?
        ensures |SubNames(tmpl, cs, env, ds, j).value| == Size(ds[1..])
      {
        NameOfChoice(tmpl, cs, Bound(env, ds[0].name, DeclValues(ds[0])[j]), ds[1..], x[1..]);
      }
      NamesAreFor(tmpl, cs, env, ds);
      Blocks(tmpl, cs, env, ds, |DeclValues(ds[0])|, Size(ds[1..]), x[0]);
      NameOfChoice(tmpl, cs, Bound(env, ds[0].name, DeclValues(ds[0])[x[0]]), ds[1..], x[1..]);
      InBlock(ds, x, Names(tmpl, cs, env, ds).value);
    }
  }

  lemma EmptyChoice(tmpl: Template, cs: seq<Compute>, env: Env, ds: seq<Decl>, x: seq<nat>)
    requires ds == [] && Choice(ds, x) && Names(tmpl, cs, env, ds).Ok?
    ensures var names := Names(tmpl, cs, env, ds).value;
            |names| == Size(ds) && Position(ds, x) < |names| &&
            NameIn(tmpl, cs, Chosen(env, ds, x)) == Ok(names[Position(ds, x)])
  {
    hide NameIn;
  }

  lemma InBlock(ds: seq<Decl>, x: seq<nat>, names: seq<string>)
    requires ds != [] && DeclsOk(ds) && Choice(ds, x) && |names| == Size(ds)
    requires x[0] * Size(ds[1..]) + Size(ds[1..]) <= |names|
    ensures Position(ds[1..], x[1..]) < Size(ds[1..]) && Position(ds, x) < |names|
    ensures var a := x[0] * Size(ds[1..]);
            names[a..a + Size(ds[1..])][Position(ds[1..], x[1..])] == names[Position(ds, x)]
  {
    hide Size, DeclValues, DeclOk;
    PositionInRange(ds, x);
    PositionInRange(ds[1..], x[1..]);
    SliceIndex(names, x[0] * Size(ds[1..]), Size(ds[1..]), Position(ds[1..], x[1..]));
  }

  lemma SliceIndex(names: seq<string>, a: nat, size: nat, p: nat)
    requires a + size <= |names| && p < size
    ensures names[a..a + size][p] == names[a + p]
  {
  }

  lemma NamesAreFor(tmpl: Template, cs: seq<Compute>, env: Env, ds: seq<Decl>)
    requires ds != [] && DeclsOk(ds)
    ensures Names(tmpl, cs, env, ds) == NamesFor(tmpl, cs, env, ds, |DeclValues(ds[0])|)
    ensures Size(ds) == |DeclValues(ds[0])| * Size(ds[1..])
  {
  }

  predicate LexLess(x: seq<nat>, y: seq<nat>)
    requires |x| == |y|
  {
    x != [] && (x[0] < y[0] || (x[0] == y[0] && LexLess(x[1..], y[1..])))
  }

  // The order is the lexicographic one, so different choices have different places.
  lemma {:induction false} LexicographicOrder(ds: seq<Decl>, x: seq<nat>, y: seq<nat>)
    requires DeclsOk(ds) && Choice(ds, x) && Choice(ds, y)
    ensures LexLess(x, y) <==> Position(ds, x) < Position(ds, y)
    ensures x == y <==> Position(ds, x) == Position(ds, y)
    decreases |ds|
  {
    hide Times, DeclValues;
    if ds != [] {
      var size := Size(ds[1..]);
      LexicographicOrder(ds[1..], x[1..], y[1..]);
      PositionInRange(ds[1..], x[1..]);
      PositionInRange(ds[1..], y[1..]);
      if x[0] < y[0] { TimesFits(x[0], y[0], size); }
      if y[0] < x[0] { TimesFits(y[0], x[0], size); }
      assert x == [x[0]] + x[1..] && y == [y[0]] + y[1..];
    }
  }

  lemma TimesFits(i: nat, n: nat, size: nat)
    requires i < n
    ensures Times(i, size) + size <= Times(n, size)
  {
    BlockFits(i, n, size);
  }

  // Every place is the place of some choice.
  lemma {:induction false} EveryPlaceChosen(ds: seq<Decl>, p: nat) returns (x: seq<nat>)
    requires DeclsOk(ds) && p < Size(ds)
    ensures Choice(ds, x) && Position(ds, x) == p
    decreases |ds|
  {
    if ds == [] { return []; }
    var size, n := Size(ds[1..]), |DeclValues(ds[0])|;
    var first, rest := Place(p, n, size);
    var tail := EveryPlaceChosen(ds[1..], rest);
    x := [first] + tail;
    assert x[1..] == tail;
  }

  lemma {:induction false} Place(p: nat, n: nat, size: nat) returns (first: nat, rest: nat)
    requires p < n * size
    ensures first < n && rest < size && p == first * size + rest
    decreases n
  {
    assert n > 0 && n * size == (n - 1) * size + size;
    if p >= (n - 1) * size {
      first, rest := n - 1, p - (n - 1) * size;
    } else {
      first, rest := Place(p, n - 1, size);
    }
  }

  // Enumeration succeeds exactly when every choice can be named.
  lemma {:induction false} EnumerationSucceeds(tmpl: Template, cs: seq<Compute>, env: Env, ds: seq<Decl>)
    requires DeclsOk(ds)
    ensures Names(tmpl, cs, env, ds).Ok? <==> forall x :: Choice(ds, x) ==> NameIn(tmpl, cs, Chosen(env, ds, x)).Ok?
    decreases |ds|, 0
  {
    hide NameIn;
    if ds == [] {
      var none: seq<nat> := [];
      assert Choice(ds, none);
      assert Chosen(env, ds, none) == env;
      assert forall x :: Choice(ds, x) ==> x == none;
    } else {
      var n := |DeclValues(ds[0])|;
      if Names(tmpl, cs, env, ds).Ok? {
        forall x | Choice(ds, x) ensures NameIn(tmpl, cs, Chosen(env, ds, x)).Ok? {
          NameOfChoice(tmpl, cs, env, ds, x);
        }
      } else {
        var j := FirstFailure(tmpl, cs, env, ds, n);
        var child := Bound(env, ds[0].name, DeclValues(ds[0])[j]);
        EnumerationSucceeds(tmpl, cs, child, ds[1..]);
        var y :| Choice(ds[1..], y) && NameIn(tmpl, cs, Chosen(child, ds[1..], y)).Err?;
        var x: seq<nat> := [j] + y;
        assert x[1..] == y && Choice(ds, x);
      }
    }
  }

  lemma {:induction false} FirstFailure(tmpl: Template, cs: seq<Compute>, env: Env, ds: seq<Decl>, n: nat)
      returns (j: nat)
    requires ds != [] && DeclsOk(ds) && n <= |DeclValues(ds[0])| && NamesFor(tmpl, cs, env, ds, n).Err?
    ensures j < n && Names(tmpl, cs, Bound(env, ds[0].name, DeclValues(ds[0])[j]), ds[1..]).Err?
    decreases n
  {
    if NamesFor(tmpl, cs, env, ds, n - 1).Err? {
      j := FirstFailure(tmpl, cs, env, ds, n - 1);
    } else {
      j := n - 1;
    }
  }

  // ---- every routed key is enumerated ----

  function NamesOfDecls(ds: seq<Decl>): set<string> { set k | 0 <= k < |ds| :: ds[k].name }

  // Database rules may copy declared columns; everything else that defines a declared
  // variable must need the key.
  ghost predicate DbRouted(tmpl: Template, expands: ExpandSet)
  {
    var cs, names := expands.computes, NamesOfDecls(expands.decls);
    && DeclNamesDiffer(expands.decls) && DeclsOk(expands.decls)
    && UniqueNames(cs)
    && (forall i :: 0 <= i < |cs| && cs[i].name in names ==> NeedsKey(cs, i, names, names) || Identity(cs[i]))
    && Covered(tmpl, cs, names)
  }

  // The routed value of every computed declared variable is among its declared values.
  ghost predicate InDomains(expands: ExpandSet, final: Env)
    requires DeclsOk(expands.decls)
  {
    forall k, i :: 0 <= k < |expands.decls| && 0 <= i < |expands.computes| &&
                   expands.computes[i].name == expands.decls[k].name ==>
      expands.decls[k].name in final.vars && final.vars[expands.decls[k].name] in DeclValues(expands.decls[k])
  }

  ghost predicate Computed(cs: seq<Compute>, name: string) { exists i :: 0 <= i < |cs| && cs[i].name == name }

  // The choice that a key's routed values amount to; where nothing is computed, the first value.
  lemma {:induction false} RoutedChoice(ds: seq<Decl>, cs: seq<Compute>, final: Env, n: nat) returns (x: seq<nat>)
    requires DeclsOk(ds) && n <= |ds|
    requires forall k :: 0 <= k < n && Computed(cs, ds[k].name) ==>
               ds[k].name in final.vars && final.vars[ds[k].name] in DeclValues(ds[k])
    ensures |x| == n && forall k :: 0 <= k < n ==> x[k] < |DeclValues(ds[k])|
    ensures forall k :: 0 <= k < n && Computed(cs, ds[k].name) ==> DeclValues(ds[k])[x[k]] == final.vars[ds[k].name]
    decreases n
  {
    if n == 0 { return []; }
    var front := RoutedChoice(ds, cs, final, n - 1);
    var d := ds[n - 1];
    var last: nat := 0;
    if Computed(cs, d.name) {
      last :| last < |DeclValues(d)| && DeclValues(d)[last] == final.vars[d.name];
    }
    assert |DeclValues(d)| > 0;
    x := front + [last];
  }

  lemma {:induction false} ChosenBinds(env: Env, ds: seq<Decl>, x: seq<nat>, name: string)
    requires DeclsOk(ds) && DeclNamesDiffer(ds) && Choice(ds, x)
    ensures var got := Chosen(env, ds, x);
      && (forall k :: 0 <= k < |ds| && ds[k].name == name ==>
            name in got.vars && name in got.cols && got.vars[name] == got.cols[name] == DeclValues(ds[k])[x[k]])
      && ((forall k :: 0 <= k < |ds| ==> ds[k].name != name) ==>
            Agree({name}, got.vars, env.vars) && Agree({name}, got.cols, env.cols))
    decreases |ds|
  {
    if ds != [] {
      var child := Bound(env, ds[0].name, DeclValues(ds[0])[x[0]]);
      assert forall k :: 0 <= k < |ds[1..]| ==> ds[1..][k] == ds[k + 1];
      assert DeclNamesDiffer(ds[1..]);
      ChosenBinds(child, ds[1..], x[1..], name);
      assert name in {name};
      if ds[0].name == name {
        assert forall k :: 0 < k < |ds| ==> ds[k].name != name;
      } else {
        forall k | 0 <= k < |ds| && ds[k].name == name
          ensures k > 0 && ds[1..][k - 1].name == name && x[1..][k - 1] == x[k]
        {}
      }
    }
  }

  // Every declared variable the template shows is computed, which inference sees to.
  ghost predicate HolesComputed(tmpl: Template, expands: ExpandSet)
  {
    forall h :: h in HoleNames(tmpl) && h in NamesOfDecls(expands.decls) ==> Computed(expands.computes, h)
  }

  // A key on which the computations run can be rendered.
  lemma RunRenders(tmpl: Template, expands: ExpandSet, fields: Fields)
    requires Covered(tmpl, expands.computes, NamesOfDecls(expands.decls)) && HolesComputed(tmpl, expands)
    requires Loadable(fields) && RunStrict(expands.computes, Env(map[], Loaded(fields))).Ok?
    ensures ResolveDb(ExprDb(tmpl, expands), Some(fields)).Ok?
  {
    hide Static, RunStrict;
    var cs := expands.computes;
    var env := Env(map[], Loaded(fields));
    assert cs[..|cs|] == cs;
    StrictKeeps(cs, |cs|, env);
    var final := RunStrict(cs, env).value;
    forall h | h in HoleNames(tmpl) ensures h in final.vars {
      assert Computed(cs, h);
    }
    RenderNeedsHoles(tmpl, final.vars);
  }

  // A key on which the computations run, with routed values in the declared domains,
  // resolves to an enumerated name.
  lemma RoutedDbIsEnumerated(tmpl: Template, expands: ExpandSet, names: seq<string>, fields: Fields)
    requires DbRouted(tmpl, expands) && HolesComputed(tmpl, expands) && DbNames(tmpl, expands) == Ok(names)
    requires Loadable(fields) && RunStrict(expands.computes, Env(map[], Loaded(fields))).Ok?
    requires InDomains(expands, RunStrict(expands.computes, Env(map[], Loaded(fields))).value)
    ensures ResolveDb(ExprDb(tmpl, expands), Some(fields)).Ok?
    ensures ResolveDb(ExprDb(tmpl, expands), Some(fields)).value in names
  {
    hide NeedsKey, Static, RunStrict, RunSkipping, Covered, HolesComputed, InDomains;
    RunRenders(tmpl, expands, fields);
    var ds, cs := expands.decls, expands.computes;
    var final := RunStrict(cs, Env(map[], Loaded(fields))).value;
    var x := DomainChoice(expands, final);
    var pinned := Chosen(EMPTY, ds, x);
    var s := Setting(map[], pinned.vars, pinned.cols);
    ChoiceSetting(expands, x, tmpl);
    assert Routed(cs, s, Loaded(fields)) by {
      forall i | 0 <= i < |cs| && cs[i].name in s.pinned
        ensures cs[i].name in final.vars && final.vars[cs[i].name] == s.pinned[cs[i].name]
      {
        assert cs[i].name in NamesOfDecls(ds);
        var k :| 0 <= k < |ds| && ds[k].name == cs[i].name;
        ChosenBinds(EMPTY, ds, x, ds[k].name);
        assert Computed(cs, ds[k].name);
      }
    }
    EvaluatorsAgree(tmpl, cs, s, Loaded(fields));
    assert s.Start() == pinned;
    NameOfChoice(tmpl, cs, EMPTY, ds, x);
  }

  lemma DomainChoice(expands: ExpandSet, final: Env) returns (x: seq<nat>)
    requires DeclsOk(expands.decls) && InDomains(expands, final)
    ensures Choice(expands.decls, x)
    ensures forall k :: 0 <= k < |expands.decls| && Computed(expands.computes, expands.decls[k].name) ==>
              expands.decls[k].name in final.vars &&
              DeclValues(expands.decls[k])[x[k]] == final.vars[expands.decls[k].name]
  {
    x := RoutedChoice(expands.decls, expands.computes, final, |expands.decls|);
  }

  lemma ChoiceSetting(expands: ExpandSet, x: seq<nat>, tmpl: Template)
    requires DbRouted(tmpl, expands) && Choice(expands.decls, x)
    ensures var got := Chosen(EMPTY, expands.decls, x);
      got.vars == got.cols && got.vars.Keys == NamesOfDecls(expands.decls) &&
      var s := Setting(map[], got.vars, got.cols);
      s.Fits(expands.computes) && s.Given() == NamesOfDecls(expands.decls) && s.Start() == got
  {
    hide NeedsKey, Static, Covered;
    var ds := expands.decls;
    var got := Chosen(EMPTY, ds, x);
    forall n ensures (n in got.vars <==> n in NamesOfDecls(ds)) && (n in got.cols <==> n in NamesOfDecls(ds))
      ensures n in got.vars && n in got.cols ==> got.vars[n] == got.cols[n]
    {
      ChosenBinds(EMPTY, ds, x, n);
      assert n in {n};
    }
    assert got.vars == got.cols && got.vars.Keys == NamesOfDecls(ds);
    var s := Setting(map[], got.vars, got.cols);
    assert s.Given() == NamesOfDecls(ds) && s.base + s.pinned == got.vars;
  }

  // ---- inferred identity computations ----

  function NamesOfComputes(cs: seq<Compute>): set<string> { set k | 0 <= k < |cs| :: cs[k].name }

  // "${v} = @{v}" for every hole that is declared and not computed.
  function InferredFor(holes: seq<string>, declared: set<string>, computed: set<string>): seq<Compute>
  {
    if holes == [] then []
    else
      var front := InferredFor(holes[..|holes| - 1], declared, computed);
      var v := holes[|holes| - 1];
      if v in declared && v !in computed then front + [Compute(v, ColRef(v))] else front
  }

  function Inferred(tmpl: Template, expands: ExpandSet): seq<Compute>
  {
    InferredFor(HoleNames(tmpl), NamesOfDecls(expands.decls), NamesOfComputes(expands.computes))
  }

  // The identity expression is built by parsing its text.
  lemma IdentityText(v: string)
    requires Identifier(v)
    ensures Parsing.ParseText("@{" + v + "}") == Some(ColRef(v))
  {
    var text := "@{" + v + "}";
    assert text == ['@', '{'] + v + "}";
    forall k | 2 <= k < |text| - 1 ensures text[k] != '}' {
      assert text[k] == v[k - 2] && IsIdentChar(v[k - 2]);
    }
    ScanStopsAt(text, 2, |text| - 1, NotClosingBrace);
    assert text[2..|text| - 1] == v;
    var t := Token(ColRefToken, v);
    assert NextToken(text, 0) == Some((t, |text|));
    assert Tokens(text, |text|) == Some([END]);
    assert Tokens(text, 0) == Some([t] + [END]);
    assert [t] + [END] == [t, END];
    SingleColumnParses(t, v);
  }

  lemma SingleColumnParses(t: Token, v: string)
    requires t == Token(ColRefToken, v)
    ensures Parsing.ParseTokens([t, END]) == Some(ColRef(v))
  {
    var ts := [t, END];
    assert Parsing.ParsePrimary(ts, 0) == Some((ColRef(v), 1));
    assert Parsing.ParseUnary(ts, 0) == Some((ColRef(v), 1));
    assert Parsing.ProductTail(ts, 1, ColRef(v)) == Some((ColRef(v), 1));
    assert Parsing.ParseProduct(ts, 0) == Some((ColRef(v), 1));
    assert Parsing.SumTail(ts, 1, ColRef(v)) == Some((ColRef(v), 1));
  }

  method AutoInferIdentityComputes(tmpl: Template, expands: ExpandSet) returns (r: ExpandSet)
    requires forall h :: h in HoleNames(tmpl) ==> Identifier(h)
    ensures r == expands.(computes := expands.computes + Inferred(tmpl, expands))
  {
    var holes := HoleNames(tmpl);
    var declared, computed := NamesOfDecls(expands.decls), NamesOfComputes(expands.computes);
    var computes := expands.computes;
    for i := 0 to |holes|
      invariant computes == expands.computes + InferredFor(holes[..i], declared, computed)
    {
      assert holes[..i + 1][..i] == holes[..i];
      if holes[i] in declared && holes[i] !in computed {
        IdentityText(holes[i]);
        var e := Parsing.ParseExpressionString("@{" + holes[i] + "}");
        computes := computes + [Compute(holes[i], e.value)];
      }
    }
    assert holes[..|holes|] == holes;
    r := expands.(computes := computes);
  }

  lemma {:induction false} InferredAreIdentities(holes: seq<string>, declared: set<string>, computed: set<string>,
                                                 c: Compute)
    ensures c in InferredFor(holes, declared, computed) <==>
            Identity(c) && c.name in holes && c.name in declared && c.name !in computed
  {
    if holes != [] {
      InferredAreIdentities(holes[..|holes| - 1], declared, computed, c);
      assert c.name in holes <==> c.name in holes[..|holes| - 1] || c.name == holes[|holes| - 1];
    }
  }

  // After inference every declared hole is computed.
  lemma DeclaredHolesComputed(tmpl: Template, expands: ExpandSet, h: string)
    requires h in HoleNames(tmpl) && h in NamesOfDecls(expands.decls)
    ensures Computed(expands.computes + Inferred(tmpl, expands), h)
  {
    var all := expands.computes + Inferred(tmpl, expands);
    if h in NamesOfComputes(expands.computes) {
      var k :| 0 <= k < |expands.computes| && expands.computes[k].name == h;
      assert all[k].name == h;
    } else {
      var c := Compute(h, ColRef(h));
      InferredAreIdentities(HoleNames(tmpl), NamesOfDecls(expands.decls), NamesOfComputes(expands.computes), c);
      var k :| 0 <= k < |Inferred(tmpl, expands)| && Inferred(tmpl, expands)[k] == c;
      assert all[|expands.computes| + k].name == h;
    }
  }

  lemma InferenceComputesHoles(tmpl: Template, expands: ExpandSet)
    ensures HolesComputed(tmpl, expands.(computes := expands.computes + Inferred(tmpl, expands)))
  {
    forall h | h in HoleNames(tmpl) && h in NamesOfDecls(expands.decls)
      ensures Computed(expands.computes + Inferred(tmpl, expands), h)
    {
      DeclaredHolesComputed(tmpl, expands, h);
    }
  }

  // The inferred computations come last, after the sorting. A written computation that
  // reads an inferred variable therefore runs too early, and the rule resolves no key.
  lemma ReadingInferredNeverResolves(tmpl: Template, expands: ExpandSet, i: nat, u: string, key: Option<Fields>)
    requires i < |expands.computes| && u in VarRefs(expands.computes[i].expr)
    requires u in HoleNames(tmpl) && u in NamesOfDecls(expands.decls) && u !in NamesOfComputes(expands.computes)
    ensures ResolveDb(ExprDb(tmpl, expands.(computes := expands.computes + Inferred(tmpl, expands))), key).Err?
  {
    var all := expands.computes + Inferred(tmpl, expands);
    if key.Some? && Loadable(key.value) {
      forall j | 0 <= j < i ensures all[j].name != u {
        assert all[j] == expands.computes[j] && expands.computes[j].name in NamesOfComputes(expands.computes);
      }
      ReadTooEarly(all, Env(map[], Loaded(key.value)), i, u);
    }
  }

  // A run fails when some computation reads a variable that nothing defines before it.
  lemma ReadTooEarly(cs: seq<Compute>, env: Env, i: nat, u: string)
    requires i < |cs| && u in VarRefs(cs[i].expr) && u !in env.vars && forall j :: 0 <= j < i ==> cs[j].name != u
    ensures RunStrict(cs, env).Err?
  {
    if RunStrict(cs[..i], env).Err? {
      StrictStuck(cs, env, i);
    } else {
      StrictKeeps(cs, i, env);
      var now := RunStrict(cs[..i], env).value;
      assert u in Elements(VarRefs(cs[i].expr)) && u !in now.vars;
      EvalIsStrict(cs[i].expr, now);
      assert cs[..i + 1][..i] == cs[..i];
      StrictStuck(cs, env, i + 1);
    }
  }

  // ---- where the names escape the enumeration ----

  // "${idx} := range(0, n)" with "${idx} = @{shop_id} % n".
  function PercentRule(n: int64): TableRule
  {
    TableRule(
      [Literal("order_tab_"), Hole("idx")],
      ExpandSet([RangeDecl("idx", 0, n)], [Compute("idx", BinaryOp(Percent, ColRef("shop_id"), IntLit(n)))]),
      "idx", n)
  }

  function ShopKey(shop: int64): Fields { map["shop_id" := Int64(shop)] }

  lemma RenderPrefixed(prefix: string, hole: string, vars: map<string, Value>)
    requires hole in vars
    ensures Render([Literal(prefix), Hole(hole)], vars) == Ok(prefix + AsString(vars[hole]))
  {
    var t := [Literal(prefix), Hole(hole)];
    assert t[..1] == [Literal(prefix)] && t[..1][..0] == [];
    assert Render(t[..1][..0], vars) == Ok("");
    assert "" + prefix == prefix;
    assert Render(t[..1], vars) == Ok(prefix);
  }

  lemma PercentResolves(n: int64, shop: int64)
    requires n > 0
    ensures ResolveTable(PercentRule(n), "order", Some(ShopKey(shop))) ==
            Ok("order_tab_" + FormatInt(Wrap(Remainder(shop, n))))
  {
    hide FormatInt, Remainder;
    var cs := PercentRule(n).expands.computes;
    var env := Env(map["table" := StrValue("order")], Loaded(ShopKey(shop)));
    var idx := IntValue(Wrap(Remainder(shop, n)));
    assert cs[..0] == [];
    assert RunStrict(cs[..0], env) == Ok(env);
    assert Eval(ColRef("shop_id"), env) == Ok(IntValue(shop)) && Eval(IntLit(n), env) == Ok(IntValue(n));
    assert Eval(cs[0].expr, env) == Ok(idx);
    assert RunStrict(cs, env) == Ok(Define(env, "idx", idx));
    RenderPrefixed("order_tab_", "idx", Define(env, "idx", idx).vars);
  }

  lemma PercentEnumerates(n: int64, k: int)
    requires n > 0
    ensures ShardName(PercentRule(n), "order", k) ==
            if 0 <= k < n then Ok("order_tab_" + FormatInt(k)) else Err(IndexOutOfRange)
  {
    hide FormatInt, Remainder;
    if 0 <= k < n {
      var cs := PercentRule(n).expands.computes;
      var start := ShardEnv(PercentRule(n), "order", k);
      assert cs[..0] == [];
      assert RunSkipping(cs[..0], start) == start;
      assert Eval(ColRef("shop_id"), start).Err?;
      assert Eval(cs[0].expr, start).Err?;
      assert RunSkipping(cs, start) == start;
      RenderPrefixed("order_tab_", "idx", start.vars);
    }
  }

  predicate Enumerated(rule: TableRule, table: string, name: Result<string>)
  {
    name.Ok? && exists k :: 0 <= k < rule.count && ShardName(rule, table, k) == name
  }

  // The table a shop_id is stored in is one that enumeration lists if and only if the
  // shop_id is not negative, or a multiple of n.
  lemma NegativeKeyEscapes(n: int64, shop: int64)
    requires n > 0
    ensures ResolveTable(PercentRule(n), "order", Some(ShopKey(shop))).Ok?
    ensures Enumerated(PercentRule(n), "order", ResolveTable(PercentRule(n), "order", Some(ShopKey(shop)))) <==>
            shop >= 0 || shop % n == 0
  {
    hide ShardName, ResolveTable, FormatInt, Remainder;
    var name := ResolveTable(PercentRule(n), "order", Some(ShopKey(shop)));
    PercentResolves(n, shop);
    PercentRoutesInRange(shop, n);
    var r := Wrap(Remainder(shop, n));
    if 0 <= r < n {
      PercentEnumerates(n, r);
    }
    forall k | 0 <= k < n && ShardName(PercentRule(n), "order", k) == name ensures k == r {
      PercentEnumerates(n, k);
      if k != r { PrefixedNumbersDiffer("order_tab_", k, r); }
    }
  }

  lemma PrefixedNumbersDiffer(prefix: string, v: int64, w: int64)
    requires v != w
    ensures prefix + FormatInt(v) != prefix + FormatInt(w)
  {
    var a, b := prefix + FormatInt(v), prefix + FormatInt(w);
    assert a[|prefix|..] == FormatInt(v) && b[|prefix|..] == FormatInt(w);
    if a == b { FormatInjective(v, w); }
  }
}
