// What routing in db/internal/dbsp/sharding_table_store.go guarantees about the rows
// that a sharded table holds.
module Placement {
  import opened Outcomes
  import opened Values
  import opened Syntax
  import opened Builtins
  import opened Sequences
  import opened Evaluation
  import opened Expansion
  import opened ExpandParsing
  import opened Templates
  import opened ShardRules
  import opened Enumeration
  import opened Queries
  import opened TableStore

  // ---- the required columns suffice ----

  // Two keys carry the same values in the given columns.
  ghost predicate SameColumns(cols: set<string>, f: Fields, g: Fields)
  {
    forall c :: c in cols ==> (c in f <==> c in g) && (c in f && c in g ==> Convert(f[c]) == Convert(g[c]))
  }

  ghost predicate SameVars(a: Result<Env>, b: Result<Env>)
  {
    match a case Err(x) => b == Err(x) case Ok(env) => b.Ok? && b.value.vars == env.vars
  }

  lemma {:induction false} RunReadsRequired(cs: seq<Compute>, vars: map<string, Value>,
                                            a: map<string, Value>, b: map<string, Value>)
    requires Agree(Elements(ColumnsOf(cs)), a, b)
    ensures SameVars(RunStrict(cs, Env(vars, a)), RunStrict(cs, Env(vars, b)))
    ensures RunStrict(cs, Env(vars, a)).Ok? ==> RunStrict(cs, Env(vars, a)).value.cols == a
    ensures RunStrict(cs, Env(vars, b)).Ok? ==> RunStrict(cs, Env(vars, b)).value.cols == b
  {
    if cs != [] {
      var front, last := cs[..|cs| - 1], cs[|cs| - 1];
      assert ColumnsOf(cs) == ColumnsOf(front) + ColRefs(last.expr);
      assert forall c :: c in ColumnsOf(front) ==> c in Elements(ColumnsOf(cs));
      assert forall c :: c in ColRefs(last.expr) ==> c in Elements(ColumnsOf(cs));
      RunReadsRequired(front, vars, a, b);
      var p, q := RunStrict(front, Env(vars, a)), RunStrict(front, Env(vars, b));
      if p.Ok? {
        EvalReadsOnlyRefs(last.expr, p.value, q.value);
      }
    }
  }

  lemma ResolveReadsRequired(tmpl: Template, cs: seq<Compute>, vars: map<string, Value>, f: Fields, g: Fields)
    requires Loadable(f) && Loadable(g) && SameColumns(Elements(RequiredColumns(cs)), f, g)
    ensures Resolve(tmpl, cs, vars, f) == Resolve(tmpl, cs, vars, g)
  {
    forall c | c in Elements(ColumnsOf(cs))
      ensures (c in Loaded(f) <==> c in Loaded(g)) &&
              (c in Loaded(f) && c in Loaded(g) ==> Loaded(f)[c] == Loaded(g)[c])
    {
      assert c in Elements(RequiredColumns(cs));
    }
    RunReadsRequired(cs, vars, Loaded(f), Loaded(g));
  }

  lemma {:induction false} DbReadsRequired(rule: DbRule, f: Fields, g: Fields)
    requires Loadable(f) && Loadable(g) && SameColumns(Elements(DbColumns(rule)), f, g)
    ensures ResolveDb(rule, Some(f)) == ResolveDb(rule, Some(g))
    decreases rule
  {
    match rule
    case ExprDb(tmpl, expands) => ResolveReadsRequired(tmpl, expands.computes, map[], f, g);
    case TxBound(inner, _) => DbReadsRequired(inner, f, g);
  }

  lemma TableReadsRequired(rule: TableRule, table: string, f: Fields, g: Fields)
    requires Loadable(f) && Loadable(g) && SameColumns(Elements(TableColumns(rule)), f, g)
    ensures ResolveTable(rule, table, Some(f)) == ResolveTable(rule, table, Some(g))
  {
    ResolveReadsRequired(rule.tmpl, rule.expands.computes, map["table" := StrValue(table)], f, g);
  }

  lemma {:induction false} RunMissesNothing(cs: seq<Compute>, env: Env, c: string)
    requires forall x :: x in ColumnsOf(cs) ==> x in env.cols
    ensures RunStrict(cs, env) != Err(MissingColumn(c))
    ensures RunStrict(cs, env).Ok? ==> RunStrict(cs, env).value.cols == env.cols
  {
    if cs != [] {
      var front, last := cs[..|cs| - 1], cs[|cs| - 1];
      assert ColumnsOf(cs) == ColumnsOf(front) + ColRefs(last.expr);
      RunMissesNothing(front, env, c);
      if RunStrict(front, env).Ok? {
        EvalIsStrict(last.expr, RunStrict(front, env).value);
      }
    }
  }

  // A key that holds every required column is never rejected for a missing column.
  lemma RequiredColumnsNeverMissing(tmpl: Template, cs: seq<Compute>, vars: map<string, Value>, f: Fields, c: string)
    requires Elements(RequiredColumns(cs)) <= f.Keys
    ensures Resolve(tmpl, cs, vars, f) != Err(MissingColumn(c))
  {
    if Loadable(f) {
      forall x | x in ColumnsOf(cs) ensures x in Loaded(f) {
        assert x in Elements(RequiredColumns(cs));
      }
      var env := Env(vars, Loaded(f));
      RunMissesNothing(cs, env, c);
      if RunStrict(cs, env).Ok? {
        RenderNeverMissesColumns(tmpl, RunStrict(cs, env).value.vars, c);
      }
    }
  }

  lemma {:induction false} RenderNeverMissesColumns(t: Template, vars: map<string, Value>, c: string)
    ensures Render(t, vars) != Err(MissingColumn(c))
  {
    if t != [] { RenderNeverMissesColumns(t[..|t| - 1], vars, c); }
  }

  lemma RequiredCovers(st: Store, c: string)
    ensures c in Required(st) <==> c in DbRequired(st) || c in TableRequired(st)
  {
  }

  // Keys that agree on the required columns have one target.
  lemma TargetReadsRequired(st: Store, f: Fields, g: Fields)
    requires Loadable(f) && Loadable(g) && SameColumns(Elements(Required(st)), f, g)
    ensures TargetOf(st, f) == TargetOf(st, g)
  {
    hide ResolveDb, ResolveTable;
    forall c | c in DbRequired(st) || c in TableRequired(st) ensures c in Elements(Required(st)) {
      RequiredCovers(st, c);
    }
    if st.dbRule.Some? { DbReadsRequired(st.dbRule.value, f, g); }
    if st.tableRule.Some? { TableReadsRequired(st.tableRule.value, st.table, f, g); }
  }

  // Cutting a key down to the required columns does not change where it leads.
  lemma CutKeySuffices(st: Store, full: Fields)
    requires Complete(st, full) && Loadable(full)
    ensures TargetOf(st, KeyOf(st, full)) == TargetOf(st, full)
  {
    TargetReadsRequired(st, KeyOf(st, full), full);
  }

  lemma {:induction false} DbResolvesLoadable(rule: DbRule, f: Fields)
    requires ResolveDb(rule, Some(f)).Ok?
    ensures Loadable(f)
    decreases rule
  {
    if rule.TxBound? { DbResolvesLoadable(rule.rule, f); }
  }

  lemma ResolvedIsLoadable(st: Store, f: Fields)
    requires StoreOk(st) && TargetOf(st, f).Ok?
    ensures Loadable(f)
  {
    if st.dbRule.Some? { DbResolvesLoadable(st.dbRule.value, f); }
  }

  // ---- routed databases are found ----

  // buildDatabaseTargets: one target per enumerated name, keyed by it.
  predicate KeyedBy(dbs: seq<DatabaseTarget>, names: seq<string>)
  {
    |dbs| == |names| && forall k :: 0 <= k < |dbs| ==> dbs[k].key == names[k]
  }

  lemma {:induction false} KeyIsFound(dbs: seq<DatabaseTarget>, key: string, k: nat)
    requires k < |dbs| && dbs[k].key == key
    ensures FindDb(dbs, key).Some?
  {
    if dbs[0].key != key { KeyIsFound(dbs[1..], key, k - 1); }
  }

  // The database of a routed key is found among the enumerated ones.
  lemma RoutedDbIsFound(tmpl: Template, expands: ExpandSet, names: seq<string>, dbs: seq<DatabaseTarget>,
                        fields: Fields)
    requires DbRouted(tmpl, expands) && HolesComputed(tmpl, expands)
    requires DbNames(tmpl, expands) == Ok(names) && KeyedBy(dbs, names)
    requires Loadable(fields) && RunStrict(expands.computes, Env(map[], Loaded(fields))).Ok?
    requires InDomains(expands, RunStrict(expands.computes, Env(map[], Loaded(fields))).value)
    ensures ResolveDb(ExprDb(tmpl, expands), Some(fields)).Ok?
    ensures FindDb(dbs, ResolveDb(ExprDb(tmpl, expands), Some(fields)).value).Some?
  {
    hide DbRouted, HolesComputed, RunStrict, InDomains, DbNames, ResolveDb;
    RoutedDbIsEnumerated(tmpl, expands, names, fields);
    var name := ResolveDb(ExprDb(tmpl, expands), Some(fields)).value;
    var k :| 0 <= k < |names| && names[k] == name;
    KeyIsFound(dbs, name, k);
  }

  // ---- validated values lead to one target in every combination ----

  // One collected value per required column.
  ghost predicate Combination(st: Store, multi: Collected, comb: Fields)
  {
    && comb.Keys == Elements(Required(st))
    && forall c :: c in comb ==> c in multi && comb[c] in multi[c]
  }

  ghost predicate OneAmbiguous(st: Store, multi: Collected, cols: seq<string>)
  {
    forall a, b :: a in cols && b in cols && Ambiguous(st, multi, a) && Ambiguous(st, multi, b) ==> a == b
  }

  // Each rule reads at most one column with several values.
  ghost predicate OnePerRule(st: Store, multi: Collected)
  {
    OneAmbiguous(st, multi, DbRequired(st)) && OneAmbiguous(st, multi, TableRequired(st))
  }

  lemma {:induction false} UnambiguousIsFirst(values: seq<Datum>, v: Datum)
    requires |Distinct(values)| <= 1 && v in values
    ensures v == values[0]
  {
    assert v in Distinct(values) && values[0] in Distinct(values);
  }

  ghost predicate HasAmbiguous(st: Store, multi: Collected) { exists c :: c in multi && Ambiguous(st, multi, c) }

  lemma CombinationValue(st: Store, multi: Collected, comb: Fields, c: string)
    requires Combination(st, multi, comb) && Complete(st, Firsts(multi)) && c in Required(st)
    ensures c in comb && c in KeyOf(st, Firsts(multi)) &&
            (Ambiguous(st, multi, c) || comb[c] == KeyOf(st, Firsts(multi))[c])
  {
    if !Ambiguous(st, multi, c) {
      UnambiguousIsFirst(multi[c], comb[c]);
    }
  }

  lemma CombinationLoads(st: Store, multi: Collected, comb: Fields)
    requires StoreOk(st) && Accepts(st, multi) && Complete(st, Firsts(multi)) && Combination(st, multi, comb)
    requires TargetOf(st, KeyOf(st, Firsts(multi))).Ok?
    ensures Loadable(comb) && Loadable(KeyOf(st, Firsts(multi)))
  {
    hide TargetOf, Required, Distinct;
    var ref := KeyOf(st, Firsts(multi));
    ResolvedIsLoadable(st, ref);
    forall c | c in comb ensures Convert(comb[c]).Ok? {
      CombinationValue(st, multi, comb, c);
      if Ambiguous(st, multi, c) {
        var k :| 0 <= k < |multi[c]| && multi[c][k] == comb[c];
        assert SubstitutionAgrees(st, ref, TargetOf(st, ref).value, c, multi[c][k]);
        ResolvedIsLoadable(st, ref[c := comb[c]]);
        assert ref[c := comb[c]][c] == comb[c];
      }
    }
  }

  // A rule that reads at most one ambiguous column sees of a combination what it sees
  // of one substitution.
  lemma OneSubstitution(st: Store, multi: Collected, comb: Fields, cols: seq<string>) returns (key: Fields)
    requires StoreOk(st) && Accepts(st, multi) && Complete(st, Firsts(multi)) && Combination(st, multi, comb)
    requires TargetOf(st, KeyOf(st, Firsts(multi))).Ok?
    requires OneAmbiguous(st, multi, cols) && forall c :: c in cols ==> c in Required(st)
    ensures TargetOf(st, key) == TargetOf(st, KeyOf(st, Firsts(multi)))
    ensures SameColumns(Elements(cols), comb, key)
  {
    hide TargetOf, Required, Distinct;
    var ref := KeyOf(st, Firsts(multi));
    key := ref;
    if a :| a in cols && Ambiguous(st, multi, a) {
      var k :| 0 <= k < |multi[a]| && multi[a][k] == comb[a];
      assert SubstitutionAgrees(st, ref, TargetOf(st, ref).value, a, multi[a][k]);
      key := ref[a := comb[a]];
    }
    forall c | c in Elements(cols) ensures c in comb && c in key && comb[c] == key[c] {
      CombinationValue(st, multi, comb, c);
    }
  }

  lemma CombinationRoutes(st: Store, multi: Collected, comb: Fields)
    requires StoreOk(st) && Accepts(st, multi) && Complete(st, Firsts(multi)) && OnePerRule(st, multi)
    requires TargetOf(st, KeyOf(st, Firsts(multi))).Ok? && Combination(st, multi, comb)
    ensures TargetOf(st, comb) == TargetOf(st, KeyOf(st, Firsts(multi)))
  {
    hide Required, Distinct, Accepts, Complete, ResolveDb, ResolveTable, OneAmbiguous, Combination;
    CombinationLoads(st, multi, comb);
    forall c | c in DbRequired(st) || c in TableRequired(st) ensures c in Required(st) {
      RequiredCovers(st, c);
    }
    var p := OneSubstitution(st, multi, comb, DbRequired(st));
    var q := OneSubstitution(st, multi, comb, TableRequired(st));
    ResolvedIsLoadable(st, p);
    ResolvedIsLoadable(st, q);
    if st.dbRule.Some? { DbReadsRequired(st.dbRule.value, comb, p); }
    if st.tableRule.Some? { TableReadsRequired(st.tableRule.value, st.table, comb, q); }
  }

  // The single value substituted into the reference key is itself a combination.
  lemma SubstitutionIsCombination(st: Store, multi: Collected, c: string, v: Datum)
    requires Complete(st, Firsts(multi)) && c in Required(st) && c in multi && v in multi[c]
    ensures Combination(st, multi, KeyOf(st, Firsts(multi))[c := v])
  {
    hide Required;
  }

  // With several values in play, validation accepts exactly when the reference key
  // resolves and every combination of collected values leads to its target.
  lemma AcceptanceIsExact(st: Store, multi: Collected)
    requires StoreOk(st) && Complete(st, Firsts(multi)) && OnePerRule(st, multi) && HasAmbiguous(st, multi)
    ensures Accepts(st, multi) <==>
              TargetOf(st, KeyOf(st, Firsts(multi))).Ok? &&
              forall comb :: Combination(st, multi, comb) ==>
                TargetOf(st, comb) == TargetOf(st, KeyOf(st, Firsts(multi)))
  {
    hide TargetOf, Required, Distinct;
    var ref := KeyOf(st, Firsts(multi));
    if Accepts(st, multi) {
      forall comb | Combination(st, multi, comb) ensures TargetOf(st, comb) == TargetOf(st, ref) {
        CombinationRoutes(st, multi, comb);
      }
    } else if TargetOf(st, ref).Ok? {
      var c, k :| c in multi && Ambiguous(st, multi, c) && 0 <= k < |multi[c]| &&
        !SubstitutionAgrees(st, ref, TargetOf(st, ref).value, c, multi[c][k]);
      SubstitutionIsCombination(st, multi, c, multi[c][k]);
    }
  }

  // ---- a routed query misses nothing ----

  // Where a row belongs.
  function Home(st: Store, row: Row): Option<Location>
    requires StoreOk(st)
  {
    if !Complete(st, row) then None
    else match Locate(st, KeyOf(st, row)) case Err(_) => None case Ok(loc) => Some(loc)
  }

  lemma SameValueSameConversion(a: Datum, b: Datum)
    requires SameValue(a, b) && Convert(a).Ok? && Convert(b).Ok?
    ensures Convert(a) == Convert(b)
  {
  }

  // The collected values that a row carries, one per required column.
  lemma CarriedCombination(st: Store, multi: Collected, row: Row) returns (comb: Fields)
    requires forall c :: c in Required(st) ==> Carries(row, c, multi)
    ensures Combination(st, multi, comb)
    ensures forall c :: c in comb ==> c in row && (if comb[c].Null? then row[c].Null? else SameValue(row[c], comb[c]))
  {
    hide Required;
    var todo := Required(st);
    comb := map[];
    for i := 0 to |todo|
      invariant comb.Keys == Elements(todo[..i])
      invariant forall c :: c in comb ==> c in multi && comb[c] in multi[c]
      invariant forall c :: c in comb ==>
                c in row && (if comb[c].Null? then row[c].Null? else SameValue(row[c], comb[c]))
    {
      PrefixSnoc(todo, i);
      var c := todo[i];
      assert Carries(row, c, multi);
      var k :| 0 <= k < |multi[c]| && (if multi[c][k].Null? then row[c].Null? else SameValue(row[c], multi[c][k]));
      comb := comb[c := multi[c][k]];
    }
    assert todo[..|todo|] == todo;
  }

  lemma CarriedRowRoutes(st: Store, multi: Collected, row: Row, loc: Location, home: Location)
    requires StoreOk(st) && OnePerRule(st, multi) && Route(st, multi) == Some(loc) && Home(st, row) == Some(home)
    requires forall c :: c in Required(st) ==> Carries(row, c, multi)
    ensures loc == home
  {
    hide Required, Distinct, Accepts, Complete, OnePerRule, Combination;
    var comb := CarriedCombination(st, multi, row);
    CombinationRoutes(st, multi, comb);
    CombinationLoads(st, multi, comb);
    ResolvedIsLoadable(st, KeyOf(st, row));
    assert comb.Keys == Elements(Required(st)) by { CombinationKeys(st, multi, comb); }
    forall c | c in Elements(Required(st))
      ensures c in comb && c in KeyOf(st, row) && Convert(comb[c]) == Convert(KeyOf(st, row)[c])
    {
      CarriedColumnConverts(st, row, comb, c);
    }
    TargetReadsRequired(st, comb, KeyOf(st, row));
  }

  lemma CarriedColumnConverts(st: Store, row: Row, comb: Fields, c: string)
    requires Complete(st, row) && Loadable(KeyOf(st, row)) && Loadable(comb)
    requires c in Required(st) && c in comb && c in row
    requires if comb[c].Null? then row[c].Null? else SameValue(row[c], comb[c])
    ensures c in KeyOf(st, row) && Convert(comb[c]) == Convert(KeyOf(st, row)[c])
  {
    hide Required, Complete;
    assert KeyOf(st, row)[c] == row[c];
    SameValueSameConversion(row[c], comb[c]);
  }

  lemma CombinationKeys(st: Store, multi: Collected, comb: Fields)
    requires Combination(st, multi, comb)
    ensures comb.Keys == Elements(Required(st))
  {
  }

  lemma CompleteHas(st: Store, row: Fields, c: string)
    requires Complete(st, row) && c in Required(st)
    ensures c in row
  {
  }

  lemma CarriesAfterAppend(row: Row, c: string, multi: Collected, single: Fields)
    requires Carries(row, c, multi)
    ensures Carries(row, c, Append(multi, single))
  {
    var k :| 0 <= k < |multi[c]| && (if multi[c][k].Null? then row[c].Null? else SameValue(row[c], multi[c][k]));
    assert Append(multi, single)[c][k] == multi[c][k];
  }

  // The values a query routes by: its own, then those of an explicit key.
  function QueryValues(ctx: Option<Fields>, q: Option<Query>): Collected
  {
    if ctx.Some? then Append(Extracted(q), ctx.value) else Extracted(q)
  }

  // If a query binds every required column and is routed to one place, every row it
  // selects that is at home is in that place.
  lemma RoutedQueryMissesNothing(st: Store, ctx: Option<Fields>, q: Option<Query>, row: Row, sem: Semantics,
                                 loc: Location, home: Location)
    requires StoreOk(st) && Required(st) != [] && OnePerRule(st, QueryValues(ctx, q))
    requires forall c :: c in Required(st) ==> Binds(q, c)
    requires RouteQuery(st, ctx, q) == Some(loc)
    requires QuerySelects(q, row, sem) && Home(st, row) == Some(home)
    ensures loc == home
  {
    hide Required, OnePerRule, Route, Home;
    forall c | c in Required(st) ensures Carries(row, c, QueryValues(ctx, q)) {
      SelectedRowsCarryExtracted(q, c, row, sem);
      if ctx.Some? { CarriesAfterAppend(row, c, Extracted(q), ctx.value); }
    }
    CarriedRowRoutes(st, QueryValues(ctx, q), row, loc, home);
  }

  // ---- writes keep rows at home ----

  // The entity's own columns come first among the collected values.
  lemma EntityColumnsFirst(st: Store, ctx: Option<Fields>, entity: Row, extra: Collected)
    requires Complete(st, entity)
    ensures var multi := Merge(OfEntity(st, entity), extra);
            var all := if ctx.Some? then Append(multi, ctx.value) else multi;
            Complete(st, Firsts(all)) && KeyOf(st, Firsts(all)) == KeyOf(st, entity)
  {
    hide Required, Accepts;
    var multi := Merge(OfEntity(st, entity), extra);
    var all := if ctx.Some? then Append(multi, ctx.value) else multi;
    forall c | c in Required(st) ensures c in Firsts(all) && Firsts(all)[c] == entity[c] {
      CompleteHas(st, entity, c);
      assert multi[c][0] == entity[c];
      assert all[c][0] == multi[c][0];
    }
  }

  // An entity that has all required columns is written to its own home, whatever
  // explicit key or query accompanies it.
  lemma EntityGoesHome(st: Store, ctx: Option<Fields>, entity: Row, extra: Collected, loc: Location)
    requires StoreOk(st) && Complete(st, entity) && RouteWith(st, ctx, Merge(OfEntity(st, entity), extra)) == Some(loc)
    ensures Home(st, entity) == Some(loc)
  {
    hide Required, Accepts, Merge, Append, OfEntity, Firsts, KeyOf, Complete;
    EntityColumnsFirst(st, ctx, entity, extra);
    if Required(st) == [] {
      NothingRequired(st, entity, ctx.value);
    }
  }

  // A store that requires no column sends every key to one place.
  lemma NothingRequired(st: Store, entity: Row, key: Fields)
    requires StoreOk(st) && Required(st) == [] && Complete(st, entity) && TargetOf(st, key).Ok?
    ensures TargetOf(st, KeyOf(st, entity)) == TargetOf(st, key)
  {
    hide Required;
    ResolvedIsLoadable(st, key);
    TargetReadsRequired(st, KeyOf(st, entity), key);
  }

  type Shards = map<Location, map<int64, Row>>

  function RowsAt(s: Shards, loc: Location): map<int64, Row> { if loc in s then s[loc] else map[] }

  // Single-entity writes, and changes and removals of chosen rows in one place.
  // FirstOrCreate writes only when its query finds no row where it is sent.
  datatype Write =
    | Put(ctx: Option<Fields>, id: int64, row: Row)
    | FirstOrCreate(ctx: Option<Fields>, id: int64, row: Row, q: Option<Query>, sem: Semantics)
    | Modify(at: Location, ids: set<int64>, updates: Fields)
    | Remove(at: Location, ids: set<int64>)

  // Stored rows have the required columns, and changes leave those alone.
  predicate WriteOk(st: Store, w: Write)
  {
    match w
    case Put(_, _, row) => Complete(st, row)
    case FirstOrCreate(_, _, row, _, _) => Complete(st, row)
    case Modify(_, _, updates) => forall c :: c in updates ==> c !in Required(st)
    case Remove(_, _) => true
  }

  function Perform(st: Store, s: Shards, w: Write): Shards
    requires StoreOk(st)
  {
    match w
    case Put(ctx, id, row) =>
      (match RouteEntity(st, ctx, row) case None => s case Some(loc) => s[loc := RowsAt(s, loc)[id := row]])
    case FirstOrCreate(ctx, id, row, q, sem) =>
      (match RouteEntityAndQuery(st, ctx, row, q)
       case None => s
       case Some(loc) =>
         if exists k :: k in RowsAt(s, loc) && QuerySelects(q, RowsAt(s, loc)[k], sem) then s
         else s[loc := RowsAt(s, loc)[id := row]])
    case Modify(at, ids, updates) =>
      var rows := RowsAt(s, at);
      s[at := map id | id in rows :: if id in ids then rows[id] + updates else rows[id]]
    case Remove(at, ids) => s[at := RowsAt(s, at) - ids]
  }

  function PerformAll(st: Store, ws: seq<Write>): Shards
    requires StoreOk(st)
  {
    if ws == [] then map[] else Perform(st, PerformAll(st, ws[..|ws| - 1]), ws[|ws| - 1])
  }

  // Every stored row is at home.
  ghost predicate Placed(st: Store, s: Shards)
    requires StoreOk(st)
  {
    forall loc, id :: loc in s && id in s[loc] ==> Home(st, s[loc][id]) == Some(loc)
  }

  lemma UpdateKeepsHome(st: Store, row: Row, updates: Fields)
    requires StoreOk(st) && (forall c :: c in updates ==> c !in Required(st)) && Complete(st, row)
    ensures Home(st, row + updates) == Home(st, row)
  {
    hide Required;
    assert KeyOf(st, row + updates) == KeyOf(st, row);
  }

  lemma WriteKeepsPlaced(st: Store, s: Shards, w: Write)
    requires StoreOk(st) && WriteOk(st, w) && Placed(st, s)
    ensures Placed(st, Perform(st, s, w))
  {
    hide Required, Home, Complete, RouteWith, Extracted;
    match w
    case Put(ctx, id, row) =>
      if RouteEntity(st, ctx, row).Some? {
        EntityGoesHome(st, ctx, row, map[], RouteEntity(st, ctx, row).value);
      }
    case FirstOrCreate(ctx, id, row, q, sem) =>
      if RouteEntityAndQuery(st, ctx, row, q).Some? {
        EntityGoesHome(st, ctx, row, Extracted(q), RouteEntityAndQuery(st, ctx, row, q).value);
      }
    case Modify(at, ids, updates) =>
      forall id | id in RowsAt(s, at) ensures Home(st, RowsAt(s, at)[id] + updates) == Home(st, RowsAt(s, at)[id]) {
        HomeIsComplete(st, RowsAt(s, at)[id]);
        UpdateKeepsHome(st, RowsAt(s, at)[id], updates);
      }
    case Remove(at, ids) =>
  }

  lemma HomeIsComplete(st: Store, row: Row)
    requires StoreOk(st) && Home(st, row).Some?
    ensures Complete(st, row)
  {
  }

  // In every state that writes can reach, every row is at home.
  lemma {:induction false} ReachableIsPlaced(st: Store, ws: seq<Write>)
    requires StoreOk(st) && forall k :: 0 <= k < |ws| ==> WriteOk(st, ws[k])
    ensures Placed(st, PerformAll(st, ws))
  {
    hide Home, Perform, WriteOk;
    if ws != [] {
      ReachableIsPlaced(st, ws[..|ws| - 1]);
      WriteKeepsPlaced(st, PerformAll(st, ws[..|ws| - 1]), ws[|ws| - 1]);
    }
  }

  // Routing a query to one shard loses nothing, in every reachable state.
  lemma RoutingLosesNothing(st: Store, ws: seq<Write>, ctx: Option<Fields>, q: Option<Query>, sem: Semantics,
                            loc: Location, other: Location, id: int64)
    requires StoreOk(st) && forall k :: 0 <= k < |ws| ==> WriteOk(st, ws[k])
    requires Required(st) != [] && OnePerRule(st, QueryValues(ctx, q))
    requires forall c :: c in Required(st) ==> Binds(q, c)
    requires RouteQuery(st, ctx, q) == Some(loc)
    requires var s := PerformAll(st, ws); other in s && id in s[other] && QuerySelects(q, s[other][id], sem)
    ensures other == loc
  {
    hide Home, OnePerRule, Required, WriteOk, RouteQuery, PerformAll;
    ReachableIsPlaced(st, ws);
    RoutedQueryMissesNothing(st, ctx, q, PerformAll(st, ws)[other][id], sem, loc, other);
  }

  // In every reachable state, every selected row lives at loc.
  ghost predicate NeverMisses(st: Store, q: Option<Query>, sem: Semantics, loc: Location)
    requires StoreOk(st)
  {
    forall ws: seq<Write> :: WritesOk(st, ws) ==> AllAt(PerformAll(st, ws), q, sem, loc)
  }

  predicate WritesOk(st: Store, ws: seq<Write>) { forall k :: 0 <= k < |ws| ==> WriteOk(st, ws[k]) }

  predicate AllAt(s: Shards, q: Option<Query>, sem: Semantics, loc: Location)
  {
    forall other, id :: other in s && id in s[other] && QuerySelects(q, s[other][id], sem) ==> other == loc
  }

  // One place holds what a query selects, in all reachable states, if and only if every
  // row that it selects and that has a home belongs there.
  lemma NeverMissesExactly(st: Store, q: Option<Query>, sem: Semantics, loc: Location)
    requires StoreOk(st) && Required(st) != []
    ensures NeverMisses(st, q, sem, loc) <==>
            forall row: Row :: QuerySelects(q, row, sem) && Home(st, row).Some? ==> Home(st, row) == Some(loc)
  {
    hide *;
    if NeverMisses(st, q, sem, loc) {
      forall row: Row | QuerySelects(q, row, sem) && Home(st, row).Some? ensures Home(st, row) == Some(loc) {
        SelectedIsAt(st, q, sem, loc, row);
      }
    }
    if forall row: Row :: QuerySelects(q, row, sem) && Home(st, row).Some? ==> Home(st, row) == Some(loc) {
      HomesSuffice(st, q, sem, loc);
    }
  }

  lemma HomesSuffice(st: Store, q: Option<Query>, sem: Semantics, loc: Location)
    requires StoreOk(st)
    requires forall row: Row :: QuerySelects(q, row, sem) && Home(st, row).Some? ==> Home(st, row) == Some(loc)
    ensures NeverMisses(st, q, sem, loc)
  {
    hide Home, QuerySelects, WriteOk, PerformAll;
    forall ws: seq<Write> | WritesOk(st, ws) ensures AllAt(PerformAll(st, ws), q, sem, loc) {
      ReachableIsPlaced(st, ws);
    }
  }

  lemma SelectedIsAt(st: Store, q: Option<Query>, sem: Semantics, loc: Location, row: Row)
    requires StoreOk(st) && Required(st) != [] && NeverMisses(st, q, sem, loc)
    requires QuerySelects(q, row, sem) && Home(st, row).Some?
    ensures Home(st, row) == Some(loc)
  {
    hide Home, Required, QuerySelects, PerformAll, WriteOk;
    var home := Home(st, row).value;
    var ws := [Put(None, 0, row)];
    FirstWrite(st, row, home);
    assert AllAt(PerformAll(st, ws), q, sem, loc);
    assert PerformAll(st, ws)[home][0] == row;
  }

  lemma FirstWrite(st: Store, row: Row, home: Location)
    requires StoreOk(st) && Required(st) != [] && Home(st, row) == Some(home)
    ensures WriteOk(st, Put(None, 0, row))
    ensures PerformAll(st, [Put(None, 0, row)]) == map[home := map[0 := row]]
  {
    hide Home, Required, RouteEntity, Complete;
    HomeIsComplete(st, row);
    EntityReachesHome(st, row, home);
    assert [Put(None, 0, row)][..0] == [];
  }

  // An entity that has a home is written there.
  lemma EntityReachesHome(st: Store, row: Row, home: Location)
    requires StoreOk(st) && Required(st) != [] && Home(st, row) == Some(home)
    ensures RouteEntity(st, None, row) == Some(home)
  {
    hide Required, Accepts, Firsts, KeyOf, OfEntity, Merge, Complete;
    OneOfEach(st, row);
    HomeIsComplete(st, row);
    OwnColumns(st, row);
  }

  lemma OneOfEach(st: Store, row: Row)
    ensures Accepts(st, Merge(OfEntity(st, row), map[]))
    ensures Firsts(Merge(OfEntity(st, row), map[])) == OfEntity(st, row)
  {
    hide Required, Complete, KeyOf, TargetOf;
    var multi := Merge(OfEntity(st, row), map[]);
    forall c | c in multi ensures !Ambiguous(st, multi, c) { OneValue(multi[c]); }
  }

  lemma OneValue(values: seq<Datum>)
    requires |values| == 1
    ensures |Distinct(values)| == 1
  {
  }

  lemma OwnColumns(st: Store, row: Row)
    requires Complete(st, row)
    ensures Complete(st, OfEntity(st, row)) && KeyOf(st, OfEntity(st, row)) == KeyOf(st, row)
  {
    hide Required;
  }

  // ---- batches ----

  // BatchCreate and BatchSave put the whole batch where the first entity belongs.
  function PutBatch(st: Store, ctx: Option<Fields>, s: Shards, batch: seq<(int64, Row)>): Shards
    requires StoreOk(st)
  {
    if batch == [] then s
    else
      match RouteEntity(st, ctx, batch[0].1)
      case None => s
      case Some(loc) => s[loc := PutRows(RowsAt(s, loc), batch)]
  }

  function PutRows(rows: map<int64, Row>, batch: seq<(int64, Row)>): map<int64, Row>
  {
    if batch == [] then rows
    else PutRows(rows, batch[..|batch| - 1])[batch[|batch| - 1].0 := batch[|batch| - 1].1]
  }

  lemma {:induction false} PutRowsHolds(rows: map<int64, Row>, batch: seq<(int64, Row)>, id: int64)
    ensures id in PutRows(rows, batch) <==> id in rows || exists k :: 0 <= k < |batch| && batch[k].0 == id
    ensures id in PutRows(rows, batch) ==>
              (id in rows && PutRows(rows, batch)[id] == rows[id]) ||
              exists k :: 0 <= k < |batch| && batch[k] == (id, PutRows(rows, batch)[id])
    ensures (forall i, j :: 0 <= i < j < |batch| ==> batch[i].0 != batch[j].0) ==>
              forall k :: 0 <= k < |batch| && batch[k].0 == id ==> PutRows(rows, batch)[id] == batch[k].1
  {
    if batch != [] {
      var front := batch[..|batch| - 1];
      PutRowsHolds(rows, front, id);
      assert forall k :: 0 <= k < |front| ==> front[k] == batch[k];
    }
  }

  // A routed batch with distinct ids leaves every row at home exactly when all its
  // entities share the first one's home.
  lemma BatchKeepsPlacedExactly(st: Store, ctx: Option<Fields>, s: Shards, batch: seq<(int64, Row)>)
    requires StoreOk(st) && Placed(st, s) && batch != [] && Complete(st, batch[0].1)
    requires RouteEntity(st, ctx, batch[0].1).Some?
    requires forall i, j :: 0 <= i < j < |batch| ==> batch[i].0 != batch[j].0
    ensures Placed(st, PutBatch(st, ctx, s, batch)) <==>
            forall k :: 0 <= k < |batch| ==> Home(st, batch[k].1) == Home(st, batch[0].1)
  {
    hide Home, Complete, RouteWith, PutRows;
    var loc := RouteEntity(st, ctx, batch[0].1).value;
    var after := PutBatch(st, ctx, s, batch);
    EntityGoesHome(st, ctx, batch[0].1, map[], loc);
    if Placed(st, after) {
      forall k | 0 <= k < |batch| ensures Home(st, batch[k].1) == Some(loc) {
        PutRowsHolds(RowsAt(s, loc), batch, batch[k].0);
        assert after[loc][batch[k].0] == batch[k].1;
      }
    }
    if forall k :: 0 <= k < |batch| ==> Home(st, batch[k].1) == Home(st, batch[0].1) {
      forall l, id | l in after && id in after[l] ensures Home(st, after[l][id]) == Some(l) {
        if l == loc {
          PutRowsHolds(RowsAt(s, loc), batch, id);
        }
      }
    }
  }
}
