// Which operations db/internal/dbsp/sharding_table_store.go routes, and where to,
// exactly.
module RoutingExact {
  import opened Outcomes
  import opened Values
  import opened Sequences
  import opened Evaluation
  import opened Expansion
  import opened ExpandParsing
  import opened ShardRules
  import opened Queries
  import opened QueryLeaves
  import opened TableStore
  import opened Placement
  import opened ScatterGather
  import Transactions

  // ---- what a store requires, and where a database key leads ----

  ghost predicate Reads(cs: seq<Compute>, c: string) { exists k :: 0 <= k < |cs| && c in ColRefs(cs[k].expr) }

  ghost predicate RuleReads(rule: DbRule, c: string)
  {
    match rule
    case ExprDb(_, expands) => Reads(expands.computes, c)
    case TxBound(inner, _) => RuleReads(inner, c)
  }

  lemma {:induction false} DbColumnsAreRead(rule: DbRule, c: string)
    ensures c in DbColumns(rule) <==> RuleReads(rule, c)
  {
    hide RequiredColumns;
    match rule
    case ExprDb(_, expands) => RequiredColumnsAreThoseRead(expands.computes, c);
    case TxBound(inner, _) => DbColumnsAreRead(inner, c);
  }

  // A column is required exactly when a computation of one of the two rules reads it.
  lemma RequiredExactly(st: Store, c: string)
    ensures c in Required(st) <==>
            (st.dbRule.Some? && RuleReads(st.dbRule.value, c)) ||
            (st.tableRule.Some? && Reads(st.tableRule.value.expands.computes, c))
  {
    hide Required, DbColumns, RequiredColumns;
    RequiredCovers(st, c);
    if st.dbRule.Some? { DbColumnsAreRead(st.dbRule.value, c); }
    if st.tableRule.Some? { RequiredColumnsAreThoseRead(st.tableRule.value.expands.computes, c); }
  }

  // Without a key no rule resolves anything, even one that reads no column.
  lemma {:induction false} KeyIsRequired(rule: DbRule, tableRule: TableRule, table: string)
    ensures ResolveDb(rule, None) == Err(KeyRequired) && ResolveTable(tableRule, table, None) == Err(KeyRequired)
  {
    if rule.TxBound? { KeyIsRequired(rule.rule, tableRule, table); }
  }

  predicate FirstWithKey(dbs: seq<DatabaseTarget>, key: string, i: nat)
  {
    i < |dbs| && dbs[i].key == key && forall j :: 0 <= j < i ==> dbs[j].key != key
  }

  // The first database with the key, if there is one.
  lemma {:induction false} FindDbExactly(dbs: seq<DatabaseTarget>, key: string)
    ensures match FindDb(dbs, key)
            case Some(db) => exists i: nat :: FirstWithKey(dbs, key, i) && dbs[i].db == db
            case None => forall i :: 0 <= i < |dbs| ==> dbs[i].key != key
  {
    if dbs != [] {
      FindDbExactly(dbs[1..], key);
      if dbs[0].key == key {
        assert FirstWithKey(dbs, key, 0);
      } else if FindDb(dbs, key).Some? {
        var i: nat :| FirstWithKey(dbs[1..], key, i) && dbs[1..][i].db == FindDb(dbs, key).value;
        assert dbs[1..][i] == dbs[i + 1] && forall j :: 0 < j <= i ==> dbs[j] == dbs[1..][j - 1];
        assert FirstWithKey(dbs, key, i + 1);
      } else {
        forall i | 0 <= i < |dbs| ensures dbs[i].key != key {
          if i > 0 { assert dbs[1..][i - 1] == dbs[i]; }
        }
      }
    }
  }

  // ---- collected values ----

  // Collected values are routed to a table exactly when there is a value for every
  // required column, and every way to pick one value for each leads to one target,
  // which is in that table.
  lemma RoutedExactly(st: Store, multi: Collected, loc: Location)
    requires StoreOk(st) && Required(st) != [] && OnePerRule(st, multi)
    ensures Route(st, multi) == Some(loc) <==>
            && Complete(st, Firsts(multi)) && Home(st, KeyOf(st, Firsts(multi))) == Some(loc)
            && forall comb :: Combination(st, multi, comb) ==>
                 TargetOf(st, comb) == TargetOf(st, KeyOf(st, Firsts(multi)))
  {
    hide TargetOf, Required, Distinct, OnePerRule, Combination, Accepts;
    if Complete(st, Firsts(multi)) {
      var ref := KeyOf(st, Firsts(multi));
      KeyOfKey(st, Firsts(multi));
      if Route(st, multi) == Some(loc) {
        forall comb | Combination(st, multi, comb) ensures TargetOf(st, comb) == TargetOf(st, ref) {
          CombinationRoutes(st, multi, comb);
        }
      }
      if HasAmbiguous(st, multi) {
        AcceptanceIsExact(st, multi);
      } else {
        NothingAmbiguous(st, multi);
      }
    }
  }

  lemma KeyOfKey(st: Store, columns: Fields)
    requires Complete(st, columns)
    ensures Complete(st, KeyOf(st, columns)) && KeyOf(st, KeyOf(st, columns)) == KeyOf(st, columns)
  {
    hide Required;
  }

  lemma NothingAmbiguous(st: Store, multi: Collected)
    requires !HasAmbiguous(st, multi)
    ensures Accepts(st, multi)
  {
    hide TargetOf, Required, Distinct, Ambiguous;
  }

  // In databases that are told apart, the ways to pick values are routed exactly when
  // they all lead to one table.
  lemma RoutedByHomes(st: Store, multi: Collected, loc: Location)
    requires StoreOk(st) && Required(st) != [] && OnePerRule(st, multi) && SessionsDiffer(st.dbs)
    ensures Route(st, multi) == Some(loc) <==>
            Complete(st, Firsts(multi)) && forall comb :: Combination(st, multi, comb) ==> Home(st, comb) == Some(loc)
  {
    hide Required, OnePerRule, Home, Route;
    RoutedExactly(st, multi, loc);
    if Complete(st, Firsts(multi)) {
      var ref := KeyOf(st, Firsts(multi));
      FirstsCombine(st, multi);
      forall comb | Combination(st, multi, comb) && Home(st, ref) == Some(loc)
        ensures Home(st, comb) == Some(loc) <==> TargetOf(st, comb) == TargetOf(st, ref)
      {
        SameHomeSameTarget(st, ref, comb, loc);
      }
    }
  }

  lemma FirstsCombine(st: Store, multi: Collected)
    requires Complete(st, Firsts(multi))
    ensures Combination(st, multi, KeyOf(st, Firsts(multi)))
  {
    hide Required;
  }

  lemma SameHomeSameTarget(st: Store, ref: Fields, comb: Fields, loc: Location)
    requires StoreOk(st) && SessionsDiffer(st.dbs) && Home(st, ref) == Some(loc)
    requires ref.Keys == Elements(Required(st)) == comb.Keys
    ensures Home(st, comb) == Some(loc) <==> TargetOf(st, comb) == TargetOf(st, ref)
  {
    hide Required;
    assert KeyOf(st, ref) == ref && KeyOf(st, comb) == comb;
    if st.dbRule.Some? && TargetOf(st, comb).Ok? {
      var a, b := TargetOf(st, ref).value.0, TargetOf(st, comb).value.0;
      if FindDb(st.dbs, a) == FindDb(st.dbs, b) { Transactions.SessionTellsKey(st.dbs, a, b); }
    }
  }

  // ---- single values, explicit keys ----

  // One value for each column is routed exactly where that key belongs.
  lemma SingleValuesGoHome(st: Store, fields: Fields)
    requires StoreOk(st) && Required(st) != []
    ensures Route(st, Merge(fields, map[])) == Home(st, fields)
  {
    hide Required, TargetOf, Distinct;
    var multi := Merge(fields, map[]);
    assert Firsts(multi) == fields;
    forall c | c in multi ensures !Ambiguous(st, multi, c) { OneValue(multi[c]); }
    NothingAmbiguous(st, multi);
  }

  // An entity without an explicit key goes exactly where its own values belong, and an
  // id where the id alone belongs; otherwise they are not routed.
  lemma EntityAndIdGoHome(st: Store, row: Row, id: Datum)
    requires StoreOk(st) && Required(st) != []
    ensures RouteEntity(st, None, row) == Home(st, row)
    ensures RouteId(st, None, id) == Home(st, map[st.idColumn := id])
  {
    hide Required, Route, Home;
    SingleValuesGoHome(st, OfEntity(st, row));
    SingleValuesGoHome(st, map[st.idColumn := id]);
    OwnColumnsGoHome(st, row);
  }

  lemma OwnColumnsGoHome(st: Store, row: Row)
    requires StoreOk(st)
    ensures Home(st, OfEntity(st, row)) == Home(st, row)
  {
    hide Required;
    if Complete(st, row) { OwnColumns(st, row); }
  }

  // An explicit key is checked together with the query: its value of a required column,
  // and every value the query lists for it, lead to the target that is used.
  lemma KeyIsChecked(st: Store, key: Fields, q: Option<Query>, loc: Location, c: string, v: Datum)
    requires StoreOk(st) && c in Required(st) && RouteQuery(st, Some(key), q) == Some(loc)
    requires (c in key && key[c] == v) || Lists(q, Value(c, v))
    ensures var all := QueryValues(Some(key), q);
            && Complete(st, Firsts(all)) && Home(st, KeyOf(st, Firsts(all))) == Some(loc)
            && TargetOf(st, KeyOf(st, Firsts(all))[c := v]) == TargetOf(st, KeyOf(st, Firsts(all)))
  {
    hide Required, TargetOf, Distinct, Extracted, Lists;
    var all := QueryValues(Some(key), q);
    KeyOfKey(st, Firsts(all));
    ExtractedExactly(q, c, v);
    assert v in all[c];
    var ref := KeyOf(st, Firsts(all));
    if Ambiguous(st, all, c) {
      var k :| 0 <= k < |all[c]| && all[c][k] == v;
      assert SubstitutionAgrees(st, ref, TargetOf(st, ref).value, c, all[c][k]);
    } else {
      UnambiguousIsFirst(all[c], v);
      assert ref[c := v] == ref;
    }
  }

  // A query is seen to hold what was written before it: an entity that was just written
  // is in the table to which a query that binds its columns is sent.
  lemma WrittenIsFound(st: Store, ws: seq<Write>, ctx: Option<Fields>, id: int64, row: Row, key: Option<Fields>,
                       q: Option<Query>, sem: Semantics, loc: Location)
    requires StoreOk(st) && Required(st) != [] && Complete(st, row) && RouteEntity(st, ctx, row).Some?
    requires OnePerRule(st, QueryValues(key, q)) && forall c :: c in Required(st) ==> Binds(q, c)
    requires RouteQuery(st, key, q) == Some(loc) && QuerySelects(q, row, sem)
    ensures var s := PerformAll(st, ws + [Put(ctx, id, row)]); loc in s && id in s[loc] && s[loc][id] == row
  {
    hide Required, OnePerRule, RouteWith, Home, QuerySelects, Extracted;
    var home := RouteEntity(st, ctx, row).value;
    EntityGoesHome(st, ctx, row, map[], home);
    RoutedQueryMissesNothing(st, key, q, row, sem, loc, home);
    assert (ws + [Put(ctx, id, row)])[..|ws|] == ws;
  }

  // A store that requires no column cannot use collected values: without an explicit key
  // nothing is routed, and with one, where does not depend on its values.
  lemma NothingRequiredExactly(st: Store, key: Fields, other: Fields, multi: Collected, ctx: Option<Fields>)
    requires StoreOk(st) && Required(st) == [] && Loadable(key) && Loadable(other)
    ensures RouteWith(st, None, multi) == None
    ensures RouteWith(st, Some(key), multi) == RouteWith(st, Some(other), map[])
    ensures RouteWith(st, Some(key), multi).Some? <==> Locate(st, key).Ok?
    ensures Locate(st, key).Ok? ==> RouteWith(st, Some(key), multi) == Some(Locate(st, key).value)
  {
    hide Required, TargetOf;
    TargetReadsRequired(st, key, other);
  }

  // What each write leaves in a table: which ids there are, and which row under each.
  // A write changes one table at most.
  lemma WriteEffect(st: Store, s: Shards, w: Write, loc: Location)
    requires StoreOk(st)
    ensures var before, after := RowsAt(s, loc), RowsAt(Perform(st, s, w), loc);
            match w
            case Put(ctx, id, row) =>
              if RouteEntity(st, ctx, row) != Some(loc) then after == before
              else
                id in after && after[id] == row && after.Keys == before.Keys + {id} &&
                forall k :: k in before && k != id ==> after[k] == before[k]
            case FirstOrCreate(ctx, id, row, q, sem) =>
              if RouteEntityAndQuery(st, ctx, row, q) == Some(loc)
                 && (forall k :: k in before ==> !QuerySelects(q, before[k], sem)) then
                id in after && after[id] == row && after.Keys == before.Keys + {id} &&
                forall k :: k in before && k != id ==> after[k] == before[k]
              else after == before
            case Modify(at, ids, updates) =>
              after.Keys == before.Keys &&
              (forall k :: k in before && (at != loc || k !in ids) ==> after[k] == before[k]) &&
              (forall k, c :: k in before && at == loc && k in ids && c in updates ==>
                                c in after[k] && after[k][c] == updates[c]) &&
              (forall k, c :: k in before && at == loc && k in ids && c !in updates ==>
                                (c in after[k] <==> c in before[k]) && (c in before[k] ==> after[k][c] == before[k][c]))
            case Remove(at, ids) =>
              (forall k :: k in after <==> k in before && (at != loc || k !in ids)) &&
              forall k :: k in after ==> after[k] == before[k]
  {
    hide RouteEntity, RouteEntityAndQuery, QuerySelects;
  }

  // ---- dynamically typed values ----

  // Every integer type stands for its number, modulo 2^64 and exactly where it fits;
  // text stands for itself; nothing else is accepted.
  lemma ConvertsExactly(d: Datum)
    ensures Convert(d).Ok? <==> !d.Null? && !d.Opaque? && !d.SmallInt?
    ensures match Convert(d)
            case Err(_) => true
            case Ok(IntValue(i)) =>
              IsNumber(d) && (Number(d) - i) % TWO64 == 0 && (-TWO63 <= Number(d) < TWO63 ==> i == Number(d))
            case Ok(StrValue(s)) => d == Text(s)
  {
  }
}
