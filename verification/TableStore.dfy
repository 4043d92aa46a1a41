// Model of the routing half of db/internal/dbsp/sharding_table_store.go: collecting
// sharding values, validating that they all lead to one target, and resolving it.
module TableStore {
  import opened Outcomes
  import opened Values
  import opened Sequences
  import opened Evaluation
  import opened Expansion
  import opened ExpandParsing
  import opened Templates
  import opened ShardRules
  import opened Queries

  // A database connection, told apart by identity.
  datatype Session = Session(id: nat)

  datatype DatabaseTarget = DatabaseTarget(key: string, db: Session)

  datatype Store = Store(
    table: string,
    idColumn: string,
    dbs: seq<DatabaseTarget>,
    dbRule: Option<DbRule>,
    tableRule: Option<TableRule>)

  // NewShardedTableStore panics otherwise.
  predicate StoreOk(st: Store)
  {
    st.dbs != [] && (st.dbRule.Some? || st.tableRule.Some?)
  }

  function DbRequired(st: Store): seq<string>
  {
    if st.dbRule.Some? then DbColumns(st.dbRule.value) else []
  }

  function TableRequired(st: Store): seq<string>
  {
    if st.tableRule.Some? then TableColumns(st.tableRule.value) else []
  }

  // The columns both rules read. Without any, no key can be inferred.
  function Required(st: Store): seq<string> { Distinct(DbRequired(st) + TableRequired(st)) }

  method BuildShardingKeyResolver(st: Store) returns (required: seq<string>)
    ensures required == Required(st)
  {
    var seen: set<string> := {};
    required := [];
    var none: seq<string> := [];
    assert Elements(none) == {};
    required, seen := AddColumns(DbRequired(st), none, required, seen);
    assert none + DbRequired(st) == DbRequired(st);
    required, seen := AddColumns(TableRequired(st), DbRequired(st), required, seen);
  }

  // ---- resolving a key ----

  // The database key and table name, without looking the database up.
  function TargetOf(st: Store, key: Fields): Result<(string, string)>
  {
    match (if st.dbRule.Some? then ResolveDb(st.dbRule.value, Some(key)) else Ok(""))
    case Err(x) => Err(x)
    case Ok(db) =>
      match (if st.tableRule.Some? then ResolveTable(st.tableRule.value, st.table, Some(key)) else Ok(st.table))
      case Err(x) => Err(x)
      case Ok(table) => Ok((db, table))
  }

  function FindDb(dbs: seq<DatabaseTarget>, key: string): Option<Session>
  {
    if dbs == [] then None else if dbs[0].key == key then Some(dbs[0].db) else FindDb(dbs[1..], key)
  }

  // A physical table.
  datatype Location = Location(db: Session, table: string)

  function Locate(st: Store, key: Fields): Result<Location>
    requires StoreOk(st)
  {
    match TargetOf(st, key)
    case Err(x) => Err(x)
    case Ok(target) =>
      if st.dbRule.None? then Ok(Location(st.dbs[0].db, target.1))
      else
        match FindDb(st.dbs, target.0) case None => Err(NoTarget) case Some(db) => Ok(Location(db, target.1))
  }

  method FindDatabase(dbs: seq<DatabaseTarget>, key: string) returns (db: Option<Session>)
    ensures db == FindDb(dbs, key)
  {
    for i := 0 to |dbs|
      invariant FindDb(dbs, key) == FindDb(dbs[i..], key)
    {
      if dbs[i].key == key { return Some(dbs[i].db); }
      assert dbs[i..][1..] == dbs[i + 1..];
    }
    return None;
  }

  // The source looks the database up before it resolves the table; which failure is
  // reported differs, whether it fails does not.
  method ResolveLocation(st: Store, key: Fields) returns (r: Option<Location>)
    requires StoreOk(st)
    ensures r == match Locate(st, key) case Err(_) => None case Ok(loc) => Some(loc)
  {
    var db := st.dbs[0].db;
    if st.dbRule.Some? {
      var target := ResolveDatabaseTargetKey(st.dbRule.value, Some(key));
      if target.Err? { return None; }
      var found := FindDatabase(st.dbs, target.value);
      if found.None? { return None; }
      db := found.value;
    }
    var table := st.table;
    if st.tableRule.Some? {
      var resolved := ResolvePhysicalTable(st.tableRule.value, st.table, Some(key));
      if resolved.Err? { return None; }
      table := resolved.value;
    }
    return Some(Location(db, table));
  }

  // ---- collecting values ----

  // DeepEqual compares type and value.
  method DeduplicateValues(values: seq<Datum>) returns (unique: seq<Datum>)
    ensures unique == Distinct(values)
  {
    hide Distinct;
    unique := [];
    assert values[..0] == [] && Distinct(values[..0]) == [] by { DistinctOfNone(values); }
    for i := 0 to |values|
      invariant unique == Distinct(values[..i])
    {
      PrefixSnoc(values, i);
      DistinctSnoc(values[..i], values[i]);
      var found := false;
      for j := 0 to |unique|
        invariant !found ==> values[i] !in unique[..j]
        invariant found ==> values[i] in unique
      {
        if unique[j] == values[i] {
          found := true;
          break;
        }
        PrefixSnoc(unique, j);
      }
      assert unique[..|unique|] == unique;
      assert found <==> values[i] in values[..i] by { SameElements(values[..i]); }
      if !found { unique := unique + [values[i]]; }
    }
    assert values[..|values|] == values;
  }

  lemma DistinctOfNone(values: seq<Datum>)
    ensures Distinct(values[..0]) == []
  {
  }

  lemma SameElements(values: seq<Datum>)
    ensures forall v :: v in Distinct(values) <==> v in values
  {
  }

  // The single values come first, then the collected ones.
  function Merge(single: Fields, multi: Collected): Collected
  {
    map c | c in single.Keys + multi.Keys ::
      (if c in single then [single[c]] else []) + (if c in multi then multi[c] else [])
  }

  // The single values come last.
  function Append(multi: Collected, single: Fields): Collected
  {
    map c | c in single.Keys + multi.Keys ::
      (if c in multi then multi[c] else []) + (if c in single then [single[c]] else [])
  }

  method MergeIntoMultiValues(single: Fields, multi: Collected) returns (result: Collected)
    ensures result == Merge(single, multi)
  {
    hide Merge, Collect;
    result := map[];
    NothingMerged(single);
    var todo := single.Keys;
    while todo != {}
      invariant todo <= single.Keys && result == Merge(single - todo, map[])
      decreases todo
    {
      var c :| c in todo;
      OneMoreSingle(single, todo, c);
      todo := todo - {c};
      result := Collect(result, c, [single[c]]);
    }
    assert single - {} == single;
    todo := multi.Keys;
    assert multi - multi.Keys == map[];
    while todo != {}
      invariant todo <= multi.Keys && result == Merge(single, multi - todo)
      decreases todo
    {
      var c :| c in todo;
      OneMoreMulti(single, multi, todo, c);
      todo := todo - {c};
      result := Collect(result, c, multi[c]);
    }
    assert multi - {} == multi;
  }

  lemma NothingMerged(single: Fields)
    ensures Merge(single - single.Keys, map[]) == map[]
  {
  }

  lemma OneMoreSingle(single: Fields, todo: set<string>, c: string)
    requires c in todo && todo <= single.Keys
    ensures Merge(single - (todo - {c}), map[]) == Collect(Merge(single - todo, map[]), c, [single[c]])
  {
    var merged, more := Merge(single - (todo - {c}), map[]), Collect(Merge(single - todo, map[]), c, [single[c]]);
    assert merged.Keys == more.Keys;
    forall k | k in merged ensures merged[k] == more[k] {
    }
  }

  lemma OneMoreMulti(single: Fields, multi: Collected, todo: set<string>, c: string)
    requires c in todo && todo <= multi.Keys
    ensures Merge(single, multi - (todo - {c})) == Collect(Merge(single, multi - todo), c, multi[c])
  {
    var merged, more := Merge(single, multi - (todo - {c})), Collect(Merge(single, multi - todo), c, multi[c]);
    assert merged.Keys == more.Keys;
    forall k | k in merged ensures merged[k] == more[k] {
    }
  }

  method MergeSingleIntoMulti(base: Collected, single: Fields) returns (result: Collected)
    ensures result == Append(base, single)
  {
    result := base;
    var todo := single.Keys;
    while todo != {}
      invariant todo <= single.Keys && result.Keys == base.Keys + (single.Keys - todo)
      invariant forall c :: c in result ==>
                  result[c] == (if c in base then base[c] else []) +
                    (if c in single && c !in todo then [single[c]] else [])
      decreases todo
    {
      var c :| c in todo;
      todo := todo - {c};
      result := Collect(result, c, [single[c]]);
    }
  }

  // ---- one target for all values ----

  function Firsts(multi: Collected): Fields
  {
    map c | c in multi && multi[c] != [] :: multi[c][0]
  }

  predicate Complete(st: Store, columns: Fields)
  {
    forall k :: 0 <= k < |Required(st)| ==> Required(st)[k] in columns
  }

  // The key made of the required columns.
  function KeyOf(st: Store, columns: Fields): Fields
    requires Complete(st, columns)
  {
    map c | c in Required(st) && c in columns :: columns[c]
  }

  predicate Ambiguous(st: Store, multi: Collected, c: string)
  {
    c in Required(st) && c in multi && |Distinct(multi[c])| > 1
  }

  // One value substituted into the reference key leads to the reference target.
  predicate SubstitutionAgrees(st: Store, ref: Fields, target: (string, string), c: string, v: Datum)
  {
    TargetOf(st, ref[c := v]) == Ok(target)
  }

  // What reduceColumns accepts. A missing column is left for a later check.
  predicate Accepts(st: Store, multi: Collected)
  {
    var firsts := Firsts(multi);
    (exists c :: c in multi && Ambiguous(st, multi, c)) && Complete(st, firsts) ==>
      var ref := KeyOf(st, firsts);
      && TargetOf(st, ref).Ok?
      && forall c :: c in multi && Ambiguous(st, multi, c) ==>
           forall k :: 0 <= k < |multi[c]| ==> SubstitutionAgrees(st, ref, TargetOf(st, ref).value, c, multi[c][k])
  }

  // The key for one alternative value.
  method AlternativeKey(required: seq<string>, columns: Fields, c: string, v: Datum) returns (key: Fields)
    requires forall k :: 0 <= k < |required| ==> required[k] in columns
    requires c in required
    ensures key == (map x | x in required && x in columns :: columns[x])[c := v]
  {
    key := map[];
    for i := 0 to |required|
      invariant forall x :: x in key <==> x in required[..i]
      invariant forall x :: x in key ==> key[x] == if x == c then v else columns[x]
    {
      PrefixSnoc(required, i);
      if required[i] == c {
        key := key[required[i] := v];
      } else {
        key := key[required[i] := columns[required[i]]];
      }
    }
    assert required[..|required|] == required;
  }

  method ResolveTarget(st: Store, key: Fields) returns (r: Result<(string, string)>)
    ensures r == TargetOf(st, key)
  {
    var db := "";
    if st.dbRule.Some? {
      var resolved := ResolveDatabaseTargetKey(st.dbRule.value, Some(key));
      match resolved { case Err(x) => return Err(x); case Ok(name) => db := name; }
    }
    var table := st.table;
    if st.tableRule.Some? {
      var resolved := ResolvePhysicalTable(st.tableRule.value, st.table, Some(key));
      match resolved { case Err(x) => return Err(x); case Ok(name) => table := name; }
    }
    return Ok((db, table));
  }

  // The first loop of reduceColumns: first values, and the ambiguous columns with
  // their distinct values, in the order in which the map happens to be visited.
  method SplitColumns(st: Store, multi: Collected) returns (result: Fields, ambiguous: seq<(string, seq<Datum>)>)
    ensures result == Firsts(multi)
    ensures forall k :: 0 <= k < |ambiguous| ==>
              var (c, vs) := ambiguous[k]; c in multi && Ambiguous(st, multi, c) && vs == Distinct(multi[c])
    ensures forall c :: c in multi && Ambiguous(st, multi, c) ==> (c, Distinct(multi[c])) in ambiguous
  {
    hide Distinct;
    result, ambiguous := map[], [];
    var todo := multi.Keys;
    while todo != {}
      invariant todo <= multi.Keys
      invariant result == map c | c in multi && c !in todo && multi[c] != [] :: multi[c][0]
      invariant forall k :: 0 <= k < |ambiguous| ==>
                  var (c, vs) := ambiguous[k]; c in multi && Ambiguous(st, multi, c) && vs == Distinct(multi[c])
      invariant forall c :: c in multi && c !in todo && Ambiguous(st, multi, c) ==> (c, Distinct(multi[c])) in ambiguous
      decreases todo
    {
      var c :| c in todo;
      todo := todo - {c};
      var unique := DeduplicateValues(multi[c]);
      FirstOfDistinct(multi[c]);
      if |unique| == 0 { continue; }
      result := result[c := unique[0]];
      if |unique| > 1 && c in Required(st) {
        ambiguous := ambiguous + [(c, unique)];
      }
    }
  }

  lemma FirstOfDistinct(values: seq<Datum>)
    ensures values == [] <==> Distinct(values) == []
    ensures values != [] ==> Distinct(values)[0] == values[0]
  {
  }

  // Every alternative value of one column leads where the reference key leads.
  method ValidateColumn(st: Store, columns: Fields, target: (string, string), c: string, vs: seq<Datum>)
      returns (ok: bool)
    requires Complete(st, columns) && c in Required(st) && vs != [] && vs[0] == columns[c]
    requires TargetOf(st, KeyOf(st, columns)) == Ok(target)
    ensures ok <==> forall k :: 0 <= k < |vs| ==> SubstitutionAgrees(st, KeyOf(st, columns), target, c, vs[k])
  {
    hide TargetOf, Required;
    var required := Required(st);
    ghost var ref := KeyOf(st, columns);
    assert ref[c := vs[0]] == ref;
    for k := 1 to |vs|
      invariant forall l :: 0 <= l < k ==> SubstitutionAgrees(st, ref, target, c, vs[l])
    {
      var key := AlternativeKey(required, columns, c, vs[k]);
      assert key == ref[c := vs[k]];
      var alternative := ResolveTarget(st, key);
      if alternative.Err? || alternative.value != target { return false; }
    }
    return true;
  }

  // Accepts exactly when every alternative agrees, whatever the visiting order.
  method ReduceColumns(st: Store, multi: Collected) returns (r: Option<Fields>)
    ensures r == if Accepts(st, multi) then Some(Firsts(multi)) else None
  {
    hide Distinct, TargetOf, SubstitutionAgrees, Required;
    var result, ambiguous := SplitColumns(st, multi);
    if |ambiguous| == 0 { return Some(result); }
    var required := Required(st);
    for i := 0 to |required|
      invariant forall k :: 0 <= k < i ==> required[k] in result
    {
      if required[i] !in result { return Some(result); }
    }
    var (c0, vs0) := ambiguous[0];
    assert c0 in multi && Ambiguous(st, multi, c0);
    var ref := AlternativeKey(required, result, c0, result[c0]);
    assert ref == KeyOf(st, result);
    var target := ResolveTarget(st, ref);
    if target.Err? { return None; }
    for i := 0 to |ambiguous|
      invariant forall j, k :: 0 <= j < i && 0 <= k < |ambiguous[j].1| ==>
                  SubstitutionAgrees(st, ref, target.value, ambiguous[j].0, ambiguous[j].1[k])
    {
      var (c, vs) := ambiguous[i];
      FirstOfDistinct(multi[c]);
      var ok := ValidateColumn(st, result, target.value, c, vs);
      if !ok {
        ghost var k :| 0 <= k < |vs| && !SubstitutionAgrees(st, ref, target.value, c, vs[k]);
        Rejected(st, multi, c, vs[k]);
        return None;
      }
    }
    AllAgree(st, multi, ambiguous, target.value);
    return Some(result);
  }

  lemma Rejected(st: Store, multi: Collected, c: string, v: Datum)
    requires c in multi && Ambiguous(st, multi, c) && v in Distinct(multi[c]) && Complete(st, Firsts(multi))
    requires var ref := KeyOf(st, Firsts(multi));
             TargetOf(st, ref).Ok? && !SubstitutionAgrees(st, ref, TargetOf(st, ref).value, c, v)
    ensures !Accepts(st, multi)
  {
    hide TargetOf;
    assert v in multi[c];
    var k :| 0 <= k < |multi[c]| && multi[c][k] == v;
  }

  lemma AllAgree(st: Store, multi: Collected, ambiguous: seq<(string, seq<Datum>)>, target: (string, string))
    requires Complete(st, Firsts(multi))
    requires TargetOf(st, KeyOf(st, Firsts(multi))) == Ok(target)
    requires forall c :: c in multi && Ambiguous(st, multi, c) ==> (c, Distinct(multi[c])) in ambiguous
    requires forall j, k :: 0 <= j < |ambiguous| && 0 <= k < |ambiguous[j].1| ==>
               SubstitutionAgrees(st, KeyOf(st, Firsts(multi)), target, ambiguous[j].0, ambiguous[j].1[k])
    ensures Accepts(st, multi)
  {
    hide TargetOf, SubstitutionAgrees;
    forall c, k | c in multi && Ambiguous(st, multi, c) && 0 <= k < |multi[c]|
      ensures SubstitutionAgrees(st, KeyOf(st, Firsts(multi)), target, c, multi[c][k])
    {
      var j :| 0 <= j < |ambiguous| && ambiguous[j] == (c, Distinct(multi[c]));
      assert multi[c][k] in Distinct(multi[c]);
      var l :| 0 <= l < |ambiguous[j].1| && ambiguous[j].1[l] == multi[c][k];
    }
  }

  // ---- the resolve family ----

  // buildShardingKey
  method BuildShardingKey(st: Store, columns: Fields) returns (r: Option<Fields>)
    ensures r == if Complete(st, columns) then Some(KeyOf(st, columns)) else None
  {
    var required := Required(st);
    var missing := false;
    for i := 0 to |required|
      invariant missing <==> exists k :: 0 <= k < i && required[k] !in columns
    {
      if required[i] !in columns { missing := true; }
    }
    if missing { return None; }
    var key: Fields := map[];
    for i := 0 to |required|
      invariant key == map c | c in required[..i] && c in columns :: columns[c]
    {
      PrefixSnoc(required, i);
      key := key[required[i] := columns[required[i]]];
    }
    assert required[..|required|] == required;
    return Some(key);
  }

  // Where a set of collected values leads, if it leads to one place.
  function Route(st: Store, multi: Collected): Option<Location>
    requires StoreOk(st)
  {
    if !Accepts(st, multi) || !Complete(st, Firsts(multi)) then None
    else match Locate(st, KeyOf(st, Firsts(multi))) case Err(_) => None case Ok(loc) => Some(loc)
  }

  // Without required columns only an explicit key helps.
  function RouteWith(st: Store, ctx: Option<Fields>, multi: Collected): Option<Location>
    requires StoreOk(st)
  {
    if Required(st) != [] then Route(st, if ctx.Some? then Append(multi, ctx.value) else multi)
    else if ctx.Some? then (match Locate(st, ctx.value) case Err(_) => None case Ok(loc) => Some(loc))
    else None
  }

  // The columns of an entity that matter; all of them come first.
  function OfEntity(st: Store, entity: Row): Fields { map c | c in Required(st) && c in entity :: entity[c] }

  function RouteEntity(st: Store, ctx: Option<Fields>, entity: Row): Option<Location>
    requires StoreOk(st)
  {
    RouteWith(st, ctx, Merge(OfEntity(st, entity), map[]))
  }

  function RouteId(st: Store, ctx: Option<Fields>, id: Datum): Option<Location>
    requires StoreOk(st)
  {
    RouteWith(st, ctx, Merge(map[st.idColumn := id], map[]))
  }

  function RouteQuery(st: Store, ctx: Option<Fields>, q: Option<Query>): Option<Location>
    requires StoreOk(st)
  {
    RouteWith(st, ctx, Extracted(q))
  }

  function RouteEntityAndQuery(st: Store, ctx: Option<Fields>, entity: Row, q: Option<Query>): Option<Location>
    requires StoreOk(st)
  {
    RouteWith(st, ctx, Merge(OfEntity(st, entity), Extracted(q)))
  }

  method ResolveCollected(st: Store, ctx: Option<Fields>, multi: Collected) returns (r: Option<Location>)
    requires StoreOk(st)
    ensures r == RouteWith(st, ctx, multi)
  {
    hide Accepts;
    var required := BuildShardingKeyResolver(st);
    if required == [] {
      if ctx.None? { return None; }
      r := ResolveLocation(st, ctx.value);
      return;
    }
    var all := multi;
    if ctx.Some? {
      all := MergeSingleIntoMulti(multi, ctx.value);
    }
    var columns := ReduceColumns(st, all);
    if columns.None? { return None; }
    var key := BuildShardingKey(st, columns.value);
    if key.None? { return None; }
    r := ResolveLocation(st, key.value);
  }

  method ResolveForEntity(st: Store, ctx: Option<Fields>, entity: Row) returns (r: Option<Location>)
    requires StoreOk(st)
    ensures r == RouteEntity(st, ctx, entity)
  {
    var multi := MergeIntoMultiValues(OfEntity(st, entity), map[]);
    r := ResolveCollected(st, ctx, multi);
  }

  method ResolveForQuery(st: Store, ctx: Option<Fields>, q: Option<Query>) returns (r: Option<Location>)
    requires StoreOk(st)
    ensures r == RouteQuery(st, ctx, q)
  {
    var multi, _ := ExtractColumnsFromQuery(q);
    r := ResolveCollected(st, ctx, multi);
  }

  method ResolveForId(st: Store, ctx: Option<Fields>, id: Datum) returns (r: Option<Location>)
    requires StoreOk(st)
    ensures r == RouteId(st, ctx, id)
  {
    var multi := MergeIntoMultiValues(map[st.idColumn := id], map[]);
    r := ResolveCollected(st, ctx, multi);
  }

  method ResolveForEntityAndQuery(st: Store, ctx: Option<Fields>, entity: Row, q: Option<Query>)
      returns (r: Option<Location>)
    requires StoreOk(st)
    ensures r == RouteEntityAndQuery(st, ctx, entity, q)
  {
    var extracted, _ := ExtractColumnsFromQuery(q);
    var multi := MergeIntoMultiValues(OfEntity(st, entity), extracted);
    r := ResolveCollected(st, ctx, multi);
  }
}
