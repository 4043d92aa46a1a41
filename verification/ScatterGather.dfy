// Model of FindAll and CountAll in db/internal/dbsp/sharding_table_store.go: one worker
// per physical table, results gathered in whatever order the workers finish.
module ScatterGather {
  import opened Outcomes
  import opened Values
  import opened Syntax
  import opened Sequences
  import opened Evaluation
  import opened Expansion
  import opened ExpandParsing
  import opened Templates
  import opened ShardRules
  import opened Agreement
  import opened Queries
  import opened TableStore
  import opened Placement
  import opened CursorScan

  // ---- all targets ----

  function NamesUpTo(rule: TableRule, table: string, n: nat): Result<seq<string>>
  {
    if n == 0 then Ok([])
    else
      match NamesUpTo(rule, table, n - 1)
      case Err(x) => Err(x)
      case Ok(front) => match ShardName(rule, table, n - 1) case Err(x) => Err(x) case Ok(name) => Ok(front + [name])
  }

  // Without a rule that counts shards there is only the logical table.
  function TableNames(st: Store): Result<seq<string>>
  {
    if st.tableRule.Some? && st.tableRule.value.count > 0 then
      NamesUpTo(st.tableRule.value, st.table, st.tableRule.value.count)
    else Ok([st.table])
  }

  function InDb(db: Session, names: seq<string>): seq<Location>
  {
    seq(|names|, k requires 0 <= k < |names| => Location(db, names[k]))
  }

  function Places(dbs: seq<DatabaseTarget>, names: seq<string>): seq<Location>
  {
    if dbs == [] then [] else Places(dbs[..|dbs| - 1], names) + InDb(dbs[|dbs| - 1].db, names)
  }

  function Targets(st: Store): Result<seq<Location>>
  {
    if st.dbs == [] then Err(NoTarget)
    else match TableNames(st) case Err(x) => Err(x) case Ok(names) => Ok(Places(st.dbs, names))
  }

  lemma {:induction false} NamesStuck(rule: TableRule, table: string, k: nat, n: nat)
    requires k <= n && NamesUpTo(rule, table, k).Err?
    ensures NamesUpTo(rule, table, n) == NamesUpTo(rule, table, k)
    decreases n - k
  {
    if k < n { NamesStuck(rule, table, k, n - 1); }
  }

  lemma PlacesNext(dbs: seq<DatabaseTarget>, names: seq<string>, i: nat)
    requires i < |dbs|
    ensures Places(dbs[..i + 1], names) == Places(dbs[..i], names) + InDb(dbs[i].db, names)
  {
    assert dbs[..i + 1][..i] == dbs[..i];
  }

  method AllShardTargets(st: Store) returns (r: Result<seq<Location>>)
    requires st.tableRule.Some? ==> RuleOk(st.tableRule.value)
    ensures r == Targets(st)
  {
    hide ShardName, RuleOk;
    var count := if st.tableRule.Some? then st.tableRule.value.count else 0;
    var targets: seq<Location> := [];
    ghost var names: seq<string> := [];
    for i := 0 to |st.dbs|
      invariant i > 0 ==> TableNames(st) == Ok(names)
      invariant targets == Places(st.dbs[..i], names)
    {
      ghost var before := targets;
      var db := st.dbs[i].db;
      if count > 0 {
        ghost var read: seq<string> := [];
        for k := 0 to count
          invariant NamesUpTo(st.tableRule.value, st.table, k) == Ok(read) && |read| == k
          invariant targets == before + InDb(db, read)
        {
          var name := EnumerateShardName(st.tableRule.value, st.table, k);
          if name.Err? {
            NamesStuck(st.tableRule.value, st.table, k + 1, count);
            return Err(name.error);
          }
          read := read + [name.value];
          targets := targets + [Location(db, name.value)];
        }
        names := read;
      } else {
        names := [st.table];
        targets := targets + [Location(db, st.table)];
      }
      assert targets == before + InDb(db, names);
      PlacesNext(st.dbs, names, i);
    }
    assert st.dbs[..|st.dbs|] == st.dbs;
    if st.dbs == [] { return Err(NoTarget); }
    return Ok(targets);
  }

  // ---- the gathered rows ----

  ghost function Gathered(s: Shards, sel: Filter, places: multiset<Location>): multiset<Hit>
  {
    if places == multiset{} then multiset{}
    else
      var loc :| loc in places;
      multiset(Scan(RowsAt(s, loc), sel)) + Gathered(s, sel, places - multiset{loc})
  }

  lemma FirstTaken(s: Shards, sel: Filter, places: multiset<Location>) returns (loc: Location)
    requires places != multiset{}
    ensures loc in places
    ensures Gathered(s, sel, places) == multiset(Scan(RowsAt(s, loc), sel)) + Gathered(s, sel, places - multiset{loc})
  {
    hide Scan, RowsAt;
    loc :| loc in places &&
      Gathered(s, sel, places) == multiset(Scan(RowsAt(s, loc), sel)) + Gathered(s, sel, places - multiset{loc});
  }

  // The order in which the places are taken does not matter.
  lemma {:induction false} TakeAny(s: Shards, sel: Filter, places: multiset<Location>, loc: Location)
    requires loc in places
    ensures Gathered(s, sel, places) == multiset(Scan(RowsAt(s, loc), sel)) + Gathered(s, sel, places - multiset{loc})
    decreases |places|
  {
    hide Scan, RowsAt, Gathered;
    var first := FirstTaken(s, sel, places);
    if first != loc {
      var without := places - multiset{first} - multiset{loc};
      TakeAny(s, sel, places - multiset{first}, loc);
      TakeAny(s, sel, places - multiset{loc}, first);
      assert places - multiset{loc} - multiset{first} == without;
    }
  }

  lemma NoneGathered(s: Shards, sel: Filter)
    ensures Gathered(s, sel, multiset{}) == multiset{}
  {
  }

  lemma OneDone(s: Shards, sel: Filter, running: multiset<Location>, done: Location, results: seq<Hit>, found: seq<Hit>)
    requires done in running && multiset(found) == multiset(Scan(RowsAt(s, done), sel))
    ensures multiset(results + found) + Gathered(s, sel, running - multiset{done}) ==
            multiset(results) + Gathered(s, sel, running)
  {
    hide Scan, RowsAt, Gathered;
    TakeAny(s, sel, running, done);
  }

  // ---- every row is gathered once ----

  // All matching rows of the logical table.
  ghost function LogicalTable(s: Shards, sel: Filter): multiset<Hit> { Gathered(s, sel, multiset(s.Keys)) }

  ghost predicate NothingAt(s: Shards, sel: Filter, loc: Location)
  {
    forall id :: id in RowsAt(s, loc) ==> !sel(RowsAt(s, loc)[id])
  }

  lemma NothingScanned(s: Shards, sel: Filter, loc: Location)
    requires NothingAt(s, sel, loc)
    ensures Scan(RowsAt(s, loc), sel) == []
  {
    ScanHolds(RowsAt(s, loc), sel);
    if h :| h in Scan(RowsAt(s, loc), sel) {
      assert false;
    }
  }

  // Places without matching rows may be added or left out.
  lemma {:induction false} OnlyHitsMatter(s: Shards, sel: Filter, a: set<Location>, b: set<Location>)
    requires forall loc :: loc in a - b || loc in b - a ==> NothingAt(s, sel, loc)
    ensures Gathered(s, sel, multiset(a)) == Gathered(s, sel, multiset(b))
    decreases |a| + |b|
  {
    hide Scan, NothingAt, RowsAt, Gathered;
    if a == {} && b == {} {
    } else if x :| x in a {
      TakeAny(s, sel, multiset(a), x);
      assert multiset(a) - multiset{x} == multiset(a - {x});
      if x in b {
        TakeAny(s, sel, multiset(b), x);
        assert multiset(b) - multiset{x} == multiset(b - {x});
        OnlyHitsMatter(s, sel, a - {x}, b - {x});
      } else {
        NothingScanned(s, sel, x);
        OnlyHitsMatter(s, sel, a - {x}, b);
      }
    } else {
      var y :| y in b;
      TakeAny(s, sel, multiset(b), y);
      assert multiset(b) - multiset{y} == multiset(b - {y});
      NothingScanned(s, sel, y);
      OnlyHitsMatter(s, sel, a, b - {y});
    }
  }

  lemma OncePerPlace(targets: seq<Location>)
    requires NoRepeats(targets)
    ensures multiset(targets) == multiset(Elements(targets))
  {
    forall loc: Location ensures multiset(targets)[loc] == multiset(Elements(targets))[loc] {
      OnceEach(targets, loc);
    }
  }

  // Distinct targets that include every place with a matching row gather the logical
  // table exactly.
  lemma TargetsGatherAll(s: Shards, sel: Filter, targets: seq<Location>)
    requires NoRepeats(targets)
    requires forall loc :: loc in s && loc !in targets ==> NothingAt(s, sel, loc)
    ensures Gathered(s, sel, multiset(targets)) == LogicalTable(s, sel)
  {
    OncePerPlace(targets);
    OnlyHitsMatter(s, sel, Elements(targets), s.Keys);
  }

  // ---- when targets are distinct and complete ----

  ghost predicate SessionsDiffer(dbs: seq<DatabaseTarget>)
  {
    forall i, j :: 0 <= i < j < |dbs| ==> dbs[i].db != dbs[j].db
  }

  lemma {:induction false} PlacesHold(dbs: seq<DatabaseTarget>, names: seq<string>, loc: Location)
    ensures loc in Places(dbs, names) <==> loc.table in names && exists i :: 0 <= i < |dbs| && dbs[i].db == loc.db
  {
    hide InDb;
    if dbs != [] {
      var front, db := dbs[..|dbs| - 1], dbs[|dbs| - 1].db;
      PlacesHold(front, names, loc);
      assert forall i :: 0 <= i < |front| ==> front[i] == dbs[i];
      InDbHolds(db, names, loc);
    }
  }

  lemma InDbHolds(db: Session, names: seq<string>, loc: Location)
    ensures loc in InDb(db, names) <==> loc.db == db && loc.table in names
  {
    if loc.db == db && loc.table in names {
      var k :| 0 <= k < |names| && names[k] == loc.table;
      assert InDb(db, names)[k] == loc;
    }
  }

  lemma {:induction false} PlacesDiffer(dbs: seq<DatabaseTarget>, names: seq<string>)
    requires SessionsDiffer(dbs) && NoRepeats(names)
    ensures NoRepeats(Places(dbs, names))
  {
    if dbs != [] {
      var front, db := dbs[..|dbs| - 1], dbs[|dbs| - 1].db;
      PlacesDiffer(front, names);
      var a, b := Places(front, names), InDb(db, names);
      forall i, j | 0 <= i < |a| && 0 <= j < |b| ensures a[i] != b[j] {
        PlacesHold(front, names, a[i]);
      }
    }
  }

  lemma {:induction false} NamesListed(rule: TableRule, table: string, n: nat, k: nat)
    requires k < n && NamesUpTo(rule, table, n).Ok?
    ensures |NamesUpTo(rule, table, n).value| == n
    ensures ShardName(rule, table, k) == Ok(NamesUpTo(rule, table, n).value[k])
  {
    hide ShardName;
    if k < n - 1 {
      NamesListed(rule, table, n - 1, k);
    } else if n > 1 {
      NamesListed(rule, table, n - 1, n - 2);
    }
  }

  // The key routes to an index in the declared range.
  ghost predicate RoutesWithin(rule: TableRule, table: string, d: Decl, key: Fields)
    requires DeclOk(d)
  {
    Loadable(key) ==>
      var run := RunStrict(rule.expands.computes, Env(map["table" := StrValue(table)], Loaded(key)));
      run.Ok? ==>
        && rule.indexVar in run.value.vars
        && exists k: nat :: k < |DeclValues(d)| && run.value.vars[rule.indexVar] == DeclValues(d)[k]
  }

  // A table rule whose names are numbered by one declaration: a range, or an enum without
  // repeated values that is shown as it is.
  datatype Numbering = Numbering(decl: Decl, hole: string, width: Option<int64>)

  ghost predicate Numbered(st: Store, n: Numbering)
  {
    st.tableRule.Some? ==>
      && DeclOk(n.decl) && Countable(n.decl)
      && (n.decl.EnumDecl? ==> n.width.None? && NoRepeats(n.decl.values))
      && RoutedByIndex(st.tableRule.value, n.decl)
      && ShowsIndex(st.tableRule.value, n.hole, n.width)
  }

  ghost predicate StoredWithin(st: Store, n: Numbering, s: Shards)
    requires Numbered(st, n)
  {
    st.tableRule.Some? ==>
      forall loc, id :: loc in s && id in s[loc] && Complete(st, s[loc][id]) ==>
        RoutesWithin(st.tableRule.value, st.table, n.decl, KeyOf(st, s[loc][id]))
  }

  lemma NamesDiffer(st: Store, n: Numbering)
    requires Numbered(st, n) && TableNames(st).Ok?
    ensures NoRepeats(TableNames(st).value)
  {
    hide ShardName, RoutedByIndex, ShowsIndex;
    if st.tableRule.Some? && st.tableRule.value.count > 0 {
      var rule := st.tableRule.value;
      var names := TableNames(st).value;
      NamesListed(rule, st.table, rule.count, 0);
      forall i: nat, j: nat | i < j < |names| ensures names[i] != names[j] {
        NamesListed(rule, st.table, rule.count, i);
        NamesListed(rule, st.table, rule.count, j);
        CountIsSize(rule, n.decl);
        assert DeclValues(n.decl)[i] != DeclValues(n.decl)[j];
        EnumeratedNamesDiffer(rule, st.table, n.decl, n.hole, n.width, i, j);
      }
    }
  }

  lemma CountIsSize(rule: TableRule, d: Decl)
    requires RoutedByIndex(rule, d) && Countable(d)
    ensures rule.count == |DeclValues(d)|
  {
    IndexDeclIsDeclared(rule.expands.decls, rule.indexVar, d);
    var i :| 0 <= i < |rule.expands.decls| && rule.expands.decls[i] == d;
    IndexWithin(rule, i);
  }

  lemma {:induction false} FoundDb(dbs: seq<DatabaseTarget>, key: string)
    requires FindDb(dbs, key).Some?
    ensures exists i :: 0 <= i < |dbs| && dbs[i].key == key && dbs[i].db == FindDb(dbs, key).value
  {
    if dbs[0].key != key {
      FoundDb(dbs[1..], key);
      var i :| 0 <= i < |dbs[1..]| && dbs[1..][i].key == key && dbs[1..][i].db == FindDb(dbs, key).value;
      assert dbs[i + 1] == dbs[1..][i];
    }
  }

  // The home of a stored row is one of the targets.
  lemma HomeIsTarget(st: Store, n: Numbering, key: Fields, loc: Location)
    requires StoreOk(st) && Numbered(st, n) && Targets(st).Ok? && Locate(st, key) == Ok(loc)
    requires st.tableRule.Some? ==> RoutesWithin(st.tableRule.value, st.table, n.decl, key)
    ensures loc in Targets(st).value
  {
    hide ResolveDb, ResolveTable, RoutedByIndex, ShowsIndex, ShardName, Covered;
    var names := TableNames(st).value;
    assert loc.table in names by {
      if st.tableRule.Some? { TableIsNamed(st, n, key, loc.table); }
    }
    assert exists i :: 0 <= i < |st.dbs| && st.dbs[i].db == loc.db by {
      if st.dbRule.None? { assert st.dbs[0].db == loc.db; } else { FoundDb(st.dbs, TargetOf(st, key).value.0); }
    }
    PlacesHold(st.dbs, names, loc);
  }

  lemma TableIsNamed(st: Store, n: Numbering, key: Fields, table: string)
    requires Numbered(st, n) && TableNames(st).Ok? && st.tableRule.Some?
    requires ResolveTable(st.tableRule.value, st.table, Some(key)) == Ok(table)
    requires RoutesWithin(st.tableRule.value, st.table, n.decl, key)
    ensures table in TableNames(st).value
  {
    hide RoutedByIndex, ShowsIndex, ShardName, RunStrict;
    var rule := st.tableRule.value;
    assert Loadable(key);
    var run := RunStrict(rule.expands.computes, Env(map["table" := StrValue(st.table)], Loaded(key)));
    var k: nat :| k < |DeclValues(n.decl)| && run.value.vars[rule.indexVar] == DeclValues(n.decl)[k];
    CountIsSize(rule, n.decl);
    ResolvedIsEnumerated(rule, st.table, n.decl, key, k);
    NamesListed(rule, st.table, rule.count, k);
  }

  // Scatter-gather sees each row of a sharded table exactly once.
  lemma ScatterSeesEachRowOnce(st: Store, n: Numbering, s: Shards, sel: Filter)
    requires StoreOk(st) && Numbered(st, n) && SessionsDiffer(st.dbs) && Targets(st).Ok?
    requires Placed(st, s) && StoredWithin(st, n, s)
    ensures Gathered(s, sel, multiset(Targets(st).value)) == LogicalTable(s, sel)
  {
    hide RoutedByIndex, ShowsIndex, ShardName, Gathered, Locate, RoutesWithin, KeyOf, Complete, Numbered;
    var targets := Targets(st).value;
    NamesDiffer(st, n);
    PlacesDiffer(st.dbs, TableNames(st).value);
    forall loc | loc in s && loc !in targets ensures NothingAt(s, sel, loc) {
      forall id | id in s[loc] ensures false {
        HomeIsTarget(st, n, KeyOf(st, s[loc][id]), loc);
      }
    }
    TargetsGatherAll(s, sel, targets);
  }

  // In every state that writes can reach.
  lemma ScatterIsExact(st: Store, n: Numbering, ws: seq<Write>, sel: Filter)
    requires StoreOk(st) && Numbered(st, n) && SessionsDiffer(st.dbs) && Targets(st).Ok?
    requires forall k :: 0 <= k < |ws| ==> WriteOk(st, ws[k])
    requires StoredWithin(st, n, PerformAll(st, ws))
    ensures Gathered(PerformAll(st, ws), sel, multiset(Targets(st).value)) == LogicalTable(PerformAll(st, ws), sel)
  {
    hide *;
    ReachableIsPlaced(st, ws);
    ScatterSeesEachRowOnce(st, n, PerformAll(st, ws), sel);
  }

  // ---- the gathering methods ----

  // A store and its rows as the statements above need them: the rule is numbered, the
  // sessions differ, and every row is at home and within the declared indexes.
  ghost predicate Orderly(st: Store, n: Numbering, s: Shards)
  {
    && StoreOk(st) && Numbered(st, n) && SessionsDiffer(st.dbs)
    && Placed(st, s) && StoredWithin(st, n, s)
  }

  lemma OrderlyIsExact(st: Store, n: Numbering, s: Shards, sel: Filter)
    requires Orderly(st, n, s) && Targets(st).Ok?
    ensures Gathered(s, sel, multiset(Targets(st).value)) == LogicalTable(s, sel)
  {
    hide Numbered, Placed, StoredWithin, Targets, Gathered, LogicalTable;
    ScatterSeesEachRowOnce(st, n, s, sel);
  }

  // Workers may finish in any order, each after reading its table in pages; a read
  // that fails makes the whole call fail.
  method FindAll(st: Store, s: Shards, sel: Filter, batchSize: int, answers: (Location, nat) -> bool)
      returns (r: Result<seq<Hit>>)
    requires st.tableRule.Some? ==> RuleOk(st.tableRule.value)
    ensures Targets(st).Err? ==> r.Err?
    ensures Targets(st).Ok? && (forall loc, k :: answers(loc, k)) ==> r.Ok?
    ensures r.Ok? ==> multiset(r.value) == Gathered(s, sel, multiset(Targets(st).value))
    ensures r.Ok? ==> forall n :: Orderly(st, n, s) ==> multiset(r.value) == LogicalTable(s, sel)
  {
    hide RuleOk, Scan, RowsAt, Gathered, Targets, Orderly, LogicalTable;
    var targets := AllShardTargets(st);
    if targets.Err? { return Err(targets.error); }
    NoneGathered(s, sel);
    var running := multiset(targets.value);
    var results: seq<Hit> := [];
    var failure: Option<Error> := None;
    while running != multiset{}
      invariant (forall loc, k :: answers(loc, k)) ==> failure.None?
      invariant failure.None? ==>
                  multiset(results) + Gathered(s, sel, running) == Gathered(s, sel, multiset(targets.value))
      decreases |running|
    {
      var done :| done in running;
      ghost var before := running;
      running := running - multiset{done};
      var rows := FetchAllFromStaticShard(RowsAt(s, done), (k: nat) => answers(done, k), sel, batchSize);
      match rows {
        case Err(x) => failure := Some(x);
        case Ok(found) =>
          OneDone(s, sel, before, done, results, found);
          results := results + found;
      }
    }
    if failure.Some? { return Err(failure.value); }
    forall n | Orderly(st, n, s) ensures multiset(results) == LogicalTable(s, sel) {
      OrderlyIsExact(st, n, s, sel);
    }
    return Ok(results);
  }

  // The counts are added up as 64-bit unsigned integers.
  method CountAll(st: Store, s: Shards, sel: Filter, answers: Location -> bool) returns (r: Result<nat>)
    requires st.tableRule.Some? ==> RuleOk(st.tableRule.value)
    ensures Targets(st).Err? ==> r.Err?
    ensures Targets(st).Ok? && (forall loc :: answers(loc)) ==> r.Ok?
    ensures r.Ok? ==> r.value == |Gathered(s, sel, multiset(Targets(st).value))| % TWO64
    ensures r.Ok? ==> forall n :: Orderly(st, n, s) ==> r.value == |LogicalTable(s, sel)| % TWO64
  {
    hide RuleOk, Scan, RowsAt, Matching, Gathered, Targets, Orderly, LogicalTable;
    var targets := AllShardTargets(st);
    if targets.Err? { return Err(targets.error); }
    NoneGathered(s, sel);
    var running := multiset(targets.value);
    var total: nat, failed := 0, false;
    ghost var counted := multiset{};
    while running != multiset{}
      invariant (forall loc :: answers(loc)) ==> !failed
      invariant total == |counted| % TWO64
      invariant !failed ==> counted + Gathered(s, sel, running) == Gathered(s, sel, multiset(targets.value))
      decreases |running|
    {
      var done :| done in running;
      TakeAny(s, sel, running, done);
      running := running - multiset{done};
      if answers(done) {
        var count := |Matching(RowsAt(s, done), sel, None)|;
        CountAdds(|counted|, total, RowsAt(s, done), sel);
        total := (total + count) % TWO64;
        counted := counted + multiset(Scan(RowsAt(s, done), sel));
      } else {
        failed := true;
      }
    }
    if failed { return Err(NotFound); }
    forall n | Orderly(st, n, s) ensures total == |LogicalTable(s, sel)| % TWO64 {
      OrderlyIsExact(st, n, s, sel);
    }
    return Ok(total);
  }

  lemma CountAdds(before: nat, total: nat, rows: Table, sel: Filter)
    requires total == before % TWO64
    ensures (total + |Matching(rows, sel, None)|) % TWO64 == (before + |multiset(Scan(rows, sel))|) % TWO64
  {
    hide Scan, Matching;
    ScanHolds(rows, sel);
    AddWraps(before, total, |Matching(rows, sel, None)|);
  }

  lemma AddWraps(a: nat, b: nat, count: nat)
    requires b == a % TWO64
    ensures (b + count) % TWO64 == (a + count) % TWO64
  {
    assert a + count == (b + count) + (a / TWO64) * TWO64;
  }

  // ---- rules that stay in range ----

  // A range 0 .. n-1 indexed by mod(_, n) or hash(_) % n is never left.
  predicate BoundedIndex(e: Expr, n: int64)
  {
    n > 0 && match e
             case FuncCall("mod", args) => |args| == 2 && args[1] == IntLit(n)
             case BinaryOp(Percent, FuncCall("hash", args), IntLit(m)) => |args| == 1 && m == n
             case _ => false
  }

  lemma BoundedIndexRoutesWithin(rule: TableRule, table: string, d: Decl, key: Fields, i: nat)
    requires DeclOk(d) && d.RangeDecl? && d.start == 0 && UniqueNames(rule.expands.computes)
    requires i < |rule.expands.computes| && rule.expands.computes[i].name == rule.indexVar
    requires BoundedIndex(rule.expands.computes[i].expr, d.end)
    ensures RoutesWithin(rule, table, d, key)
  {
    hide Eval;
    var cs := rule.expands.computes;
    assert cs[..|cs|] == cs;
    if Loadable(key) && RunStrict(cs, Env(map["table" := StrValue(table)], Loaded(key))).Ok? {
      var env := Env(map["table" := StrValue(table)], Loaded(key));
      StrictFinal(cs, i, |cs|, env);
      assert cs[..i + 1][..i] == cs[..i];
      var before := RunStrict(cs[..i], env).value;
      BoundedIndexInRange(cs[i].expr, d.end, before);
      var v: int64 :| 0 <= v < d.end && Eval(cs[i].expr, before) == Ok(IntValue(v));
      assert DeclValues(d)[v] == IntValue(v);
    }
  }

  lemma BoundedIndexInRange(e: Expr, n: int64, env: Env)
    requires BoundedIndex(e, n) && Eval(e, env).Ok?
    ensures exists v: int64 :: 0 <= v < n && Eval(e, env) == Ok(IntValue(v))
  {
    hide Eval;
    match e
    case FuncCall(_, args) =>
      assert args == [args[0], IntLit(n)];
      ModRoutesInRange(args[0], n, env);
    case BinaryOp(_, hash, _) =>
      assert hash.args == [hash.args[0]];
      HashRoutesInRange(hash.args[0], n, env);
  }

  // The rule's index, if it has a rule, is computed by such an expression over its range.
  predicate StaysInRange(st: Store, n: Numbering, i: nat)
  {
    st.tableRule.Some? ==>
      var cs := st.tableRule.value.expands.computes;
      && n.decl.RangeDecl? && n.decl.start == 0 && i < |cs| && UniqueNames(cs)
      && cs[i].name == st.tableRule.value.indexVar && BoundedIndex(cs[i].expr, n.decl.end)
  }

  // For such a rule nothing remains to be assumed of the rows: after any writes FindAll
  // returns the matching rows of the logical table and CountAll their number.
  lemma WritesAreOrderly(st: Store, n: Numbering, i: nat, ws: seq<Write>)
    requires StoreOk(st) && Numbered(st, n) && SessionsDiffer(st.dbs) && StaysInRange(st, n, i)
    requires forall k :: 0 <= k < |ws| ==> WriteOk(st, ws[k])
    ensures Orderly(st, n, PerformAll(st, ws))
  {
    hide RoutesWithin, RoutedByIndex, ShowsIndex, BoundedIndex, WriteOk, PerformAll, Placed, KeyOf, Complete;
    ReachableIsPlaced(st, ws);
    if st.tableRule.Some? {
      forall key ensures RoutesWithin(st.tableRule.value, st.table, n.decl, key) {
        BoundedIndexRoutesWithin(st.tableRule.value, st.table, n.decl, key, i);
      }
    }
  }

  // The documented rule: "${idx} := range(0, n)", "${idx} = e" for an expression that
  // reads a column, "${index} = fill(${idx}, 8)", and the template "order_tab_${index}".
  function DocumentedRule(e: Expr, n: int64): TableRule
  {
    TableRule([Literal("order_tab_"), Hole("index")],
              ExpandSet([RangeDecl("idx", 0, n)],
                        [Compute("idx", e), Compute("index", FuncCall("fill", [VarRef("idx"), IntLit(8)]))]),
              "idx", n)
  }

  function DocumentedNumbering(n: int64): Numbering { Numbering(RangeDecl("idx", 0, n), "index", Some(8)) }

  lemma DocumentedRuleNumbered(st: Store, e: Expr, n: int64)
    requires n > 0 && ColRefs(e) != [] && st.tableRule == Some(DocumentedRule(e, n))
    ensures Numbered(st, DocumentedNumbering(n))
    ensures BoundedIndex(e, n) ==> StaysInRange(st, DocumentedNumbering(n), 0)
  {
    DocumentedRuleRoutes(e, n);
    DocumentedRuleShows(e, n);
  }

  lemma DocumentedRuleRoutes(e: Expr, n: int64)
    requires n > 0 && ColRefs(e) != []
    ensures RoutedByIndex(DocumentedRule(e, n), RangeDecl("idx", 0, n))
  {
    hide HoleNames, Static, NeedsKey;
    DocumentedHoles(e, n);
    DocumentedComputes(e, n);
  }

  lemma DocumentedComputes(e: Expr, n: int64)
    requires ColRefs(e) != []
    ensures var cs := DocumentedRule(e, n).expands.computes;
            NeedsKey(cs, 0, {"table", "idx"}, {}) && Static(cs, 1, {"table", "idx"})
  {
    var cs := DocumentedRule(e, n).expands.computes;
    assert Static(cs, 1, {"table", "idx"}) by { FillRefs(); }
    assert NeedsKey(cs, 0, {"table", "idx"}, {}) by { assert ColRefs(cs[0].expr)[0] in ColRefs(cs[0].expr); }
  }

  lemma DocumentedRuleShows(e: Expr, n: int64)
    requires n > 0
    ensures ShowsIndex(DocumentedRule(e, n), "index", Some(8))
  {
    hide HoleNames, Static;
    DocumentedHoles(e, n);
    assert DocumentedRule(e, n).expands.computes[1] == Compute("index", FuncCall("fill", [VarRef("idx"), IntLit(8)]));
  }

  lemma DocumentedHoles(e: Expr, n: int64)
    ensures HoleNames(DocumentedRule(e, n).tmpl) == ["index"]
  {
    var t := DocumentedRule(e, n).tmpl;
    assert t[..1] == [t[0]] && t[..1][..0] == [] && HoleNames(t[..1]) == HoleNames([]);
    assert HoleNames(t) == [] + ["index"] == ["index"];
  }

  lemma FillRefs()
    ensures var e := FuncCall("fill", [VarRef("idx"), IntLit(8)]); ColRefs(e) == [] && VarRefs(e) == ["idx"]
  {
    var args := [VarRef("idx"), IntLit(8)];
    assert args[1..] == [IntLit(8)] && args[1..][1..] == [];
    assert AllVarRefs(args[1..][1..]) == [] && AllColRefs(args[1..][1..]) == [];
    assert AllVarRefs(args[1..]) == VarRefs(args[1]) + [] && AllColRefs(args[1..]) == ColRefs(args[1]) + [];
    assert AllVarRefs(args) == VarRefs(args[0]) + [] && AllColRefs(args) == ColRefs(args[0]) + [];
  }
}
