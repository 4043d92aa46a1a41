// Model of store selection and transactions in db/internal/dbsp/sharding_factory.go: a
// transaction-scoped manager serves every entity from the transaction's session.
module Transactions {
  import opened Outcomes
  import opened Values
  import opened Sequences
  import opened Evaluation
  import opened Expansion
  import opened ExpandParsing
  import opened Templates
  import opened ShardRules
  import opened Queries
  import opened TableStore
  import opened Placement
  import opened ScatterGather

  const DEFAULT_GROUP := "default"

  // A resolved database group. Overrides give a table its own rule; an override
  // without a rule keeps the group's.
  datatype Entry = Entry(
    db: Option<Session>,
    dbs: seq<DatabaseTarget>,
    dbRule: Option<DbRule>,
    tableRule: Option<TableRule>,
    overrides: map<string, Option<TableRule>>)

  type Manager = map<string, Entry>

  // How resolveDbEntry fills an entry: one session, or targets and perhaps a rule.
  predicate EntryOk(e: Entry)
  {
    (e.db.Some? ==> e.dbs == [] && e.dbRule.None?)
  }

  datatype Entity = Entity(group: string, table: string, idColumn: string)

  // ---- choosing a store ----

  function GroupFor(groups: set<string>, group: string): Option<string>
  {
    if group in groups then Some(group) else if DEFAULT_GROUP in groups then Some(DEFAULT_GROUP) else None
  }

  function RuleFor(e: Entry, table: string): Option<TableRule>
  {
    if table in e.overrides && e.overrides[table].Some? then e.overrides[table] else e.tableRule
  }

  datatype Chosen = Plain(place: Location) | Sharded(store: Store)

  // None where the source panics, or would work without any session.
  function StoreIn(e: Entry, entity: Entity): Option<Chosen>
  {
    var rule := RuleFor(e, entity.table);
    if e.dbRule.None? && rule.None? then
      if e.db.Some? then Some(Plain(Location(e.db.value, entity.table)))
      else if e.dbs != [] then Some(Plain(Location(e.dbs[0].db, entity.table)))
      else None
    else
      var dbs := if e.dbs != [] then e.dbs else if e.db.Some? then [DatabaseTarget("0", e.db.value)] else [];
      if dbs == [] then None else Some(Sharded(Store(entity.table, entity.idColumn, dbs, e.dbRule, rule)))
  }

  function StoreFor(mgr: Manager, entity: Entity): Option<Chosen>
  {
    match GroupFor(mgr.Keys, entity.group)
    case None => None
    case Some(key) => StoreIn(mgr[key], entity)
  }

  // ---- transactions ----

  // The session a transaction is opened on, and the key of its target.
  function ResolveTransactionDb(e: Entry, key: Option<Fields>): Result<(Session, string)>
  {
    match e.dbRule
    case Some(rule) =>
      if key.None? then Err(KeyRequired)
      else
        (match ResolveDb(rule, key)
         case Err(x) => Err(x)
         case Ok(target) =>
           match FindDb(e.dbs, target) case None => Err(NoTarget) case Some(db) => Ok((db, target)))
    case None =>
      if e.db.Some? then Ok((e.db.value, "0"))
      else if e.dbs != [] then Ok((e.dbs[0].db, e.dbs[0].key))
      else Err(NoTarget)
  }

  function CloneForTransaction(e: Entry, tx: Session, target: string): Entry
  {
    e.(db := Some(tx),
       dbs := [DatabaseTarget(target, tx)],
       dbRule := if e.dbRule.Some? then Some(TxBound(e.dbRule.value, target)) else None)
  }

  // The session the transaction runs on, and the manager its body sees. The session
  // inside the transaction, tx, is made by the database.
  function Begin(mgr: Manager, group: string, key: Option<Fields>, tx: Session): Result<(Session, Manager)>
  {
    var name := if group == "" then DEFAULT_GROUP else group;
    if name !in mgr then Err(NotFound)
    else
      match ResolveTransactionDb(mgr[name], key)
      case Err(x) => Err(x)
      case Ok((base, target)) => Ok((base, map[name := CloneForTransaction(mgr[name], tx, target)]))
  }

  // ---- confinement ----

  lemma OneTarget(target: string, tx: Session, key: string)
    ensures FindDb([DatabaseTarget(target, tx)], key) == if key == target then Some(tx) else None
  {
    assert [DatabaseTarget(target, tx)][1..] == [];
    assert FindDb([], key) == None;
  }

  // Whatever entity, key, query or values: an operation of a transaction-scoped
  // manager that reaches a table reaches it through the transaction's session.
  lemma TransactionConfines(mgr: Manager, group: string, key: Option<Fields>, tx: Session, base: Session,
                            scoped: Manager, entity: Entity)
    requires Begin(mgr, group, key, tx) == Ok((base, scoped))
    ensures match StoreFor(scoped, entity)
            case None => true
            case Some(Plain(place)) => place.db == tx
            case Some(Sharded(st)) =>
              && StoreOk(st)
              && (forall k :: Locate(st, k).Ok? ==> Locate(st, k).value.db == tx)
              && (forall ctx, multi :: RouteWith(st, ctx, multi).Some? ==> RouteWith(st, ctx, multi).value.db == tx)
              && (Targets(st).Ok? ==> forall place :: place in Targets(st).value ==> place.db == tx)
  {
    hide Required, Accepts, ResolveTable, TableNames;
    match StoreFor(scoped, entity)
    case None =>
    case Some(Plain(_)) =>
    case Some(Sharded(st)) =>
      var target := st.dbs[0].key;
      assert st.dbs == [DatabaseTarget(target, tx)];
      forall k | Locate(st, k).Ok? ensures Locate(st, k).value.db == tx {
        OneTarget(target, tx, TargetOf(st, k).value.0);
      }
      if Targets(st).Ok? {
        forall place | place in Targets(st).value ensures place.db == tx {
          PlacesHold(st.dbs, TableNames(st).value, place);
        }
      }
  }

  // ---- the same tables as outside ----

  // The transaction's view of a store.
  function Scoped(st: Store, tx: Session, target: string): Store
  {
    st.(dbs := [DatabaseTarget(target, tx)],
        dbRule := if st.dbRule.Some? then Some(TxBound(st.dbRule.value, target)) else None)
  }

  // Entities of the transaction's own group, and strays that use the default group
  // either way.
  predicate SharesEntry(mgr: Manager, name: string, entity: Entity)
  {
    entity.group == name || (name == DEFAULT_GROUP && entity.group !in mgr)
  }

  // The scoped manager serves an entity from the group that serves it outside exactly
  // when the entity shares the transaction's entry.
  lemma SameGroupExactly(mgr: Manager, group: string, key: Option<Fields>, tx: Session, base: Session, scoped: Manager,
                         entity: Entity)
    requires Begin(mgr, group, key, tx) == Ok((base, scoped))
    requires GroupFor(mgr.Keys, entity.group).Some?
    ensures var name := if group == "" then DEFAULT_GROUP else group;
            GroupFor(scoped.Keys, entity.group) == GroupFor(mgr.Keys, entity.group) <==> SharesEntry(mgr, name, entity)
  {
    var name := if group == "" then DEFAULT_GROUP else group;
    assert scoped.Keys == {name};
  }

  // For those entities the scoped store is the outside store bound to the target.
  lemma ScopedStore(mgr: Manager, group: string, key: Option<Fields>, tx: Session, base: Session, scoped: Manager,
                    entity: Entity)
    requires Begin(mgr, group, key, tx) == Ok((base, scoped))
    requires var name := if group == "" then DEFAULT_GROUP else group;
             EntryOk(mgr[name]) && SharesEntry(mgr, name, entity)
    ensures match StoreFor(mgr, entity)
            case None => StoreFor(scoped, entity).None?
            case Some(Plain(place)) =>
              place.db == base && StoreFor(scoped, entity) == Some(Plain(Location(tx, place.table)))
            case Some(Sharded(st)) =>
              exists target ::
                && StoreFor(scoped, entity) == Some(Sharded(Scoped(st, tx, target)))
                && BoundTo(st, base, target)
  {
    var name := if group == "" then DEFAULT_GROUP else group;
    var target := ResolveTransactionDb(mgr[name], key).value.1;
    assert scoped.Keys == {name};
    match StoreFor(mgr, entity)
    case None =>
    case Some(Plain(_)) =>
    case Some(Sharded(st)) =>
      assert StoreFor(scoped, entity) == Some(Sharded(Scoped(st, tx, target)));
      assert BoundTo(st, base, target);
  }

  // The base session is the store's database for the target.
  predicate BoundTo(st: Store, base: Session, target: string)
  {
    && StoreOk(st)
    && if st.dbRule.Some? then FindDb(st.dbs, target) == Some(base) else st.dbs[0].db == base
  }

  // A key leads to the same table inside, when it leads to the transaction's target,
  // and is rejected otherwise.
  lemma ScopedTarget(st: Store, tx: Session, target: string, key: Fields)
    ensures match TargetOf(st, key)
            case Err(_) => TargetOf(Scoped(st, tx, target), key).Err?
            case Ok((db, table)) =>
              if st.dbRule.None? || db == target then TargetOf(Scoped(st, tx, target), key) == Ok((db, table))
              else TargetOf(Scoped(st, tx, target), key).Err?
  {
    hide ResolveTable;
  }

  lemma ScopedRequired(st: Store, tx: Session, target: string)
    ensures Required(Scoped(st, tx, target)) == Required(st)
  {
    hide Distinct;
  }

  // The session found for a target tells the target when no two targets share one.
  lemma {:induction false} SessionTellsKey(dbs: seq<DatabaseTarget>, a: string, b: string)
    requires SessionsDiffer(dbs) && FindDb(dbs, a).Some? && FindDb(dbs, a) == FindDb(dbs, b)
    ensures a == b
  {
    FoundDb(dbs, a);
    FoundDb(dbs, b);
  }

  // A key given explicitly: Shard and raw statements.
  lemma ScopedKeyRoutes(st: Store, base: Session, tx: Session, target: string, key: Fields)
    requires BoundTo(st, base, target) && SessionsDiffer(st.dbs)
    ensures match Locate(st, key)
            case Ok(loc) =>
              if loc.db == base then Locate(Scoped(st, tx, target), key) == Ok(Location(tx, loc.table))
              else Locate(Scoped(st, tx, target), key).Err?
            case Err(_) => Locate(Scoped(st, tx, target), key).Err?
  {
    hide ResolveDb, ResolveTable, TargetOf;
    ScopedTarget(st, tx, target, key);
    if TargetOf(st, key).Ok? {
      var db := TargetOf(st, key).value.0;
      OneTarget(target, tx, db);
      if st.dbRule.Some? && FindDb(st.dbs, db) == Some(base) {
        SessionTellsKey(st.dbs, db, target);
      }
    }
  }

  // Validation of collected values is as strict inside, and rejects other targets.
  lemma ScopedAccepts(st: Store, tx: Session, target: string, multi: Collected)
    ensures Accepts(Scoped(st, tx, target), multi) ==> Accepts(st, multi)
    ensures (Accepts(st, multi) && Complete(st, Firsts(multi)) &&
             TargetOf(Scoped(st, tx, target), KeyOf(st, Firsts(multi))).Ok?) ==> Accepts(Scoped(st, tx, target), multi)
  {
    hide TargetOf, Required, Distinct;
    var inside := Scoped(st, tx, target);
    ScopedRequired(st, tx, target);
    assert forall c :: Ambiguous(inside, multi, c) <==> Ambiguous(st, multi, c);
    if Complete(st, Firsts(multi)) {
      var ref := KeyOf(st, Firsts(multi));
      assert KeyOf(inside, Firsts(multi)) == ref;
      ScopedTarget(st, tx, target, ref);
      forall c, v ensures TargetOf(st, ref).Ok? && TargetOf(inside, ref).Ok? ==>
          (SubstitutionAgrees(inside, ref, TargetOf(inside, ref).value, c, v) <==>
           SubstitutionAgrees(st, ref, TargetOf(st, ref).value, c, v))
      {
        ScopedTarget(st, tx, target, ref[c := v]);
      }
    }
  }

  // Inside the transaction an operation reaches the table it would reach outside,
  // through the transaction's session, when it would reach the transaction's
  // database; in every other case it fails.
  lemma ScopedRoutes(st: Store, base: Session, tx: Session, target: string, ctx: Option<Fields>, multi: Collected)
    requires BoundTo(st, base, target) && SessionsDiffer(st.dbs)
    ensures RouteWith(Scoped(st, tx, target), ctx, multi) ==
            match RouteWith(st, ctx, multi)
            case Some(loc) => if loc.db == base then Some(Location(tx, loc.table)) else None
            case None => None
  {
    hide TargetOf, Required, Distinct, Accepts, Complete, KeyOf, Locate;
    var inside := Scoped(st, tx, target);
    ScopedRequired(st, tx, target);
    if Required(st) == [] {
      if ctx.Some? { ScopedKeyRoutes(st, base, tx, target, ctx.value); }
    } else {
      var all := if ctx.Some? then Append(multi, ctx.value) else multi;
      ScopedComplete(st, tx, target, Firsts(all));
      ScopedAccepts(st, tx, target, all);
      if Complete(st, Firsts(all)) {
        ScopedKeyRoutes(st, base, tx, target, KeyOf(st, Firsts(all)));
        if Locate(inside, KeyOf(st, Firsts(all))).Ok? { LocatedIsResolved(inside, KeyOf(st, Firsts(all))); }
      }
    }
  }

  lemma ScopedComplete(st: Store, tx: Session, target: string, columns: Fields)
    ensures Complete(Scoped(st, tx, target), columns) <==> Complete(st, columns)
    ensures Complete(st, columns) ==> KeyOf(Scoped(st, tx, target), columns) == KeyOf(st, columns)
  {
    hide Required;
    ScopedRequired(st, tx, target);
  }

  lemma LocatedIsResolved(st: Store, key: Fields)
    requires StoreOk(st) && Locate(st, key).Ok?
    ensures TargetOf(st, key).Ok?
  {
  }

  // Scatter-gather inside visits exactly the tables it would visit in that database.
  lemma ScopedTargets(st: Store, base: Session, tx: Session, target: string, table: string)
    requires BoundTo(st, base, target) && Targets(st).Ok?
    ensures Targets(Scoped(st, tx, target)).Ok?
    ensures Location(tx, table) in Targets(Scoped(st, tx, target)).value <==> Location(base, table) in Targets(st).value
  {
    hide ShardName;
    var inside := Scoped(st, tx, target);
    PlacesHold(st.dbs, TableNames(st).value, Location(base, table));
    PlacesHold(inside.dbs, TableNames(st).value, Location(tx, table));
    assert inside.dbs[0].db == tx;
    if st.dbRule.Some? { FoundDb(st.dbs, target); }
  }

  // ---- what the configuration of a group means ----

  // The entry that serves a group: its own, or the default one.
  predicate ServedBy(mgr: Manager, group: string, e: Entry)
  {
    (group in mgr && mgr[group] == e) || (group !in mgr && DEFAULT_GROUP in mgr && mgr[DEFAULT_GROUP] == e)
  }

  // A rule given for the entity's table decides. Otherwise the group's rule does, and
  // the store is plain exactly when the group has no rule at all.
  lemma OverrideDecides(mgr: Manager, entity: Entity, e: Entry, chosen: Chosen)
    requires ServedBy(mgr, entity.group, e) && StoreFor(mgr, entity) == Some(chosen)
    ensures entity.table in e.overrides && e.overrides[entity.table].Some? ==>
              chosen.Sharded? && chosen.store.tableRule == e.overrides[entity.table]
    ensures entity.table !in e.overrides || e.overrides[entity.table].None? ==>
              && (chosen.Plain? <==> e.dbRule.None? && e.tableRule.None?)
              && (chosen.Sharded? ==> chosen.store.tableRule == e.tableRule)
  {
  }

  // Whatever store it is, it is the entity's table, in the databases of the group.
  lemma StoreIsTheEntitys(mgr: Manager, entity: Entity, e: Entry)
    requires ServedBy(mgr, entity.group, e) && EntryOk(e)
    ensures StoreFor(mgr, entity).Some? <==> e.db.Some? || e.dbs != []
    ensures match StoreFor(mgr, entity)
            case None => true
            case Some(Plain(place)) =>
              place.table == entity.table && place.db == if e.db.Some? then e.db.value else e.dbs[0].db
            case Some(Sharded(st)) =>
              && StoreOk(st) && st.table == entity.table && st.idColumn == entity.idColumn && st.dbRule == e.dbRule
              && (e.db.None? ==> st.dbs == e.dbs)
              && (e.db.Some? ==> |st.dbs| == 1 && st.dbs[0].db == e.db.value)
  {
  }

  // The overrides of other tables do not matter, nor do other groups.
  lemma OthersDoNotMatter(mgr: Manager, group: string, other: Entry, table: string, rule: Option<TableRule>,
                          entity: Entity)
    ensures group in mgr && table != entity.table ==>
              StoreFor(mgr[group := mgr[group].(overrides := mgr[group].overrides[table := rule])], entity) ==
              StoreFor(mgr, entity)
    ensures entity.group in mgr && group != entity.group ==>
              StoreFor(mgr[group := other], entity) == StoreFor(mgr, entity)
  {
  }

  // A transaction runs in the database that its key leads to, and inside it the same
  // key leads to the same table.
  lemma TransactionFollowsKey(mgr: Manager, group: string, key: Fields, tx: Session, base: Session, scoped: Manager,
                              entity: Entity)
    requires Begin(mgr, group, Some(key), tx) == Ok((base, scoped))
    requires var name := if group == "" then DEFAULT_GROUP else group;
             EntryOk(mgr[name]) && entity.group == name
    ensures match StoreFor(mgr, entity)
            case None => false
            case Some(Plain(place)) =>
              place.db == base && StoreFor(scoped, entity) == Some(Plain(Location(tx, place.table)))
            case Some(Sharded(st)) =>
              && StoreFor(scoped, entity).Some? && StoreFor(scoped, entity).value.Sharded?
              && var inside := StoreFor(scoped, entity).value.store;
                 match Locate(st, key)
                 case Ok(loc) => loc.db == base && Locate(inside, key) == Ok(Location(tx, loc.table))
                 case Err(_) => Locate(inside, key).Err?
  {
    hide ResolveDb, ResolveTable;
    var name := if group == "" then DEFAULT_GROUP else group;
    var target := ResolveTransactionDb(mgr[name], Some(key)).value.1;
    ScopedStore(mgr, group, Some(key), tx, base, scoped, entity);
    assert scoped.Keys == {name};
    match StoreFor(mgr, entity)
    case Some(Sharded(st)) =>
      assert StoreFor(scoped, entity) == Some(Sharded(Scoped(st, tx, target)));
      ScopedTarget(st, tx, target, key);
      OneTarget(target, tx, target);
    case _ =>
  }

  // ---- an entity of another group ----

  // Inside a transaction, an entity of another group is served like one of the default
  // group if that is the transaction's group, whatever its own group says, and not at
  // all otherwise.
  lemma StrayEntityServed(mgr: Manager, group: string, key: Option<Fields>, tx: Session, base: Session, scoped: Manager,
                          entity: Entity)
    requires Begin(mgr, group, key, tx) == Ok((base, scoped))
    requires entity.group != if group == "" then DEFAULT_GROUP else group
    ensures StoreFor(scoped, entity) ==
            if group == "" || group == DEFAULT_GROUP then StoreFor(scoped, entity.(group := DEFAULT_GROUP)) else None
  {
    assert scoped.Keys == {if group == "" then DEFAULT_GROUP else group};
  }

  // For example, a table rule of its own group is then not applied.
  lemma StrayEntityChangesTable(db: Session, tx: Session)
    ensures var other := TableRule([Literal("orders_archive")], ExpandSet([], []), "", 0);
            var mgr: Manager := map[DEFAULT_GROUP := Entry(Some(db), [], None, None, map[]),
                                    "archive" := Entry(Some(db), [], None, Some(other), map[])];
            var entity := Entity("archive", "orders", "id");
            && Begin(mgr, "", None, tx).Ok?
            && StoreFor(Begin(mgr, "", None, tx).value.1, entity) == Some(Plain(Location(tx, "orders")))
            && StoreFor(mgr, entity).Some? && StoreFor(mgr, entity).value.Sharded?
            && StoreOk(StoreFor(mgr, entity).value.store)
            && Locate(StoreFor(mgr, entity).value.store, map[]) == Ok(Location(db, "orders_archive"))
  {
    var other := TableRule([Literal("orders_archive")], ExpandSet([], []), "", 0);
    var mgr: Manager := map[DEFAULT_GROUP := Entry(Some(db), [], None, None, map[]),
                            "archive" := Entry(Some(db), [], None, Some(other), map[])];
    assert Begin(mgr, "", None, tx).Ok?;
    var none: map<string, Value> := map["table" := StrValue("orders")];
    assert other.tmpl[..0] == [];
    assert Render(other.tmpl[..0], none) == Ok("");
    assert Render(other.tmpl, none) == Ok("" + "orders_archive");
    var nothing: Fields := map[];
    assert Loadable(nothing);
    assert RunStrict([], Env(none, Loaded(nothing))) == Ok(Env(none, Loaded(nothing)));
    assert "" + "orders_archive" == "orders_archive";
    assert ResolveTable(other, "orders", Some(nothing)) == Ok("orders_archive");
  }
}
