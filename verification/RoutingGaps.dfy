// Where routing a query to one shard does lose rows: queries outside the conditions of
// Placement.RoutingLosesNothing that db/internal/dbsp/sharding_table_store.go still
// sends to a single table.
module RoutingGaps {
  import opened Outcomes
  import opened Values
  import opened Syntax
  import opened Builtins
  import opened Sequences
  import opened Evaluation
  import opened Expansion
  import opened ExpandParsing
  import opened Templates
  import opened ShardRules
  import opened Enumeration
  import opened Queries
  import opened TableStore
  import opened Placement

  // One database, and tables named by the value of one expression.
  function StoreBy(e: Expr): Store
  {
    Store("t", "id", [DatabaseTarget("0", Session(0))], None,
          Some(TableRule([Literal("t_"), Hole("v")], ExpandSet([], [Compute("v", e)]), "", 0)))
  }

  lemma KeyNamesTable(e: Expr, key: Fields, v: int64)
    requires Loadable(key) && Eval(e, Env(map["table" := StrValue("t")], Loaded(key))) == Ok(IntValue(v))
    ensures TargetOf(StoreBy(e), key) == Ok(("", "t_" + FormatInt(v)))
    ensures Locate(StoreBy(e), key) == Ok(Location(Session(0), "t_" + FormatInt(v)))
  {
    hide Eval;
    var cs := [Compute("v", e)];
    var env := Env(map["table" := StrValue("t")], Loaded(key));
    assert cs[..0] == [];
    assert RunStrict(cs[..0], env) == Ok(env);
    assert RunStrict(cs, env) == Ok(Define(env, "v", IntValue(v)));
    RenderPrefixed("t_", "v", Define(env, "v", IntValue(v)).vars);
  }

  lemma RequiredBy(e: Expr)
    ensures Required(StoreBy(e)) == Distinct(Distinct(ColRefs(e)))
  {
    hide Distinct;
    var cs := [Compute("v", e)];
    assert cs[..0] == [] && ColumnsOf(cs[..0]) == [];
    assert [] + ColRefs(e) == ColRefs(e);
    assert ColumnsOf(cs) == ColRefs(e);
    assert [] + Distinct(ColRefs(e)) == Distinct(ColRefs(e));
  }

  lemma DistinctOfOne<T(!new)>(x: T)
    ensures Distinct([x]) == [x]
  {
    assert [x][..0] == [];
  }

  lemma DistinctOfTwo<T(!new)>(x: T, y: T)
    requires x != y
    ensures Distinct([x, y]) == [x, y]
  {
    DistinctOfOne(x);
    assert [x, y][..1] == [x];
  }

  lemma ConditionsExtracted(word: Keyword, x: Clause, y: Clause)
    requires !word.Not?
    ensures Extracted(Some(Tree(word, [Condition(x), Condition(y)]))) == ClauseInto(ClauseInto(map[], x), y)
  {
    hide ClauseInto;
    var qs := [Condition(x), Condition(y)];
    var first := QueryInto(map[], qs[0]);
    assert qs[1..] == [qs[1]] && qs[1..][1..] == [];
    assert QueriesInto(first, qs[1..]) == QueriesInto(QueryInto(first, qs[1]), []);
    assert QueriesInto(map[], qs) == QueriesInto(first, qs[1..]);
  }

  lemma RoutedTo(st: Store, ctx: Option<Fields>, q: Query, multi: Collected, key: Fields, loc: Location)
    requires StoreOk(st) && Required(st) != [] && QueryValues(ctx, Some(q)) == multi
    requires Accepts(st, multi) && Complete(st, Firsts(multi)) && KeyOf(st, Firsts(multi)) == key
    requires Locate(st, key) == Ok(loc)
    ensures RouteQuery(st, ctx, Some(q)) == Some(loc)
  {
    hide Required, Accepts, Complete, Locate, KeyOf, Extracted;
  }

  // A row that a query selects, stored somewhere else than where the query is sent.
  ghost predicate Missed(st: Store, ctx: Option<Fields>, q: Query, row: Row, sem: Semantics)
    requires StoreOk(st)
  {
    && QuerySelects(Some(q), row, sem)
    && RouteQuery(st, ctx, Some(q)).Some? && Home(st, row).Some?
    && RouteQuery(st, ctx, Some(q)) != Home(st, row)
  }

  lemma NumbersApart(st: Store, ctx: Option<Fields>, q: Query, row: Row, sem: Semantics, v: int64, w: int64)
    requires StoreOk(st) && QuerySelects(Some(q), row, sem)
    requires RouteQuery(st, ctx, Some(q)) == Some(Location(Session(0), "t_" + FormatInt(v)))
    requires Home(st, row) == Some(Location(Session(0), "t_" + FormatInt(w)))
    ensures Missed(st, ctx, q, row, sem) <==> v != w
  {
    hide RouteQuery, Home, QuerySelects, FormatInt;
    if v != w { PrefixedNumbersDiffer("t_", v, w); }
  }

  // ---- queries that do not bind the column ----

  const BY_SHOP := StoreBy(ColRef("shop_id"))

  function ShopIs(shop: int64): Clause { EqClause("shop_id", Int64(shop)) }

  function ShopOrRegion(shop: int64, region: int64): Query
  {
    Tree(Or, [Condition(ShopIs(shop)), Condition(EqClause("region", Int64(region)))])
  }

  function ShopRow(shop: int64, region: int64): Row { map["shop_id" := Int64(shop), "region" := Int64(region)] }

  // "shop_id = x OR region = r" goes to the table of shop x alone, and misses the rows
  // of every other shop in region r. No column has several values, but one branch
  // binds no column.
  lemma UnboundBranchEscapes(shop: int64, other: int64, region: int64, sem: Semantics) returns (st: Store)
    ensures StoreOk(st) && OnePerRule(st, QueryValues(None, Some(ShopOrRegion(shop, region))))
    ensures Required(st) == ["shop_id"] && !Binds(Some(ShopOrRegion(shop, region)), "shop_id")
    ensures Missed(st, None, ShopOrRegion(shop, region), ShopRow(other, region), sem) <==> shop != other
  {
    hide *;
    st := BY_SHOP;
    var q := ShopOrRegion(shop, region);
    SelectedByRegion(shop, other, region, sem);
    RequiredByShop();
    ShopOrRegionValues(shop, region);
    ShopRoutes(None, q, map["shop_id" := [Int64(shop)], "region" := [Int64(region)]], shop);
    ShopHome(ShopRow(other, region), other);
    ShopColumns(st, QueryValues(None, Some(q)));
    NumbersApart(st, None, q, ShopRow(other, region), sem, shop, other);
  }

  // A bare condition is a query too: "shop_id = y" filters the rows, but yields no
  // value, so that next to an explicit key for shop x nothing is checked. The query
  // goes to the table of shop x, and misses every row of another shop y.
  lemma BareConditionEscapes(shop: int64, other: int64, row: Row, sem: Semantics) returns (st: Store)
    requires "shop_id" in row && row["shop_id"] == Int64(other)
    ensures StoreOk(st) && Required(st) == ["shop_id"]
    ensures ClauseBinds(ShopIs(other), "shop_id") && Extracted(Some(Condition(ShopIs(other)))) == map[]
    ensures Missed(st, Some(map["shop_id" := Int64(shop)]), Condition(ShopIs(other)), row, sem) <==> shop != other
  {
    hide RouteQuery, Home, Missed, Required, FormatInt;
    st := BY_SHOP;
    var q, ctx: Fields := Condition(ShopIs(other)), map["shop_id" := Int64(shop)];
    RequiredByShop();
    var multi: Collected := map["shop_id" := [Int64(shop)]];
    assert [] + [Int64(shop)] == [Int64(shop)];
    assert QueryValues(Some(ctx), Some(q)) == multi;
    ShopRoutes(Some(ctx), q, multi, shop);
    ShopHome(row, other);
    assert QuerySelects(Some(q), row, sem);
    NumbersApart(st, Some(ctx), q, row, sem, shop, other);
  }

  function ShopOrForeign(shop: int64, filter: Clause): Query
  {
    Tree(Or, [Condition(ShopIs(shop)), Foreign(Some(filter))])
  }

  // A condition of the caller's own that maps to an expression takes part in the
  // filter, and extraction does not see it. As an OR branch it misses every row it
  // selects of another shop.
  lemma ForeignBranchEscapes(shop: int64, other: int64, filter: Clause, row: Row, sem: Semantics) returns (st: Store)
    requires "shop_id" in row && row["shop_id"] == Int64(other) && Selects(filter, row, sem)
    ensures StoreOk(st) && Required(st) == ["shop_id"] && !Binds(Some(ShopOrForeign(shop, filter)), "shop_id")
    ensures Missed(st, None, ShopOrForeign(shop, filter), row, sem) <==> shop != other
  {
    hide *;
    st := BY_SHOP;
    var q := ShopOrForeign(shop, filter);
    RequiredByShop();
    ForeignSelects(shop, filter, row, sem);
    ShopRoutes(None, q, map["shop_id" := [Int64(shop)]], shop);
    ShopHome(row, other);
    NumbersApart(st, None, q, row, sem, shop, other);
  }

  lemma ForeignSelects(shop: int64, filter: Clause, row: Row, sem: Semantics)
    requires Selects(filter, row, sem)
    ensures QuerySelects(Some(ShopOrForeign(shop, filter)), row, sem)
    ensures !Binds(Some(ShopOrForeign(shop, filter)), "shop_id")
    ensures QueryValues(None, Some(ShopOrForeign(shop, filter))) == map["shop_id" := [Int64(shop)]]
  {
    var qs := ShopOrForeign(shop, filter).conditions;
    assert qs[1..] == [qs[1]] && qs[1..][1..] == [];
    var parts := [ShopIs(shop), filter];
    assert ToClauses(qs[1..]) == [parts[1]];
    assert ToClauses(qs) == parts;
    assert parts[1..] == [parts[1]];
    assert AnySelects(parts[1..], row, sem);
    assert !QueryBinds(qs[1], "shop_id");
    assert !AllQueriesBind(qs[1..], "shop_id");
    assert !AllQueriesBind(qs, "shop_id");
    var first := QueryInto(map[], qs[0]);
    assert [] + [Int64(shop)] == [Int64(shop)];
    assert QueriesInto(first, qs[1..]) == QueriesInto(first, []);
    assert QueriesInto(map[], qs) == first;
  }

  // One required column is at most one with several values.
  lemma ShopColumns(st: Store, multi: Collected)
    requires Required(st) == ["shop_id"]
    ensures OnePerRule(st, multi)
  {
    hide Distinct, Required;
    forall c | c in DbRequired(st) || c in TableRequired(st) ensures c == "shop_id" {
      RequiredCovers(st, c);
    }
  }

  lemma ShopOrRegionValues(shop: int64, region: int64)
    ensures QueryValues(None, Some(ShopOrRegion(shop, region))) ==
            map["shop_id" := [Int64(shop)], "region" := [Int64(region)]]
  {
    hide Extracted;
    ConditionsExtracted(Or, ShopIs(shop), EqClause("region", Int64(region)));
    assert [] + [Int64(shop)] == [Int64(shop)] && [] + [Int64(region)] == [Int64(region)];
  }

  // One value for each column leads to the table of the shop.
  lemma ShopRoutes(ctx: Option<Fields>, q: Query, multi: Collected, shop: int64)
    requires QueryValues(ctx, Some(q)) == multi && (forall c :: c in multi ==> |multi[c]| == 1)
    requires "shop_id" in multi && multi["shop_id"] == [Int64(shop)]
    ensures StoreOk(BY_SHOP)
    ensures RouteQuery(BY_SHOP, ctx, Some(q)) == Some(Location(Session(0), "t_" + FormatInt(shop)))
  {
    hide Locate, TargetOf, QueryValues, RouteQuery, Accepts, Required, Distinct, FormatInt;
    RequiredByShop();
    var key: Fields := map["shop_id" := Int64(shop)];
    KeyNamesTable(ColRef("shop_id"), key, shop);
    SingleValuesAccepted(multi);
    assert KeyOf(BY_SHOP, Firsts(multi)) == key;
    RoutedTo(BY_SHOP, ctx, q, multi, key, Location(Session(0), "t_" + FormatInt(shop)));
  }

  lemma ShopHome(row: Row, shop: int64)
    requires "shop_id" in row && row["shop_id"] == Int64(shop)
    ensures StoreOk(BY_SHOP)
    ensures Home(BY_SHOP, row) == Some(Location(Session(0), "t_" + FormatInt(shop)))
  {
    hide Locate, TargetOf, Required, Distinct, FormatInt;
    RequiredByShop();
    var key: Fields := map["shop_id" := Int64(shop)];
    KeyNamesTable(ColRef("shop_id"), key, shop);
    assert KeyOf(BY_SHOP, row) == key;
  }

  lemma RequiredByShop()
    ensures StoreOk(BY_SHOP) && Required(BY_SHOP) == ["shop_id"]
  {
    RequiredBy(ColRef("shop_id"));
    DistinctOfOne("shop_id");
  }

  lemma SingleValuesAccepted(multi: Collected)
    requires forall c :: c in multi ==> |multi[c]| == 1
    ensures Accepts(BY_SHOP, multi)
  {
    hide Required;
    forall c | c in multi ensures !Ambiguous(BY_SHOP, multi, c) {
      DistinctOfOne(multi[c][0]);
      assert multi[c] == [multi[c][0]];
    }
  }

  lemma SelectedByRegion(shop: int64, other: int64, region: int64, sem: Semantics)
    ensures QuerySelects(Some(ShopOrRegion(shop, region)), ShopRow(other, region), sem)
    ensures "shop_id" in ShopRow(other, region) && ShopRow(other, region)["shop_id"] == Int64(other)
    ensures !Binds(Some(ShopOrRegion(shop, region)), "shop_id")
  {
    var qs := ShopOrRegion(shop, region).conditions;
    assert qs[1..] == [qs[1]] && qs[1..][1..] == [];
    var parts := [ShopIs(shop), EqClause("region", Int64(region))];
    assert ToClauses(qs[1..]) == [parts[1]];
    assert ToClauses(qs) == parts;
    assert parts[1..] == [parts[1]];
    assert Selects(parts[1], ShopRow(other, region), sem);
    assert AnySelects(parts[1..], ShopRow(other, region), sem);
    assert "region" != "shop_id" by { assert |"region"| != |"shop_id"|; }
    assert !QueryBinds(qs[1], "shop_id");
    assert !AllQueriesBind(qs[1..], "shop_id");
    assert !AllQueriesBind(qs, "shop_id");
  }

  // ---- a rule that reads two columns with several values ----

  function LessOne(column: string): Expr { BinaryOp(Minus, ColRef(column), IntLit(1)) }

  const PRODUCT := BinaryOp(Star, LessOne("a"), LessOne("b"))

  const BY_PRODUCT := StoreBy(PRODUCT)

  function Pair(a: int64, b: int64): Fields { map["a" := Int64(a), "b" := Int64(b)] }

  // Small enough for the product to be exact.
  predicate Factor(x: int64) { 1 <= x <= 0x8000_0000 }

  function ProductOf(a: int64, b: int64): (p: int64)
    requires Factor(a) && Factor(b)
    ensures p >= 0 && (p > 0 <==> a > 1 && b > 1)
  {
    ProductFits(a - 1, b - 1, 0x7fff_ffff);
    (a - 1) * (b - 1)
  }

  lemma ProductFits(x: nat, y: nat, most: nat)
    requires x <= most && y <= most
    ensures 0 <= x * y <= most * most && (x * y > 0 <==> x > 0 && y > 0)
  {
  }

  lemma ProductNames(a: int64, b: int64)
    requires Factor(a) && Factor(b)
    ensures TargetOf(BY_PRODUCT, Pair(a, b)) == Ok(("", "t_" + FormatInt(ProductOf(a, b))))
    ensures Locate(BY_PRODUCT, Pair(a, b)) == Ok(Location(Session(0), "t_" + FormatInt(ProductOf(a, b))))
  {
    hide FormatInt;
    var env := Env(map["table" := StrValue("t")], Loaded(Pair(a, b)));
    assert Eval(LessOne("a"), env) == Ok(IntValue(a - 1));
    assert Eval(LessOne("b"), env) == Ok(IntValue(b - 1));
    assert Eval(PRODUCT, env) == Ok(IntValue(ProductOf(a, b)));
    KeyNamesTable(PRODUCT, Pair(a, b), ProductOf(a, b));
  }

  function BothIn(a: int64, b: int64): Query
  {
    Tree(And, [Condition(InClause("a", [Int64(1), Int64(a)])), Condition(InClause("b", [Int64(1), Int64(b)]))])
  }

  function BothValues(a: int64, b: int64): Collected
  {
    map["a" := [Int64(1), Int64(a)], "b" := [Int64(1), Int64(b)]]
  }

  lemma BothInSelects(a: int64, b: int64, sem: Semantics)
    ensures QuerySelects(Some(BothIn(a, b)), Pair(a, b), sem)
    ensures Binds(Some(BothIn(a, b)), "a") && Binds(Some(BothIn(a, b)), "b")
  {
    var qs := BothIn(a, b).conditions;
    assert qs[1..] == [qs[1]] && qs[1..][1..] == [];
    var parts := [InClause("a", [Int64(1), Int64(a)]), InClause("b", [Int64(1), Int64(b)])];
    assert ToClauses(qs[1..]) == [parts[1]];
    assert ToClauses(qs) == parts;
    assert parts[1..] == [parts[1]] && parts[1..][1..] == [];
    var row := Pair(a, b);
    assert SameValue(row["a"], parts[0].values[1]) && SameValue(row["b"], parts[1].values[1]);
    assert Selects(parts[0], row, sem) && Selects(parts[1], row, sem);
    assert AllSelect(parts[1..][1..], row, sem);
    assert AllSelect(parts[1..], row, sem);
    assert AllSelect(parts, row, sem);
    assert QueryBinds(qs[0], "a") && QueryBinds(qs[1], "b");
    assert SomeQueryBinds(qs[1..], "b");
    assert SomeQueryBinds(qs, "a") && SomeQueryBinds(qs, "b");
  }

  lemma BothInExtracted(a: int64, b: int64)
    ensures Extracted(Some(BothIn(a, b))) == BothValues(a, b)
  {
    hide Extracted;
    ConditionsExtracted(And, InClause("a", [Int64(1), Int64(a)]), InClause("b", [Int64(1), Int64(b)]));
    assert [] + [Int64(1), Int64(a)] == [Int64(1), Int64(a)] && [] + [Int64(1), Int64(b)] == [Int64(1), Int64(b)];
  }

  // With "${v} = (@{a} - 1) * (@{b} - 1)" each value alone leads to the reference table,
  // the combination of two does not: "a IN (1, x) AND b IN (1, y)" goes to t_0 alone,
  // and misses the row (x, y). Every column is bound, but one rule reads two columns
  // with several values.
  lemma CrossProductEscapes(a: int64, b: int64, sem: Semantics) returns (st: Store)
    requires Factor(a) && Factor(b)
    ensures StoreOk(st) && (a > 1 && b > 1 ==> !OnePerRule(st, QueryValues(None, Some(BothIn(a, b)))))
    ensures forall c :: c in Required(st) ==> Binds(Some(BothIn(a, b)), c)
    ensures Missed(st, None, BothIn(a, b), Pair(a, b), sem) <==> a > 1 && b > 1
  {
    hide *;
    st := BY_PRODUCT;
    BothInSelects(a, b, sem);
    RequiredOfProduct();
    ProductRoutes(a, b);
    ProductHome(a, b);
    if a > 1 && b > 1 { ProductColumns(a, b); }
    forall c | c in Required(st) ensures c == "a" || c == "b" {}
    NumbersApart(st, None, BothIn(a, b), Pair(a, b), sem, 0, ProductOf(a, b));
  }

  lemma ProductColumns(a: int64, b: int64)
    requires a > 1 && b > 1
    ensures !OnePerRule(BY_PRODUCT, QueryValues(None, Some(BothIn(a, b))))
  {
    hide Distinct, Required, Extracted;
    RequiredOfProduct();
    BothInExtracted(a, b);
    DistinctOfTwo(Int64(1), Int64(a));
    DistinctOfTwo(Int64(1), Int64(b));
    RequiredCovers(BY_PRODUCT, "a");
    RequiredCovers(BY_PRODUCT, "b");
    assert Ambiguous(BY_PRODUCT, BothValues(a, b), "a") && Ambiguous(BY_PRODUCT, BothValues(a, b), "b");
    assert "a"[0] != "b"[0];
  }

  lemma ProductRoutes(a: int64, b: int64)
    requires Factor(a) && Factor(b)
    ensures StoreOk(BY_PRODUCT)
    ensures RouteQuery(BY_PRODUCT, None, Some(BothIn(a, b))) == Some(Location(Session(0), "t_" + FormatInt(0)))
  {
    hide Locate, TargetOf, Extracted, RouteQuery, Accepts, Required, Distinct, FormatInt;
    RequiredOfProduct();
    BothInExtracted(a, b);
    ProductNames(1, 1);
    ProductAccepted(a, b);
    assert KeyOf(BY_PRODUCT, Firsts(BothValues(a, b))) == Pair(1, 1);
    RoutedTo(BY_PRODUCT, None, BothIn(a, b), BothValues(a, b), Pair(1, 1), Location(Session(0), "t_" + FormatInt(0)));
  }

  lemma ProductHome(a: int64, b: int64)
    requires Factor(a) && Factor(b)
    ensures StoreOk(BY_PRODUCT)
    ensures Home(BY_PRODUCT, Pair(a, b)) == Some(Location(Session(0), "t_" + FormatInt(ProductOf(a, b))))
  {
    hide Locate, TargetOf, Required, Distinct, FormatInt;
    RequiredOfProduct();
    ProductNames(a, b);
    assert KeyOf(BY_PRODUCT, Pair(a, b)) == Pair(a, b);
  }

  lemma ProductAccepted(a: int64, b: int64)
    requires Factor(a) && Factor(b)
    ensures Accepts(BY_PRODUCT, BothValues(a, b))
  {
    hide Required, TargetOf, Distinct, FormatInt;
    RequiredOfProduct();
    var multi := BothValues(a, b);
    assert KeyOf(BY_PRODUCT, Firsts(multi)) == Pair(1, 1);
    ProductNames(1, 1);
    forall c, k | c in multi && 0 <= k < |multi[c]|
      ensures SubstitutionAgrees(BY_PRODUCT, Pair(1, 1), ("", "t_" + FormatInt(0)), c, multi[c][k])
    {
      var x: int64 := multi[c][k].i;
      var key := if c == "a" then Pair(x, 1) else Pair(1, x);
      assert Pair(1, 1)[c := multi[c][k]] == key;
      if c == "a" { ProductNames(x, 1); } else { ProductNames(1, x); }
    }
  }

  lemma RequiredOfProduct()
    ensures StoreOk(BY_PRODUCT) && Required(BY_PRODUCT) == ["a", "b"]
  {
    RequiredBy(PRODUCT);
    hide Required, Distinct;
    assert ColRefs(LessOne("a")) == ["a"] && ColRefs(LessOne("b")) == ["b"];
    assert ColRefs(PRODUCT) == ["a", "b"];
    assert "a"[0] != "b"[0];
    DistinctOfTwo("a", "b");
  }
}
