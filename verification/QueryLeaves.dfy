// Which values extraction finds in a query tree (db/internal/dbsp/gorm.go), exactly:
// those of the equality and IN leaves that lie below And and Or nodes only.
module QueryLeaves {
  import opened Outcomes
  import opened Evaluation
  import opened ShardRules
  import opened Queries
  import opened TableStore

  // Nodes of a query tree and, below its conditions, of their clauses.
  datatype Node = QueryNode(q: Query) | ClauseNode(c: Clause)

  // What lies directly below a node; below a negation nothing is looked for.
  function Below(n: Node): seq<Node>
  {
    match n
    case QueryNode(Tree(keyword, qs)) =>
      if keyword.Not? then [] else seq(|qs|, k requires 0 <= k < |qs| => QueryNode(qs[k]))
    case QueryNode(Condition(c)) => [ClauseNode(c)]
    case ClauseNode(AndClause(cs)) => seq(|cs|, k requires 0 <= k < |cs| => ClauseNode(cs[k]))
    case ClauseNode(OrClause(cs)) => seq(|cs|, k requires 0 <= k < |cs| => ClauseNode(cs[k]))
    case _ => []
  }

  // The path of child numbers leads from the node to the leaf.
  predicate Leads(n: Node, path: seq<nat>, leaf: Clause)
    decreases |path|
  {
    if path == [] then n == ClauseNode(leaf)
    else path[0] < |Below(n)| && Leads(Below(n)[path[0]], path[1..], leaf)
  }

  // What is looked for in a leaf.
  datatype Wanted = Value(column: string, value: Datum) | Column(column: string) | Range(column: string)

  predicate Gives(leaf: Clause, w: Wanted)
  {
    match w
    case Value(col, v) =>
      (leaf.EqClause? && leaf.column == col && leaf.value == v) ||
      (leaf.InClause? && leaf.column == col && v in leaf.values)
    case Column(col) => (leaf.EqClause? || leaf.InClause?) && leaf.column == col
    case Range(col) => leaf.RangeClause? && leaf.column == col
  }

  ghost predicate Has(n: Node, w: Wanted) { exists path, leaf :: Leads(n, path, leaf) && Gives(leaf, w) }

  ghost predicate SomeHas(ns: seq<Node>, w: Wanted) { exists i :: 0 <= i < |ns| && Has(ns[i], w) }

  lemma HasHere(c: Clause, w: Wanted)
    requires Below(ClauseNode(c)) == []
    ensures Has(ClauseNode(c), w) <==> Gives(c, w)
  {
    if Gives(c, w) { assert Leads(ClauseNode(c), [], c); }
  }

  lemma HasBelow(n: Node, w: Wanted)
    requires n.QueryNode? || n.c.AndClause? || n.c.OrClause?
    ensures Has(n, w) <==> SomeHas(Below(n), w)
  {
    if Has(n, w) {
      var path, leaf :| Leads(n, path, leaf) && Gives(leaf, w);
      assert path != [] && Leads(Below(n)[path[0]], path[1..], leaf);
      assert Has(Below(n)[path[0]], w);
    }
    if i :| 0 <= i < |Below(n)| && Has(Below(n)[i], w) {
      var path, leaf :| Leads(Below(n)[i], path, leaf) && Gives(leaf, w);
      assert ([i] + path)[1..] == path;
      assert Leads(n, [i] + path, leaf);
    }
  }

  lemma SomeHasSplit(n: Node, ns: seq<Node>, w: Wanted)
    ensures SomeHas([n] + ns, w) <==> Has(n, w) || SomeHas(ns, w)
  {
    if Has(n, w) { assert ([n] + ns)[0] == n; }
    if i :| 0 <= i < |ns| && Has(ns[i], w) { assert ([n] + ns)[i + 1] == ns[i]; }
    if i :| 0 <= i < |[n] + ns| && Has(([n] + ns)[i], w) { assert i > 0 ==> ([n] + ns)[i] == ns[i - 1]; }
  }

  // ---- what is collected ----

  predicate Holds(out: Collected, ranges: set<string>, w: Wanted)
  {
    match w
    case Value(col, v) => col in out && v in out[col]
    case Column(col) => col in out
    case Range(col) => col in ranges
  }

  function ClauseNodes(cs: seq<Clause>): seq<Node> { seq(|cs|, k requires 0 <= k < |cs| => ClauseNode(cs[k])) }

  function QueryNodes(qs: seq<Query>): seq<Node> { seq(|qs|, k requires 0 <= k < |qs| => QueryNode(qs[k])) }

  lemma {:induction false} ClauseCollects(out: Collected, ranges: set<string>, c: Clause, w: Wanted)
    ensures Holds(ClauseInto(out, c), ranges + ClauseRanges(c), w) <==> Holds(out, ranges, w) || Has(ClauseNode(c), w)
    decreases c, 1
  {
    match c
    case AndClause(parts) =>
      HasBelow(ClauseNode(c), w);
      ClausesCollect(out, ranges, parts, w);
    case OrClause(parts) =>
      HasBelow(ClauseNode(c), w);
      ClausesCollect(out, ranges, parts, w);
    case _ => HasHere(c, w);
  }

  lemma {:induction false} ClausesCollect(out: Collected, ranges: set<string>, cs: seq<Clause>, w: Wanted)
    ensures Holds(ClausesInto(out, cs), ranges + ClausesRanges(cs), w) <==>
            Holds(out, ranges, w) || SomeHas(ClauseNodes(cs), w)
    decreases cs, 0
  {
    if cs != [] {
      ClauseCollects(out, ranges, cs[0], w);
      ClausesCollect(ClauseInto(out, cs[0]), ranges + ClauseRanges(cs[0]), cs[1..], w);
      assert ranges + ClauseRanges(cs[0]) + ClausesRanges(cs[1..]) == ranges + ClausesRanges(cs);
      SomeHasSplit(ClauseNode(cs[0]), ClauseNodes(cs[1..]), w);
      assert ClauseNodes(cs) == [ClauseNode(cs[0])] + ClauseNodes(cs[1..]);
    }
  }

  lemma {:induction false} QueryCollects(out: Collected, ranges: set<string>, q: Query, w: Wanted)
    ensures Holds(QueryInto(out, q), ranges + QueryRanges(q), w) <==> Holds(out, ranges, w) || Has(QueryNode(q), w)
    decreases q, 1
  {
    HasBelow(QueryNode(q), w);
    match q
    case Condition(c) =>
      ClauseCollects(out, ranges, c, w);
      assert [ClauseNode(c)] + [] == [ClauseNode(c)];
      SomeHasSplit(ClauseNode(c), [], w);
    case Tree(keyword, conditions) => if !keyword.Not? { QueriesCollect(out, ranges, conditions, w); }
    case _ =>
  }

  lemma {:induction false} QueriesCollect(out: Collected, ranges: set<string>, qs: seq<Query>, w: Wanted)
    ensures Holds(QueriesInto(out, qs), ranges + QueriesRanges(qs), w) <==>
            Holds(out, ranges, w) || SomeHas(QueryNodes(qs), w)
    decreases qs, 0
  {
    if qs != [] {
      QueryCollects(out, ranges, qs[0], w);
      QueriesCollect(QueryInto(out, qs[0]), ranges + QueryRanges(qs[0]), qs[1..], w);
      assert ranges + QueryRanges(qs[0]) + QueriesRanges(qs[1..]) == ranges + QueriesRanges(qs);
      SomeHasSplit(QueryNode(qs[0]), QueryNodes(qs[1..]), w);
      assert QueryNodes(qs) == [QueryNode(qs[0])] + QueryNodes(qs[1..]);
    }
  }

  // ---- the exact extraction ----

  // The query is a tree with such a leaf.
  ghost predicate Lists(q: Option<Query>, w: Wanted) { q.Some? && q.value.Tree? && Has(QueryNode(q.value), w) }

  lemma ExtractedExactly(q: Option<Query>, col: string, v: Datum)
    ensures col in Extracted(q) && v in Extracted(q)[col] <==> Lists(q, Value(col, v))
    ensures col in Extracted(q) <==> Lists(q, Column(col))
  {
    if q.Some? && q.value.Tree? {
      QueryCollects(map[], {}, q.value, Value(col, v));
      QueryCollects(map[], {}, q.value, Column(col));
    }
  }

  // The columns reported as compared by range.
  lemma RangesExactly(q: Query, col: string)
    ensures col in QueryRanges(q) <==> Has(QueryNode(q), Range(col))
  {
    QueryCollects(map[], {}, q, Range(col));
  }

  // Without a listed value, and without one in an explicit key, for some required
  // column, a query is not routed. Negations and ranges give no value.
  lemma UnlistedIsNotRouted(st: Store, ctx: Option<Fields>, q: Option<Query>, col: string)
    requires StoreOk(st) && col in Required(st) && (ctx.Some? ==> col !in ctx.value)
    requires forall v :: !Lists(q, Value(col, v))
    ensures RouteQuery(st, ctx, q) == None
  {
    hide Required, Accepts, Extracted, Lists;
    if col in Extracted(q) && Extracted(q)[col] != [] {
      ExtractedExactly(q, col, Extracted(q)[col][0]);
    }
  }

  lemma NegationListsNothing(qs: seq<Query>, w: Wanted)
    ensures !Lists(Some(Tree(Not, qs)), w)
  {
    HasBelow(QueryNode(Tree(Not, qs)), w);
  }

  // ---- the filter ----

  // Some part of the query takes part in the filter.
  predicate Filters(qs: seq<Query>) { exists i :: 0 <= i < |qs| && ToClause(qs[i]).Some? }

  predicate FiltersAndSelects(q: Query, row: Row, sem: Semantics)
  {
    ToClause(q).Some? && Selects(ToClause(q).value, row, sem)
  }

  lemma {:induction false} ClausesOfParts(qs: seq<Query>, row: Row, sem: Semantics)
    ensures ToClauses(qs) != [] <==> Filters(qs)
    ensures AllSelect(ToClauses(qs), row, sem) <==>
            forall i :: 0 <= i < |qs| ==> ToClause(qs[i]).None? || FiltersAndSelects(qs[i], row, sem)
    ensures AnySelects(ToClauses(qs), row, sem) <==>
            exists i :: 0 <= i < |qs| && FiltersAndSelects(qs[i], row, sem)
  {
    hide ToClause, Selects;
    if qs != [] {
      ClausesOfParts(qs[1..], row, sem);
      assert forall i :: 0 < i < |qs| ==> qs[i] == qs[1..][i - 1];
      assert forall i :: 0 <= i < |qs| - 1 ==> qs[1..][i] == qs[i + 1];
      var rest := ToClauses(qs[1..]);
      if ToClause(qs[0]).Some? {
        assert ToClauses(qs) == [ToClause(qs[0]).value] + rest && ToClauses(qs)[1..] == rest;
      }
    }
  }

  // And selects what every part selects, Or what some filtering part selects; parts
  // without a filter do not count, and a tree of such parts selects everything. A
  // negation is left to the database.
  lemma FilterMeans(qs: seq<Query>, row: Row, sem: Semantics)
    ensures QuerySelects(Some(Tree(And, qs)), row, sem) <==>
            forall i :: 0 <= i < |qs| ==> QuerySelects(Some(qs[i]), row, sem)
    ensures QuerySelects(Some(Tree(Or, qs)), row, sem) <==>
            !Filters(qs) || exists i :: 0 <= i < |qs| && FiltersAndSelects(qs[i], row, sem)
    ensures QuerySelects(Some(Tree(Not, qs)), row, sem) <==> !Filters(qs) || sem(NotClause(ToClauses(qs)), row)
  {
    hide *;
    AndMeans(qs, row, sem);
    OrMeans(qs, row, sem);
    NotMeans(qs, row, sem);
  }

  lemma AndMeans(qs: seq<Query>, row: Row, sem: Semantics)
    ensures QuerySelects(Some(Tree(And, qs)), row, sem) <==>
            forall i :: 0 <= i < |qs| ==> QuerySelects(Some(qs[i]), row, sem)
  {
    hide Filters, ToClauses;
    ClausesOfParts(qs, row, sem);
    TreeClause(And, qs);
    forall i | 0 <= i < |qs|
      ensures QuerySelects(Some(qs[i]), row, sem) <==> ToClause(qs[i]).None? || FiltersAndSelects(qs[i], row, sem)
    {
    }
    if ToClauses(qs) == [] { assert AllSelect(ToClauses(qs), row, sem); }
  }

  lemma OrMeans(qs: seq<Query>, row: Row, sem: Semantics)
    ensures QuerySelects(Some(Tree(Or, qs)), row, sem) <==>
            !Filters(qs) || exists i :: 0 <= i < |qs| && FiltersAndSelects(qs[i], row, sem)
  {
    hide Filters, FiltersAndSelects, ToClauses;
    ClausesOfParts(qs, row, sem);
    TreeClause(Or, qs);
  }

  lemma NotMeans(qs: seq<Query>, row: Row, sem: Semantics)
    ensures QuerySelects(Some(Tree(Not, qs)), row, sem) <==> !Filters(qs) || sem(NotClause(ToClauses(qs)), row)
  {
    hide Filters, FiltersAndSelects, ToClauses;
    ClausesOfParts(qs, row, sem);
    TreeClause(Not, qs);
  }

  lemma TreeClause(keyword: Keyword, qs: seq<Query>)
    ensures var parts := ToClauses(qs);
            ToClause(Tree(keyword, qs)) ==
            if parts == [] then None
            else if keyword.And? then Some(AndClause(parts))
            else if keyword.Or? then Some(OrClause(parts))
            else Some(NotClause(parts))
  {
    hide ToClauses;
  }
}
