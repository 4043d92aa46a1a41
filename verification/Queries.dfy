// Model of the query tree in db/internal/dbsp/gorm.go: its translation into a filter,
// and the extraction of sharding values from it.
module Queries {
  import opened Outcomes
  import opened Values
  import opened Evaluation

  // The filter expressions the extraction looks into, and two kinds it does not:
  // negations and every other comparison.
  datatype Clause =
    | EqClause(column: string, value: Datum)
    | InClause(column: string, values: seq<Datum>)
    | RangeClause(column: string, kind: nat, bound: Datum)
    | AndClause(parts: seq<Clause>)
    | OrClause(parts: seq<Clause>)
    | NotClause(parts: seq<Clause>)
    | OtherClause(id: nat)

  datatype Keyword = And | Or | Not

  // A condition, a tree of conditions (a column selection is an And tree), or nil.
  // Foreign conditions are implementations the library does not know; they take part
  // in the filter when they map to an expression.
  datatype Query =
    | Condition(clause: Clause)
    | Tree(keyword: Keyword, conditions: seq<Query>)
    | Nil
    | Foreign(filter: Option<Clause>)

  type Row = Fields

  // ---- translation into a filter ----

  function ToClause(q: Query): Option<Clause>
    decreases q, 1
  {
    match q
    case Condition(c) => Some(c)
    case Nil => None
    case Foreign(filter) => filter
    case Tree(keyword, conditions) =>
      var parts := ToClauses(conditions);
      if parts == [] then None
      else
        match keyword
        case And => Some(AndClause(parts))
        case Or => Some(OrClause(parts))
        case Not => Some(NotClause(parts))
  }

  function ToClauses(qs: seq<Query>): seq<Clause>
    decreases qs, 0
  {
    if qs == [] then []
    else
      var rest := ToClauses(qs[1..]);
      match ToClause(qs[0]) case None => rest case Some(c) => [c] + rest
  }

  // ---- which rows a filter selects ----

  predicate IsNumber(d: Datum) { !d.Text? && !d.Null? && !d.Opaque? }

  function Number(d: Datum): int
    requires IsNumber(d)
  {
    match d
    case Int64(i) => i
    case Int(i) => i
    case Uint64(u) => u
    case Int32(n) => n
    case Uint32(m) => m
    case SmallInt(n) => n
  }

  // Equality of stored and compared values, whatever integer type carries them.
  predicate SameValue(a: Datum, b: Datum)
  {
    if IsNumber(a) && IsNumber(b) then Number(a) == Number(b) else a == b && !a.Null?
  }

  // Truth of the clauses that extraction ignores is left open: the database decides.
  type Semantics = (Clause, Row) -> bool

  predicate Selects(c: Clause, row: Row, sem: Semantics)
    decreases c, 1
  {
    match c
    case EqClause(col, v) => col in row && (if v.Null? then row[col].Null? else SameValue(row[col], v))
    case InClause(col, vs) => col in row && exists k :: 0 <= k < |vs| && SameValue(row[col], vs[k])
    case AndClause(parts) => AllSelect(parts, row, sem)
    case OrClause(parts) => AnySelects(parts, row, sem)
    case _ => sem(c, row)
  }

  predicate AllSelect(cs: seq<Clause>, row: Row, sem: Semantics)
    decreases cs, 0
  {
    cs == [] || (Selects(cs[0], row, sem) && AllSelect(cs[1..], row, sem))
  }

  predicate AnySelects(cs: seq<Clause>, row: Row, sem: Semantics)
    decreases cs, 0
  {
    cs != [] && (Selects(cs[0], row, sem) || AnySelects(cs[1..], row, sem))
  }

  // A missing filter selects every row.
  predicate QuerySelects(q: Option<Query>, row: Row, sem: Semantics)
  {
    match q
    case None => true
    case Some(query) => match ToClause(query) case None => true case Some(c) => Selects(c, row, sem)
  }

  // ---- extraction ----

  type Collected = map<string, seq<Datum>>

  function Collect(out: Collected, col: string, vs: seq<Datum>): Collected
  {
    out[col := (if col in out then out[col] else []) + vs]
  }

  function ClauseInto(out: Collected, c: Clause): Collected
    decreases c, 1
  {
    match c
    case EqClause(col, v) => Collect(out, col, [v])
    case InClause(col, vs) => Collect(out, col, vs)
    case AndClause(parts) => ClausesInto(out, parts)
    case OrClause(parts) => ClausesInto(out, parts)
    case _ => out
  }

  function ClausesInto(out: Collected, cs: seq<Clause>): Collected
    decreases cs, 0
  {
    if cs == [] then out else ClausesInto(ClauseInto(out, cs[0]), cs[1..])
  }

  function QueryInto(out: Collected, q: Query): Collected
    decreases q, 1
  {
    match q
    case Condition(c) => ClauseInto(out, c)
    case Nil => out
    case Foreign(_) => out
    case Tree(keyword, conditions) => if keyword.Not? then out else QueriesInto(out, conditions)
  }

  function QueriesInto(out: Collected, qs: seq<Query>): Collected
    decreases qs, 0
  {
    if qs == [] then out else QueriesInto(QueryInto(out, qs[0]), qs[1..])
  }

  // Columns compared by range, for diagnostics.
  function ClauseRanges(c: Clause): set<string>
    decreases c, 1
  {
    match c
    case RangeClause(col, _, _) => {col}
    case AndClause(parts) => ClausesRanges(parts)
    case OrClause(parts) => ClausesRanges(parts)
    case _ => {}
  }

  function ClausesRanges(cs: seq<Clause>): set<string>
    decreases cs, 0
  {
    if cs == [] then {} else ClauseRanges(cs[0]) + ClausesRanges(cs[1..])
  }

  function QueryRanges(q: Query): set<string>
    decreases q, 1
  {
    match q
    case Condition(c) => ClauseRanges(c)
    case Nil => {}
    case Foreign(_) => {}
    case Tree(keyword, conditions) => if keyword.Not? then {} else QueriesRanges(conditions)
  }

  function QueriesRanges(qs: seq<Query>): set<string>
    decreases qs, 0
  {
    if qs == [] then {} else QueryRanges(qs[0]) + QueriesRanges(qs[1..])
  }

  // The two maps that extraction fills in place.
  class Extraction {
    var values: Collected
    var rangeCols: set<string>

    constructor ()
      ensures values == map[] && rangeCols == {}
    {
      values := map[];
      rangeCols := {};
    }

    method FromClause(c: Clause)
      modifies this
      ensures values == ClauseInto(old(values), c) && rangeCols == old(rangeCols) + ClauseRanges(c)
      decreases c, 1
    {
      match c {
        case EqClause(col, v) => values := Collect(values, col, [v]);
        case InClause(col, vs) => values := Collect(values, col, vs);
        case RangeClause(col, _, _) => rangeCols := rangeCols + {col};
        case AndClause(parts) => FromClauses(parts);
        case OrClause(parts) => FromClauses(parts);
        case _ =>
      }
    }

    method FromClauses(parts: seq<Clause>)
      modifies this
      ensures values == ClausesInto(old(values), parts) && rangeCols == old(rangeCols) + ClausesRanges(parts)
      decreases parts, 0
    {
      for i := 0 to |parts|
        invariant ClausesInto(old(values), parts) == ClausesInto(values, parts[i..])
        invariant old(rangeCols) + ClausesRanges(parts) == rangeCols + ClausesRanges(parts[i..])
      {
        assert parts[i..][1..] == parts[i + 1..];
        FromClause(parts[i]);
      }
    }

    method FromQuery(q: Query)
      modifies this
      ensures values == QueryInto(old(values), q) && rangeCols == old(rangeCols) + QueryRanges(q)
      decreases q, 1
    {
      match q {
        case Condition(c) => FromClause(c);
        case Nil =>
        case Foreign(_) =>
        case Tree(keyword, conditions) =>
          if keyword.Not? { return; }
          FromQueries(conditions);
      }
    }

    method FromQueries(qs: seq<Query>)
      modifies this
      ensures values == QueriesInto(old(values), qs) && rangeCols == old(rangeCols) + QueriesRanges(qs)
      decreases qs, 0
    {
      for i := 0 to |qs|
        invariant QueriesInto(old(values), qs) == QueriesInto(values, qs[i..])
        invariant old(rangeCols) + QueriesRanges(qs) == rangeCols + QueriesRanges(qs[i..])
      {
        assert qs[i..][1..] == qs[i + 1..];
        FromQuery(qs[i]);
      }
    }
  }

  // Only trees are looked into: a bare condition passed as the whole query filters the
  // rows, but yields no values.
  function Extracted(q: Option<Query>): Collected
  {
    if q.Some? && q.value.Tree? then QueryInto(map[], q.value) else map[]
  }

  method ExtractColumnsFromQuery(q: Option<Query>) returns (values: Collected, rangeCols: set<string>)
    ensures values == Extracted(q)
    ensures rangeCols == if q.Some? && q.value.Tree? then QueryRanges(q.value) else {}
  {
    var extraction := new Extraction();
    if q.Some? && q.value.Tree? {
      extraction.FromQuery(q.value);
    }
    return extraction.values, extraction.rangeCols;
  }

  // ---- which columns a query binds ----

  // The filter can only select rows whose col is one of the values it lists: on every
  // branch of an OR, and on some part of an AND.
  predicate ClauseBinds(c: Clause, col: string)
    decreases c, 1
  {
    match c
    case EqClause(x, _) => x == col
    case InClause(x, _) => x == col
    case AndClause(parts) => SomeBinds(parts, col)
    case OrClause(parts) => parts != [] && AllBind(parts, col)
    case _ => false
  }

  predicate SomeBinds(cs: seq<Clause>, col: string)
    decreases cs, 0
  {
    cs != [] && (ClauseBinds(cs[0], col) || SomeBinds(cs[1..], col))
  }

  predicate AllBind(cs: seq<Clause>, col: string)
    decreases cs, 0
  {
    cs == [] || (ClauseBinds(cs[0], col) && AllBind(cs[1..], col))
  }

  // The same for queries. Branches that translate to nothing do not take part; foreign
  // conditions bind nothing, because extraction does not look into them.
  predicate QueryBinds(q: Query, col: string)
    decreases q, 1
  {
    match q
    case Condition(c) => ClauseBinds(c, col)
    case Tree(And, conditions) => SomeQueryBinds(conditions, col)
    case Tree(Or, conditions) => ToClauses(conditions) != [] && AllQueriesBind(conditions, col)
    case _ => false
  }

  predicate SomeQueryBinds(qs: seq<Query>, col: string)
    decreases qs, 0
  {
    qs != [] && (QueryBinds(qs[0], col) || SomeQueryBinds(qs[1..], col))
  }

  predicate AllQueriesBind(qs: seq<Query>, col: string)
    decreases qs, 0
  {
    qs == [] || ((ToClause(qs[0]).None? || QueryBinds(qs[0], col)) && AllQueriesBind(qs[1..], col))
  }

  // A bare condition binds nothing either.
  predicate Binds(q: Option<Query>, col: string) { q.Some? && q.value.Tree? && QueryBinds(q.value, col) }

  // The row carries one of the collected values of the column.
  ghost predicate Carries(row: Row, col: string, out: Collected)
  {
    col in row && col in out &&
    exists k :: 0 <= k < |out[col]| && (if out[col][k].Null? then row[col].Null? else SameValue(row[col], out[col][k]))
  }

  // Extraction never forgets.
  ghost predicate Extends(a: Collected, b: Collected)
  {
    forall col :: col in a ==> col in b && a[col] <= b[col]
  }

  lemma CarriesMore(row: Row, col: string, a: Collected, b: Collected)
    requires Carries(row, col, a) && Extends(a, b)
    ensures Carries(row, col, b)
  {
    var k :| 0 <= k < |a[col]| && (if a[col][k].Null? then row[col].Null? else SameValue(row[col], a[col][k]));
    assert b[col][k] == a[col][k];
  }

  lemma {:induction false} ClauseExtends(out: Collected, c: Clause)
    ensures Extends(out, ClauseInto(out, c))
    decreases c, 1
  {
    match c
    case AndClause(parts) => ClausesExtend(out, parts);
    case OrClause(parts) => ClausesExtend(out, parts);
    case _ =>
  }

  lemma {:induction false} ClausesExtend(out: Collected, cs: seq<Clause>)
    ensures Extends(out, ClausesInto(out, cs))
    decreases cs, 0
  {
    if cs != [] {
      ClauseExtends(out, cs[0]);
      ClausesExtend(ClauseInto(out, cs[0]), cs[1..]);
    }
  }

  lemma {:induction false} QueryExtends(out: Collected, q: Query)
    ensures Extends(out, QueryInto(out, q))
    decreases q, 1
  {
    match q
    case Condition(c) => ClauseExtends(out, c);
    case Tree(_, conditions) => QueriesExtend(out, conditions);
    case _ =>
  }

  lemma {:induction false} QueriesExtend(out: Collected, qs: seq<Query>)
    ensures Extends(out, QueriesInto(out, qs))
    decreases qs, 0
  {
    if qs != [] {
      QueryExtends(out, qs[0]);
      QueriesExtend(QueryInto(out, qs[0]), qs[1..]);
    }
  }

  // A selected row carries an extracted value of every bound column.
  lemma {:induction false} BoundClauseCarried(out: Collected, c: Clause, col: string, row: Row, sem: Semantics)
    requires ClauseBinds(c, col) && Selects(c, row, sem)
    ensures Carries(row, col, ClauseInto(out, c))
    decreases c, 1
  {
    match c
    case EqClause(_, v) =>
      var got := ClauseInto(out, c)[col];
      assert got[|got| - 1] == v;
    case InClause(_, vs) =>
      var k :| 0 <= k < |vs| && SameValue(row[col], vs[k]);
      var before := if col in out then out[col] else [];
      assert ClauseInto(out, c)[col][|before| + k] == vs[k];
    case AndClause(parts) => SomeBoundCarried(out, parts, col, row, sem);
    case OrClause(parts) => AnyBoundCarried(out, parts, col, row, sem);
  }

  lemma {:induction false} SomeBoundCarried(out: Collected, cs: seq<Clause>, col: string, row: Row, sem: Semantics)
    requires SomeBinds(cs, col) && AllSelect(cs, row, sem)
    ensures Carries(row, col, ClausesInto(out, cs))
    decreases cs, 0
  {
    var next := ClauseInto(out, cs[0]);
    if ClauseBinds(cs[0], col) {
      BoundClauseCarried(out, cs[0], col, row, sem);
      ClausesExtend(next, cs[1..]);
      CarriesMore(row, col, next, ClausesInto(next, cs[1..]));
    } else {
      SomeBoundCarried(next, cs[1..], col, row, sem);
    }
  }

  lemma {:induction false} AnyBoundCarried(out: Collected, cs: seq<Clause>, col: string, row: Row, sem: Semantics)
    requires AllBind(cs, col) && AnySelects(cs, row, sem)
    ensures Carries(row, col, ClausesInto(out, cs))
    decreases cs, 0
  {
    var next := ClauseInto(out, cs[0]);
    if Selects(cs[0], row, sem) {
      BoundClauseCarried(out, cs[0], col, row, sem);
      ClausesExtend(next, cs[1..]);
      CarriesMore(row, col, next, ClausesInto(next, cs[1..]));
    } else {
      AnyBoundCarried(next, cs[1..], col, row, sem);
    }
  }

  // A query that binds a column translates to a filter.
  lemma {:induction false} BindingFilters(q: Query, col: string)
    requires QueryBinds(q, col)
    ensures ToClause(q).Some?
    decreases q, 1
  {
    match q
    case Tree(And, conditions) => SomeBindingFilters(conditions, col);
    case _ =>
  }

  lemma {:induction false} SomeBindingFilters(qs: seq<Query>, col: string)
    requires SomeQueryBinds(qs, col)
    ensures ToClauses(qs) != []
    decreases qs, 0
  {
    if QueryBinds(qs[0], col) {
      BindingFilters(qs[0], col);
    } else {
      SomeBindingFilters(qs[1..], col);
    }
  }

  lemma {:induction false} BoundQueryCarried(out: Collected, q: Query, col: string, row: Row, sem: Semantics)
    requires QueryBinds(q, col) && ToClause(q).Some? && Selects(ToClause(q).value, row, sem)
    ensures Carries(row, col, QueryInto(out, q))
    decreases q, 1
  {
    match q
    case Condition(c) => BoundClauseCarried(out, c, col, row, sem);
    case Tree(keyword, conditions) =>
      if keyword.And? {
        SomeQueryCarried(out, conditions, col, row, sem);
      } else {
        AnyQueryCarried(out, conditions, col, row, sem);
      }
  }

  lemma {:induction false} SomeQueryCarried(out: Collected, qs: seq<Query>, col: string, row: Row, sem: Semantics)
    requires SomeQueryBinds(qs, col) && AllSelect(ToClauses(qs), row, sem)
    ensures Carries(row, col, QueriesInto(out, qs))
    decreases qs, 0
  {
    var next := QueryInto(out, qs[0]);
    if ToClause(qs[0]).Some? {
      assert ToClauses(qs)[1..] == ToClauses(qs[1..]);
    }
    if QueryBinds(qs[0], col) {
      BindingFilters(qs[0], col);
      BoundQueryCarried(out, qs[0], col, row, sem);
      QueriesExtend(next, qs[1..]);
      CarriesMore(row, col, next, QueriesInto(next, qs[1..]));
    } else {
      SomeQueryCarried(next, qs[1..], col, row, sem);
    }
  }

  lemma {:induction false} AnyQueryCarried(out: Collected, qs: seq<Query>, col: string, row: Row, sem: Semantics)
    requires AllQueriesBind(qs, col) && AnySelects(ToClauses(qs), row, sem)
    ensures Carries(row, col, QueriesInto(out, qs))
    decreases qs, 0
  {
    var next := QueryInto(out, qs[0]);
    var here := ToClause(qs[0]).Some?;
    if here {
      assert ToClauses(qs)[1..] == ToClauses(qs[1..]);
    }
    if here && Selects(ToClause(qs[0]).value, row, sem) {
      BoundQueryCarried(out, qs[0], col, row, sem);
      QueriesExtend(next, qs[1..]);
      CarriesMore(row, col, next, QueriesInto(next, qs[1..]));
    } else {
      AnyQueryCarried(next, qs[1..], col, row, sem);
    }
  }

  // Every row a query selects carries an extracted value of every column it binds.
  lemma SelectedRowsCarryExtracted(q: Option<Query>, col: string, row: Row, sem: Semantics)
    requires Binds(q, col) && QuerySelects(q, row, sem)
    ensures Carries(row, col, Extracted(q))
  {
    BindingFilters(q.value, col);
    BoundQueryCarried(map[], q.value, col, row, sem);
  }
}
