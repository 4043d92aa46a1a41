// Model of fetchAllFromShard in db/internal/dbsp/sharding_table_store.go: reading a
// whole table in pages ordered by id, each page starting after the last id seen.
module CursorScan {
  import opened Outcomes
  import opened Values
  import opened Sequences
  import opened Queries

  // A table maps ids to rows; the id of a row can be read back from it.
  type Table = map<int64, Row>

  type Filter = Row -> bool

  type Hit = (int64, Row)

  // ---- what the database answers ----

  // The ids of the matching rows beyond the cursor.
  function Matching(t: Table, sel: Filter, after: Option<int64>): set<int64>
  {
    set id | id in t && sel(t[id]) && (after.Some? ==> after.value < id)
  }

  ghost predicate Increasing(ids: seq<int64>)
  {
    forall i, j :: 0 <= i < j < |ids| ==> ids[i] < ids[j]
  }

  lemma {:induction false} LeastExists(ids: set<int64>)
    requires ids != {}
    ensures exists m :: Least(m, ids)
  {
    var m :| m in ids;
    var rest := ids - {m};
    if rest == {} {
      assert ids == {m};
      assert Least(m, ids);
    } else {
      LeastExists(rest);
      var n :| Least(n, rest);
      LeastOfBoth(ids, m, n);
    }
  }

  predicate Least(m: int64, ids: set<int64>) { m in ids && forall x :: x in ids ==> m <= x }

  lemma LeastOfBoth(ids: set<int64>, m: int64, n: int64)
    requires m in ids && Least(n, ids - {m})
    ensures Least(if n < m then n else m, ids)
  {
    var least := if n < m then n else m;
    forall x | x in ids ensures least <= x {
      if x != m { assert x in ids - {m}; }
    }
  }

  lemma LeastFirst(ids: set<int64>, m: int64, rest: seq<int64>)
    requires Least(m, ids)
    requires Increasing(rest) && Elements(rest) == ids - {m}
    ensures Increasing([m] + rest) && Elements([m] + rest) == ids
  {
    forall k | 0 <= k < |rest| ensures m < rest[k] { assert rest[k] in Elements(rest); }
    assert Elements([m] + rest) == {m} + Elements(rest) by {
      forall x | x in Elements(rest) ensures x in Elements([m] + rest) {
        var k :| 0 <= k < |rest| && rest[k] == x;
        assert ([m] + rest)[k + 1] == x;
      }
      assert ([m] + rest)[0] == m;
    }
  }

  function Ascending(ids: set<int64>): (r: seq<int64>)
    ensures Increasing(r) && Elements(r) == ids && |r| == |ids|
  {
    if ids == {} then []
    else
      LeastExists(ids);
      var m :| Least(m, ids);
      var rest := Ascending(ids - {m});
      LeastFirst(ids, m, rest);
      [m] + rest
  }

  function RowsOf(t: Table, ids: seq<int64>): seq<Hit>
    requires forall k :: 0 <= k < |ids| ==> ids[k] in t
  {
    seq(|ids|, k requires 0 <= k < |ids| => (ids[k], t[ids[k]]))
  }

  // All matching rows in id order.
  function Scan(t: Table, sel: Filter): seq<Hit>
  {
    var ids := Ascending(Matching(t, sel, None));
    assert forall k :: 0 <= k < |ids| ==> ids[k] in Matching(t, sel, None);
    RowsOf(t, ids)
  }

  // The first matching rows beyond the cursor in id order.
  function Page(t: Table, sel: Filter, after: Option<int64>, limit: nat): seq<Hit>
  {
    var ids := Ascending(Matching(t, sel, after));
    assert forall k :: 0 <= k < |ids| ==> ids[k] in Matching(t, sel, after);
    RowsOf(t, if |ids| <= limit then ids else ids[..limit])
  }

  // Without a limit and an order, the rows come in any order.
  method Find(t: Table, sel: Filter) returns (rows: seq<Hit>)
    ensures multiset(rows) == multiset(Scan(t, sel))
  {
    rows := [];
    var todo := Matching(t, sel, None);
    while todo != {}
      invariant todo <= Matching(t, sel, None)
      invariant NoRepeats(rows)
      invariant forall h: Hit :: h in rows <==> h.0 in Matching(t, sel, None) && h.0 !in todo && h.1 == t[h.0]
    {
      var id :| id in todo;
      todo := todo - {id};
      rows := rows + [(id, t[id])];
    }
    ScanHolds(t, sel);
    SameElementsSameMultiset(rows, Scan(t, sel));
  }

  // The scan is the list of the matching rows, once each.
  lemma ScanHolds(t: Table, sel: Filter)
    ensures NoRepeats(Scan(t, sel))
    ensures forall h: Hit :: h in Scan(t, sel) <==> h.0 in t && sel(t[h.0]) && h.1 == t[h.0]
    ensures |Scan(t, sel)| == |Matching(t, sel, None)|
  {
    hide Ascending;
    var ids := Ascending(Matching(t, sel, None));
    forall h: Hit | h.0 in t && sel(t[h.0]) && h.1 == t[h.0] ensures h in Scan(t, sel) {
      assert h.0 in Elements(ids);
      var k :| 0 <= k < |ids| && ids[k] == h.0;
      assert Scan(t, sel)[k] == h;
    }
    forall h: Hit | h in Scan(t, sel) ensures h.0 in t && sel(t[h.0]) && h.1 == t[h.0] {
      var k :| 0 <= k < |Scan(t, sel)| && Scan(t, sel)[k] == h;
      assert ids[k] in Elements(ids);
    }
  }

  // A page holds matching rows beyond the cursor, in id order.
  lemma PageRows(t: Table, sel: Filter, after: Option<int64>, limit: nat)
    ensures var page := Page(t, sel, after, limit);
            && |page| <= limit && Increasing(Ids(page))
            && forall k :: 0 <= k < |page| ==>
                 page[k].0 in t && page[k].1 == t[page[k].0] && sel(page[k].1) &&
                 (after.Some? ==> after.value < page[k].0)
  {
    hide Ascending;
    var ids := Ascending(Matching(t, sel, after));
    var page := Page(t, sel, after, limit);
    forall k | 0 <= k < |page| ensures page[k].0 in Matching(t, sel, after) {
      assert ids[k] in Elements(ids);
    }
  }

  // It holds the nearest ones: what it leaves out lies beyond a full page.
  lemma PageCovers(t: Table, sel: Filter, after: Option<int64>, limit: nat, id: int64)
    requires id in t && sel(t[id]) && (after.Some? ==> after.value < id)
    ensures var page := Page(t, sel, after, limit);
            id in Ids(page) || (|page| == limit && (limit > 0 ==> page[limit - 1].0 < id))
  {
    hide Ascending;
    var ids := Ascending(Matching(t, sel, after));
    var page := Page(t, sel, after, limit);
    assert id in Elements(ids);
    var k :| 0 <= k < |ids| && ids[k] == id;
    if k < |page| { assert Ids(page)[k] == id; }
  }

  // ---- the scan ----

  function Ids(rows: seq<Hit>): seq<int64> { seq(|rows|, k requires 0 <= k < |rows| => rows[k].0) }

  // The states of the table that the reads see; a read can also fail.
  type History = nat -> Option<Table>

  // Each row was read as it stood at one of the reads, where it matched.
  ghost predicate Seen(rows: seq<Hit>, states: History, readCount: nat, sel: Filter)
  {
    forall i :: 0 <= i < |rows| ==> SeenBy(rows[i], states, readCount, sel)
  }

  ghost predicate SeenBy(hit: Hit, states: History, readCount: nat, sel: Filter)
  {
    exists k :: 0 <= k < readCount && SeenAt(hit, states, k, sel)
  }

  ghost predicate SeenAt(hit: Hit, states: History, k: nat, sel: Filter)
  {
    && states(k).Some? && hit.0 in states(k).value
    && states(k).value[hit.0] == hit.1 && sel(hit.1)
  }

  // The row with this id is there and matches at every read.
  ghost predicate Throughout(id: int64, states: History, readCount: nat, sel: Filter)
  {
    forall k :: 0 <= k < readCount ==> states(k).Some? && id in states(k).value && sel(states(k).value[id])
  }

  ghost predicate Answered(states: History, readCount: nat) { forall k :: 0 <= k < readCount ==> states(k).Some? }

  // Ids in the result increase strictly, so none is returned twice; whatever matches
  // throughout the scan is returned. The ids are machine integers, so the scan ends.
  method FetchAllFromShard(states: History, sel: Filter, batchSize: int)
      returns (r: Result<seq<Hit>>, ghost readCount: nat)
    ensures readCount > 0 && (r.Ok? <==> Answered(states, readCount))
    ensures r.Ok? ==> Seen(r.value, states, readCount, sel)
    ensures r.Ok? ==> forall id :: Throughout(id, states, readCount, sel) ==> id in Ids(r.value)
    ensures r.Ok? && batchSize > 0 ==> Increasing(Ids(r.value))
    ensures r.Ok? && batchSize <= 0 ==> readCount == 1 && multiset(r.value) == multiset(Scan(states(0).value, sel))
  {
    hide Page, Scan, SeenAt, Throughout;
    if batchSize <= 0 {
      readCount := 1;
      match states(0) {
        case None => return Err(NotFound), 1;
        case Some(t) =>
          var rows := Find(t, sel);
          FoundAll(t, sel, rows, states);
          return Ok(rows), 1;
      }
    }
    var all: seq<Hit> := [];
    var cursor: Option<int64> := None;
    readCount := 0;
    var page: nat := 0;
    while true
      invariant page == readCount && Answered(states, readCount)
      invariant Increasing(Ids(all)) && Seen(all, states, readCount, sel)
      invariant cursor.Some? ==> all != [] && all[|all| - 1].0 == cursor.value
      invariant cursor.None? ==> all == []
      invariant forall id :: Throughout(id, states, readCount, sel) && Before(id, cursor) ==> id in Ids(all)
      decreases if cursor.Some? then TWO63 - cursor.value else 2 * TWO63 + 1
    {
      match states(page) {
        case None => return Err(NotFound), page + 1;
        case Some(t) =>
          var rows := Page(t, sel, cursor, batchSize);
          PageExtends(states, page, sel, all, cursor, batchSize);
          all := all + rows;
          page := page + 1;
          readCount := page;
          if |rows| < batchSize { return Ok(all), readCount; }
          cursor := Some(rows[|rows| - 1].0);
      }
    }
  }

  predicate Before(id: int64, cursor: Option<int64>) { cursor.Some? && id <= cursor.value }

  lemma FoundAll(t: Table, sel: Filter, rows: seq<Hit>, states: History)
    requires states(0) == Some(t) && multiset(rows) == multiset(Scan(t, sel))
    ensures Seen(rows, states, 1, sel)
    ensures forall id :: Throughout(id, states, 1, sel) ==> id in Ids(rows)
  {
    hide Scan;
    ScanHolds(t, sel);
    forall i | 0 <= i < |rows| ensures SeenBy(rows[i], states, 1, sel) {
      assert rows[i] in multiset(rows);
      assert rows[i] in multiset(Scan(t, sel));
      assert SeenAt(rows[i], states, 0, sel);
    }
    forall id | Throughout(id, states, 1, sel) ensures id in Ids(rows) {
      var hit: Hit := (id, t[id]);
      assert hit in Scan(t, sel);
      assert hit in multiset(rows);
      var i :| 0 <= i < |rows| && rows[i] == hit;
      assert Ids(rows)[i] == id;
    }
  }

  // One more page keeps order and origin, and covers what lies up to its end, or
  // everything when it is not full.
  lemma PageExtends(states: History, k: nat, sel: Filter, all: seq<Hit>, cursor: Option<int64>, limit: nat)
    requires limit > 0 && states(k).Some? && Increasing(Ids(all)) && Seen(all, states, k, sel)
    requires if cursor.Some? then all != [] && all[|all| - 1].0 == cursor.value else all == []
    requires forall id :: Throughout(id, states, k, sel) && Before(id, cursor) ==> id in Ids(all)
    ensures var rows := Page(states(k).value, sel, cursor, limit);
            && |rows| <= limit
            && Increasing(Ids(all + rows)) && Seen(all + rows, states, k + 1, sel)
            && (rows != [] && cursor.Some? ==> cursor.value < rows[|rows| - 1].0)
            && forall id :: Throughout(id, states, k + 1, sel) ==>
                 id in Ids(all + rows) || (|rows| == limit && rows[limit - 1].0 < id)
  {
    hide Page;
    var t := states(k).value;
    var rows := Page(t, sel, cursor, limit);
    PageRows(t, sel, cursor, limit);
    IdsAppend(all, rows);
    SeenAppend(states, k, sel, all, rows);
    forall i, j | 0 <= i < j < |all + rows| ensures Ids(all + rows)[i] < Ids(all + rows)[j] {
      if i < |all| && |all| <= j {
        assert Ids(all)[i] <= Ids(all)[|all| - 1];
        assert cursor.value < rows[j - |all|].0;
      }
    }
    forall id | Throughout(id, states, k + 1, sel)
      ensures id in Ids(all + rows) || (|rows| == limit && rows[limit - 1].0 < id)
    {
      if Before(id, cursor) {
        assert Throughout(id, states, k, sel);
      } else {
        PageCovers(t, sel, cursor, limit, id);
      }
    }
  }

  lemma SeenAppend(states: History, k: nat, sel: Filter, all: seq<Hit>, rows: seq<Hit>)
    requires Seen(all, states, k, sel) && forall i :: 0 <= i < |rows| ==> SeenAt(rows[i], states, k, sel)
    ensures Seen(all + rows, states, k + 1, sel)
  {
    hide SeenAt;
    forall i | 0 <= i < |all + rows| ensures SeenBy((all + rows)[i], states, k + 1, sel) {
      if i < |all| {
        assert SeenBy(all[i], states, k, sel);
        var j :| 0 <= j < k && SeenAt(all[i], states, j, sel);
        assert SeenAt((all + rows)[i], states, j, sel);
      } else {
        assert SeenAt((all + rows)[i], states, k, sel);
      }
    }
  }

  lemma IdsAppend(a: seq<Hit>, b: seq<Hit>)
    ensures Ids(a + b) == Ids(a) + Ids(b)
  {
  }

  // ---- a table that does not change ----

  lemma EmptyElements(a: seq<int64>)
    ensures Elements(a) == {} <==> a == []
  {
    if a != [] { assert a[0] in Elements(a); }
  }

  lemma {:induction false} IncreasingUnique(a: seq<int64>, b: seq<int64>)
    requires Increasing(a) && Increasing(b) && Elements(a) == Elements(b)
    ensures a == b
  {
    EmptyElements(a);
    EmptyElements(b);
    if a != [] {
      assert a[0] in Elements(b) && b[0] in Elements(a);
      assert a[0] == b[0];
      forall x | x in Elements(a[1..]) ensures x in Elements(b[1..]) { assert x in Elements(b) && x != b[0]; }
      forall x | x in Elements(b[1..]) ensures x in Elements(a[1..]) { assert x in Elements(a) && x != a[0]; }
      IncreasingUnique(a[1..], b[1..]);
    }
  }

  // On a table that stays the same, a paged scan returns what a one-shot scan does: the
  // matching rows in id order.
  lemma StaticScanIsExact(t: Table, sel: Filter, states: History, readCount: nat, rows: seq<Hit>)
    requires readCount > 0 && forall k :: 0 <= k < readCount ==> states(k) == Some(t)
    requires Increasing(Ids(rows)) && Seen(rows, states, readCount, sel)
    requires forall id :: Throughout(id, states, readCount, sel) ==> id in Ids(rows)
    ensures rows == Scan(t, sel)
  {
    hide Increasing, Seen;
    var scan := Scan(t, sel);
    var ids := Ascending(Matching(t, sel, None));
    assert Ids(scan) == ids;
    forall x | x in Elements(Ids(rows)) ensures x in Elements(ids) {
      var i :| 0 <= i < |rows| && Ids(rows)[i] == x;
      SeenMatches(t, sel, states, readCount, rows, i);
    }
    forall x | x in Elements(ids) ensures x in Elements(Ids(rows)) {
      assert x in Matching(t, sel, None);
      assert Throughout(x, states, readCount, sel);
    }
    IncreasingUnique(Ids(rows), ids);
    forall i | 0 <= i < |rows| ensures rows[i] == scan[i] {
      SeenMatches(t, sel, states, readCount, rows, i);
      assert Ids(rows)[i] == ids[i];
    }
  }

  lemma SeenMatches(t: Table, sel: Filter, states: History, readCount: nat, rows: seq<Hit>, i: nat)
    requires i < |rows| && Seen(rows, states, readCount, sel)
    requires forall k :: 0 <= k < readCount ==> states(k) == Some(t)
    ensures rows[i].0 in Matching(t, sel, None) && rows[i].0 in t && rows[i].1 == t[rows[i].0]
  {
    assert SeenBy(rows[i], states, readCount, sel);
    var k :| 0 <= k < readCount && SeenAt(rows[i], states, k, sel);
  }

  method FetchAllFromStaticShard(t: Table, answers: nat -> bool, sel: Filter, batchSize: int)
      returns (r: Result<seq<Hit>>)
    ensures (forall k :: answers(k)) ==> r.Ok?
    ensures r.Ok? ==> multiset(r.value) == multiset(Scan(t, sel))
    ensures r.Ok? && batchSize > 0 ==> r.value == Scan(t, sel)
  {
    var states := (k: nat) => if answers(k) then Some(t) else None;
    ghost var readCount: nat;
    r, readCount := FetchAllFromShard(states, sel, batchSize);
    if r.Ok? && batchSize > 0 {
      StaticScanIsExact(t, sel, states, readCount, r.value);
    }
  }
}
