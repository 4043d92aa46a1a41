// Model of the data in db/internal/dbsp/expr/expand.go: declarations, computations, and
// what it means to order computations by their dependencies.
module Expansion {
  import opened Values
  import opened Syntax
  import opened Builtins
  import opened Sequences
  import opened Evaluation

  datatype Decl =
    | EnumDecl(name: string, values: seq<string>)
    | RangeDecl(name: string, start: int64, end: int64)

  datatype Compute = Compute(name: string, expr: Expr)

  datatype ExpandSet = ExpandSet(decls: seq<Decl>, computes: seq<Compute>)

  // ---- dependencies ----

  // Of several computations with one name, the last is the one others depend on.
  predicate Owner(cs: seq<Compute>, j: nat)
    requires j < |cs|
  {
    forall k :: j < k < |cs| ==> cs[k].name != cs[j].name
  }

  // Computation i reads the variable that computation j defines.
  predicate DependsOn(cs: seq<Compute>, i: nat, j: nat)
  {
    i < |cs| && j < |cs| && i != j && Owner(cs, j) && cs[j].name in VarRefs(cs[i].expr)
  }

  // order lists every computation once, each after all it depends on.
  ghost predicate TopologicalOrder(cs: seq<Compute>, order: seq<nat>)
  {
    && |order| == |cs|
    && NoRepeats(order)
    && (forall k :: 0 <= k < |order| ==> order[k] < |cs|)
    && (forall a, b :: 0 <= a < |order| && 0 <= b < |order| && DependsOn(cs, order[b], order[a]) ==> a < b)
  }

  function Select(cs: seq<Compute>, order: seq<nat>): (r: seq<Compute>)
    requires forall k :: 0 <= k < |order| ==> order[k] < |cs|
    ensures |r| == |order| && forall k :: 0 <= k < |r| ==> r[k] == cs[order[k]]
  {
    seq(|order|, k requires 0 <= k < |order| => cs[order[k]])
  }

  ghost predicate SortedVersion(cs: seq<Compute>, sorted: seq<Compute>)
  {
    exists order: seq<nat> :: TopologicalOrder(cs, order) && sorted == Select(cs, order)
  }

  // A closed chain of dependencies.
  ghost predicate Cycle(cs: seq<Compute>, c: seq<nat>)
  {
    && c != []
    && (forall k :: 0 <= k < |c| - 1 ==> DependsOn(cs, c[k + 1], c[k]))
    && DependsOn(cs, c[0], c[|c| - 1])
  }

  lemma CycleElements(cs: seq<Compute>, c: seq<nat>)
    requires Cycle(cs, c)
    ensures forall k :: 0 <= k < |c| ==> c[k] < |cs|
  {
    forall k | 0 <= k < |c| ensures c[k] < |cs| {
      if k < |c| - 1 { assert DependsOn(cs, c[k + 1], c[k]); }
    }
  }

  // An order leaves no room for a cycle: along a chain of dependencies positions rise.
  lemma OrderExcludesCycle(cs: seq<Compute>, order: seq<nat>, c: seq<nat>)
    requires TopologicalOrder(cs, order)
    ensures !Cycle(cs, c)
  {
    if Cycle(cs, c) {
      CycleElements(cs, c);
      OrderHoldsEverything(cs, order, c[0]);
      var a :| 0 <= a < |order| && order[a] == c[0];
      var b := PositionsRise(cs, order, c, a, |c| - 1);
      assert false;
    }
  }

  lemma {:induction false} PositionsRise(cs: seq<Compute>, order: seq<nat>, c: seq<nat>, a: nat, k: nat)
      returns (b: nat)
    requires TopologicalOrder(cs, order) && Cycle(cs, c) && k < |c|
    requires a < |order| && order[a] == c[0]
    ensures a <= b < |order| && order[b] == c[k]
    decreases k
  {
    if k == 0 { return a; }
    CycleElements(cs, c);
    var p := PositionsRise(cs, order, c, a, k - 1);
    OrderHoldsEverything(cs, order, c[k]);
    b :| 0 <= b < |order| && order[b] == c[k];
    assert DependsOn(cs, order[b], order[p]) by { assert DependsOn(cs, c[k - 1 + 1], c[k - 1]); }
  }

  // n distinct numbers below n are all the numbers below n.
  lemma OrderHoldsEverything(cs: seq<Compute>, order: seq<nat>, i: nat)
    requires |order| == |cs| && NoRepeats(order) && i < |cs|
    requires forall k :: 0 <= k < |order| ==> order[k] < |cs|
    ensures exists k :: 0 <= k < |order| && order[k] == i
  {
    if i !in order {
      CountDistinct(order);
      assert Elements(order) <= Below(|cs|) - {i};
      SubsetSmaller(Elements(order), Below(|cs|) - {i});
      assert false;
    }
  }

  function Below(n: nat): (s: set<nat>)
    ensures |s| == n && forall x: nat :: x in s <==> x < n
  {
    if n == 0 then {} else Below(n - 1) + {n - 1}
  }

  lemma {:induction false} CountDistinct(s: seq<nat>)
    requires NoRepeats(s)
    ensures |Elements(s)| == |s|
  {
    if s != [] {
      var front, last := s[..|s| - 1], s[|s| - 1];
      CountDistinct(front);
      assert s == front + [last];
      assert Elements(s) == Elements(front) + {last};
    }
  }

  lemma {:induction false} SubsetSmaller(a: set<nat>, b: set<nat>)
    requires a <= b
    ensures |a| <= |b|
    decreases a
  {
    if a != {} {
      var x :| x in a;
      SubsetSmaller(a - {x}, b - {x});
    }
  }

  ghost predicate Waits(cs: seq<Compute>, waiting: set<nat>, i: nat)
  {
    exists j :: j in waiting && DependsOn(cs, i, j)
  }

  // A non-empty set of computations each of which waits for another of the set
  // contains a cycle: follow the dependencies back until one repeats.
  lemma WaitingSetHasCycle(cs: seq<Compute>, waiting: set<nat>) returns (c: seq<nat>)
    requires waiting != {}
    requires forall i {:trigger Waits(cs, waiting, i)} :: i in waiting ==> Waits(cs, waiting, i)
    ensures Cycle(cs, c)
  {
    var first :| first in waiting;
    c := ChainCloses(cs, waiting, [first]);
  }

  predicate Chain(cs: seq<Compute>, c: seq<nat>)
  {
    c != [] && forall k :: 0 <= k < |c| - 1 ==> DependsOn(cs, c[k + 1], c[k])
  }

  lemma {:induction false} ChainCloses(cs: seq<Compute>, waiting: set<nat>, chain: seq<nat>) returns (c: seq<nat>)
    requires forall i {:trigger Waits(cs, waiting, i)} :: i in waiting ==> Waits(cs, waiting, i)
    requires Chain(cs, chain) && Elements(chain) <= waiting
    ensures Cycle(cs, c)
    decreases waiting - Elements(chain)
  {
    assert chain[0] in Elements(chain);
    assert Waits(cs, waiting, chain[0]);
    var j :| j in waiting && DependsOn(cs, chain[0], j);
    if j in chain {
      var k :| 0 <= k < |chain| && chain[k] == j;
      c := chain[..k + 1];
    } else {
      assert Elements([j] + chain) == Elements(chain) + {j};
      c := ChainCloses(cs, waiting, [j] + chain);
    }
  }

  // ---- parsed sets ----

  predicate UniqueNames(cs: seq<Compute>)
  {
    forall i, j :: 0 <= i < j < |cs| ==> cs[i].name != cs[j].name
  }

  // Each computation comes after every other one it reads: what sorting achieves when
  // names are unique.
  predicate InOrder(cs: seq<Compute>)
  {
    forall i, j :: 0 <= i < |cs| && 0 <= j < |cs| && DependsOn(cs, i, j) ==> j < i
  }

  lemma SortedIsInOrder(cs: seq<Compute>, sorted: seq<Compute>)
    requires UniqueNames(cs) && SortedVersion(cs, sorted)
    ensures UniqueNames(sorted) && InOrder(sorted)
    ensures |sorted| == |cs| && forall c :: c in sorted <==> c in cs
  {
    var order: seq<nat> :| TopologicalOrder(cs, order) && sorted == Select(cs, order);
    forall i, j | 0 <= i < j < |sorted| ensures sorted[i].name != sorted[j].name {
      assert order[i] != order[j];
    }
    forall i, j | 0 <= i < |sorted| && 0 <= j < |sorted| && DependsOn(sorted, i, j) ensures j < i {
      assert DependsOn(cs, order[i], order[j]);
    }
    forall c | c in cs ensures c in sorted {
      var i :| 0 <= i < |cs| && cs[i] == c;
      OrderHoldsEverything(cs, order, i);
      var k :| 0 <= k < |order| && order[k] == i;
      assert sorted[k] == c;
    }
  }
}
