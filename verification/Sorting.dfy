// Model of topoSortComputes in db/internal/dbsp/expr/expand.go: Kahn's algorithm over
// mutable in-degree counts and adjacency lists.
module Sorting {
  import opened Outcomes
  import opened Values
  import opened Syntax
  import opened Sequences
  import opened Evaluation
  import opened Expansion

  // How many arrows into t start at a computation that is not done yet. One name read
  // several times counts several times.
  ghost function Arrivals(adj: seq<seq<nat>>, done: set<nat>, t: nat): nat
  {
    if adj == [] then 0
    else
      var n := |adj| - 1;
      Arrivals(adj[..n], done, t) + if n in done then 0 else multiset(adj[n])[t]
  }

  lemma {:induction false} ArrivalsAdd(adj: seq<seq<nat>>, done: set<nat>, j: nat, i: nat, t: nat)
    requires j < |adj| && j !in done
    ensures Arrivals(adj[j := adj[j] + [i]], done, t) == Arrivals(adj, done, t) + if t == i then 1 else 0
  {
    var n := |adj| - 1;
    var more := adj[j := adj[j] + [i]];
    if j == n {
      assert more[..n] == adj[..n];
    } else {
      ArrivalsAdd(adj[..n], done, j, i, t);
      assert more[..n] == adj[..n][j := adj[..n][j] + [i]];
    }
  }

  lemma {:induction false} ArrivalsDone(adj: seq<seq<nat>>, done: set<nat>, j: nat, t: nat)
    requires j !in done
    ensures Arrivals(adj, done, t) == Arrivals(adj, done + {j}, t) + if j < |adj| then multiset(adj[j])[t] else 0
  {
    if adj != [] {
      ArrivalsDone(adj[..|adj| - 1], done, j, t);
    }
  }

  lemma {:induction false} ArrivalsZero(adj: seq<seq<nat>>, done: set<nat>, t: nat)
    ensures Arrivals(adj, done, t) == 0 <==> forall j :: 0 <= j < |adj| && j !in done ==> t !in adj[j]
  {
    if adj != [] {
      var n := |adj| - 1;
      ArrivalsZero(adj[..n], done, t);
      assert forall j :: 0 <= j < n ==> adj[..n][j] == adj[j];
    }
  }

  lemma {:induction false} ArrivalsEmpty(adj: seq<seq<nat>>, t: nat)
    requires forall j :: 0 <= j < |adj| ==> adj[j] == []
    ensures Arrivals(adj, {}, t) == 0
  {
    ArrivalsZero(adj, {}, t);
  }

  // Arrow from j to t for one of the first i computations, or for one of the first d
  // references of the i-th.
  ghost predicate ArrowSoFar(cs: seq<Compute>, i: nat, d: nat, j: nat, t: nat)
  {
    t < |cs| && j < |cs| && t != j && Owner(cs, j) &&
    ((t < i && cs[j].name in VarRefs(cs[t].expr)) ||
     (t == i && d <= |VarRefs(cs[t].expr)| && cs[j].name in VarRefs(cs[t].expr)[..d]))
  }

  ghost predicate Graph(cs: seq<Compute>, adj: seq<seq<nat>>)
  {
    |adj| == |cs| &&
    forall j, t :: 0 <= j < |adj| ==> (t in adj[j] <==> DependsOn(cs, t, j))
  }

  method IndexNames(cs: seq<Compute>) returns (index: map<string, nat>)
    ensures forall name :: name in index ==>
            index[name] < |cs| && cs[index[name]].name == name && Owner(cs, index[name])
    ensures forall j :: 0 <= j < |cs| ==> cs[j].name in index
  {
    index := map[];
    for i := 0 to |cs|
      invariant forall name :: name in index ==> index[name] < i && cs[index[name]].name == name
      invariant forall name :: name in index ==> forall k :: index[name] < k < i ==> cs[k].name != name
      invariant forall j :: 0 <= j < i ==> cs[j].name in index
    {
      index := index[cs[i].name := i];
    }
  }

  // The in-degree of t counts the arrows that are not removed: those of computations
  // not done, and those among targets.
  ghost predicate Counted(adj: seq<seq<nat>>, inDegree: seq<int>, done: set<nat>, targets: seq<nat>)
  {
    |inDegree| == |adj| &&
    forall t :: 0 <= t < |adj| ==> inDegree[t] == Arrivals(adj, done, t) + multiset(targets)[t]
  }

  ghost predicate ArrowsSoFar(cs: seq<Compute>, adj: seq<seq<nat>>, i: nat, d: nat)
  {
    |adj| == |cs| &&
    forall j, t :: 0 <= j < |adj| ==> (t in adj[j] <==> ArrowSoFar(cs, i, d, j, t))
  }

  method AddArrow(inDegree: array<int>, adj: array<seq<nat>>, i: nat, j: nat)
    requires Counted(adj[..], inDegree[..], {}, []) && i < adj.Length && j < adj.Length
    modifies inDegree, adj
    ensures Counted(adj[..], inDegree[..], {}, []) && adj[..] == old(adj[..])[j := old(adj[j]) + [i]]
  {
    forall t | 0 <= t < adj.Length {
      ArrivalsAdd(adj[..], {}, j, i, t);
    }
    ghost var before := adj[..];
    adj[j] := adj[j] + [i];
    inDegree[i] := inDegree[i] + 1;
    assert adj[..] == before[j := before[j] + [i]];
  }

  method BuildGraph(cs: seq<Compute>) returns (inDegree: array<int>, adj: array<seq<nat>>)
    ensures inDegree.Length == adj.Length == |cs|
    ensures fresh(inDegree) && fresh(adj)
    ensures Graph(cs, adj[..]) && Counted(adj[..], inDegree[..], {}, [])
  {
    hide ArrowSoFar, ArrowsSoFar, Graph;
    var index := IndexNames(cs);
    inDegree := new int[|cs|](_ => 0);
    adj := new seq<nat>[|cs|](_ => []);
    forall t | 0 <= t < |cs| ensures inDegree[..][t] == Arrivals(adj[..], {}, t) + multiset([])[t] {
      ArrivalsEmpty(adj[..], t);
    }
    NoArrows(cs, adj[..]);
    for i := 0 to |cs|
      invariant ArrowsSoFar(cs, adj[..], i, 0) && Counted(adj[..], inDegree[..], {}, [])
    {
      var deps := VarRefs(cs[i].expr);
      for d := 0 to |deps|
        invariant ArrowsSoFar(cs, adj[..], i, d) && Counted(adj[..], inDegree[..], {}, [])
      {
        if deps[d] in index && index[deps[d]] != i {
          ArrowAdded(cs, adj[..], i, d, index[deps[d]]);
          AddArrow(inDegree, adj, i, index[deps[d]]);
        } else {
          ArrowSkipped(cs, adj[..], i, d);
        }
      }
      ArrowsOfNext(cs, adj[..], i);
    }
    ArrowsOfAll(cs, adj[..]);
  }

  lemma NoArrows(cs: seq<Compute>, adj: seq<seq<nat>>)
    requires |adj| == |cs| && forall j :: 0 <= j < |adj| ==> adj[j] == []
    ensures ArrowsSoFar(cs, adj, 0, 0)
  {
  }

  lemma ArrowAdded(cs: seq<Compute>, adj: seq<seq<nat>>, i: nat, d: nat, j: nat)
    requires i < |cs| && d < |VarRefs(cs[i].expr)| && ArrowsSoFar(cs, adj, i, d)
    requires j < |cs| && j != i && Owner(cs, j) && cs[j].name == VarRefs(cs[i].expr)[d]
    ensures ArrowsSoFar(cs, adj[j := adj[j] + [i]], i, d + 1)
  {
    PrefixSnoc(VarRefs(cs[i].expr), d);
  }

  lemma ArrowSkipped(cs: seq<Compute>, adj: seq<seq<nat>>, i: nat, d: nat)
    requires i < |cs| && d < |VarRefs(cs[i].expr)| && ArrowsSoFar(cs, adj, i, d)
    requires forall j :: 0 <= j < |cs| && Owner(cs, j) && cs[j].name == VarRefs(cs[i].expr)[d] ==> j == i
    ensures ArrowsSoFar(cs, adj, i, d + 1)
  {
    PrefixSnoc(VarRefs(cs[i].expr), d);
  }

  lemma ArrowsOfNext(cs: seq<Compute>, adj: seq<seq<nat>>, i: nat)
    requires i < |cs| && ArrowsSoFar(cs, adj, i, |VarRefs(cs[i].expr)|)
    ensures ArrowsSoFar(cs, adj, i + 1, 0)
  {
    var deps := VarRefs(cs[i].expr);
    assert deps[..|deps|] == deps;
    forall j, t | 0 <= j < |cs|
      ensures ArrowSoFar(cs, i, |deps|, j, t) <==> ArrowSoFar(cs, i + 1, 0, j, t)
    {
    }
  }

  lemma ArrowsOfAll(cs: seq<Compute>, adj: seq<seq<nat>>)
    requires ArrowsSoFar(cs, adj, |cs|, 0)
    ensures Graph(cs, adj)
  {
    forall j, t | 0 <= j < |cs| ensures ArrowSoFar(cs, |cs|, 0, j, t) <==> DependsOn(cs, t, j) {
    }
  }

  // The state between rounds: what is queued or emitted is what has no arrows left.
  ghost predicate Frontier(n: nat, adj: seq<seq<nat>>, inDegree: seq<int>, order: seq<nat>, queue: seq<nat>)
  {
    && |adj| == |inDegree| == n
    && NoRepeats(order + queue)
    && (forall t :: t in order + queue ==> t < n)
    && (forall t :: 0 <= t < n ==> (inDegree[t] == 0 <==> t in order + queue))
  }

  // Every arrow into an emitted computation starts at an earlier emitted one.
  ghost predicate Respected(cs: seq<Compute>, order: seq<nat>)
  {
    forall b, j: nat :: 0 <= b < |order| && DependsOn(cs, order[b], j) ==> j in order[..b]
  }

  // Removes the arrows out of one computation and queues those it frees.
  lemma ArrowRemoved(adj: seq<seq<nat>>, inDegree: seq<int>, order: seq<nat>, queue: seq<nat>, done: set<nat>,
                     next: nat, rest: seq<nat>)
    requires next < |inDegree| && Frontier(|inDegree|, adj, inDegree, order, queue)
    requires Counted(adj, inDegree, done, [next] + rest)
    ensures var after := inDegree[next := inDegree[next] - 1];
            && Counted(adj, after, done, rest)
            && Frontier(|inDegree|, adj, after, order, if after[next] == 0 then queue + [next] else queue)
  {
    assert inDegree[next] != 0 && next !in order + queue;
    assert order + (queue + [next]) == (order + queue) + [next];
  }

  method Release(inDegree: array<int>, targets: seq<nat>, ghost adj: seq<seq<nat>>,
                 ghost order: seq<nat>, queue0: seq<nat>, ghost done: set<nat>)
      returns (queue: seq<nat>)
    requires forall k :: 0 <= k < |targets| ==> targets[k] < inDegree.Length
    requires Frontier(inDegree.Length, adj, inDegree[..], order, queue0)
    requires Counted(adj, inDegree[..], done, targets)
    modifies inDegree
    ensures Frontier(inDegree.Length, adj, inDegree[..], order, queue)
    ensures Counted(adj, inDegree[..], done, [])
  {
    hide Counted, Frontier;
    queue := queue0;
    assert targets[0..] == targets;
    for k := 0 to |targets|
      invariant Frontier(inDegree.Length, adj, inDegree[..], order, queue)
      invariant Counted(adj, inDegree[..], done, targets[k..])
    {
      var next := targets[k];
      assert targets[k..] == [next] + targets[k + 1..];
      ArrowRemoved(adj, inDegree[..], order, queue, done, next, targets[k + 1..]);
      inDegree[next] := inDegree[next] - 1;
      if inDegree[next] == 0 { queue := queue + [next]; }
    }
    assert targets[|targets|..] == [];
  }

  // The invariant of the queue loop.
  ghost predicate Round(cs: seq<Compute>, adj: seq<seq<nat>>, inDegree: seq<int>, order: seq<nat>, queue: seq<nat>)
  {
    && Graph(cs, adj)
    && Frontier(|cs|, adj, inDegree, order, queue)
    && Counted(adj, inDegree, Elements(order), [])
    && Respected(cs, order)
    && (forall k :: 0 <= k < |order| ==> order[k] < |cs|)
  }

  method FreeComputes(inDegree: array<int>) returns (queue: seq<nat>)
    ensures NoRepeats(queue)
    ensures forall t :: t in queue <==> 0 <= t < |inDegree[..]| && inDegree[..][t] == 0
  {
    queue := [];
    for i := 0 to inDegree.Length
      invariant NoRepeats(queue) && forall t :: t in queue <==> 0 <= t < i && inDegree[t] == 0
    {
      if inDegree[i] == 0 { queue := queue + [i]; }
    }
  }

  method DrainQueue(cs: seq<Compute>, inDegree: array<int>, adj: array<seq<nat>>, queue0: seq<nat>)
      returns (sorted: seq<Compute>, ghost order: seq<nat>)
    requires adj.Length == inDegree.Length == |cs|
    requires Round(cs, adj[..], inDegree[..], [], queue0)
    modifies inDegree
    ensures Round(cs, adj[..], inDegree[..], order, []) && sorted == Select(cs, order)
  {
    hide Frontier, Counted, Graph, Respected;
    var queue := queue0;
    sorted, order := [], [];
    while |queue| > 0
      invariant Round(cs, adj[..], inDegree[..], order, queue)
      invariant sorted == Select(cs, order)
      decreases Below(|cs|) - Elements(order)
    {
      var idx: nat := queue[0];
      PopIsReady(cs, adj[..], inDegree[..], order, queue, idx);
      assert idx in Below(|cs|) && idx !in Elements(order);
      sorted := sorted + [cs[idx]];
      order := order + [idx];
      queue := Release(inDegree, adj[idx], adj[..], order, queue[1..], Elements(order));
    }
    assert queue == [];
  }

  method TopoSort(cs: seq<Compute>) returns (r: Result<seq<Compute>>)
    ensures r.Ok? ==> SortedVersion(cs, r.value)
    ensures r.Err? ==> r.error == CircularDependency
    ensures r.Err? <==> exists c: seq<nat> :: Cycle(cs, c)
  {
    hide Round, TopologicalOrder, Cycle;
    if |cs| <= 1 {
      ghost var order := FewAreSorted(cs);
      NoCycleIn(cs, order);
      return Ok(cs);
    }
    var inDegree, adj := BuildGraph(cs);
    var queue := FreeComputes(inDegree);
    FirstRound(cs, adj[..], inDegree[..], queue);
    var sorted, order := DrainQueue(cs, inDegree, adj, queue);
    if |sorted| != |cs| {
      var c := RemainderHasCycle(cs, adj[..], inDegree[..], order);
      return Err(CircularDependency);
    }
    LastRound(cs, adj[..], inDegree[..], order);
    NoCycleIn(cs, order);
    return Ok(sorted);
  }

  lemma FewAreSorted(cs: seq<Compute>) returns (order: seq<nat>)
    requires |cs| <= 1
    ensures TopologicalOrder(cs, order) && cs == Select(cs, order)
  {
    order := if cs == [] then [] else [0];
  }

  lemma FirstRound(cs: seq<Compute>, adj: seq<seq<nat>>, inDegree: seq<int>, queue: seq<nat>)
    requires Graph(cs, adj) && Counted(adj, inDegree, {}, []) && NoRepeats(queue)
    requires forall t :: t in queue <==> 0 <= t < |inDegree| && inDegree[t] == 0
    ensures Round(cs, adj, inDegree, [], queue)
  {
    assert [] + queue == queue;
    var none: seq<nat> := [];
    assert Elements(none) == {};
  }

  lemma LastRound(cs: seq<Compute>, adj: seq<seq<nat>>, inDegree: seq<int>, order: seq<nat>)
    requires Round(cs, adj, inDegree, order, []) && |order| == |cs|
    ensures TopologicalOrder(cs, order)
  {
    assert order + [] == order;
    RespectedIsTopological(cs, order);
  }

  lemma NoCycleIn(cs: seq<Compute>, order: seq<nat>)
    requires TopologicalOrder(cs, order)
    ensures !exists c: seq<nat> :: Cycle(cs, c)
  {
    forall c: seq<nat> | Cycle(cs, c) ensures false {
      OrderExcludesCycle(cs, order, c);
    }
  }

  // The computation at the head of the queue is new and waits for nothing unemitted;
  // emitting it leaves exactly its own arrows to remove.
  lemma PopIsReady(cs: seq<Compute>, adj: seq<seq<nat>>, inDegree: seq<int>, order: seq<nat>, queue: seq<nat>, idx: nat)
    requires queue != [] && idx == queue[0] && Round(cs, adj, inDegree, order, queue)
    ensures && idx < |cs| && idx !in order
            && Elements(order + [idx]) == Elements(order) + {idx}
            && Respected(cs, order + [idx])
            && Frontier(|cs|, adj, inDegree, order + [idx], queue[1..])
            && (forall k :: 0 <= k < |adj[idx]| ==> adj[idx][k] < |cs|)
            && Counted(adj, inDegree, Elements(order + [idx]), adj[idx])
  {
    var both := order + queue;
    assert both == (order + [idx]) + queue[1..];
    assert both[|order|] == idx && idx in both;
    forall k | 0 <= k < |order| ensures order[k] != idx {
      assert both[k] != both[|order|];
    }
    HeadRespects(cs, adj, inDegree, order, idx);
    assert Elements(order + [idx]) == Elements(order) + {idx};
    EmitCounts(adj, inDegree, Elements(order), idx);
    forall k | 0 <= k < |adj[idx]| ensures adj[idx][k] < |cs| {
      assert DependsOn(cs, adj[idx][k], idx);
    }
  }

  lemma EmitCounts(adj: seq<seq<nat>>, inDegree: seq<int>, done: set<nat>, idx: nat)
    requires Counted(adj, inDegree, done, []) && idx < |adj| && idx !in done
    ensures Counted(adj, inDegree, done + {idx}, adj[idx])
  {
    forall t | 0 <= t < |adj|
      ensures inDegree[t] == Arrivals(adj, done + {idx}, t) + multiset(adj[idx])[t]
    {
      ArrivalsDone(adj, done, idx, t);
    }
  }

  lemma HeadRespects(cs: seq<Compute>, adj: seq<seq<nat>>, inDegree: seq<int>, order: seq<nat>, idx: nat)
    requires Graph(cs, adj) && Respected(cs, order)
    requires idx < |cs| == |inDegree| && inDegree[idx] == 0 == Arrivals(adj, Elements(order), idx)
    ensures Respected(cs, order + [idx])
  {
    ArrivalsZero(adj, Elements(order), idx);
    forall b, j: nat | 0 <= b < |order| + 1 && DependsOn(cs, (order + [idx])[b], j)
      ensures j in (order + [idx])[..b]
    {
      if b < |order| {
        assert order[..b] == (order + [idx])[..b];
        assert DependsOn(cs, order[b], j);
      } else {
        assert (order + [idx])[..b] == order;
        assert idx in adj[j];
        assert j in Elements(order);
      }
    }
  }

  lemma RespectedIsTopological(cs: seq<Compute>, order: seq<nat>)
    requires |order| == |cs| && NoRepeats(order) && Respected(cs, order)
    requires forall k :: 0 <= k < |order| ==> order[k] < |cs|
    ensures TopologicalOrder(cs, order)
  {
    forall a, b | 0 <= a < |order| && 0 <= b < |order| && DependsOn(cs, order[b], order[a]) ensures a < b {
      assert order[a] in order[..b];
      var k :| 0 <= k < b && order[k] == order[a];
    }
  }

  // When the queue runs dry early, every computation left waits for another one left.
  lemma RemainderHasCycle(cs: seq<Compute>, adj: seq<seq<nat>>, inDegree: seq<int>, order: seq<nat>)
      returns (c: seq<nat>)
    requires Round(cs, adj, inDegree, order, []) && |order| != |cs|
    ensures Cycle(cs, c)
  {
    assert order + [] == order;
    var waiting := Below(|cs|) - Elements(order);
    CountDistinct(order);
    if waiting == {} {
      assert false;
    }
    forall i | i in waiting ensures Waits(cs, waiting, i) {
      ArrivalsZero(adj, Elements(order), i);
      var j :| 0 <= j < |adj| && j !in Elements(order) && i in adj[j];
      assert DependsOn(cs, i, j) && j in waiting;
    }
    c := WaitingSetHasCycle(cs, waiting);
  }
}
