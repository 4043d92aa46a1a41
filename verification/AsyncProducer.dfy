// Model of AsyncProduce and Close in mq/internal/mqsp/producer.go: any number of calls
// of either, interleaved at every step that touches shared state.
module AsyncProducer {
  import opened Outcomes

  // A call of AsyncProduce holds the read lock from its first step to its last.
  datatype Call = Holding | Admitted | Refused | Leaving | Returned

  // A call of Close. Losers of the race for the closed flag return at once.
  datatype Closer = Won | Owner | Released | Closing | Done | Lost

  // The calls are told apart by numbers. Messages carry the number of their call.
  datatype State = State(
    calls: map<nat, Call>,
    closers: map<nat, Closer>,
    closed: bool,
    readers: set<nat>,
    writer: Option<nat>,
    inflight: set<nat>,
    results: set<nat>,
    swallowed: set<nat>,
    notified: multiset<nat>,
    asyncCloses: nat,
    drained: bool,
    handlersDone: bool,
    syncCloses: nat)

  const START := State(map[], map[], false, {}, None, {}, {}, {}, multiset{}, 0, false, false, 0)

  datatype Step =
    | RLock(call: nat)
    | LoadClosed(call: nat)
    | Refuse(call: nat)
    | Input(call: nat)
    | RUnlock(call: nat)
    | CompareAndSwap(closer: nat)
    | Lock(closer: nat)
    | Unlock(closer: nat)
    | CloseAsync(closer: nat)
    | CloseSync(closer: nat)
    // The producer library settles each message it took once, and its own Close
    // drains the result channels alongside the two handlers.
    | Settle(call: nat)
    | Notify(call: nat)
    | Swallow(call: nat)
    | Drained
    | HandlersReturn

  predicate CallAt(s: State, i: nat, at: Call) { i in s.calls && s.calls[i] == at }

  predicate CloserAt(s: State, j: nat, at: Closer) { j in s.closers && s.closers[j] == at }

  predicate Enabled(s: State, step: Step)
  {
    match step
    case RLock(i) => i !in s.calls && s.writer.None?
    case LoadClosed(i) => CallAt(s, i, Holding)
    case Refuse(i) => CallAt(s, i, Refused)
    case Input(i) => CallAt(s, i, Admitted)
    case RUnlock(i) => CallAt(s, i, Leaving)
    case CompareAndSwap(j) => j !in s.closers
    case Lock(j) => CloserAt(s, j, Won) && s.readers == {} && s.writer.None?
    case Unlock(j) => CloserAt(s, j, Owner)
    case CloseAsync(j) => CloserAt(s, j, Released)
    case CloseSync(j) => CloserAt(s, j, Closing) && s.handlersDone
    case Settle(i) => i in s.inflight
    case Notify(i) => i in s.results && !s.handlersDone
    case Swallow(i) => i in s.results && s.asyncCloses > 0
    case Drained => s.asyncCloses > 0 && s.inflight == {} && !s.drained
    case HandlersReturn => s.drained && s.results == {} && !s.handlersDone
  }

  // A nil callback is not called.
  type Callbacks = nat -> bool

  function Called(wants: Callbacks, i: nat): multiset<nat> { if wants(i) then multiset{i} else multiset{} }

  function Apply(wants: Callbacks, s: State, step: Step): State
    requires Enabled(s, step)
  {
    match step
    case RLock(i) => s.(calls := s.calls[i := Holding], readers := s.readers + {i})
    case LoadClosed(i) => s.(calls := s.calls[i := if s.closed then Refused else Admitted])
    case Refuse(i) => s.(calls := s.calls[i := Leaving], notified := s.notified + Called(wants, i))
    case Input(i) => s.(calls := s.calls[i := Leaving], inflight := s.inflight + {i})
    case RUnlock(i) => s.(calls := s.calls[i := Returned], readers := s.readers - {i})
    case CompareAndSwap(j) =>
      if s.closed then s.(closers := s.closers[j := Lost]) else s.(closers := s.closers[j := Won], closed := true)
    case Lock(j) => s.(closers := s.closers[j := Owner], writer := Some(j))
    case Unlock(j) => s.(closers := s.closers[j := Released], writer := None)
    case CloseAsync(j) => s.(closers := s.closers[j := Closing], asyncCloses := s.asyncCloses + 1)
    case CloseSync(j) => s.(closers := s.closers[j := Done], syncCloses := s.syncCloses + 1)
    case Settle(i) => s.(inflight := s.inflight - {i}, results := s.results + {i})
    case Notify(i) => s.(results := s.results - {i}, notified := s.notified + Called(wants, i))
    case Swallow(i) => s.(results := s.results - {i}, swallowed := s.swallowed + {i})
    case Drained => s.(drained := true)
    case HandlersReturn => s.(handlersDone := true)
  }

  // The state after an interleaving, if every step of it is possible.
  function Execute(wants: Callbacks, steps: seq<Step>): Option<State>
  {
    if steps == [] then Some(START)
    else
      match Execute(wants, steps[..|steps| - 1])
      case None => None
      case Some(s) =>
        var last := steps[|steps| - 1];
        if Enabled(s, last) then Some(Apply(wants, s, last)) else None
  }

  // ---- what every step keeps ----

  // The read lock is held by exactly the calls between their first and last step, and
  // never together with the write lock.
  ghost predicate LockOk(s: State)
  {
    ReadersOk(s) && WriterOk(s)
  }

  predicate ReadersOk(s: State)
  {
    && (forall i :: i in s.readers ==> i in s.calls && s.calls[i] != Returned)
    && (forall i :: i in s.calls && s.calls[i] != Returned ==> i in s.readers)
  }

  ghost predicate WriterOk(s: State)
  {
    && (s.writer.Some? ==> s.readers == {} && CloserAt(s, s.writer.value, Owner))
    && (forall j: nat :: CloserAt(s, j, Owner) ==> s.writer == Some(j))
  }

  // One call of Close wins, and only after the flag is set.
  ghost predicate WinnerOk(s: State)
  {
    && (forall j :: j in s.closers ==> s.closed)
    && (forall j, k :: j in s.closers && k in s.closers && s.closers[j] != Lost && s.closers[k] != Lost ==> j == k)
  }

  predicate Past(c: Closer) { c.Owner? || c.Released? || c.Closing? || c.Done? }

  // Once the winner has had the write lock, nothing is about to be sent.
  ghost predicate BarrierOk(s: State)
  {
    forall j :: j in s.closers && Past(s.closers[j]) ==> forall i :: i in s.calls ==> s.calls[i] != Admitted
  }

  ghost predicate CloseCounted(s: State)
  {
    && s.asyncCloses <= 1 && s.syncCloses <= 1
    && (s.asyncCloses > 0 ==> exists j :: j in s.closers && (s.closers[j].Closing? || s.closers[j].Done?))
    && (s.syncCloses > 0 ==> exists j :: j in s.closers && s.closers[j].Done?)
    && (forall j :: j in s.closers && s.closers[j].Done? ==> s.syncCloses > 0)
    && (forall j :: j in s.closers && (s.closers[j].Closing? || s.closers[j].Done?) ==> s.asyncCloses > 0)
  }

  predicate Early(s: State, i: nat) {
    i !in s.calls || s.calls[i].Holding? || s.calls[i].Admitted? || s.calls[i].Refused?
  }

  predicate Pending(s: State, i: nat) { i in s.inflight || i in s.results || i in s.swallowed }

  // A message is in one place at a time, and a callback is called only when the
  // message is in none.
  ghost predicate AnswersOk(wants: Callbacks, s: State)
  {
    && s.inflight !! s.results && s.inflight !! s.swallowed && s.results !! s.swallowed
    && forall i :: AnswerOk(wants, s, i)
  }

  predicate AnswerOk(wants: Callbacks, s: State, i: nat)
  {
    && (Early(s, i) ==> !Pending(s, i) && s.notified[i] == 0)
    && (Pending(s, i) ==> s.notified[i] == 0)
    && (!Early(s, i) && !Pending(s, i) ==> s.notified[i] == if wants(i) then 1 else 0)
  }

  ghost predicate DrainOk(s: State)
  {
    && (s.drained ==> s.asyncCloses > 0 && s.inflight == {})
    && (s.handlersDone ==> s.drained && s.results == {})
    && (s.syncCloses > 0 ==> s.handlersDone)
    && (s.swallowed != {} ==> s.asyncCloses > 0)
  }

  ghost predicate Inv(wants: Callbacks, s: State)
  {
    LockOk(s) && WinnerOk(s) && BarrierOk(s) && CloseCounted(s) && AnswersOk(wants, s) && DrainOk(s)
  }

  lemma ReadersKept(wants: Callbacks, s: State, step: Step)
    requires ReadersOk(s) && Enabled(s, step)
    ensures ReadersOk(Apply(wants, s, step))
  {
    hide Called;
  }

  lemma WriterKept(wants: Callbacks, s: State, step: Step)
    requires LockOk(s) && Enabled(s, step)
    ensures WriterOk(Apply(wants, s, step))
  {
    hide Called;
  }

  lemma LockKept(wants: Callbacks, s: State, step: Step)
    requires LockOk(s) && Enabled(s, step)
    ensures LockOk(Apply(wants, s, step))
  {
    ReadersKept(wants, s, step);
    WriterKept(wants, s, step);
  }

  lemma WinnerKept(wants: Callbacks, s: State, step: Step)
    requires WinnerOk(s) && Enabled(s, step)
    ensures WinnerOk(Apply(wants, s, step))
  {
    hide Called;
  }

  lemma BarrierKept(wants: Callbacks, s: State, step: Step)
    requires Inv(wants, s) && Enabled(s, step)
    ensures BarrierOk(Apply(wants, s, step))
  {
    hide AnswersOk, DrainOk, CloseCounted, Called;
  }

  // Whoever has called the library's Close is the winner, past the barrier.
  lemma ClosePastBarrier(wants: Callbacks, s: State, i: nat)
    requires Inv(wants, s) && s.asyncCloses > 0
    ensures !CallAt(s, i, Admitted)
  {
  }

  lemma CountsKept(wants: Callbacks, s: State, step: Step)
    requires Inv(wants, s) && Enabled(s, step)
    ensures CloseCounted(Apply(wants, s, step))
  {
    hide AnswersOk, LockOk, BarrierOk, Called;
    var t := Apply(wants, s, step);
    if t.asyncCloses > 0 { CloserKept(wants, s, step); }
  }

  lemma CloserKept(wants: Callbacks, s: State, step: Step)
    requires Enabled(s, step) && CloseCounted(s) && WinnerOk(s) && Apply(wants, s, step).asyncCloses > 0
    ensures var t := Apply(wants, s, step); exists j :: j in t.closers && (t.closers[j].Closing? || t.closers[j].Done?)
    ensures var t := Apply(wants, s, step); t.syncCloses > 0 ==> exists j :: j in t.closers && t.closers[j].Done?
  {
    hide Called;
    var t := Apply(wants, s, step);
    var j: nat;
    if step.CloseAsync? || step.CloseSync? {
      j := step.closer;
    } else {
      j :| j in s.closers && (s.closers[j].Closing? || s.closers[j].Done?);
    }
    assert j in t.closers && (t.closers[j].Closing? || t.closers[j].Done?);
  }

  lemma AnswerKept(wants: Callbacks, s: State, step: Step, i: nat)
    requires s.inflight !! s.results && s.inflight !! s.swallowed && s.results !! s.swallowed
    requires AnswerOk(wants, s, i) && Enabled(s, step)
    ensures AnswerOk(wants, Apply(wants, s, step), i)
  {
    hide Called;
    if step.Notify? || step.Refuse? {
      NotifiedAfter(wants, s.notified, step.call, i);
    }
  }

  lemma NotifiedAfter(wants: Callbacks, notified: multiset<nat>, called: nat, i: nat)
    ensures (notified + Called(wants, called))[i] == notified[i] + if called == i && wants(i) then 1 else 0
  {
  }

  lemma AnswersKept(wants: Callbacks, s: State, step: Step)
    requires Inv(wants, s) && Enabled(s, step)
    ensures AnswersOk(wants, Apply(wants, s, step))
  {
    hide LockOk, WinnerOk, BarrierOk, CloseCounted, DrainOk, AnswerOk, Apply;
    forall i: nat ensures AnswerOk(wants, Apply(wants, s, step), i) {
      assert AnswerOk(wants, s, i);
      AnswerKept(wants, s, step, i);
    }
    PlacesKept(wants, s, step);
  }

  lemma PlacesKept(wants: Callbacks, s: State, step: Step)
    requires AnswersOk(wants, s) && Enabled(s, step)
    ensures var t := Apply(wants, s, step);
            t.inflight !! t.results && t.inflight !! t.swallowed && t.results !! t.swallowed
  {
    hide Called;
    if step.Input? { assert AnswerOk(wants, s, step.call); }
  }

  lemma DrainKept(wants: Callbacks, s: State, step: Step)
    requires Inv(wants, s) && Enabled(s, step)
    ensures DrainOk(Apply(wants, s, step))
  {
    hide LockOk, WinnerOk, AnswersOk, Called;
    if step.Input? && s.asyncCloses > 0 {
      ClosePastBarrier(wants, s, step.call);
    }
  }

  lemma {:induction false} InvHolds(wants: Callbacks, steps: seq<Step>)
    requires Execute(wants, steps).Some?
    ensures Inv(wants, Execute(wants, steps).value)
  {
    hide Inv;
    if steps != [] {
      var front, last := steps[..|steps| - 1], steps[|steps| - 1];
      InvHolds(wants, front);
      InvKept(wants, Execute(wants, front).value, last);
    } else {
      InvAtStart(wants);
    }
  }

  lemma InvAtStart(wants: Callbacks)
    ensures Inv(wants, START)
  {
  }

  lemma InvKept(wants: Callbacks, s: State, step: Step)
    requires Inv(wants, s) && Enabled(s, step)
    ensures Inv(wants, Apply(wants, s, step))
  {
    hide LockOk, WinnerOk, BarrierOk, CloseCounted, AnswersOk, DrainOk, Enabled, Apply;
    LockKept(wants, s, step);
    WinnerKept(wants, s, step);
    BarrierKept(wants, s, step);
    CountsKept(wants, s, step);
    AnswersKept(wants, s, step);
    DrainKept(wants, s, step);
  }

  // ---- the shutdown barrier ----

  // In every interleaving, no message enters the producer's input once its Close has
  // begun.
  lemma NoSendAfterClose(wants: Callbacks, steps: seq<Step>, i: nat)
    requires Execute(wants, steps).Some? && Enabled(Execute(wants, steps).value, Input(i))
    ensures Execute(wants, steps).value.asyncCloses == 0
  {
    InvHolds(wants, steps);
    if Execute(wants, steps).value.asyncCloses > 0 {
      ClosePastBarrier(wants, Execute(wants, steps).value, i);
    }
  }

  // Both producers are closed at most once, the synchronous one second.
  lemma ClosedOnce(wants: Callbacks, steps: seq<Step>)
    requires Execute(wants, steps).Some?
    ensures var s := Execute(wants, steps).value; s.syncCloses <= s.asyncCloses <= 1
  {
    InvHolds(wants, steps);
  }

  // Each call gets at most one callback; a call that is past its decision has been
  // called back exactly once, unless its message is still on the way or was swallowed
  // by the library's Close.
  lemma OneCallback(wants: Callbacks, steps: seq<Step>, i: nat)
    requires Execute(wants, steps).Some?
    ensures var s := Execute(wants, steps).value;
            && s.notified[i] <= 1
            && (!Early(s, i) && wants(i) ==> (s.notified[i] == 1 <==> !Pending(s, i)))
            && (s.asyncCloses == 0 ==> i !in s.swallowed)
  {
    hide Execute, LockOk, WinnerOk, BarrierOk, CloseCounted;
    InvHolds(wants, steps);
    assert AnswerOk(wants, Execute(wants, steps).value, i);
  }

  // When Close has returned, no message is on the way and none will be.
  lemma NothingLeftBehind(wants: Callbacks, steps: seq<Step>, j: nat, i: nat)
    requires Execute(wants, steps).Some? && CloserAt(Execute(wants, steps).value, j, Done)
    ensures var s := Execute(wants, steps).value; s.inflight == {} && s.results == {} && !CallAt(s, i, Admitted)
  {
    hide Execute, LockOk, WinnerOk, AnswersOk;
    InvHolds(wants, steps);
  }

  // A Close that has won never waits forever on the lock or the handlers: some step
  // other than a new call is always possible until it is done.
  lemma NoDeadlock(wants: Callbacks, steps: seq<Step>, j: nat) returns (step: Step)
    requires Execute(wants, steps).Some?
    requires var s := Execute(wants, steps).value; j in s.closers && s.closers[j] != Lost && s.closers[j] != Done
    ensures Enabled(Execute(wants, steps).value, step) && !step.RLock? && !step.CompareAndSwap?
  {
    hide Execute, WinnerOk, BarrierOk, AnswersOk;
    InvHolds(wants, steps);
    var s := Execute(wants, steps).value;
    match s.closers[j]
    case Won =>
      if i :| i in s.readers {
        step := if CallAt(s, i, Holding) then LoadClosed(i)
                else if CallAt(s, i, Admitted) then Input(i)
                else if CallAt(s, i, Refused) then Refuse(i)
                else RUnlock(i);
      } else {
        step := if s.writer.Some? then Unlock(s.writer.value) else Lock(j);
      }
    case Owner => step := Unlock(j);
    case Released => step := CloseAsync(j);
    case Closing =>
      if s.handlersDone {
        step := CloseSync(j);
      } else if i :| i in s.inflight {
        step := Settle(i);
      } else if !s.drained {
        step := Drained;
      } else if i :| i in s.results {
        step := Notify(i);
      } else {
        step := HandlersReturn;
      }
  }

  // ---- Close ends ----

  // How many steps a call, a Close, and a message still have in them.
  function CallSteps(c: Call): nat
  {
    match c case Holding => 5 case Admitted => 4 case Refused => 2 case Leaving => 1 case Returned => 0
  }

  function CloserSteps(c: Closer): nat
  {
    match c case Won => 4 case Owner => 3 case Released => 2 case Closing => 1 case Done => 0 case Lost => 0
  }

  ghost function Sum<V>(m: map<nat, V>, steps: V -> nat): nat
    decreases |m|
  {
    if m == map[] then 0
    else
      var k :| k in m;
      steps(m[k]) + Sum(m - {k}, steps)
  }

  lemma {:induction false} SumWithout<V>(m: map<nat, V>, steps: V -> nat, k: nat)
    requires k in m
    ensures Sum(m, steps) == steps(m[k]) + Sum(m - {k}, steps)
    decreases |m|
  {
    var first :| first in m && Sum(m, steps) == steps(m[first]) + Sum(m - {first}, steps);
    if first != k {
      SumWithout(m - {first}, steps, k);
      SumWithout(m - {k}, steps, first);
      assert m - {first} - {k} == m - {k} - {first};
    }
  }

  lemma SumUpdated<V>(m: map<nat, V>, steps: V -> nat, k: nat, v: V)
    requires k in m
    ensures Sum(m[k := v], steps) + steps(m[k]) == Sum(m, steps) + steps(v)
  {
    SumWithout(m, steps, k);
    SumWithout(m[k := v], steps, k);
    assert m[k := v] - {k} == m - {k};
  }

  // What is left to do when no new call comes.
  ghost function Remaining(s: State): nat
  {
    Sum(s.calls, CallSteps) + Sum(s.closers, CloserSteps) + 2 * |s.inflight| + |s.results|
    + (if s.drained then 0 else 1) + (if s.handlersDone then 0 else 1)
  }

  // Every step other than a new call uses some of it up.
  lemma StepsRunOut(wants: Callbacks, s: State, step: Step)
    requires Enabled(s, step) && !step.RLock? && !step.CompareAndSwap?
    ensures Remaining(Apply(wants, s, step)) < Remaining(s)
  {
    hide Called, Sum;
    var t := Apply(wants, s, step);
    match step
    case LoadClosed(i) => CallStepped(wants, s, step);
    case Refuse(i) => CallStepped(wants, s, step);
    case Input(i) => CallStepped(wants, s, step);
    case RUnlock(i) => CallStepped(wants, s, step);
    case Lock(j) => CloserStepped(wants, s, step);
    case Unlock(j) => CloserStepped(wants, s, step);
    case CloseAsync(j) => CloserStepped(wants, s, step);
    case CloseSync(j) => CloserStepped(wants, s, step);
    case _ =>
  }

  lemma CallStepped(wants: Callbacks, s: State, step: Step)
    requires Enabled(s, step) && (step.LoadClosed? || step.Refuse? || step.Input? || step.RUnlock?)
    ensures Remaining(Apply(wants, s, step)) < Remaining(s)
  {
    hide Called, Sum;
    SumUpdated(s.calls, CallSteps, step.call, Apply(wants, s, step).calls[step.call]);
  }

  lemma CloserStepped(wants: Callbacks, s: State, step: Step)
    requires Enabled(s, step) && (step.Lock? || step.Unlock? || step.CloseAsync? || step.CloseSync?)
    ensures Remaining(Apply(wants, s, step)) < Remaining(s)
  {
    hide Called, Sum;
    SumUpdated(s.closers, CloserSteps, step.closer, Apply(wants, s, step).closers[step.closer]);
  }

  predicate NoNewCalls(steps: seq<Step>)
  {
    forall k :: 0 <= k < |steps| ==> !steps[k].RLock? && !steps[k].CompareAndSwap?
  }

  // Without new calls an execution can go on for no more than the remaining steps.
  lemma {:induction false} ExecutionEnds(wants: Callbacks, steps: seq<Step>, more: seq<Step>)
    requires Execute(wants, steps + more).Some? && NoNewCalls(more)
    ensures Execute(wants, steps).Some?
    ensures |more| + Remaining(Execute(wants, steps + more).value) <= Remaining(Execute(wants, steps).value)
    decreases |more|
  {
    hide Remaining, Enabled, Apply;
    if more == [] {
      assert steps + more == steps;
    } else {
      var n := |more| - 1;
      assert (steps + more)[..|steps + more| - 1] == steps + more[..n] && (steps + more)[|steps + more| - 1] == more[n];
      ExecutionEnds(wants, steps, more[..n]);
      StepsRunOut(wants, Execute(wants, steps + more[..n]).value, more[n]);
    }
  }

  // So a Close that has won ends: an execution without new calls that cannot go on has
  // finished it, and none goes on forever.
  lemma CloseEnds(wants: Callbacks, steps: seq<Step>, more: seq<Step>, j: nat)
    requires Execute(wants, steps + more).Some? && NoNewCalls(more)
    requires Execute(wants, steps).Some?
    requires var s := Execute(wants, steps).value; j in s.closers && s.closers[j] != Lost
    ensures |more| <= Remaining(Execute(wants, steps).value)
    ensures var t := Execute(wants, steps + more).value;
            (forall step :: Enabled(t, step) ==> step.RLock? || step.CompareAndSwap?) ==> CloserAt(t, j, Done)
  {
    hide Execute, Enabled, Remaining;
    ExecutionEnds(wants, steps, more);
    CloserStays(wants, steps, more, j);
    var t := Execute(wants, steps + more).value;
    if t.closers[j] != Done {
      var step := NoDeadlock(wants, steps + more, j);
    }
  }

  lemma {:induction false} CloserStays(wants: Callbacks, steps: seq<Step>, more: seq<Step>, j: nat)
    requires Execute(wants, steps + more).Some? && Execute(wants, steps).Some?
    requires var s := Execute(wants, steps).value; j in s.closers && s.closers[j] != Lost
    ensures var t := Execute(wants, steps + more).value; j in t.closers && t.closers[j] != Lost
    decreases |more|
  {
    hide Enabled, Apply;
    if more == [] {
      assert steps + more == steps;
    } else {
      var n := |more| - 1;
      assert (steps + more)[..|steps + more| - 1] == steps + more[..n] && (steps + more)[|steps + more| - 1] == more[n];
      CloserStays(wants, steps, more[..n], j);
      StillWon(wants, Execute(wants, steps + more[..n]).value, more[n], j);
    }
  }

  lemma StillWon(wants: Callbacks, s: State, step: Step, j: nat)
    requires Enabled(s, step) && j in s.closers && s.closers[j] != Lost
    ensures var t := Apply(wants, s, step); j in t.closers && t.closers[j] != Lost
  {
    hide Called;
  }
}
