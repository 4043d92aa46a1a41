// Calls of the snowflake generator in util/idutil/id.go that overlap: every access to
// shared state is a step of its own.
module SnowflakeThreads {
  import opened Outcomes
  import opened Snowflake

  datatype Thread = Idle | Timed(now: int) | Compared(now: int, last: nat) | Swapped(won: nat)

  datatype Shared = Shared(clock: Clock, threads: map<nat, Thread>, ids: seq<nat>, wins: seq<nat>)

  datatype Step =
    | ReadClock(thread: nat, now: int)
    | LoadLast(thread: nat)
    | CompareAndSwap(thread: nat)
    | ResetSequence(thread: nat)
    | AddSequence(thread: nat)

  function At(s: Shared, i: nat): Thread { if i in s.threads then s.threads[i] else Idle }

  predicate Enabled(s: Shared, step: Step)
  {
    match step
    case ReadClock(i, _) => At(s, i).Idle?
    case LoadLast(i) => At(s, i).Timed?
    case CompareAndSwap(i) => At(s, i).Compared? && At(s, i).now > At(s, i).last
    case ResetSequence(i) => At(s, i).Swapped?
    case AddSequence(i) => At(s, i).Compared? && At(s, i).now <= At(s, i).last
  }

  function Apply(machine: nat, s: Shared, step: Step): Shared
    requires Enabled(s, step)
  {
    var i := step.thread;
    match step
    case ReadClock(_, now) => s.(threads := s.threads[i := Timed(now)])
    case LoadLast(_) => s.(threads := s.threads[i := Compared(At(s, i).now, s.clock.lastTime)])
    case CompareAndSwap(_) =>
      var now := At(s, i).now;
      if s.clock.lastTime == At(s, i).last then
        s.(threads := s.threads[i := Swapped(now)], clock := s.clock.(lastTime := now), wins := s.wins + [now])
      else s.(threads := s.threads[i := Idle])
    case ResetSequence(_) =>
      s.(threads := s.threads[i := Idle], clock := s.clock.(sequence := 0),
         ids := s.ids + [Id(At(s, i).won, machine, 0)])
    case AddSequence(_) =>
      var next := s.clock.sequence + 1;
      s.(threads := s.threads[i := Idle], clock := s.clock.(sequence := next),
         ids := if next < SEQUENCE_SIZE then s.ids + [Id(At(s, i).last, machine, next)] else s.ids)
  }

  function Execute(machine: nat, steps: seq<Step>): Option<Shared>
  {
    if steps == [] then Some(Shared(START, map[], [], []))
    else
      match Execute(machine, steps[..|steps| - 1])
      case None => None
      case Some(s) =>
        var last := steps[|steps| - 1];
        if Enabled(s, last) then Some(Apply(machine, s, last)) else None
  }

  // In every interleaving the last time only moves forward, and each new millisecond
  // is won by one thread.
  lemma {:induction false} TimeMovesForward(machine: nat, steps: seq<Step>)
    requires Execute(machine, steps).Some?
    ensures var s := Execute(machine, steps).value;
            && (forall i, j :: 0 <= i < j < |s.wins| ==> s.wins[i] < s.wins[j])
            && (forall i :: 0 <= i < |s.wins| ==> s.wins[i] <= s.clock.lastTime)
            && (steps != [] ==> Execute(machine, steps[..|steps| - 1]).value.clock.lastTime <= s.clock.lastTime)
  {
    hide Id;
    if steps != [] {
      TimeMovesForward(machine, steps[..|steps| - 1]);
    }
  }

  // ---- when ids increase ----

  predicate Holds(s: Shared, i: nat, w: nat) { At(s, i) == Swapped(w) }

  // A thread has won this time and not reset the sequence yet.
  ghost predicate Pending(s: Shared, w: nat) { exists i :: i in s.threads && Holds(s, i, w) }

  // What every interleaving keeps: times are won in increasing order, the last one being
  // the current; each is held by the one thread that won it, or its first id has been
  // returned; and threads compare with times that were won.
  ghost predicate Sound(machine: nat, s: Shared) { WinsOk(s) && HoldersOk(s) && LastsOk(s) && FirstIdsOk(machine, s) }

  predicate WinsOk(s: Shared)
  {
    && (forall i, j :: 0 <= i < j < |s.wins| ==> s.wins[i] < s.wins[j])
    && (forall w :: w in s.wins ==> 0 < w <= s.clock.lastTime)
    && (s.clock.lastTime == 0 || s.clock.lastTime in s.wins)
  }

  ghost predicate HoldersOk(s: Shared)
  {
    && (forall i, w :: i in s.threads && Holds(s, i, w) ==> w in s.wins)
    && (forall i, j, w :: i in s.threads && j in s.threads && Holds(s, i, w) && Holds(s, j, w) ==> i == j)
  }

  predicate LastsOk(s: Shared)
  {
    forall i :: i in s.threads && s.threads[i].Compared? ==> s.threads[i].last == 0 || s.threads[i].last in s.wins
  }

  ghost predicate FirstIdsOk(machine: nat, s: Shared)
  {
    forall w :: w in s.wins ==> Pending(s, w) || Id(w, machine, 0) in s.ids
  }

  lemma WinsKept(machine: nat, s: Shared, step: Step)
    requires WinsOk(s) && Enabled(s, step)
    ensures WinsOk(Apply(machine, s, step))
    ensures s.wins <= Apply(machine, s, step).wins
    ensures forall w :: w in Apply(machine, s, step).wins ==>
            w in s.wins || (step.CompareAndSwap? && w == At(s, step.thread).now)
  {
    hide Id;
    var t := Apply(machine, s, step);
    assert |t.wins| > |s.wins| ==> t.wins[|s.wins|] == t.clock.lastTime;
    forall k | 0 <= k < |s.wins| ensures s.wins[k] <= s.clock.lastTime { assert s.wins[k] in s.wins; }
  }

  lemma HoldersKept(machine: nat, s: Shared, step: Step)
    requires WinsOk(s) && HoldersOk(s) && Enabled(s, step)
    ensures HoldersOk(Apply(machine, s, step))
  {
    hide Id;
    var t := Apply(machine, s, step);
    forall i, w | i in t.threads && Holds(t, i, w)
      ensures w in t.wins && (i != step.thread ==> w in s.wins && Holds(s, i, w))
    {
      if i == step.thread { assert t.wins[|s.wins|] == w; }
    }
  }

  lemma LastsKept(machine: nat, s: Shared, step: Step)
    requires WinsOk(s) && LastsOk(s) && Enabled(s, step)
    ensures LastsOk(Apply(machine, s, step))
  {
    hide Id;
  }

  lemma FirstIdsKept(machine: nat, s: Shared, step: Step)
    requires WinsOk(s) && FirstIdsOk(machine, s) && Enabled(s, step)
    ensures FirstIdsOk(machine, Apply(machine, s, step))
  {
    hide Id;
    var t := Apply(machine, s, step);
    WinsKept(machine, s, step);
    forall w | w in t.wins ensures Pending(t, w) || Id(w, machine, 0) in t.ids {
      if w !in s.wins {
        assert step.thread in t.threads && Holds(t, step.thread, w);
      } else if Pending(s, w) {
        var i :| i in s.threads && Holds(s, i, w);
        if i != step.thread {
          assert i in t.threads && Holds(t, i, w);
        } else {
          assert t.ids[|s.ids|] == Id(w, machine, 0);
        }
      } else {
        var p :| 0 <= p < |s.ids| && s.ids[p] == Id(w, machine, 0);
        assert t.ids[p] == s.ids[p];
      }
    }
  }

  lemma SoundKept(machine: nat, s: Shared, step: Step)
    requires Sound(machine, s) && Enabled(s, step)
    ensures Sound(machine, Apply(machine, s, step))
  {
    hide WinsOk, HoldersOk, LastsOk, FirstIdsOk, Enabled, Apply;
    WinsKept(machine, s, step);
    HoldersKept(machine, s, step);
    LastsKept(machine, s, step);
    FirstIdsKept(machine, s, step);
  }

  lemma {:induction false} AlwaysSound(machine: nat, steps: seq<Step>)
    requires Execute(machine, steps).Some?
    ensures Sound(machine, Execute(machine, steps).value)
  {
    hide Sound, Apply, Enabled;
    if steps == [] {
      SoundAtStart(machine);
    } else {
      AlwaysSound(machine, steps[..|steps| - 1]);
      SoundKept(machine, Execute(machine, steps[..|steps| - 1]).value, steps[|steps| - 1]);
    }
  }

  lemma SoundAtStart(machine: nat)
    ensures Execute(machine, []).Some? && Sound(machine, Execute(machine, []).value)
  {
  }

  // A step is tidy when it does not take an id out of turn. An id is added for the
  // latest time whose winner has reset the sequence, while all later winners are still
  // to do so; and of several winners the earliest resets first.
  ghost predicate Tidy(s: Shared, step: Step)
  {
    match step
    case AddSequence(i) =>
      At(s, i).Compared? && s.clock.sequence + 1 < SEQUENCE_SIZE ==>
        forall w :: w in s.wins ==> (Pending(s, w) <==> At(s, i).last < w)
    case ResetSequence(i) => At(s, i).Swapped? ==> forall w :: w in s.wins && Pending(s, w) ==> At(s, i).won <= w
    case _ => true
  }

  ghost predicate TidyRun(machine: nat, steps: seq<Step>)
  {
    forall k :: 0 <= k < |steps| ==> TidyAt(machine, steps, k)
  }

  ghost predicate TidyAt(machine: nat, steps: seq<Step>, k: nat)
    requires k < |steps|
  {
    Execute(machine, steps[..k]).Some? ==> Tidy(Execute(machine, steps[..k]).value, steps[k])
  }

  ghost predicate Increasing(ids: seq<nat>) { forall i, j :: 0 <= i < j < |ids| ==> ids[i] < ids[j] }

  // In a tidy run the ids go up to those of time d: the winners after d are pending.
  ghost predicate UpTo(machine: nat, s: Shared, d: nat)
  {
    && (d == 0 || d in s.wins) && (forall w :: w in s.wins ==> (Pending(s, w) <==> d < w))
    && Increasing(s.ids) && forall k :: 0 <= k < |s.ids| ==> Behind(s.ids[k], machine, Clock(d, s.clock.sequence))
  }

  lemma BehindIsBelow(machine: nat, id: nat, c: Clock, t: nat, q: nat)
    requires machine < MACHINES && Behind(id, machine, c) && q < SEQUENCE_SIZE
    requires c.lastTime < t || (c.lastTime == t && c.sequence < q)
    ensures id < Id(t, machine, q)
  {
    hide Id;
    var u: nat, r: nat :| PackedFrom(id, machine, u, r) && (u < c.lastTime || (u == c.lastTime && r <= c.sequence));
    IdsOrdered(u, r, t, q, machine);
  }

  lemma BehindLater(machine: nat, id: nat, c: Clock, later: Clock)
    requires Behind(id, machine, c)
    requires c.lastTime < later.lastTime || (c.lastTime == later.lastTime && c.sequence <= later.sequence)
    ensures Behind(id, machine, later)
  {
    hide Id;
    var u: nat, r: nat :| PackedFrom(id, machine, u, r) && (u < c.lastTime || (u == c.lastTime && r <= c.sequence));
    assert PackedFrom(id, machine, u, r);
  }

  // One more id, beyond all that were returned.
  lemma IdAppended(machine: nat, ids: seq<nat>, c: Clock, t: nat, q: nat)
    requires machine < MACHINES && q < SEQUENCE_SIZE && Increasing(ids)
    requires forall k :: 0 <= k < |ids| ==> Behind(ids[k], machine, c)
    requires c.lastTime < t || (c.lastTime == t && c.sequence < q)
    ensures Increasing(ids + [Id(t, machine, q)])
    ensures forall k :: 0 <= k < |ids| + 1 ==> Behind((ids + [Id(t, machine, q)])[k], machine, Clock(t, q))
  {
    hide Id, Behind;
    var longer := ids + [Id(t, machine, q)];
    forall k | 0 <= k < |ids| ensures longer[k] < Id(t, machine, q) && Behind(longer[k], machine, Clock(t, q)) {
      BehindIsBelow(machine, ids[k], c, t, q);
      BehindLater(machine, ids[k], c, Clock(t, q));
    }
    OwnClock(machine, t, q);
  }

  lemma OwnClock(machine: nat, t: nat, q: nat)
    requires q < SEQUENCE_SIZE
    ensures Behind(Id(t, machine, q), machine, Clock(t, q))
  {
    assert PackedFrom(Id(t, machine, q), machine, t, q);
  }

  lemma TidyAdd(machine: nat, s: Shared, d: nat, i: nat)
    requires machine < MACHINES && Sound(machine, s) && UpTo(machine, s, d)
    requires Enabled(s, AddSequence(i)) && Tidy(s, AddSequence(i))
    ensures UpTo(machine, Apply(machine, s, AddSequence(i)), d)
  {
    hide Id, Behind;
    var t := Apply(machine, s, AddSequence(i));
    SamePending(machine, s, AddSequence(i));
    var c := Clock(d, s.clock.sequence);
    if s.clock.sequence + 1 < SEQUENCE_SIZE {
      var last := At(s, i).last;
      assert last == d by {
        if d > 0 { assert d in s.wins && !Pending(s, d); }
        if last > 0 { assert last in s.wins && !Pending(s, last); }
      }
      IdAppended(machine, s.ids, c, d, s.clock.sequence + 1);
    } else {
      forall k | 0 <= k < |s.ids| ensures Behind(s.ids[k], machine, Clock(d, s.clock.sequence + 1)) {
        BehindLater(machine, s.ids[k], c, Clock(d, s.clock.sequence + 1));
      }
    }
  }

  // Only winning and resetting change which times are pending.
  lemma SamePending(machine: nat, s: Shared, step: Step)
    requires Enabled(s, step) && !step.ResetSequence?
    requires step.CompareAndSwap? ==> s.clock.lastTime != At(s, step.thread).last
    ensures forall w :: Pending(Apply(machine, s, step), w) <==> Pending(s, w)
  {
    hide Id;
    var t := Apply(machine, s, step);
    forall w ensures Pending(t, w) <==> Pending(s, w) {
      if Pending(s, w) {
        var i :| i in s.threads && Holds(s, i, w);
        assert i in t.threads && Holds(t, i, w);
      }
      if Pending(t, w) {
        var i :| i in t.threads && Holds(t, i, w);
        assert i in s.threads && Holds(s, i, w);
      }
    }
  }

  lemma TidyReset(machine: nat, s: Shared, d: nat, i: nat)
    requires machine < MACHINES && Sound(machine, s) && UpTo(machine, s, d)
    requires Enabled(s, ResetSequence(i)) && Tidy(s, ResetSequence(i))
    ensures UpTo(machine, Apply(machine, s, ResetSequence(i)), At(s, i).won)
  {
    hide Id, Behind;
    var t, won := Apply(machine, s, ResetSequence(i)), At(s, i).won;
    assert i in s.threads && Holds(s, i, won) && Pending(s, won);
    forall w | w in s.wins ensures Pending(t, w) <==> won < w {
      if won < w {
        var j :| j in s.threads && Holds(s, j, w);
        assert j in t.threads && Holds(t, j, w);
      }
      if Pending(t, w) {
        var j :| j in t.threads && Holds(t, j, w);
        assert j in s.threads && Holds(s, j, w) && j != i;
        assert Pending(s, w);
      }
    }
    IdAppended(machine, s.ids, Clock(d, s.clock.sequence), won, 0);
  }

  lemma TidyWin(machine: nat, s: Shared, d: nat, i: nat)
    requires Sound(machine, s) && UpTo(machine, s, d)
    requires Enabled(s, CompareAndSwap(i)) && s.clock.lastTime == At(s, i).last
    ensures UpTo(machine, Apply(machine, s, CompareAndSwap(i)), d)
  {
    hide Id, Behind;
    var t, now := Apply(machine, s, CompareAndSwap(i)), At(s, i).now;
    forall w | w in t.wins ensures Pending(t, w) <==> d < w {
      if w in s.wins {
        if Pending(s, w) {
          var j :| j in s.threads && Holds(s, j, w);
          assert j in t.threads && Holds(t, j, w);
        }
        if Pending(t, w) {
          var j :| j in t.threads && Holds(t, j, w);
          assert j in s.threads && Holds(s, j, w);
        }
      } else {
        assert i in t.threads && Holds(t, i, w);
      }
    }
  }

  lemma TidyStep(machine: nat, s: Shared, d: nat, step: Step) returns (e: nat)
    requires machine < MACHINES && Sound(machine, s) && UpTo(machine, s, d) && Enabled(s, step) && Tidy(s, step)
    ensures UpTo(machine, Apply(machine, s, step), e)
  {
    hide Id, Behind, Tidy, Sound;
    e := d;
    match step {
      case AddSequence(i) => TidyAdd(machine, s, d, i);
      case ResetSequence(i) =>
        TidyReset(machine, s, d, i);
        e := At(s, i).won;
      case CompareAndSwap(i) =>
        if s.clock.lastTime == At(s, i).last { TidyWin(machine, s, d, i); } else { SamePending(machine, s, step); }
      case _ => SamePending(machine, s, step);
    }
  }

  lemma {:induction false} TidyRunUpTo(machine: nat, steps: seq<Step>) returns (d: nat)
    requires machine < MACHINES && Execute(machine, steps).Some? && TidyRun(machine, steps)
    ensures UpTo(machine, Execute(machine, steps).value, d)
  {
    hide Id, Behind, Tidy, Apply, Enabled, UpTo;
    if steps == [] {
      d := 0;
      UpToAtStart(machine);
    } else {
      var front, last := steps[..|steps| - 1], steps[|steps| - 1];
      TidyFront(machine, steps);
      var before := TidyRunUpTo(machine, front);
      AlwaysSound(machine, front);
      assert TidyAt(machine, steps, |steps| - 1);
      d := TidyStep(machine, Execute(machine, front).value, before, last);
    }
  }

  lemma TidyFront(machine: nat, steps: seq<Step>)
    requires steps != [] && TidyRun(machine, steps)
    ensures TidyRun(machine, steps[..|steps| - 1])
  {
    hide Tidy, Execute;
    var front := steps[..|steps| - 1];
    forall k | 0 <= k < |front| ensures TidyAt(machine, front, k) {
      assert TidyAt(machine, steps, k) && front[..k] == steps[..k];
    }
  }

  lemma UpToAtStart(machine: nat)
    ensures Execute(machine, []).Some? && UpTo(machine, Execute(machine, []).value, 0)
  {
  }

  // ---- an untidy step shows ----

  lemma {:induction false} IdsGrow(machine: nat, steps: seq<Step>, k: nat)
    requires Execute(machine, steps).Some? && k <= |steps|
    ensures Execute(machine, steps[..k]).Some? &&
            Execute(machine, steps[..k]).value.ids <= Execute(machine, steps).value.ids
    decreases |steps| - k, |steps|
  {
    hide Id;
    if k < |steps| {
      var front := steps[..|steps| - 1];
      IdsGrow(machine, front, k);
      assert front[..k] == steps[..k];
    } else {
      assert steps[..k] == steps;
    }
  }

  // A winner that is no longer pending has returned the first id of its time since.
  lemma {:induction false} FirstIdFollows(machine: nat, steps: seq<Step>, k: nat, j: nat, w: nat) returns (p: nat)
    requires Execute(machine, steps).Some? && k <= |steps|
    requires Execute(machine, steps[..k]).Some? && Holds(Execute(machine, steps[..k]).value, j, w)
    requires !Holds(Execute(machine, steps).value, j, w)
    ensures |Execute(machine, steps[..k]).value.ids| <= p < |Execute(machine, steps).value.ids|
    ensures Execute(machine, steps).value.ids[p] == Id(w, machine, 0)
    decreases |steps|
  {
    hide Id;
    assert steps[..|steps|] == steps;
    var front := steps[..|steps| - 1];
    assert front[..k] == steps[..k];
    if Holds(Execute(machine, front).value, j, w) {
      IdsGrow(machine, front, k);
      p := |Execute(machine, front).value.ids|;
    } else {
      p := FirstIdFollows(machine, front, k, j, w);
    }
  }

  ghost predicate Settled(s: Shared) { forall w :: w in s.wins ==> !Pending(s, w) }

  lemma AtStep(machine: nat, steps: seq<Step>, k: nat)
    requires Execute(machine, steps).Some? && k < |steps|
    ensures Execute(machine, steps[..k]).Some? && Enabled(Execute(machine, steps[..k]).value, steps[k])
    ensures Execute(machine, steps[..k + 1]) == Some(Apply(machine, Execute(machine, steps[..k]).value, steps[k]))
  {
    hide Id, Apply, Enabled;
    IdsGrow(machine, steps, k + 1);
    assert steps[..k + 1][..k] == steps[..k];
  }

  // A smaller id after a larger one.
  lemma OutOfOrder(ids: seq<nat>, i: nat, j: nat)
    requires i < j < |ids| && ids[i] >= ids[j]
    ensures !Increasing(ids)
  {
  }

  lemma UntidyReset(machine: nat, steps: seq<Step>, k: nat)
    requires machine < MACHINES && Execute(machine, steps).Some? && Settled(Execute(machine, steps).value)
    requires k < |steps| && steps[k].ResetSequence? && !TidyAt(machine, steps, k)
    ensures !Increasing(Execute(machine, steps).value.ids)
  {
    hide Id, Execute;
    AtStep(machine, steps, k);
    var s, i := Execute(machine, steps[..k]).value, steps[k].thread;
    var won := At(s, i).won;
    var w :| w in s.wins && Pending(s, w) && w < won;
    var j :| j in s.threads && Holds(s, j, w);
    LateFirstId(machine, steps, k, j, w, won, 0);
  }

  // An id is returned at step k while the winner of an earlier or the same time is
  // pending: the winner's first id comes later and is not larger.
  lemma LateFirstId(machine: nat, steps: seq<Step>, k: nat, j: nat, w: nat, t: nat, q: nat)
    requires machine < MACHINES && Execute(machine, steps).Some? && Settled(Execute(machine, steps).value) &&
             k < |steps|
    requires Execute(machine, steps[..k]).Some? && Execute(machine, steps[..k + 1]).Some?
    requires var s := Execute(machine, steps[..k]).value;
             j in s.threads && Holds(s, j, w) && w in s.wins && j != steps[k].thread
    requires Execute(machine, steps[..k + 1]).value.ids == Execute(machine, steps[..k]).value.ids + [Id(t, machine, q)]
    requires q < SEQUENCE_SIZE && (w < t || (w == t && 0 < q))
    ensures !Increasing(Execute(machine, steps).value.ids)
  {
    hide Id, Execute;
    var s, f := Execute(machine, steps[..k]).value, Execute(machine, steps).value;
    AtStep(machine, steps, k);
    assert Holds(Execute(machine, steps[..k + 1]).value, j, w);
    WinsStay(machine, steps, k, w);
    assert j in f.threads && Holds(f, j, w) ==> Pending(f, w);
    IdsGrow(machine, steps, k + 1);
    var p := FirstIdFollows(machine, steps, k + 1, j, w);
    IdsOrdered(w, 0, t, q, machine);
    assert f.ids[|s.ids|] == Id(t, machine, q);
    OutOfOrder(f.ids, |s.ids|, p);
  }

  lemma {:induction false} WinsStay(machine: nat, steps: seq<Step>, k: nat, w: nat)
    requires Execute(machine, steps).Some? && k <= |steps| && Execute(machine, steps[..k]).Some?
    requires w in Execute(machine, steps[..k]).value.wins
    ensures w in Execute(machine, steps).value.wins
    decreases |steps|
  {
    hide Id;
    if k < |steps| {
      var front := steps[..|steps| - 1];
      assert front[..k] == steps[..k];
      WinsStay(machine, front, k, w);
    } else {
      assert steps[..k] == steps;
    }
  }

  lemma UntidyAdd(machine: nat, steps: seq<Step>, k: nat)
    requires machine < MACHINES && Execute(machine, steps).Some? && Settled(Execute(machine, steps).value)
    requires k < |steps| && steps[k].AddSequence? && !TidyAt(machine, steps, k)
    ensures !Increasing(Execute(machine, steps).value.ids)
  {
    hide Id, Execute;
    AtStep(machine, steps, k);
    var s, i := Execute(machine, steps[..k]).value, steps[k].thread;
    var last, q := At(s, i).last, s.clock.sequence + 1;
    var w :| w in s.wins && !(Pending(s, w) <==> last < w);
    if Pending(s, w) {
      var j :| j in s.threads && Holds(s, j, w);
      LateFirstId(machine, steps, k, j, w, last, q);
    } else {
      AlwaysSound(machine, steps[..k]);
      var p :| 0 <= p < |s.ids| && s.ids[p] == Id(w, machine, 0);
      IdsGrow(machine, steps, k + 1);
      IdsOrdered(last, q, w, 0, machine);
      OutOfOrder(Execute(machine, steps).value.ids, p, |s.ids|);
    }
  }

  // Whatever the interleaving, once no winner is pending the ids returned are strictly
  // increasing if and only if every step was tidy.
  lemma TidyExactly(machine: nat, steps: seq<Step>)
    requires machine < MACHINES && Execute(machine, steps).Some? && Settled(Execute(machine, steps).value)
    ensures Increasing(Execute(machine, steps).value.ids) <==> TidyRun(machine, steps)
  {
    hide Execute, Settled, Increasing, Tidy;
    if TidyRun(machine, steps) {
      IncreasingWhenTidy(machine, steps);
    } else {
      var k: nat :| k < |steps| && !TidyAt(machine, steps, k);
      if steps[k].AddSequence? {
        UntidyAdd(machine, steps, k);
      } else {
        OthersTidy(machine, steps, k);
        UntidyReset(machine, steps, k);
      }
    }
  }

  lemma IncreasingWhenTidy(machine: nat, steps: seq<Step>)
    requires machine < MACHINES && Execute(machine, steps).Some? && TidyRun(machine, steps)
    ensures Increasing(Execute(machine, steps).value.ids)
  {
    hide Execute, Increasing, TidyRun;
    var d := TidyRunUpTo(machine, steps);
  }

  lemma OthersTidy(machine: nat, steps: seq<Step>, k: nat)
    requires k < |steps| && !TidyAt(machine, steps, k)
    ensures steps[k].AddSequence? || steps[k].ResetSequence?
  {
    hide Execute;
  }

  // ---- calls that do not overlap ----

  ghost predicate Alone(s: Shared)
  {
    forall i, j :: i in s.threads && j in s.threads && s.threads[i] != Idle && s.threads[j] != Idle ==> i == j
  }

  // At no time are two threads inside a call.
  ghost predicate OneAtATime(machine: nat, steps: seq<Step>)
  {
    forall k :: 0 <= k <= |steps| ==> AloneAt(machine, steps, k)
  }

  ghost predicate AloneAt(machine: nat, steps: seq<Step>, k: nat)
    requires k <= |steps|
  {
    Execute(machine, steps[..k]).Some? ==> Alone(Execute(machine, steps[..k]).value)
  }

  ghost predicate Fresh(s: Shared)
  {
    forall i :: i in s.threads && s.threads[i].Compared? ==> s.threads[i].last == s.clock.lastTime
  }

  lemma {:induction false} AloneIsFresh(machine: nat, steps: seq<Step>, k: nat)
    requires OneAtATime(machine, steps) && k <= |steps| && Execute(machine, steps[..k]).Some?
    ensures Fresh(Execute(machine, steps[..k]).value)
    decreases k
  {
    hide Id;
    if k > 0 {
      assert steps[..k][..k - 1] == steps[..k - 1];
      AloneIsFresh(machine, steps, k - 1);
      assert AloneAt(machine, steps, k - 1);
      assert AloneAt(machine, steps, k);
    }
  }

  lemma AloneIsTidy(machine: nat, s: Shared, step: Step)
    requires Sound(machine, s) && Alone(s) && Fresh(s) && Enabled(s, step)
    ensures Tidy(s, step)
  {
    hide Id;
    var i := step.thread;
    forall w | Pending(s, w) ensures Holds(s, i, w) || step.ReadClock? {
      var j :| j in s.threads && Holds(s, j, w);
    }
  }

  // Calls that do not overlap return strictly increasing ids, whatever thread makes them.
  lemma OneAtATimeIncreases(machine: nat, steps: seq<Step>)
    requires machine < MACHINES && Execute(machine, steps).Some? && OneAtATime(machine, steps)
    ensures Increasing(Execute(machine, steps).value.ids)
  {
    hide Execute, Increasing, Tidy, Sound, Alone, Fresh;
    forall k | 0 <= k < |steps| ensures TidyAt(machine, steps, k) {
      AtStep(machine, steps, k);
      AlwaysSound(machine, steps[..k]);
      AloneIsFresh(machine, steps, k);
      assert AloneAt(machine, steps, k);
      AloneIsTidy(machine, Execute(machine, steps[..k]).value, steps[k]);
    }
    IncreasingWhenTidy(machine, steps);
  }

  // ---- the method's calls are schedules ----

  // A schedule after which every thread is idle.
  ghost predicate Between(machine: nat, steps: seq<Step>, c: Clock, ids: seq<nat>)
  {
    && Execute(machine, steps).Some? && OneAtATime(machine, steps)
    && var s := Execute(machine, steps).value;
       s.clock == c && s.ids == ids && forall i :: i in s.threads ==> s.threads[i] == Idle
  }

  lemma Extend(machine: nat, steps: seq<Step>, s: Shared, step: Step) returns (after: Shared, longer: seq<Step>)
    requires Execute(machine, steps) == Some(s) && OneAtATime(machine, steps) && Enabled(s, step)
    requires Alone(Apply(machine, s, step))
    ensures longer == steps + [step] && after == Apply(machine, s, step) && Execute(machine, longer) == Some(after)
    ensures OneAtATime(machine, longer)
  {
    hide Id, Apply, Alone;
    after, longer := Perform(machine, s, steps, step);
    forall k | 0 <= k <= |longer| ensures AloneAt(machine, longer, k) {
      if k <= |steps| {
        assert AloneAt(machine, steps, k) && longer[..k] == steps[..k];
      } else {
        assert longer[..k] == longer;
      }
    }
  }

  // One pass through the loop of Next is four or three steps of one thread.
  lemma PassIsSchedule(machine: nat, steps: seq<Step>, c: Clock, ids: seq<nat>, now: int) returns (longer: seq<Step>)
    requires Between(machine, steps, c, ids)
    ensures var (after, id) := Pass(c, machine, now);
            Between(machine, longer, after, if id.Some? then ids + [id.value] else ids)
  {
    hide Id, Execute, OneAtATime;
    var s := Execute(machine, steps).value;
    longer := steps;
    s, longer := Extend(machine, longer, s, ReadClock(0, now));
    s, longer := Extend(machine, longer, s, LoadLast(0));
    if now > c.lastTime {
      s, longer := Extend(machine, longer, s, CompareAndSwap(0));
      s, longer := Extend(machine, longer, s, ResetSequence(0));
    } else {
      s, longer := Extend(machine, longer, s, AddSequence(0));
    }
  }

  lemma {:induction false} CallIsSchedule(machine: nat, steps: seq<Step>, c: Clock, ids: seq<nat>, readings: seq<int>)
      returns (longer: seq<Step>)
    requires Between(machine, steps, c, ids)
    ensures var (after, id) := Call(c, machine, readings);
            Between(machine, longer, after, if id.Some? then ids + [id.value] else ids)
    decreases |readings|
  {
    hide Id, Between, Pass;
    if readings == [] {
      longer := steps;
    } else {
      longer := PassIsSchedule(machine, steps, c, ids, readings[0]);
      var (next, id) := Pass(c, machine, readings[0]);
      if id.None? {
        longer := CallIsSchedule(machine, longer, next, ids, readings[1..]);
      }
    }
  }

  // What a sequence of calls of Next does, a schedule does in which no two threads are
  // inside a call: same clock, same ids.
  lemma {:induction false} CallsAreSchedules(machine: nat, calls: seq<seq<int>>) returns (steps: seq<Step>)
    ensures Between(machine, steps, Calls(machine, calls).0, Calls(machine, calls).1)
  {
    hide Id, Between, Call;
    if calls == [] {
      steps := [];
      NothingScheduled(machine);
    } else {
      var front := calls[..|calls| - 1];
      var (c, ids) := Calls(machine, front);
      steps := CallsAreSchedules(machine, front);
      steps := CallIsSchedule(machine, steps, c, ids, calls[|calls| - 1]);
    }
  }

  lemma NothingScheduled(machine: nat)
    ensures Between(machine, [], START, [])
  {
    var none: seq<Step> := [];
    forall k | 0 <= k <= |none| ensures AloneAt(machine, none, k) { assert none[..k] == none; }
  }

  // ---- overlapping calls that repeat an id ----

  lemma RepeatingSchedule(machine: nat) returns (steps: seq<Step>, s: Shared)
    ensures Execute(machine, steps) == Some(s) && s.threads == map[1 := Idle, 2 := Idle]
    ensures s.ids == [Id(5, machine, 1), Id(5, machine, 0), Id(5, machine, 1)]
  {
    hide Id, Execute;
    steps := [];
    NothingDone(machine);
    s := Shared(START, map[], [], []);
    s, steps := Perform(machine, s, steps, ReadClock(1, 5));
    s, steps := Perform(machine, s, steps, LoadLast(1));
    s, steps := Perform(machine, s, steps, CompareAndSwap(1));
    s, steps := Perform(machine, s, steps, ReadClock(2, 5));
    s, steps := Perform(machine, s, steps, LoadLast(2));
    s, steps := Perform(machine, s, steps, AddSequence(2));
    s, steps := Perform(machine, s, steps, ResetSequence(1));
    s, steps := Perform(machine, s, steps, ReadClock(2, 5));
    s, steps := Perform(machine, s, steps, LoadLast(2));
    s, steps := Perform(machine, s, steps, AddSequence(2));
  }

  // Setting the time and resetting the sequence are separate steps. A thread that adds
  // in between takes sequence 1, the reset undoes that, and the next one takes 1 again.
  lemma OverlappingCallsRepeatAnId(machine: nat) returns (steps: seq<Step>)
    requires machine < MACHINES
    ensures Execute(machine, steps).Some? && Settled(Execute(machine, steps).value) && !TidyRun(machine, steps)
    ensures Execute(machine, steps).value.ids == [Id(5, machine, 1), Id(5, machine, 0), Id(5, machine, 1)]
  {
    hide Id, Execute, TidyRun;
    var s: Shared;
    steps, s := RepeatingSchedule(machine);
    OutOfOrder(s.ids, 0, 2);
    TidyExactly(machine, steps);
  }

  lemma NothingDone(machine: nat)
    ensures Execute(machine, []) == Some(Shared(START, map[], [], []))
  {
  }

  lemma Perform(machine: nat, s: Shared, steps: seq<Step>, step: Step) returns (after: Shared, longer: seq<Step>)
    requires Execute(machine, steps) == Some(s) && Enabled(s, step)
    ensures longer == steps + [step] && after == Apply(machine, s, step) && Execute(machine, longer) == Some(after)
  {
    longer := steps + [step];
    after := Apply(machine, s, step);
    assert (steps + [step])[..|steps|] == steps;
  }
}
