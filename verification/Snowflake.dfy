// Model of the snowflake generator in util/idutil/id.go: 41 bits of time, 10 bits of
// machine and 12 bits of sequence, packed into one integer.
module Snowflake {
  import opened Outcomes

  const SEQUENCE_SIZE: nat := 4096
  const MACHINES: nat := 1024
  const TIME_LIMIT: int := 0x200_0000_0000

  // ---- bits ----

  function Pow2(n: nat): (p: nat)
    ensures p > 0
  {
    if n == 0 then 1 else 2 * Pow2(n - 1)
  }

  function ShiftLeft(x: nat, n: nat): nat { x * Pow2(n) }

  // Bitwise or, from the lowest bit up.
  function BitOr(a: nat, b: nat): nat
    decreases a + b
  {
    if a == 0 && b == 0 then 0
    else 2 * BitOr(a / 2, b / 2) + if a % 2 == 1 || b % 2 == 1 then 1 else 0
  }

  lemma {:induction false} OrZero(a: nat)
    ensures BitOr(a, 0) == a
  {
    if a > 0 { OrZero(a / 2); }
  }

  // Shifting left makes room for the lower field.
  lemma {:induction false} FieldsDoNotOverlap(a: nat, n: nat, b: nat)
    requires b < Pow2(n)
    ensures BitOr(ShiftLeft(a, n), b) == ShiftLeft(a, n) + b
  {
    if n == 0 {
      OrZero(a);
    } else {
      Halves(a, n);
      FieldsDoNotOverlap(a, n - 1, b / 2);
    }
  }

  lemma Halves(a: nat, n: nat)
    requires n > 0
    ensures ShiftLeft(a, n) == 2 * ShiftLeft(a, n - 1)
  {
    assert a * (2 * Pow2(n - 1)) == 2 * (a * Pow2(n - 1));
  }

  lemma Widths()
    ensures Pow2(10) == MACHINES && Pow2(12) == SEQUENCE_SIZE && Pow2(22) == MACHINES * SEQUENCE_SIZE
  {
    assert Pow2(5) == 32;
    assert Pow2(10) == 1024;
    assert Pow2(12) == 4096;
    assert Pow2(17) == 131072;
    assert Pow2(22) == 4194304;
  }

  // ---- ids ----

  function Id(time: nat, machine: nat, sequence: nat): nat
  {
    BitOr(BitOr(ShiftLeft(time, 22), ShiftLeft(machine, 12)), sequence)
  }

  function TimeOf(id: nat): nat { id / (MACHINES * SEQUENCE_SIZE) }

  function MachineOf(id: nat): nat { id / SEQUENCE_SIZE % MACHINES }

  function SequenceOf(id: nat): nat { id % SEQUENCE_SIZE }

  lemma IdIsSum(time: nat, machine: nat, sequence: nat)
    requires machine < MACHINES && sequence < SEQUENCE_SIZE
    ensures Id(time, machine, sequence) == (time * MACHINES + machine) * SEQUENCE_SIZE + sequence
  {
    hide BitOr, Pow2;
    Widths();
    FieldsDoNotOverlap(time, 22, ShiftLeft(machine, 12));
    FieldsDoNotOverlap(time * MACHINES + machine, 12, sequence);
  }

  // The fields read back, and an id fits a non-negative 64-bit integer.
  lemma IdDecodes(time: nat, machine: nat, sequence: nat)
    requires machine < MACHINES && sequence < SEQUENCE_SIZE
    ensures var id := Id(time, machine, sequence);
            TimeOf(id) == time && MachineOf(id) == machine && SequenceOf(id) == sequence
    ensures time < TIME_LIMIT ==> Id(time, machine, sequence) < 0x8000_0000_0000_0000
  {
    hide Id;
    IdIsSum(time, machine, sequence);
    var upper := time * MACHINES + machine;
    assert (upper * SEQUENCE_SIZE + sequence) / SEQUENCE_SIZE == upper;
    assert upper / MACHINES == time && upper % MACHINES == machine;
  }

  // Ids of one machine are ordered by time, then sequence.
  lemma IdsOrdered(t: nat, q: nat, u: nat, r: nat, machine: nat)
    requires machine < MACHINES && q < SEQUENCE_SIZE && r < SEQUENCE_SIZE
    requires t < u || (t == u && q < r)
    ensures Id(t, machine, q) < Id(u, machine, r)
  {
    hide Id;
    IdIsSum(t, machine, q);
    IdIsSum(u, machine, r);
  }

  // ---- one call at a time ----

  datatype Clock = Clock(lastTime: nat, sequence: nat)

  const START := Clock(0, 0)

  // One pass through the loop: the state after it, and the id if it returned one.
  function Pass(c: Clock, machine: nat, now: int): (Clock, Option<nat>)
  {
    if now > c.lastTime then (Clock(now, 0), Some(Id(now, machine, 0)))
    else
      var next := c.sequence + 1;
      (Clock(c.lastTime, next), if next < SEQUENCE_SIZE then Some(Id(c.lastTime, machine, next)) else None)
  }

  // The whole call, over the clock readings it gets to see. It is still waiting when
  // they run out.
  function Call(c: Clock, machine: nat, readings: seq<int>): (Clock, Option<nat>)
    decreases |readings|
  {
    if readings == [] then (c, None)
    else
      var (after, id) := Pass(c, machine, readings[0]);
      if id.Some? then (after, id) else Call(after, machine, readings[1..])
  }

  class Generator {
    var machineID: nat
    var lastTime: nat
    var sequence: nat

    ghost predicate Valid()
      reads this
    {
      machineID < MACHINES
    }

    function State(): Clock
      reads this
    {
      Clock(lastTime, sequence)
    }

    constructor ()
      ensures Valid() && State() == START && machineID == 0
    {
      machineID, lastTime, sequence := 0, 0, 0;
    }

    // SetSnowflakeMachineID panics outside the range.
    method SetMachineID(id: int) returns (ok: bool)
      requires Valid()
      modifies this`machineID
      ensures Valid() && ok == (0 <= id < MACHINES) && machineID == if ok then id else old(machineID)
    {
      ok := 0 <= id < MACHINES;
      if ok { machineID := id; }
    }

    method Next(readings: seq<int>) returns (id: Option<nat>)
      requires Valid()
      modifies this`lastTime, this`sequence
      ensures (State(), id) == Call(old(State()), machineID, readings)
    {
      for i := 0 to |readings|
        invariant Call(old(State()), machineID, readings) == Call(State(), machineID, readings[i..])
      {
        assert readings[i..][1..] == readings[i + 1..];
        var now, last := readings[i], lastTime;
        if now > last {
          lastTime := now;
          sequence := 0;
          return Some(Id(now, machineID, 0));
        }
        sequence := sequence + 1;
        if sequence < SEQUENCE_SIZE { return Some(Id(last, machineID, sequence)); }
      }
      return None;
    }
  }

  // A call moves time and sequence forward, and returns the id of where it stopped.
  ghost predicate Advances(before: Clock, after: Clock)
  {
    before.lastTime < after.lastTime || (before.lastTime == after.lastTime && before.sequence < after.sequence)
  }

  // No later time is read, and the sequence of the last time is used up.
  ghost predicate Exhausted(c: Clock, readings: seq<int>)
  {
    forall k :: 0 <= k < |readings| ==> readings[k] <= c.lastTime && c.sequence + k + 1 >= SEQUENCE_SIZE
  }

  lemma {:induction false} CallAdvances(c: Clock, machine: nat, readings: seq<int>)
    ensures var (after, id) := Call(c, machine, readings);
            && (after == c || Advances(c, after))
            && (id.Some? ==>
                  && Advances(c, after) && after.sequence < SEQUENCE_SIZE
                  && id.value == Id(after.lastTime, machine, after.sequence))
            && (id.None? ==> after == Clock(c.lastTime, c.sequence + |readings|) && Exhausted(c, readings))
            && (after.lastTime == c.lastTime || after.lastTime in readings)
    decreases |readings|
  {
    hide Id;
    if readings != [] {
      var (next, id) := Pass(c, machine, readings[0]);
      if id.None? {
        CallAdvances(next, machine, readings[1..]);
        var (after, last) := Call(next, machine, readings[1..]);
        if last.None? {
          forall k | 0 <= k < |readings| ensures readings[k] <= c.lastTime && c.sequence + k + 1 >= SEQUENCE_SIZE {
            assert k > 0 ==> readings[k] == readings[1..][k - 1];
          }
        }
      }
    }
  }

  // Calls one after the other: the state they leave, and the ids they returned.
  function Calls(machine: nat, calls: seq<seq<int>>): (Clock, seq<nat>)
  {
    if calls == [] then (START, [])
    else
      var (c, ids) := Calls(machine, calls[..|calls| - 1]);
      var (after, id) := Call(c, machine, calls[|calls| - 1]);
      (after, if id.Some? then ids + [id.value] else ids)
  }

  ghost predicate Behind(id: nat, machine: nat, c: Clock)
  {
    exists t: nat, q: nat :: PackedFrom(id, machine, t, q) && (t < c.lastTime || (t == c.lastTime && q <= c.sequence))
  }

  predicate PackedFrom(id: nat, machine: nat, t: nat, q: nat)
  {
    q < SEQUENCE_SIZE && id == Id(t, machine, q)
  }

  lemma {:induction false} IdsBehind(machine: nat, calls: seq<seq<int>>, k: nat)
    requires machine < MACHINES && k < |Calls(machine, calls).1|
    ensures Behind(Calls(machine, calls).1[k], machine, Calls(machine, calls).0)
  {
    hide Id, Call;
    var front, last := calls[..|calls| - 1], calls[|calls| - 1];
    var (c, ids) := Calls(machine, front);
    var (after, id) := Call(c, machine, last);
    CallAdvances(c, machine, last);
    if k < |ids| {
      IdsBehind(machine, front, k);
      var t: nat, q: nat :| PackedFrom(ids[k], machine, t, q) &&
        (t < c.lastTime || (t == c.lastTime && q <= c.sequence));
      assert PackedFrom(Calls(machine, calls).1[k], machine, t, q);
    } else {
      assert PackedFrom(id.value, machine, after.lastTime, after.sequence);
    }
  }

  // Whatever the clock does, also backwards, calls that do not overlap return strictly
  // increasing ids.
  lemma {:induction false} IdsIncrease(machine: nat, calls: seq<seq<int>>, i: nat, j: nat)
    requires machine < MACHINES && i < j < |Calls(machine, calls).1|
    ensures Calls(machine, calls).1[i] < Calls(machine, calls).1[j]
  {
    hide Id, Call;
    var front, last := calls[..|calls| - 1], calls[|calls| - 1];
    var (c, ids) := Calls(machine, front);
    var (after, id) := Call(c, machine, last);
    if j < |ids| {
      IdsIncrease(machine, front, i, j);
    } else {
      CallAdvances(c, machine, last);
      IdsBehind(machine, front, i);
      var t: nat, q: nat :| PackedFrom(ids[i], machine, t, q) &&
        (t < c.lastTime || (t == c.lastTime && q <= c.sequence));
      IdsOrdered(t, q, after.lastTime, after.sequence, machine);
    }
  }

  // Generators with different machine ids never return the same id.
  lemma MachinesNeverCollide(m: nat, n: nat, a: seq<seq<int>>, b: seq<seq<int>>, i: nat, j: nat)
    requires m < MACHINES && n < MACHINES && m != n
    requires i < |Calls(m, a).1| && j < |Calls(n, b).1|
    ensures Calls(m, a).1[i] != Calls(n, b).1[j]
  {
    hide Id, Calls;
    IdsBehind(m, a, i);
    IdsBehind(n, b, j);
    var t: nat, q: nat :| PackedFrom(Calls(m, a).1[i], m, t, q);
    var u: nat, r: nat :| PackedFrom(Calls(n, b).1[j], n, u, r);
    IdDecodes(t, m, q);
    IdDecodes(u, n, r);
  }

  // While the clock stays below its limit, ids are non-negative 64-bit integers.
  lemma {:induction false} TimeStaysBelow(machine: nat, calls: seq<seq<int>>)
    requires forall k :: 0 <= k < |calls| ==> forall now :: now in calls[k] ==> now < TIME_LIMIT
    ensures Calls(machine, calls).0.lastTime < TIME_LIMIT
  {
    hide Call;
    if calls != [] {
      var front, last := calls[..|calls| - 1], calls[|calls| - 1];
      TimeStaysBelow(machine, front);
      CallAdvances(Calls(machine, front).0, machine, last);
      assert calls[|calls| - 1] == last;
    }
  }

  lemma IdsFit(machine: nat, calls: seq<seq<int>>, k: nat)
    requires machine < MACHINES && k < |Calls(machine, calls).1|
    requires forall k :: 0 <= k < |calls| ==> forall now :: now in calls[k] ==> now < TIME_LIMIT
    ensures Calls(machine, calls).1[k] < 0x8000_0000_0000_0000
  {
    hide Id, Calls;
    TimeStaysBelow(machine, calls);
    IdsBehind(machine, calls, k);
    var c := Calls(machine, calls).0;
    var t: nat, q: nat :| PackedFrom(Calls(machine, calls).1[k], machine, t, q) &&
                          (t < c.lastTime || (t == c.lastTime && q <= c.sequence));
    IdDecodes(t, machine, q);
  }
}
