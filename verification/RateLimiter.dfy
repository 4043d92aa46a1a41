// Model of http/httphelper/ratelimit.go: at most rate requests per key in a window that
// starts with the first request after the previous window has passed.
module RateLimiter {
  datatype Visitor = Visitor(count: int, resetAt: int)

  type Visitors = map<string, Visitor>

  datatype Config = Config(rate: int, window: int)

  // Requests and cleanup sweeps, each with the clock reading it sees.
  datatype Event = Request(key: string, time: int) | Sweep(time: int)

  // ---- one event ----

  predicate Expired(v: Visitor, now: int) { now > v.resetAt }

  predicate Allows(c: Config, vs: Visitors, key: string, now: int)
  {
    key !in vs || Expired(vs[key], now) || vs[key].count < c.rate
  }

  function AfterRequest(c: Config, vs: Visitors, key: string, now: int): Visitors
  {
    if key !in vs || Expired(vs[key], now) then vs[key := Visitor(1, now + c.window)]
    else if vs[key].count >= c.rate then vs
    else vs[key := vs[key].(count := vs[key].count + 1)]
  }

  function Swept(vs: Visitors, now: int): Visitors { map key | key in vs && !Expired(vs[key], now) :: vs[key] }

  class Limiter {
    const config: Config
    var visitors: Visitors

    constructor (config: Config)
      ensures this.config == config && visitors == map[]
    {
      this.config := config;
      visitors := map[];
    }

    method Allow(key: string, now: int) returns (ok: bool)
      modifies this
      ensures ok == Allows(config, old(visitors), key, now)
      ensures visitors == AfterRequest(config, old(visitors), key, now)
    {
      if key !in visitors || now > visitors[key].resetAt {
        visitors := visitors[key := Visitor(1, now + config.window)];
        return true;
      }
      if visitors[key].count >= config.rate { return false; }
      visitors := visitors[key := visitors[key].(count := visitors[key].count + 1)];
      return true;
    }

    method Cleanup(now: int)
      modifies this
      ensures visitors == Swept(old(visitors), now)
    {
      var todo := visitors.Keys;
      while todo != {}
        invariant todo <= old(visitors).Keys
        invariant visitors ==
                  map key | key in old(visitors) && (key in todo || !Expired(old(visitors)[key], now)) ::
                    old(visitors)[key]
        decreases todo
      {
        var key :| key in todo;
        todo := todo - {key};
        if now > visitors[key].resetAt {
          visitors := visitors - {key};
        }
      }
    }
  }

  // ---- runs ----

  function VisitorsAfter(c: Config, events: seq<Event>): Visitors
  {
    if events == [] then map[] else Next(c, VisitorsAfter(c, events[..|events| - 1]), events[|events| - 1])
  }

  function Next(c: Config, vs: Visitors, event: Event): Visitors
  {
    match event
    case Request(key, now) => AfterRequest(c, vs, key, now)
    case Sweep(now) => Swept(vs, now)
  }

  lemma Snoc(c: Config, events: seq<Event>, last: Event, key: string, from: int, to: int)
    ensures (events + [last])[..|events|] == events
    ensures VisitorsAfter(c, events + [last]) == Next(c, VisitorsAfter(c, events), last)
    ensures Admitted(c, events + [last], key, from, to) == Admitted(c, events, key, from, to) +
            if last.Request? && last.key == key && from <= last.time <= to && Answer(c, events, last) then 1 else 0
    ensures Requests(events + [last]) == Requests(events) + if last.Request? then [last] else []
  {
    assert (events + [last])[..|events|] == events;
  }

  // A limiter that goes through the events gives the answers of the run.
  method Replay(c: Config, events: seq<Event>) returns (answers: seq<bool>)
    ensures |answers| == |events|
    ensures forall k :: 0 <= k < |events| && events[k].Request? ==> answers[k] == Answer(c, events[..k], events[k])
  {
    var limiter := new Limiter(c);
    answers := [];
    for i := 0 to |events|
      invariant limiter.config == c && limiter.visitors == VisitorsAfter(c, events[..i]) && |answers| == i
      invariant forall k :: 0 <= k < i && events[k].Request? ==> answers[k] == Answer(c, events[..k], events[k])
    {
      assert events[..i + 1][..i] == events[..i];
      match events[i] {
        case Request(key, now) =>
          var ok := limiter.Allow(key, now);
          answers := answers + [ok];
        case Sweep(now) =>
          limiter.Cleanup(now);
          answers := answers + [true];
      }
    }
  }

  predicate Answer(c: Config, before: seq<Event>, request: Event)
    requires request.Request?
  {
    Allows(c, VisitorsAfter(c, before), request.key, request.time)
  }

  // The clock does not run backwards.
  predicate Ordered(events: seq<Event>) { forall i, j :: 0 <= i < j < |events| ==> events[i].time <= events[j].time }

  // The number of requests of a key admitted between two instants, both included.
  function Admitted(c: Config, events: seq<Event>, key: string, from: int, to: int): nat
  {
    if events == [] then 0
    else
      var front, last := events[..|events| - 1], events[|events| - 1];
      Admitted(c, front, key, from, to) +
      if last.Request? && last.key == key && from <= last.time <= to && Answer(c, front, last) then 1 else 0
  }

  // ---- sweeps do not matter ----

  function Requests(events: seq<Event>): seq<Event>
  {
    if events == [] then []
    else Requests(events[..|events| - 1]) + (if events[|events| - 1].Request? then [events[|events| - 1]] else [])
  }

  // The same visitors as far as requests from now on can tell.
  ghost predicate SameFrom(now: int, a: Visitors, b: Visitors)
  {
    forall key :: SameVisitor(now, a, b, key)
  }

  predicate SameVisitor(now: int, a: Visitors, b: Visitors, key: string)
  {
    if key in a && !Expired(a[key], now) then key in b && b[key] == a[key]
    else key !in b || Expired(b[key], now)
  }

  lemma StepSame(c: Config, a: Visitors, b: Visitors, event: Event, now: int)
    requires SameFrom(event.time, a, b) && event.time <= now
    ensures SameFrom(now, Next(c, a, event), if event.Request? then Next(c, b, event) else b)
  {
    var a', b' := Next(c, a, event), if event.Request? then Next(c, b, event) else b;
    forall key ensures SameVisitor(now, a', b', key) {
      assert SameVisitor(event.time, a, b, key);
      if event.Request? { assert SameVisitor(event.time, a, b, event.key); }
    }
  }

  lemma {:induction false} SweepsInvisible(c: Config, events: seq<Event>, now: int)
    requires Ordered(events) && forall k :: 0 <= k < |events| ==> events[k].time <= now
    ensures SameFrom(now, VisitorsAfter(c, events), VisitorsAfter(c, Requests(events)))
  {
    hide SameFrom, Next;
    if events != [] {
      var front, last := events[..|events| - 1], events[|events| - 1];
      SweepsInvisible(c, front, last.time);
      StepSame(c, VisitorsAfter(c, front), VisitorsAfter(c, Requests(front)), last, now);
      if last.Request? {
        assert (Requests(front) + [last])[..|Requests(front)|] == Requests(front);
      } else {
        assert Requests(events) == Requests(front);
      }
    } else {
      NoneSame(now);
    }
  }

  lemma NoneSame(now: int)
    ensures SameFrom(now, map[], map[])
  {
  }

  // Wherever cleanup sweeps fall in a run, every request gets the answer it would get
  // without them.
  lemma SweepsNeverChangeAnswers(c: Config, before: seq<Event>, request: Event)
    requires request.Request? && Ordered(before + [request])
    ensures Answer(c, before, request) == Answer(c, Requests(before), request)
  {
    OrderedFront(before, request);
    SweepsInvisible(c, before, request.time);
    assert SameVisitor(request.time, VisitorsAfter(c, before), VisitorsAfter(c, Requests(before)), request.key);
  }

  lemma {:induction false} SameAdmitted(c: Config, events: seq<Event>, key: string, from: int, to: int)
    requires Ordered(events)
    ensures Admitted(c, events, key, from, to) == Admitted(c, Requests(events), key, from, to)
  {
    hide Answer, Ordered;
    if events != [] {
      var front, last := events[..|events| - 1], events[|events| - 1];
      assert events == front + [last];
      OrderedFront(front, last);
      SameAdmitted(c, front, key, from, to);
      Snoc(c, front, last, key, from, to);
      if last.Request? {
        Snoc(c, Requests(front), last, key, from, to);
        SweepsNeverChangeAnswers(c, front, last);
      } else {
        assert Requests(events) == Requests(front);
      }
    }
  }

  lemma OrderedFront(front: seq<Event>, last: Event)
    requires Ordered(front + [last])
    ensures Ordered(front) && forall k :: 0 <= k < |front| ==> front[k].time <= last.time
  {
    var events := front + [last];
    assert forall k :: 0 <= k < |front| ==> front[k] == events[k];
    assert events[|front|] == last;
  }

  lemma {:induction false} RequestsOrdered(events: seq<Event>)
    requires Ordered(events)
    ensures Ordered(Requests(events)) && forall e :: e in Requests(events) ==> e.Request? && e in events
  {
    if events != [] {
      var front, last := events[..|events| - 1], events[|events| - 1];
      assert events == front + [last];
      OrderedFront(front, last);
      RequestsOrdered(front);
      forall i | 0 <= i < |Requests(front)| ensures Requests(front)[i].time <= last.time {
        assert Requests(front)[i] in front;
      }
    }
  }

  // ---- the bound ----

  // Where the admissions between from and from + window stand, given the current
  // window of the key.
  ghost predicate Bounded(c: Config, events: seq<Event>, key: string, from: int)
  {
    var vs := VisitorsAfter(c, events);
    var admitted := Admitted(c, events, key, from, from + c.window);
    && (events == [] || events[|events| - 1].time < from ==> admitted == 0)
    && (key !in vs ==> admitted == 0)
    && (key in vs ==>
          var start := vs[key].resetAt - c.window;
          && events != [] && start <= events[|events| - 1].time && 1 <= vs[key].count <= c.rate
          && (if start < from then admitted < vs[key].count
              else if start <= from + c.window then admitted < c.rate + vs[key].count
              else admitted < 2 * c.rate))
  }

  lemma NothingAdmitted(c: Config, key: string, from: int)
    ensures Bounded(c, [], key, from)
  {
  }

  lemma BoundKept(c: Config, front: seq<Event>, last: Event, key: string, from: int)
    requires c.rate >= 1 && c.window > 0 && last.Request? && (front == [] || front[|front| - 1].time <= last.time)
    requires Bounded(c, front, key, from)
    ensures Bounded(c, front + [last], key, from)
  {
    hide VisitorsAfter, Admitted;
    Snoc(c, front, last, key, from, from + c.window);
  }

  lemma {:induction false} RequestsBounded(c: Config, events: seq<Event>, key: string, from: int)
    requires c.rate >= 1 && c.window > 0 && Ordered(events) && forall e :: e in events ==> e.Request?
    ensures Bounded(c, events, key, from)
  {
    hide Bounded, Ordered;
    if events == [] {
      NothingAdmitted(c, key, from);
    } else {
      var front, last := events[..|events| - 1], events[|events| - 1];
      assert events == front + [last];
      OrderedFront(front, last);
      RequestsBounded(c, front, key, from);
      BoundKept(c, front, last, key, from);
    }
  }

  // Any closed interval as long as the window admits fewer than twice the rate.
  lemma AtMostTwiceTheRate(c: Config, events: seq<Event>, key: string, from: int)
    requires c.rate >= 1 && c.window > 0 && Ordered(events)
    ensures Admitted(c, events, key, from, from + c.window) <= 2 * c.rate - 1
  {
    hide Admitted, VisitorsAfter, Requests, Ordered;
    SameAdmitted(c, events, key, from, from + c.window);
    RequestsOrdered(events);
    RequestsBounded(c, Requests(events), key, from);
  }

  function Repeat(key: string, time: int, n: nat): seq<Event> { seq(n, _ => Request(key, time)) }

  // A burst within the current window is admitted as long as it fits.
  lemma {:induction false} BurstAdmitted(c: Config, before: seq<Event>, key: string, time: int, n: nat, from: int,
                                         to: int)
    requires from <= time <= to
    requires var vs := VisitorsAfter(c, before); key in vs && !Expired(vs[key], time) && vs[key].count + n <= c.rate
    ensures var v, events := VisitorsAfter(c, before)[key], before + Repeat(key, time, n);
            && Admitted(c, events, key, from, to) == Admitted(c, before, key, from, to) + n
            && key in VisitorsAfter(c, events) && VisitorsAfter(c, events)[key] == v.(count := v.count + n)
  {
    hide VisitorsAfter, Admitted;
    if n == 0 {
      assert before + Repeat(key, time, 0) == before;
    } else {
      BurstAdmitted(c, before, key, time, n - 1, from, to);
      var most := before + Repeat(key, time, n - 1);
      assert before + Repeat(key, time, n) == most + [Request(key, time)];
      Snoc(c, most, Request(key, time), key, from, to);
    }
  }

  lemma OneRequest(c: Config, before: seq<Event>, key: string, time: int, from: int, to: int)
    requires key !in VisitorsAfter(c, before) || Expired(VisitorsAfter(c, before)[key], time)
    ensures var events := before + [Request(key, time)];
            && key in VisitorsAfter(c, events) && VisitorsAfter(c, events)[key] == Visitor(1, time + c.window)
            && Admitted(c, events, key, from, to) ==
               Admitted(c, before, key, from, to) + if from <= time <= to then 1 else 0
  {
    Snoc(c, before, Request(key, time), key, from, to);
  }

  // One request opens a window, and the rest of its requests come at a later time.
  function Burst(c: Config, key: string, open: int, rest: int): seq<Event>
    requires c.rate >= 1
  {
    [Request(key, open)] + Repeat(key, rest, c.rate - 1)
  }

  lemma FullWindow(c: Config, before: seq<Event>, key: string, open: int, rest: int, from: int, to: int)
    requires c.rate >= 1 && open <= rest <= open + c.window && from <= rest <= to
    requires key !in VisitorsAfter(c, before) || Expired(VisitorsAfter(c, before)[key], open)
    ensures var events := before + Burst(c, key, open, rest);
            && Admitted(c, events, key, from, to) ==
               Admitted(c, before, key, from, to) + (if from <= open then 1 else 0) + c.rate - 1
            && key in VisitorsAfter(c, events) && VisitorsAfter(c, events)[key] == Visitor(c.rate, open + c.window)
  {
    hide VisitorsAfter, Admitted, Repeat;
    var started := before + [Request(key, open)];
    OneRequest(c, before, key, open, from, to);
    BurstAdmitted(c, started, key, rest, c.rate - 1, from, to);
    assert before + Burst(c, key, open, rest) == started + Repeat(key, rest, c.rate - 1);
  }

  lemma BurstsOrdered(c: Config, key: string)
    requires c.rate >= 1 && c.window > 0
    ensures Ordered(Burst(c, key, 0, c.window) + Burst(c, key, c.window + 1, c.window + 1))
  {
  }

  lemma NothingYet(c: Config, key: string, from: int, to: int)
    ensures VisitorsAfter(c, []) == map[] && Admitted(c, [], key, from, to) == 0
  {
  }

  // The bound is reached by a window used up at its very end and a full new window
  // right after it.
  lemma TwiceTheRateReached(c: Config, key: string)
    requires c.rate >= 1 && c.window > 0
    ensures var events := Burst(c, key, 0, c.window) + Burst(c, key, c.window + 1, c.window + 1);
            Ordered(events) && Admitted(c, events, key, 1, 1 + c.window) == 2 * c.rate - 1
  {
    hide VisitorsAfter, Admitted, Burst, Ordered;
    BurstsOrdered(c, key);
    NothingYet(c, key, 1, 1 + c.window);
    FullWindow(c, [], key, 0, c.window, 1, 1 + c.window);
    assert [] + Burst(c, key, 0, c.window) == Burst(c, key, 0, c.window);
    FullWindow(c, Burst(c, key, 0, c.window), key, c.window + 1, c.window + 1, 1, 1 + c.window);
  }

  // ---- no needless rejection ----

  // The current window of a key started with a request, and has admitted as many as it
  // counts.
  ghost predicate Counted(c: Config, events: seq<Event>, key: string, to: int)
  {
    var vs := VisitorsAfter(c, events);
    key in vs ==>
      var start := vs[key].resetAt - c.window;
      && (events != [] && start <= events[|events| - 1].time)
      && vs[key].count <= Admitted(c, events, key, start, to)
  }

  lemma NothingCounted(c: Config, key: string, to: int)
    ensures Counted(c, [], key, to)
  {
  }

  lemma CountKept(c: Config, front: seq<Event>, last: Event, key: string, to: int)
    requires c.window >= 0 && (front == [] || front[|front| - 1].time <= last.time) && last.time <= to
    requires Counted(c, front, key, to)
    ensures Counted(c, front + [last], key, to)
  {
    hide Admitted, VisitorsAfter;
    if key in VisitorsAfter(c, front + [last]) {
      Snoc(c, front, last, key, VisitorsAfter(c, front + [last])[key].resetAt - c.window, to);
    } else {
      Snoc(c, front, last, key, 0, to);
    }
  }

  lemma {:induction false} WindowsCount(c: Config, events: seq<Event>, key: string, to: int)
    requires c.window >= 0 && Ordered(events) && forall k :: 0 <= k < |events| ==> events[k].time <= to
    ensures Counted(c, events, key, to)
  {
    hide Counted, Ordered;
    if events != [] {
      var front, last := events[..|events| - 1], events[|events| - 1];
      assert events == front + [last];
      OrderedFront(front, last);
      assert events[|events| - 1].time <= to;
      WindowsCount(c, front, key, to);
      CountKept(c, front, last, key, to);
    } else {
      NothingCounted(c, key, to);
    }
  }

  // A request is turned away only when the window that ends with it has admitted the
  // full rate.
  lemma RejectedOnlyWhenFull(c: Config, before: seq<Event>, request: Event)
    requires c.rate >= 1 && c.window > 0 && request.Request? && Ordered(before + [request])
    requires !Answer(c, before, request)
    ensures Admitted(c, before, request.key, request.time - c.window, request.time) >= c.rate
  {
    var key, now := request.key, request.time;
    OrderedFront(before, request);
    WindowsCount(c, before, key, now);
    var start := VisitorsAfter(c, before)[key].resetAt - c.window;
    AdmittedWidens(c, before, key, start, now - c.window, now);
  }

  lemma {:induction false} AdmittedWidens(c: Config, events: seq<Event>, key: string, from: int, earlier: int, to: int)
    requires earlier <= from
    ensures Admitted(c, events, key, from, to) <= Admitted(c, events, key, earlier, to)
  {
    if events != [] { AdmittedWidens(c, events[..|events| - 1], key, from, earlier, to); }
  }
}
