// Model of mq/internal/mqsp/advanced_consumer.go: a consumer that puts failed messages
// back on their topic a limited number of times and then on a dead-letter topic.
module RetryConsumer {
  import opened Outcomes
  import opened Values

  const COUNT_HEADER := "x-retry-count"
  const ORIGIN_HEADER := "x-original-topic"
  const BATCH_SIZE := 100

  datatype Header = Header(key: string, value: string)

  // Header pointers can be nil.
  datatype Message = Message(topic: string, key: string, value: string, headers: seq<Option<Header>>)

  // ---- the retry count ----

  // strconv.Atoi with its error ignored: 0 for what is not a number, and the nearest
  // int64 for a number out of range.
  function Atoi(s: string): int64
  {
    var signed := s != [] && (s[0] == '-' || s[0] == '+');
    var digits := if signed then s[1..] else s;
    if digits == [] || !AllDigits(digits) then 0
    else if signed && s[0] == '-' then
      if Magnitude(digits) > TWO63 then -TWO63 else -(Magnitude(digits) as int)
    else if Magnitude(digits) >= TWO63 then TWO63 - 1
    else Magnitude(digits)
  }

  lemma AtoiReadsNumbers(s: string)
    requires ParseInt(s).Some?
    ensures Atoi(s) == ParseInt(s).value
  {
  }

  // What does not read as a number counts as 0; a number beyond int64 as the nearest one.
  lemma AtoiExactly(s: string)
    ensures ParseInt(s).Some? ==> Atoi(s) == ParseInt(s).value
    ensures ParseInt(s).None? ==>
              Atoi(s) == if !Decimal(s) then 0 else if s[0] == '-' then -TWO63 else TWO63 - 1
  {
    hide Magnitude;
    if s != "" && s[0] != '-' && s[0] != '+' && Decimal(s) { assert Unsigned(s) == s; }
  }

  // An optional sign and one or more digits.
  predicate Decimal(s: string) { Unsigned(s) != "" && AllDigits(Unsigned(s)) }

  function Unsigned(s: string): string { if s != "" && s[0] in {'-', '+'} then s[1..] else s }

  predicate IsCount(h: Option<Header>) { h.Some? && h.value.key == COUNT_HEADER }

  function CountIn(headers: seq<Option<Header>>): int64
  {
    if headers == [] then 0 else if IsCount(headers[0]) then Atoi(headers[0].value.value) else CountIn(headers[1..])
  }

  // The first count header decides.
  method GetRetryCount(msg: Message) returns (count: int64)
    ensures count == CountIn(msg.headers)
  {
    for i := 0 to |msg.headers|
      invariant CountIn(msg.headers) == CountIn(msg.headers[i..])
    {
      if IsCount(msg.headers[i]) { return Atoi(msg.headers[i].value.value); }
      assert msg.headers[i..][1..] == msg.headers[i + 1..];
    }
    return 0;
  }

  // ---- the messages sent on failure ----

  function NonNil(headers: seq<Option<Header>>): seq<Option<Header>>
  {
    if headers == [] then []
    else NonNil(headers[..|headers| - 1]) + (if headers[|headers| - 1].Some? then headers[|headers| - 1..] else [])
  }

  // The application's headers: everything but nil and the count.
  function Others(headers: seq<Option<Header>>): seq<Option<Header>>
  {
    if headers == [] then []
    else
      var last := headers[|headers| - 1];
      Others(headers[..|headers| - 1]) + (if last.Some? && !IsCount(last) then [last] else [])
  }

  function Retry(raw: Message, count: int64): Message
  {
    raw.(headers := [Some(Header(COUNT_HEADER, FormatInt(count)))] + Others(raw.headers))
  }

  function DeadLetter(raw: Message, dlqTopic: string): Message
  {
    raw.(topic := dlqTopic, headers := [Some(Header(ORIGIN_HEADER, raw.topic))] + NonNil(raw.headers))
  }

  lemma {:induction false} OthersAppend(a: seq<Option<Header>>, b: seq<Option<Header>>)
    ensures Others(a + b) == Others(a) + Others(b)
  {
    if b != [] {
      var n := |b| - 1;
      assert (a + b)[..|a + b| - 1] == a + b[..n];
      OthersAppend(a, b[..n]);
    } else {
      assert a + b == a;
    }
  }

  lemma OthersOfOthers(headers: seq<Option<Header>>)
    ensures Others(Others(headers)) == Others(headers)
    ensures Others(NonNil(headers)) == Others(headers)
    ensures forall k :: 0 <= k < |Others(headers)| ==> Others(headers)[k].Some? && !IsCount(Others(headers)[k])
  {
    OthersHold(headers);
    OthersOfNonNil(headers);
    OthersKept(Others(headers));
  }

  lemma {:induction false} OthersHold(headers: seq<Option<Header>>)
    ensures forall k :: 0 <= k < |Others(headers)| ==> Others(headers)[k].Some? && !IsCount(Others(headers)[k])
  {
    hide IsCount;
    if headers != [] { OthersHold(headers[..|headers| - 1]); }
  }

  lemma {:induction false} OthersKept(headers: seq<Option<Header>>)
    requires forall k :: 0 <= k < |headers| ==> headers[k].Some? && !IsCount(headers[k])
    ensures Others(headers) == headers
  {
    hide IsCount;
    if headers != [] {
      OthersKept(headers[..|headers| - 1]);
      assert headers == headers[..|headers| - 1] + [headers[|headers| - 1]];
    }
  }

  lemma {:induction false} OthersOfNonNil(headers: seq<Option<Header>>)
    ensures Others(NonNil(headers)) == Others(headers)
  {
    hide IsCount;
    if headers != [] {
      var last := headers[|headers| - 1];
      OthersOfNonNil(headers[..|headers| - 1]);
      assert headers[|headers| - 1..] == [last];
      OthersOfOne(last);
      OthersAppend(NonNil(headers[..|headers| - 1]), if last.Some? then [last] else []);
    }
  }

  lemma OthersOfOne(last: Option<Header>)
    ensures Others([last]) == if last.Some? && !IsCount(last) then [last] else []
    ensures Others([]) == []
  {
    assert [last][..0] == [];
  }

  // The count survives a round trip through the topic, under one header only, and the
  // other headers keep their order.
  lemma RetryRoundTrip(raw: Message, count: int64)
    ensures CountIn(Retry(raw, count).headers) == count
    ensures Others(Retry(raw, count).headers) == Others(raw.headers)
    ensures forall k :: 0 < k < |Retry(raw, count).headers| ==> !IsCount(Retry(raw, count).headers[k])
  {
    ParseFormat(count);
    AtoiReadsNumbers(FormatInt(count));
    var first := [Some(Header(COUNT_HEADER, FormatInt(count)))];
    OthersAppend(first, Others(raw.headers));
    OthersOfOthers(raw.headers);
    assert first[..0] == [];
  }

  lemma {:induction false} CountSkips(a: seq<Option<Header>>, b: seq<Option<Header>>)
    requires forall k :: 0 <= k < |a| ==> !IsCount(a[k])
    ensures CountIn(a + b) == CountIn(b)
  {
    if a != [] {
      assert (a + b)[1..] == a[1..] + b;
      CountSkips(a[1..], b);
    } else {
      assert a + b == b;
    }
  }

  lemma {:induction false} CountFound(a: seq<Option<Header>>, b: seq<Option<Header>>)
    requires exists k :: 0 <= k < |a| && IsCount(a[k])
    ensures CountIn(a + b) == CountIn(a)
  {
    if !IsCount(a[0]) {
      assert (a + b)[1..] == a[1..] + b;
      var k :| 0 <= k < |a| && IsCount(a[k]);
      assert a[1..][k - 1] == a[k];
      CountFound(a[1..], b);
    }
  }

  lemma {:induction false} CountOfNonNil(headers: seq<Option<Header>>)
    ensures CountIn(NonNil(headers)) == CountIn(headers)
    ensures (exists k :: 0 <= k < |headers| && IsCount(headers[k])) <==>
            (exists k :: 0 <= k < |NonNil(headers)| && IsCount(NonNil(headers)[k]))
  {
    if headers != [] {
      var front, last := headers[..|headers| - 1], headers[|headers| - 1];
      CountOfNonNil(front);
      assert headers == front + [last] && headers[|headers| - 1..] == [last];
      var kept := if last.Some? then [last] else [];
      assert NonNil(headers) == NonNil(front) + kept;
      if k :| 0 <= k < |front| && IsCount(front[k]) {
        CountFound(front, [last]);
        CountFound(NonNil(front), kept);
        assert IsCount(headers[k]);
        var j :| 0 <= j < |NonNil(front)| && IsCount(NonNil(front)[j]);
        assert IsCount(NonNil(headers)[j]);
      } else {
        CountSkips(front, [last]);
        CountSkips(NonNil(front), kept);
        assert [last][1..] == [];
        if IsCount(last) {
          assert IsCount(NonNil(headers)[|NonNil(front)|]) && IsCount(headers[|headers| - 1]);
        }
      }
    }
  }

  // A dead letter carries its topic of origin and the headers as they last were.
  lemma DeadLetterKeeps(raw: Message, dlqTopic: string)
    ensures CountIn(DeadLetter(raw, dlqTopic).headers) == CountIn(raw.headers)
    ensures Others(DeadLetter(raw, dlqTopic).headers) == [Some(Header(ORIGIN_HEADER, raw.topic))] + Others(raw.headers)
  {
    hide CountIn, Others, NonNil;
    var first := Some(Header(ORIGIN_HEADER, raw.topic));
    OneOther(first);
    OthersAppend([first], NonNil(raw.headers));
    OthersOfOthers(raw.headers);
    CountSkips([first], NonNil(raw.headers));
    CountOfNonNil(raw.headers);
  }

  lemma OneOther(h: Option<Header>)
    requires h.Some? && !IsCount(h)
    ensures Others([h]) == [h]
  {
    assert [h][..0] == [];
  }

  // ---- what the handler sends ----

  datatype Config = Config(maxRetries: int64, dlqTopic: string) {
    // Without retries and dead letters there is no producer.
    predicate HasProducer() { dlqTopic != "" || maxRetries > 0 }
  }

  // The messages accepted by the broker so far, and the number of sends tried.
  datatype Log = Log(sent: seq<Message>, attempts: nat)

  type Broker = nat -> bool

  function Send(broker: Broker, log: Log, m: Message): Log
  {
    Log(if broker(log.attempts) then log.sent + [m] else log.sent, log.attempts + 1)
  }

  function AfterDLQ(c: Config, broker: Broker, raw: Message, log: Log): Log
  {
    if !c.HasProducer() || c.dlqTopic == "" then log else Send(broker, log, DeadLetter(raw, c.dlqTopic))
  }

  function AfterFailure(c: Config, broker: Broker, raw: Message, log: Log): Log
  {
    var count := CountIn(raw.headers);
    if count < c.maxRetries then
      if c.HasProducer() then
        var tried := Send(broker, log, Retry(raw, count + 1));
        if broker(log.attempts) then tried else AfterDLQ(c, broker, raw, tried)
      else AfterDLQ(c, broker, raw, log)
    else if c.dlqTopic != "" then AfterDLQ(c, broker, raw, log)
    else log
  }

  function AfterFailures(c: Config, broker: Broker, batch: seq<Message>, log: Log): Log
  {
    if batch == [] then log
    else AfterFailure(c, broker, batch[|batch| - 1], AfterFailures(c, broker, batch[..|batch| - 1], log))
  }

  function AfterBatches(c: Config, broker: Broker, batches: seq<seq<Message>>, verdicts: nat -> bool, log: Log): Log
  {
    if batches == [] then log
    else
      var n := |batches| - 1;
      var before := AfterBatches(c, broker, batches[..n], verdicts, log);
      if verdicts(n) then before else AfterFailures(c, broker, batches[n], before)
  }

  function Flatten(batches: seq<seq<Message>>): seq<Message>
  {
    if batches == [] then [] else Flatten(batches[..|batches| - 1]) + batches[|batches| - 1]
  }

  class Handler {
    const config: Config
    const broker: Broker
    var sent: seq<Message>
    var attempts: nat
    var marked: seq<Message>

    constructor (config: Config, broker: Broker)
      ensures this.config == config && this.broker == broker && SentLog() == Log([], 0) && marked == []
    {
      this.config, this.broker := config, broker;
      sent, attempts, marked := [], 0, [];
    }

    function SentLog(): Log
      reads this
    {
      Log(sent, attempts)
    }

    method SendMessage(m: Message) returns (ok: bool)
      modifies this
      ensures ok == broker(old(attempts)) && SentLog() == Send(broker, old(SentLog()), m) && marked == old(marked)
    {
      ok := broker(attempts);
      attempts := attempts + 1;
      if ok { sent := sent + [m]; }
    }

    method SendRetry(raw: Message, count: int64) returns (ok: bool)
      modifies this
      ensures ok == (config.HasProducer() && broker(old(attempts))) && marked == old(marked)
      ensures SentLog() ==
              if config.HasProducer() then Send(broker, old(SentLog()), Retry(raw, count)) else old(SentLog())
    {
      if !config.HasProducer() { return false; }
      var headers := [Some(Header(COUNT_HEADER, FormatInt(count)))];
      for i := 0 to |raw.headers|
        invariant headers == [Some(Header(COUNT_HEADER, FormatInt(count)))] + Others(raw.headers[..i])
        invariant SentLog() == old(SentLog()) && marked == old(marked)
      {
        assert raw.headers[..i + 1][..i] == raw.headers[..i];
        if raw.headers[i].Some? && raw.headers[i].value.key != COUNT_HEADER {
          headers := headers + [raw.headers[i]];
        }
      }
      assert raw.headers[..|raw.headers|] == raw.headers;
      ok := SendMessage(Message(raw.topic, raw.key, raw.value, headers));
    }

    // Whether the broker took the dead letter is not looked at.
    method SendDLQ(raw: Message)
      modifies this
      ensures SentLog() == AfterDLQ(config, broker, raw, old(SentLog())) && marked == old(marked)
    {
      if !config.HasProducer() || config.dlqTopic == "" { return; }
      var headers := [Some(Header(ORIGIN_HEADER, raw.topic))];
      for i := 0 to |raw.headers|
        invariant headers == [Some(Header(ORIGIN_HEADER, raw.topic))] + NonNil(raw.headers[..i])
        invariant SentLog() == old(SentLog()) && marked == old(marked)
      {
        assert raw.headers[..i + 1][..i] == raw.headers[..i];
        if raw.headers[i].Some? {
          headers := headers + [raw.headers[i]];
        }
      }
      assert raw.headers[..|raw.headers|] == raw.headers;
      var _ := SendMessage(Message(config.dlqTopic, raw.key, raw.value, headers));
    }

    method HandleFailure(raw: Message)
      modifies this
      ensures SentLog() == AfterFailure(config, broker, raw, old(SentLog())) && marked == old(marked)
    {
      var count := GetRetryCount(raw);
      if count < config.maxRetries {
        var ok := SendRetry(raw, count + 1);
        if !ok { SendDLQ(raw); }
      } else if config.dlqTopic != "" {
        SendDLQ(raw);
      }
    }

    // Messages one at a time, until the claim ends.
    method ConsumeClaimSingle(messages: seq<Message>, verdicts: nat -> bool)
      modifies this
      ensures marked == old(marked) + messages
      ensures SentLog() == AfterBatches(config, broker, Singles(messages), verdicts, old(SentLog()))
    {
      hide AfterBatches, AfterFailure, Singles;
      NoSingles(config, broker, messages, verdicts, SentLog());
      for i := 0 to |messages|
        invariant marked == old(marked) + messages[..i]
        invariant SentLog() == AfterBatches(config, broker, Singles(messages[..i]), verdicts, old(SentLog()))
      {
        NextSingle(config, broker, messages, i, verdicts, old(SentLog()));
        if !verdicts(i) { HandleFailure(messages[i]); }
        marked := marked + [messages[i]];
      }
      assert messages[..|messages|] == messages;
    }

    // Batches of what is at hand, at least one and at most BATCH_SIZE messages; ready
    // says how many more there are when the n-th batch is drained.
    method ConsumeClaimBatch(messages: seq<Message>, ready: nat -> nat, verdicts: nat -> bool)
        returns (ghost batches: seq<seq<Message>>)
      modifies this
      ensures marked == old(marked) + messages && Flatten(batches) == messages
      ensures forall k :: 0 <= k < |batches| ==> 1 <= |batches[k]| <= BATCH_SIZE
      ensures SentLog() == AfterBatches(config, broker, batches, verdicts, old(SentLog()))
    {
      hide AfterBatches, AfterFailures, Flatten;
      batches := [];
      NoBatches(config, broker, verdicts, SentLog());
      var next, n: nat := 0, 0;
      while next < |messages|
        invariant next <= |messages| && n == |batches| && Flatten(batches) == messages[..next]
        invariant marked == old(marked) + messages[..next]
        invariant forall k :: 0 <= k < |batches| ==> 1 <= |batches[k]| <= BATCH_SIZE
        invariant SentLog() == AfterBatches(config, broker, batches, verdicts, old(SentLog()))
      {
        var more := Min(Min(ready(n), BATCH_SIZE - 1), |messages| - next - 1);
        var batch := messages[next..next + 1 + more];
        NextBatch(config, broker, batches, batch, verdicts, old(SentLog()));
        if !verdicts(n) { HandleFailures(batch); }
        marked := marked + batch;
        assert messages[..next] + batch == messages[..next + 1 + more];
        batches := batches + [batch];
        next := next + 1 + more;
        n := n + 1;
      }
      assert messages[..|messages|] == messages;
    }

    method HandleFailures(batch: seq<Message>)
      modifies this
      ensures SentLog() == AfterFailures(config, broker, batch, old(SentLog())) && marked == old(marked)
    {
      for i := 0 to |batch|
        invariant SentLog() == AfterFailures(config, broker, batch[..i], old(SentLog())) && marked == old(marked)
      {
        assert batch[..i + 1][..i] == batch[..i];
        HandleFailure(batch[i]);
      }
      assert batch[..|batch|] == batch;
    }
  }

  lemma NoSingles(c: Config, broker: Broker, messages: seq<Message>, verdicts: nat -> bool, log: Log)
    ensures AfterBatches(c, broker, Singles(messages[..0]), verdicts, log) == log
  {
  }

  lemma NextSingle(c: Config, broker: Broker, messages: seq<Message>, i: nat, verdicts: nat -> bool, log: Log)
    requires i < |messages|
    ensures messages[..i + 1] == messages[..i] + [messages[i]]
    ensures AfterBatches(c, broker, Singles(messages[..i + 1]), verdicts, log) ==
            var before := AfterBatches(c, broker, Singles(messages[..i]), verdicts, log);
            if verdicts(i) then before else AfterFailure(c, broker, messages[i], before)
  {
    hide AfterFailure;
    assert Singles(messages[..i + 1])[..i] == Singles(messages[..i]);
    OneFailure(c, broker, messages[i], AfterBatches(c, broker, Singles(messages[..i]), verdicts, log));
  }

  lemma NoBatches(c: Config, broker: Broker, verdicts: nat -> bool, log: Log)
    ensures AfterBatches(c, broker, [], verdicts, log) == log && Flatten([]) == []
  {
  }

  lemma NextBatch(c: Config, broker: Broker, batches: seq<seq<Message>>, batch: seq<Message>, verdicts: nat -> bool,
                  log: Log)
    ensures Flatten(batches + [batch]) == Flatten(batches) + batch
    ensures AfterBatches(c, broker, batches + [batch], verdicts, log) ==
            var before := AfterBatches(c, broker, batches, verdicts, log);
            if verdicts(|batches|) then before else AfterFailures(c, broker, batch, before)
  {
    assert (batches + [batch])[..|batches|] == batches;
  }

  function Min(a: nat, b: nat): nat { if a < b then a else b }

  function Singles(messages: seq<Message>): seq<seq<Message>>
  {
    seq(|messages|, k requires 0 <= k < |messages| => [messages[k]])
  }

  lemma OneFailure(c: Config, broker: Broker, m: Message, log: Log)
    ensures AfterFailures(c, broker, [m], log) == AfterFailure(c, broker, m, log)
  {
    assert [m][..0] == [];
  }

  // ---- where a failed message ends up ----

  datatype Fate = Requeued(again: Message) | DeadLettered(letter: Message) | Dropped

  function Tries(c: Config, broker: Broker, raw: Message, attempts: nat): nat
  {
    AfterFailure(c, broker, raw, Log([], attempts)).attempts
  }

  // What was sent for one failed message decides its fate.
  function FateOf(c: Config, broker: Broker, raw: Message, attempts: nat): Fate
  {
    var sent := AfterFailure(c, broker, raw, Log([], attempts)).sent;
    if sent == [] then Dropped
    else if CountIn(raw.headers) < c.maxRetries && broker(attempts) then Requeued(sent[0])
    else DeadLettered(sent[0])
  }

  // At most one message is sent: the next try, or the dead letter.
  lemma FailureSendsOne(c: Config, broker: Broker, raw: Message, log: Log)
    ensures AfterFailure(c, broker, raw, log).attempts == Tries(c, broker, raw, log.attempts)
    ensures AfterFailure(c, broker, raw, log).sent == log.sent +
            match FateOf(c, broker, raw, log.attempts)
            case Requeued(m) => [m]
            case DeadLettered(m) => [m]
            case Dropped => []
    ensures match FateOf(c, broker, raw, log.attempts)
            case Requeued(m) => CountIn(raw.headers) < c.maxRetries && m == Retry(raw, CountIn(raw.headers) + 1)
            case DeadLettered(m) => c.dlqTopic != "" && m == DeadLetter(raw, c.dlqTopic)
            case Dropped => true
  {
    hide CountIn, Retry, DeadLetter;
  }

  // A message is dropped exactly when no send that was due succeeded.
  lemma DroppedExactly(c: Config, broker: Broker, raw: Message, attempts: nat)
    ensures FateOf(c, broker, raw, attempts) == Dropped <==>
            var retrying := CountIn(raw.headers) < c.maxRetries && c.HasProducer();
            && (retrying ==> !broker(attempts))
            && (c.dlqTopic != "" ==> !broker(if retrying then attempts + 1 else attempts))
  {
    hide CountIn, Retry, DeadLetter;
  }

  // Retried exactly below the limit, when there is a producer and the broker takes the
  // message; otherwise dead-lettered exactly when there is a topic for it and the broker
  // takes that message, the second one if a retry was tried before.
  lemma FateExactly(c: Config, broker: Broker, raw: Message, attempts: nat)
    ensures var retrying := CountIn(raw.headers) < c.maxRetries && c.HasProducer();
            var retried := retrying && broker(attempts);
            var buried := !retried && c.dlqTopic != "" && broker(if retrying then attempts + 1 else attempts);
            FateOf(c, broker, raw, attempts) ==
            if retried then Requeued(Retry(raw, CountIn(raw.headers) + 1))
            else if buried then DeadLettered(DeadLetter(raw, c.dlqTopic))
            else Dropped
  {
    hide CountIn, Retry, DeadLetter;
  }

  // ---- runs ----

  // A message on the topic and the original it stands for.
  datatype Item = Item(origin: nat, msg: Message)

  datatype World = World(
    topic: seq<Item>,
    succeeded: multiset<nat>,
    dead: seq<Item>,
    dropped: multiset<nat>,
    processed: multiset<nat>,
    attempts: nat)

  function Start(items: seq<Item>): World { World(items, multiset{}, [], multiset{}, multiset{}, 0) }

  function Origins(items: seq<Item>): multiset<nat>
  {
    if items == [] then multiset{} else Origins(items[..|items| - 1]) + multiset{items[|items| - 1].origin}
  }

  function FailItem(c: Config, broker: Broker, w: World, item: Item): World
  {
    var after := w.(attempts := Tries(c, broker, item.msg, w.attempts));
    match FateOf(c, broker, item.msg, w.attempts)
    case Requeued(m) => after.(topic := w.topic + [Item(item.origin, m)])
    case DeadLettered(m) => after.(dead := w.dead + [Item(item.origin, m)])
    case Dropped => after.(dropped := w.dropped + multiset{item.origin})
  }

  function FailItems(c: Config, broker: Broker, w: World, items: seq<Item>): World
  {
    if items == [] then w
    else FailItem(c, broker, FailItems(c, broker, w, items[..|items| - 1]), items[|items| - 1])
  }

  function Messages(items: seq<Item>): seq<Message>
  {
    seq(|items|, k requires 0 <= k < |items| => items[k].msg)
  }

  // The steps of a run send what the handler sends: the messages that newly appear on
  // the topic and among the dead letters.
  ghost predicate SendsAs(w: World, after: World, sent: seq<Message>, log: Log)
  {
    && after.attempts == log.attempts && w.topic <= after.topic && w.dead <= after.dead
    && multiset(log.sent) ==
       multiset(sent) + multiset(Messages(after.topic[|w.topic|..])) + multiset(Messages(after.dead[|w.dead|..]))
  }

  lemma {:induction false} RunSendsWhatHandlerSends(c: Config, broker: Broker, w: World, items: seq<Item>,
                                                    sent: seq<Message>)
    ensures SendsAs(w, FailItems(c, broker, w, items), sent,
                    AfterFailures(c, broker, Messages(items), Log(sent, w.attempts)))
  {
    hide AfterFailure, FailItem;
    if items == [] {
      hide SendsAs;
      NothingSent(w, sent);
    } else {
      var front, last := items[..|items| - 1], items[|items| - 1];
      RunSendsWhatHandlerSends(c, broker, w, front, sent);
      assert Messages(items)[..|items| - 1] == Messages(front);
      OneMoreSent(c, broker, w, FailItems(c, broker, w, front), sent,
                  AfterFailures(c, broker, Messages(front), Log(sent, w.attempts)), last);
    }
  }

  lemma NothingSent(w: World, sent: seq<Message>)
    ensures SendsAs(w, w, sent, Log(sent, w.attempts))
  {
  }

  lemma OneMoreSent(c: Config, broker: Broker, w: World, before: World, sent: seq<Message>, log: Log, item: Item)
    requires SendsAs(w, before, sent, log)
    ensures SendsAs(w, FailItem(c, broker, before, item), sent, AfterFailure(c, broker, item.msg, log))
  {
    hide AfterFailure, FateOf, Tries, Messages;
    FailureSendsOne(c, broker, item.msg, log);
    match FateOf(c, broker, item.msg, before.attempts)
    case Requeued(m) => Appended(w.topic, before.topic, Item(item.origin, m));
    case DeadLettered(m) => Appended(w.dead, before.dead, Item(item.origin, m));
    case Dropped =>
  }

  lemma Appended(start: seq<Item>, before: seq<Item>, more: Item)
    requires start <= before
    ensures Messages((before + [more])[|start|..]) == Messages(before[|start|..]) + [more.msg]
  {
    assert (before + [more])[|start|..] == before[|start|..] + [more];
  }

  // The broker hands over some messages, in any order; the processor accepts or
  // rejects them together. One at a time is the case of one message.
  datatype Delivery = Delivery(order: seq<Item>, taken: nat, ok: bool)

  predicate CanDeliver(w: World, d: Delivery)
  {
    multiset(d.order) == multiset(w.topic) && 0 < d.taken <= |d.order|
  }

  function Deliver(c: Config, broker: Broker, w: World, d: Delivery): World
    requires CanDeliver(w, d)
  {
    var batch := d.order[..d.taken];
    var handed := w.(topic := d.order[d.taken..], processed := w.processed + Origins(batch));
    if d.ok then handed.(succeeded := w.succeeded + Origins(batch)) else FailItems(c, broker, handed, batch)
  }

  ghost predicate Run(c: Config, broker: Broker, items: seq<Item>, ds: seq<Delivery>, w: World)
    decreases |ds|
  {
    if ds == [] then w == Start(items)
    else exists before :: RunStep(c, broker, items, ds, before, w)
  }

  ghost predicate RunStep(c: Config, broker: Broker, items: seq<Item>, ds: seq<Delivery>, before: World, w: World)
    requires ds != []
    decreases |ds|, 0
  {
    var last := ds[|ds| - 1];
    Run(c, broker, items, ds[..|ds| - 1], before) && CanDeliver(before, last) && w == Deliver(c, broker, before, last)
  }

  // Every original, wherever it is.
  function Everything(w: World): multiset<nat>
  {
    Origins(w.topic) + w.succeeded + Origins(w.dead) + w.dropped
  }

  // How often a message can still be processed.
  function Budget(c: Config, m: Message): nat
  {
    if CountIn(m.headers) < c.maxRetries then c.maxRetries - CountIn(m.headers) + 1 else 1
  }

  // Each original as often as its messages in the list can still be processed.
  function Budgets(c: Config, items: seq<Item>): multiset<nat>
  {
    if items == [] then multiset{}
    else
      var last := items[|items| - 1];
      Budgets(c, items[..|items| - 1]) + multiset{}[last.origin := Budget(c, last.msg)]
  }

  lemma {:induction false} OriginsAppend(a: seq<Item>, b: seq<Item>)
    ensures Origins(a + b) == Origins(a) + Origins(b)
  {
    if b != [] {
      assert (a + b)[..|a + b| - 1] == a + b[..|b| - 1];
      OriginsAppend(a, b[..|b| - 1]);
    } else {
      assert a + b == a;
    }
  }

  lemma {:induction false} BudgetsAppend(c: Config, a: seq<Item>, b: seq<Item>)
    ensures Budgets(c, a + b) == Budgets(c, a) + Budgets(c, b)
  {
    hide Budget;
    if b != [] {
      assert (a + b)[..|a + b| - 1] == a + b[..|b| - 1];
      BudgetsAppend(c, a, b[..|b| - 1]);
    } else {
      assert a + b == a;
    }
  }

  lemma Cancel(a: multiset<Item>, b: multiset<Item>, x: multiset<Item>)
    requires a + x == b + x
    ensures a == b
  {
    forall i ensures a[i] == b[i] { assert (a + x)[i] == (b + x)[i]; }
  }

  // Order does not matter.
  lemma {:induction false} Reordered(c: Config, a: seq<Item>, b: seq<Item>)
    requires multiset(a) == multiset(b)
    ensures Origins(a) == Origins(b) && Budgets(c, a) == Budgets(c, b)
  {
    hide Budget, Origins, Budgets;
    if a != [] {
      var front, last := a[..|a| - 1], a[|a| - 1];
      assert a == front + [last];
      assert last in multiset(b);
      var k :| 0 <= k < |b| && b[k] == last;
      var rest := b[..k] + b[k + 1..];
      assert b == b[..k] + ([last] + b[k + 1..]);
      assert multiset(b) == multiset(rest) + multiset{last};
      Cancel(multiset(front), multiset(rest), multiset{last});
      Reordered(c, front, rest);
      OriginsAppend(b[..k], b[k + 1..]);
      OriginsAppend([last], b[k + 1..]);
      OriginsAppend(b[..k], [last] + b[k + 1..]);
      OriginsAppend(front, [last]);
      BudgetsAppend(c, b[..k], b[k + 1..]);
      BudgetsAppend(c, [last], b[k + 1..]);
      BudgetsAppend(c, b[..k], [last] + b[k + 1..]);
      BudgetsAppend(c, front, [last]);
    } else {
      assert b == [] by { assert |multiset(b)| == 0; }
    }
  }

  lemma Single(c: Config, item: Item)
    ensures Origins([item]) == multiset{item.origin}
    ensures Budgets(c, [item]) == multiset{}[item.origin := Budget(c, item.msg)]
  {
    assert [item][..0] == [];
  }

  // What handling one failed message changes.
  lemma FailItemKeeps(c: Config, broker: Broker, w: World, item: Item)
    ensures var after := FailItem(c, broker, w, item);
            && Everything(after) == Everything(w) + multiset{item.origin}
            && after.processed == w.processed && after.succeeded == w.succeeded
            && Budgets(c, after.topic) + multiset{item.origin} <=
               Budgets(c, w.topic) + multiset{}[item.origin := Budget(c, item.msg)]
  {
    hide FateOf, Tries, CountIn, Origins, Budgets, Retry, DeadLetter;
    FailureSendsOne(c, broker, item.msg, Log([], w.attempts));
    match FateOf(c, broker, item.msg, w.attempts)
    case Requeued(m) =>
      RetryRoundTrip(item.msg, CountIn(item.msg.headers) + 1);
      var again := Item(item.origin, m);
      OriginsAppend(w.topic, [again]);
      BudgetsAppend(c, w.topic, [again]);
      Single(c, again);
      assert Budget(c, m) + 1 == Budget(c, item.msg);
    case DeadLettered(m) =>
      OriginsAppend(w.dead, [Item(item.origin, m)]);
      Single(c, Item(item.origin, m));
    case Dropped =>
  }

  lemma AddUp(t2: multiset<nat>, o: multiset<nat>, t1: multiset<nat>, bud: multiset<nat>, os: multiset<nat>,
              t0: multiset<nat>, buds: multiset<nat>)
    requires t2 + o <= t1 + bud && t1 + os <= t0 + buds
    ensures t2 + (os + o) <= t0 + (buds + bud)
  {
    forall x ensures (t2 + (os + o))[x] <= (t0 + (buds + bud))[x] {
      assert (t2 + o)[x] <= (t1 + bud)[x];
      assert (t1 + os)[x] <= (t0 + buds)[x];
    }
  }

  lemma {:induction false} FailItemsKeep(c: Config, broker: Broker, w: World, items: seq<Item>)
    ensures var after := FailItems(c, broker, w, items);
            && Everything(after) == Everything(w) + Origins(items)
            && after.processed == w.processed && after.succeeded == w.succeeded
            && Budgets(c, after.topic) + Origins(items) <= Budgets(c, w.topic) + Budgets(c, items)
  {
    hide FailItem, Budget, Everything;
    if items != [] {
      var front, last := items[..|items| - 1], items[|items| - 1];
      FailItemsKeep(c, broker, w, front);
      var before := FailItems(c, broker, w, front);
      FailItemKeeps(c, broker, before, last);
      AddUp(Budgets(c, FailItem(c, broker, before, last).topic), multiset{last.origin}, Budgets(c, before.topic),
            multiset{}[last.origin := Budget(c, last.msg)], Origins(front), Budgets(c, w.topic), Budgets(c, front));
    }
  }

  lemma {:induction false} OriginsCovered(c: Config, items: seq<Item>)
    ensures Origins(items) <= Budgets(c, items) && |Origins(items)| == |items|
  {
    if items != [] { OriginsCovered(c, items[..|items| - 1]); }
  }

  lemma Fewer(a: multiset<nat>, b: multiset<nat>)
    requires a <= b
    ensures |a| <= |b|
  {
    assert b == a + (b - a);
  }

  // One delivery moves originals around without losing any, and uses up the budget
  // of every message it processes.
  lemma DeliverKeeps(c: Config, broker: Broker, w: World, d: Delivery)
    requires CanDeliver(w, d)
    ensures var after := Deliver(c, broker, w, d);
            && Everything(after) == Everything(w)
            && after.processed + Budgets(c, after.topic) <= w.processed + Budgets(c, w.topic)
            && |Budgets(c, after.topic)| + d.taken <= |Budgets(c, w.topic)|
  {
    hide FailItems, Origins, Budgets;
    var batch, rest := d.order[..d.taken], d.order[d.taken..];
    assert d.order == batch + rest;
    Reordered(c, d.order, w.topic);
    OriginsAppend(batch, rest);
    BudgetsAppend(c, batch, rest);
    OriginsCovered(c, batch);
    var handed := w.(topic := rest, processed := w.processed + Origins(batch));
    FailItemsKeep(c, broker, handed, batch);
    var after := Deliver(c, broker, w, d);
    assert Budgets(c, after.topic) + Origins(batch) <= Budgets(c, w.topic);
    Fewer(Budgets(c, after.topic) + Origins(batch), Budgets(c, w.topic));
  }

  // Over every run: no original is lost or duplicated, none is processed beyond its
  // budget, and the run is no longer than the budgets allow.
  lemma {:induction false} RunConserves(c: Config, broker: Broker, items: seq<Item>, ds: seq<Delivery>, w: World)
    requires Run(c, broker, items, ds, w)
    ensures Everything(w) == Origins(items)
    ensures w.processed + Budgets(c, w.topic) <= Budgets(c, items)
    ensures |ds| + |Budgets(c, w.topic)| <= |Budgets(c, items)|
    decreases |ds|
  {
    hide Everything, Budgets, Deliver, Run;
    if ds == [] {
      AtStart(c, broker, items, ds, w);
    } else {
      var before := LastStep(c, broker, items, ds, w);
      RunConserves(c, broker, items, ds[..|ds| - 1], before);
      DeliverKeeps(c, broker, before, ds[|ds| - 1]);
    }
  }

  lemma AtStart(c: Config, broker: Broker, items: seq<Item>, ds: seq<Delivery>, w: World)
    requires Run(c, broker, items, ds, w) && ds == []
    ensures w == Start(items) && Everything(w) == Origins(items)
    ensures w.processed + Budgets(c, w.topic) == Budgets(c, items)
  {
    assert Origins([]) == multiset{};
  }

  lemma LastStep(c: Config, broker: Broker, items: seq<Item>, ds: seq<Delivery>, w: World) returns (before: World)
    requires Run(c, broker, items, ds, w) && ds != []
    ensures Run(c, broker, items, ds[..|ds| - 1], before)
    ensures CanDeliver(before, ds[|ds| - 1]) && w == Deliver(c, broker, before, ds[|ds| - 1])
  {
    before :| RunStep(c, broker, items, ds, before, w);
  }

  // The k-th original stands for itself.
  predicate Numbered(items: seq<Item>) { forall k :: 0 <= k < |items| ==> items[k].origin == k }

  lemma {:induction false} NumberedOnce(items: seq<Item>, c: Config, k: nat)
    requires Numbered(items)
    ensures Origins(items)[k] == if k < |items| then 1 else 0
    ensures Budgets(c, items)[k] == if k < |items| then Budget(c, items[k].msg) else 0
  {
    hide Budget;
    if items != [] {
      NumberedOnce(items[..|items| - 1], c, k);
    }
  }

  // At all times each original is in exactly one place, and it has been processed at
  // most once more than it had retries left.
  lemma EachOriginalOnce(c: Config, broker: Broker, items: seq<Item>, ds: seq<Delivery>, w: World, k: nat)
    requires Numbered(items) && Run(c, broker, items, ds, w) && k < |items|
    ensures Origins(w.topic)[k] + w.succeeded[k] + Origins(w.dead)[k] + w.dropped[k] == 1
    ensures w.processed[k] <= Budget(c, items[k].msg)
    ensures CountIn(items[k].msg.headers) == 0 && c.maxRetries >= 0 ==> w.processed[k] <= c.maxRetries + 1
  {
    RunConserves(c, broker, items, ds, w);
    NumberedOnce(items, c, k);
    assert Everything(w)[k] == 1;
  }

  // With dead letters on and no failed send, nothing is dropped.
  lemma {:induction false} NothingDropped(c: Config, broker: Broker, items: seq<Item>, ds: seq<Delivery>, w: World)
    requires Run(c, broker, items, ds, w) && c.dlqTopic != "" && forall n :: broker(n)
    ensures w.dropped == multiset{}
    decreases |ds|
  {
    hide Run;
    if ds == [] {
      AtStart(c, broker, items, ds, w);
    } else {
      var before := LastStep(c, broker, items, ds, w);
      NothingDropped(c, broker, items, ds[..|ds| - 1], before);
      var d := ds[|ds| - 1];
      var batch := d.order[..d.taken];
      var taken := before.(topic := d.order[d.taken..], processed := before.processed + Origins(batch));
      FailuresDropNothing(c, broker, taken, batch);
    }
  }

  lemma {:induction false} FailuresDropNothing(c: Config, broker: Broker, w: World, items: seq<Item>)
    requires c.dlqTopic != "" && forall n :: broker(n)
    ensures FailItems(c, broker, w, items).dropped == w.dropped
  {
    hide FateOf;
    if items != [] {
      var front := items[..|items| - 1];
      FailuresDropNothing(c, broker, w, front);
      DroppedExactly(c, broker, items[|items| - 1].msg, FailItems(c, broker, w, front).attempts);
    }
  }

  // ---- contents ----

  // A message still carries the original's topic, payload and headers.
  predicate Carries(m: Message, original: Message)
  {
    && m.topic == original.topic && m.key == original.key && m.value == original.value
    && Others(m.headers) == Others(original.headers)
  }

  ghost predicate Faithful(c: Config, items: seq<Item>, w: World)
  {
    && (forall i :: i in w.topic ==> i.origin < |items| && Carries(i.msg, items[i.origin].msg))
    && (forall i :: i in w.dead ==> i.origin < |items| && Letter(c, i.msg, items[i.origin].msg))
  }

  predicate Letter(c: Config, m: Message, original: Message)
  {
    && m.topic == c.dlqTopic && m.key == original.key && m.value == original.value
    && Others(m.headers) == [Some(Header(ORIGIN_HEADER, original.topic))] + Others(original.headers)
  }

  lemma FailureFaithful(c: Config, broker: Broker, items: seq<Item>, w: World, item: Item)
    requires Faithful(c, items, w) && item.origin < |items| && Carries(item.msg, items[item.origin].msg)
    ensures Faithful(c, items, FailItem(c, broker, w, item))
  {
    hide FateOf, Tries, Others, CountIn;
    FailureSendsOne(c, broker, item.msg, Log([], w.attempts));
    if CountIn(item.msg.headers) < c.maxRetries { RetryRoundTrip(item.msg, CountIn(item.msg.headers) + 1); }
    DeadLetterKeeps(item.msg, c.dlqTopic);
  }

  lemma {:induction false} FailuresFaithful(c: Config, broker: Broker, items: seq<Item>, w: World, batch: seq<Item>)
    requires Faithful(c, items, w)
    requires forall i :: i in batch ==> i.origin < |items| && Carries(i.msg, items[i.origin].msg)
    ensures Faithful(c, items, FailItems(c, broker, w, batch))
  {
    hide FailItem, Faithful, Carries;
    if batch != [] {
      var front, last := batch[..|batch| - 1], batch[|batch| - 1];
      FailuresFaithful(c, broker, items, w, front);
      assert last in batch;
      FailureFaithful(c, broker, items, FailItems(c, broker, w, front), last);
    }
  }

  // Whatever is queued or dead-lettered is still the message that came in.
  lemma {:induction false} RunIsFaithful(c: Config, broker: Broker, items: seq<Item>, ds: seq<Delivery>, w: World)
    requires Numbered(items) && Run(c, broker, items, ds, w)
    ensures Faithful(c, items, w)
    decreases |ds|
  {
    hide Run, FailItems, Carries, Letter;
    if ds == [] {
      AtStart(c, broker, items, ds, w);
      OwnContents(items);
    } else {
      var before := LastStep(c, broker, items, ds, w);
      RunIsFaithful(c, broker, items, ds[..|ds| - 1], before);
      var d := ds[|ds| - 1];
      forall i | i in d.order ensures i in before.topic { assert i in multiset(d.order); }
      var batch := d.order[..d.taken];
      var handed := before.(topic := d.order[d.taken..], processed := before.processed + Origins(batch));
      FailuresFaithful(c, broker, items, handed, batch);
    }
  }

  lemma OwnContents(items: seq<Item>)
    requires Numbered(items)
    ensures forall i :: i in items ==> i.origin < |items| && Carries(i.msg, items[i.origin].msg)
  {
  }
}
