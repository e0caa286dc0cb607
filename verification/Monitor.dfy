/** The monitor loop: events in, gauges and counters updated, stop on cancellation or on too many
    read timeouts. The channel, the clock and the context become a sequence of events. */
module Monitor {
  import opened Outcomes
  import opened Variants
  import opened Gauges
  import opened Metrics
  import opened Summary
  import BitVector

  datatype Message = Message(nodeId: string, failed: bool, value: Option<Variant>)

  datatype Event = Cancelled | Received(msg: Message) | ReadTimeout

  datatype Status = Running | Stopped | TimedOut

  /** A message that carries a value and no error. */
  predicate Delivers(e: Event) {
    e.Received? && !e.msg.failed && e.msg.value.Some?
  }

  class Counter {
    var value: nat

    constructor ()
      ensures value == 0
    {
      value := 0;
    }

    method Inc()
      modifies this
      ensures value == old(value) + 1
    {
      value := value + 1;
    }
  }

  // ---------- the loop on values ----------

  /** How the loop ends on these events, and how many of them it consumes. */
  function Loop(events: seq<Event>, maxTimeouts: int, timeouts: nat): (Status, nat)
    decreases events
  {
    if events == [] then (Running, 0)
    else match events[0]
      case Cancelled => (Stopped, 1)
      case Received(_) =>
        var (status, n) := Loop(events[1..], maxTimeouts, timeouts);
        (status, n + 1)
      case ReadTimeout =>
        if maxTimeouts > 0 && timeouts + 1 >= maxTimeouts then (TimedOut, 1)
        else
          var (status, n) := Loop(events[1..], maxTimeouts, timeouts + 1);
          (status, n + 1)
  }

  lemma {:induction false} LoopBound(events: seq<Event>, maxTimeouts: int, timeouts: nat)
    ensures Loop(events, maxTimeouts, timeouts).1 <= |events|
    decreases events
  {
    if events != [] {
      LoopBound(events[1..], maxTimeouts, timeouts);
      LoopBound(events[1..], maxTimeouts, timeouts + 1);
    }
  }

  /** The events that the loop consumes. */
  function Consumed(events: seq<Event>, maxTimeouts: int): seq<Event> {
    LoopBound(events, maxTimeouts, 0);
    events[..Loop(events, maxTimeouts, 0).1]
  }

  function Deliveries(events: seq<Event>): nat {
    if events == [] then 0
    else Deliveries(events[..|events| - 1]) + if Delivers(events[|events| - 1]) then 1 else 0
  }

  /** What the loop does to the summary counter. */
  function Increments(events: seq<Event>): seq<Op> {
    if events == [] then []
    else
      var e := events[|events| - 1];
      Increments(events[..|events| - 1]) + if Delivers(e) then [Increment(e.msg.nodeId)] else []
  }

  predicate Updates(bit: Option<int>, node: string, e: Event) {
    Delivers(e) && e.msg.nodeId == node && Converted(bit, e.msg.value.value).Ok?
  }

  function GaugeStep(bit: Option<int>, node: string, before: Float64, e: Event): Float64 {
    if Updates(bit, node, e) then Converted(bit, e.msg.value.value).value else before
  }

  /** A gauge after the events, for a handler that serves a node. */
  function GaugeAfter(bit: Option<int>, node: string, start: Float64, events: seq<Event>): Float64 {
    if events == [] then start
    else GaugeStep(bit, node, GaugeAfter(bit, node, start, events[..|events| - 1]), events[|events| - 1])
  }

  // ---------- the loop on gauges and counters ----------

  /** Every handler of the node gets the value, also after one of them has failed. */
  method HandleMessage(handlers: HandlerMap, nodeId: string, value: Variant)
    requires Separate(handlers)
    modifies GaugesOf(handlers)
    ensures forall node, i | IsSlot(handlers, node, i) ::
              var gauge, converted := GaugeAt(handlers, node, i), Converted(handlers[node][i].handler.Bit(), value);
              gauge.value == if node == nodeId && converted.Ok? then converted.value else old(gauge.value)
  {
    hide Converted;
    var records := Bucket(handlers, nodeId);
    for k := 0 to |records|
      invariant forall node, i | IsSlot(handlers, node, i) ::
                  var gauge, converted := GaugeAt(handlers, node, i), Converted(handlers[node][i].handler.Bit(), value);
                  gauge.value == if node == nodeId && i < k && converted.Ok? then converted.value else old(gauge.value)
    {
      assert IsSlot(handlers, nodeId, k);
      assert records[k].handler.gauge == GaugeAt(handlers, nodeId, k);
      var err := records[k].handler.Handle(value);
    }
  }

  /** One message out of the channel: failed and empty ones are only logged. */
  method ReceiveMessage(handlers: HandlerMap, messageCounter: Counter, summary: EventSummaryCounter, msg: Message)
    requires Separate(handlers) && summary.Valid()
    modifies GaugesOf(handlers), messageCounter, summary
    ensures summary.Valid()
    ensures messageCounter.value == old(messageCounter.value) + Deliveries([Received(msg)])
    ensures summary.history == old(summary.history) + Increments([Received(msg)])
    ensures forall node, i | IsSlot(handlers, node, i) ::
              GaugeAt(handlers, node, i).value ==
              GaugeStep(handlers[node][i].handler.Bit(), node, old(GaugeAt(handlers, node, i).value), Received(msg))
  {
    hide Converted;
    assert [Received(msg)][..0] == [];
    if !msg.failed && msg.value.Some? {
      messageCounter.Inc();
      summary.Inc(msg.nodeId);
      HandleMessage(handlers, msg.nodeId, msg.value.value);
    }
  }

  lemma {:induction false} CountsConcat(a: seq<Event>, b: seq<Event>)
    ensures Deliveries(a + b) == Deliveries(a) + Deliveries(b)
    ensures Increments(a + b) == Increments(a) + Increments(b)
  {
    if b == [] {
      assert a + b == a;
    } else {
      assert (a + b)[..|a + b| - 1] == a + b[..|b| - 1];
      CountsConcat(a, b[..|b| - 1]);
    }
  }

  lemma GaugeAtStart()
    ensures forall bit, node, start :: GaugeAfter(bit, node, start, []) == start
  {
  }

  lemma NothingCounted()
    ensures Deliveries([]) == 0 && Increments([]) == []
    ensures forall e: Event | !e.Received? :: Deliveries([e]) == 0 && Increments([e]) == []
  {
    forall e: Event | !e.Received? ensures Deliveries([e]) == 0 && Increments([e]) == [] {
      assert [e][..0] == [];
    }
  }

  lemma GaugeAfterSnoc(bit: Option<int>, node: string, start: Float64, events: seq<Event>, e: Event)
    ensures GaugeAfter(bit, node, start, events + [e]) ==
            GaugeStep(bit, node, GaugeAfter(bit, node, start, events), e)
  {
    hide Converted;
    assert (events + [e])[..|events|] == events;
  }

  lemma LoopStep(events: seq<Event>, maxTimeouts: int, next: nat, timeouts: nat)
    requires next < |events|
    ensures Loop(events[next..], maxTimeouts, timeouts) ==
            match events[next]
            case Cancelled => (Stopped, 1)
            case Received(_) =>
              (var (status, n) := Loop(events[next + 1..], maxTimeouts, timeouts); (status, n + 1))
            case ReadTimeout =>
              if maxTimeouts > 0 && timeouts + 1 >= maxTimeouts then (TimedOut, 1)
              else (var (status, n) := Loop(events[next + 1..], maxTimeouts, timeouts + 1); (status, n + 1))
  {
    assert events[next..][1..] == events[next + 1..];
  }

  /** The loop of the monitor. `Running` means that it is still waiting when the events run out. */
  method SetupMonitor(handlers: HandlerMap, messageCounter: Counter, summary: EventSummaryCounter,
                      events: seq<Event>, maxTimeouts: int)
    returns (status: Status)
    requires Separate(handlers) && summary.Valid()
    modifies GaugesOf(handlers), messageCounter, summary
    ensures status == Loop(events, maxTimeouts, 0).0
    ensures messageCounter.value == old(messageCounter.value) + Deliveries(Consumed(events, maxTimeouts))
    ensures summary.Valid()
    ensures summary.history == old(summary.history) + Increments(Consumed(events, maxTimeouts))
    ensures forall node, i | IsSlot(handlers, node, i) ::
              GaugeAt(handlers, node, i).value ==
              GaugeAfter(handlers[node][i].handler.Bit(), node, old(GaugeAt(handlers, node, i).value),
                         Consumed(events, maxTimeouts))
  {
    GaugeAtStart();
    NothingCounted();
    hide Converted, GaugeAfter, Replay, Deliveries, Increments;
    var timeoutCount: nat := 0;
    var next: nat := 0;
    ghost var seen := [];
    while next < |events|
      invariant next <= |events| && seen == events[..next]
      invariant var (s, n) := Loop(events[next..], maxTimeouts, timeoutCount);
                Loop(events, maxTimeouts, 0) == (s, next + n)
      invariant messageCounter.value == old(messageCounter.value) + Deliveries(seen)
      invariant summary.Valid()
      invariant summary.history == old(summary.history) + Increments(seen)
      invariant forall node, i | IsSlot(handlers, node, i) ::
                  GaugeAt(handlers, node, i).value ==
                  GaugeAfter(handlers[node][i].handler.Bit(), node, old(GaugeAt(handlers, node, i).value), seen)
      decreases |events| - next
    {
      var event := events[next];
      LoopStep(events, maxTimeouts, next, timeoutCount);
      CountsConcat(seen, [event]);
      forall node, i | IsSlot(handlers, node, i)
        ensures GaugeAfter(handlers[node][i].handler.Bit(), node, old(GaugeAt(handlers, node, i).value), seen + [event])
             == GaugeStep(handlers[node][i].handler.Bit(), node, GaugeAt(handlers, node, i).value, event)
      {
        GaugeAfterSnoc(handlers[node][i].handler.Bit(), node, old(GaugeAt(handlers, node, i).value), seen, event);
      }
      seen, next := seen + [event], next + 1;
      match event {
        case Cancelled =>
          assert seen == Consumed(events, maxTimeouts);
          return Stopped;
        case Received(msg) =>
          ReceiveMessage(handlers, messageCounter, summary, msg);
        case ReadTimeout =>
          timeoutCount := timeoutCount + 1;
          if maxTimeouts > 0 && timeoutCount >= maxTimeouts {
            assert seen == Consumed(events, maxTimeouts);
            return TimedOut;
          }
      }
    }
    assert seen == Consumed(events, maxTimeouts);
    status := Running;
  }

  // ---------- when the loop ends ----------

  function Timeouts(events: seq<Event>): nat {
    if events == [] then 0
    else Timeouts(events[1..]) + if events[0].ReadTimeout? then 1 else 0
  }

  /** The loop returns the timeout error at event k if and only if k is a read timeout, the read
      timeouts up to it, counted from the start of the run and whatever came in between, have just
      reached a positive limit, and no cancellation came before. */
  lemma TimesOutExactly(events: seq<Event>, maxTimeouts: int, k: nat)
    ensures Loop(events, maxTimeouts, 0) == (TimedOut, k + 1) <==>
            && maxTimeouts > 0 && k < |events|
            && events[k].ReadTimeout? && Timeouts(events[..k + 1]) == maxTimeouts
            && Cancelled !in events[..k]
  {
    TimesOutFrom(events, maxTimeouts, 0, k);
  }

  lemma {:induction false} TimesOutFrom(events: seq<Event>, maxTimeouts: int, timeouts: nat, k: nat)
    requires maxTimeouts > 0 ==> timeouts < maxTimeouts
    ensures Loop(events, maxTimeouts, timeouts) == (TimedOut, k + 1) <==>
            && maxTimeouts > 0 && k < |events|
            && events[k].ReadTimeout? && timeouts + Timeouts(events[..k + 1]) == maxTimeouts
            && Cancelled !in events[..k]
    decreases events
  {
    LoopBound(events, maxTimeouts, timeouts);
    if k < |events| {
      var rest := events[1..];
      var t := timeouts + if events[0].ReadTimeout? then 1 else 0;
      assert events[..k + 1] == [events[0]] + rest[..k];
      if k == 0 {
        LoopPositive(rest, maxTimeouts, t);
      } else {
        assert events[..k] == [events[0]] + rest[..k - 1];
        if events[k].ReadTimeout? {
          TimeoutsPositive(rest[..k], k - 1);
        }
        if maxTimeouts > 0 ==> t < maxTimeouts {
          TimesOutFrom(rest, maxTimeouts, t, k - 1);
        }
      }
    }
  }

  /** It stops without an error at event k if and only if that is the first cancellation and the read
      timeouts before it have not reached a positive limit; and if there is neither such an event nor
      one at which it gives up, it consumes everything and keeps running. */
  lemma {:induction false} StopsExactly(events: seq<Event>, maxTimeouts: int, timeouts: nat, k: nat)
    requires maxTimeouts > 0 ==> timeouts < maxTimeouts
    ensures Loop(events, maxTimeouts, timeouts) == (Stopped, k + 1) <==>
            && k < |events| && events[k].Cancelled? && Cancelled !in events[..k]
            && (maxTimeouts > 0 ==> timeouts + Timeouts(events[..k]) < maxTimeouts)
    ensures Loop(events, maxTimeouts, timeouts).0.Running? <==>
            && Loop(events, maxTimeouts, timeouts) == (Running, |events|) && Cancelled !in events
            && (maxTimeouts > 0 ==> timeouts + Timeouts(events) < maxTimeouts)
    decreases events
  {
    LoopBound(events, maxTimeouts, timeouts);
    if events != [] {
      var rest := events[1..];
      var t := timeouts + if events[0].ReadTimeout? then 1 else 0;
      assert events == [events[0]] + rest;
      LoopPositive(rest, maxTimeouts, t);
      if 0 < k <= |rest| {
        assert events[..k] == [events[0]] + rest[..k - 1];
      }
      if maxTimeouts > 0 ==> t < maxTimeouts {
        StopsExactly(rest, maxTimeouts, t, if k == 0 then 0 else k - 1);
      }
    }
  }

  lemma {:induction false} TimeoutsPositive(events: seq<Event>, i: nat)
    requires i < |events| && events[i].ReadTimeout?
    ensures Timeouts(events) > 0
  {
    if i > 0 {
      TimeoutsPositive(events[1..], i - 1);
    }
  }

  lemma LoopPositive(events: seq<Event>, maxTimeouts: int, timeouts: nat)
    ensures !Loop(events, maxTimeouts, timeouts).0.Running? ==> Loop(events, maxTimeouts, timeouts).1 > 0
  {
  }

  function Silence(events: seq<Event>): seq<Event> {
    Filter(events, (e: Event) => !e.Received?)
  }

  /** No message resets the timeout count: how the loop ends depends only on the timeouts and
      cancellations, in their order. */
  lemma {:induction false} MessagesDoNotReset(events: seq<Event>, maxTimeouts: int, timeouts: nat)
    ensures Loop(events, maxTimeouts, timeouts).0 == Loop(Silence(events), maxTimeouts, timeouts).0
    decreases events
  {
    if events != [] {
      MessagesDoNotReset(events[1..], maxTimeouts, timeouts);
      MessagesDoNotReset(events[1..], maxTimeouts, timeouts + 1);
    }
  }

  /** A limit of zero or less switches the error off. */
  lemma {:induction false} NeverTimesOut(events: seq<Event>, maxTimeouts: int, timeouts: nat)
    requires maxTimeouts <= 0
    ensures Loop(events, maxTimeouts, timeouts).0 == if Cancelled in events then Stopped else Running
    decreases events
  {
    if events != [] {
      NeverTimesOut(events[1..], maxTimeouts, timeouts);
      NeverTimesOut(events[1..], maxTimeouts, timeouts + 1);
    }
  }

  // ---------- what a gauge shows ----------

  /** A gauge shows the conversion of the last message for its node that its handler could convert,
      and its initial value if there was none. */
  lemma {:induction false} LastConvertible(bit: Option<int>, node: string, start: Float64, events: seq<Event>)
    ensures (forall j | 0 <= j < |events| :: !Updates(bit, node, events[j])) ==>
              GaugeAfter(bit, node, start, events) == start
    ensures forall j | 0 <= j < |events| && Updates(bit, node, events[j])
                       && (forall k | j < k < |events| :: !Updates(bit, node, events[k])) ::
              Ok(GaugeAfter(bit, node, start, events)) == Converted(bit, events[j].msg.value.value)
  {
    hide Converted, GaugeStep;
    if events != [] {
      var front, e := events[..|events| - 1], events[|events| - 1];
      LastConvertible(bit, node, start, front);
      StepConverts(bit, node, GaugeAfter(bit, node, start, front), e);
      assert forall k | 0 <= k < |front| :: front[k] == events[k];
      forall j | 0 <= j < |events| && Updates(bit, node, events[j])
                 && forall k | j < k < |events| :: !Updates(bit, node, events[k])
        ensures Ok(GaugeAfter(bit, node, start, events)) == Converted(bit, events[j].msg.value.value)
      {
        if j < |front| {
          assert !Updates(bit, node, events[|front|]);
          assert Updates(bit, node, front[j]);
        }
      }
    }
  }

  lemma StepConverts(bit: Option<int>, node: string, before: Float64, e: Event)
    ensures !Updates(bit, node, e) ==> GaugeStep(bit, node, before, e) == before
    ensures Updates(bit, node, e) ==> Ok(GaugeStep(bit, node, before, e)) == Converted(bit, e.msg.value.value)
  {
    hide Converted;
  }

  /** Messages for other nodes, failed messages and values the handler cannot convert make no
      difference to a gauge. */
  lemma {:induction false} OnlyUpdatesMatter(bit: Option<int>, node: string, start: Float64, events: seq<Event>,
                                             relevant: Event -> bool)
    requires forall e | e in events && Updates(bit, node, e) :: relevant(e)
    ensures GaugeAfter(bit, node, start, events) == GaugeAfter(bit, node, start, Filter(events, relevant))
  {
    hide Converted;
    if events != [] {
      var front, e := events[..|events| - 1], events[|events| - 1];
      assert events == front + [e];
      OnlyUpdatesMatter(bit, node, start, front, relevant);
      FilterSnoc(front, e, relevant);
      GaugeAfterSnoc(bit, node, start, Filter(front, relevant), e);
    }
  }

  /** A handler for a negative bit, which a flag can ask for, never moves its gauge in any run; for
      every other bit there is a run that does. */
  lemma {:induction false} NegativeBitIsStuck(bit: int, node: string)
    ensures bit >= 0 <==> exists v: Variant :: Updates(Some(bit), node, Received(Message(node, false, Some(v))))
    ensures bit < 0 ==> forall start, events: seq<Event> ::
              GaugeAfter(Some(bit), node, start, events) == start
  {
    BitVector.BitReachable(bit);
    if bit >= 0 {
      var v: Variant :| BitVector.FloatValue(v, bit).Ok?;
      assert Updates(Some(bit), node, Received(Message(node, false, Some(v))));
    } else {
      forall start, events: seq<Event> ensures GaugeAfter(Some(bit), node, start, events) == start {
        forall j | 0 <= j < |events| ensures !Updates(Some(bit), node, events[j]) {
          if Delivers(events[j]) {
            assert !BitVector.FloatValue(events[j].msg.value.value, bit).Ok?;
          }
        }
        LastConvertible(Some(bit), node, start, events);
      }
    }
  }

  // ---------- the same without the conversion and the loop ----------

  /** A good message for this node whose value a handler has to show as x. */
  predicate Announces(bit: Option<int>, node: string, e: Event, x: Float64) {
    && e.Received? && e.msg.nodeId == node && !e.msg.failed && e.msg.value.Some?
    && Exports(bit, e.msg.value.value, x)
  }

  lemma UpdateAnnounces(bit: Option<int>, node: string, e: Event, x: Float64)
    ensures Updates(bit, node, e) && GaugeStep(bit, node, x, e) == x ==> Announces(bit, node, e, x)
    ensures Announces(bit, node, e, x) ==> Updates(bit, node, e) && forall y :: GaugeStep(bit, node, y, e) == x
  {
    hide Converted, Exports;
    if Delivers(e) {
      ConvertedIsExport(bit, e.msg.value.value, x);
    }
  }

  /** x is what the last message with something to show announces, or the start if there is none. */
  ghost predicate IsLastAnnounced(bit: Option<int>, node: string, start: Float64, events: seq<Event>, x: Float64) {
    || (x == start && forall j, y | 0 <= j < |events| :: !Announces(bit, node, events[j], y))
    || exists j ::
         && 0 <= j < |events| && Announces(bit, node, events[j], x)
         && forall k, y | j < k < |events| :: !Announces(bit, node, events[k], y)
  }

  /** A gauge shows the number or the bit of the last good message for its node that has one, and
      nothing else. */
  lemma GaugeShowsLast(bit: Option<int>, node: string, start: Float64, events: seq<Event>, x: Float64)
    ensures GaugeAfter(bit, node, start, events) == x <==> IsLastAnnounced(bit, node, start, events, x)
  {
    hide GaugeAfter, Announces;
    LastAnnounced(bit, node, start, events);
    if IsLastAnnounced(bit, node, start, events, x) {
      LastAnnouncedUnique(bit, node, start, events, x, GaugeAfter(bit, node, start, events));
    }
  }

  lemma {:induction false} LastAnnounced(bit: Option<int>, node: string, start: Float64, events: seq<Event>)
    ensures IsLastAnnounced(bit, node, start, events, GaugeAfter(bit, node, start, events))
  {
    hide Converted, Announces, Updates, GaugeStep;
    if events != [] {
      var front, e := events[..|events| - 1], events[|events| - 1];
      var before := GaugeAfter(bit, node, start, front);
      LastAnnounced(bit, node, start, front);
      StepAnnounces(bit, node, before, e);
      if Updates(bit, node, e) {
        assert Announces(bit, node, events[|events| - 1], GaugeAfter(bit, node, start, events));
      } else {
        assert forall j | 0 <= j < |front| :: front[j] == events[j];
        if j :| 0 <= j < |front| && Announces(bit, node, front[j], before)
                && forall k, y | j < k < |front| :: !Announces(bit, node, front[k], y) {
          assert Announces(bit, node, events[j], before);
        }
      }
    }
  }

  lemma StepAnnounces(bit: Option<int>, node: string, before: Float64, e: Event)
    ensures Updates(bit, node, e) ==> Announces(bit, node, e, GaugeStep(bit, node, before, e))
    ensures !Updates(bit, node, e) ==> GaugeStep(bit, node, before, e) == before && forall y :: !Announces(bit, node, e, y)
  {
    hide Converted, Announces;
    if Updates(bit, node, e) {
      UpdateAnnounces(bit, node, e, GaugeStep(bit, node, before, e));
    }
    forall y ensures Announces(bit, node, e, y) ==> Updates(bit, node, e) {
      UpdateAnnounces(bit, node, e, y);
    }
  }

  lemma LastAnnouncedUnique(bit: Option<int>, node: string, start: Float64, events: seq<Event>, x: Float64, y: Float64)
    requires IsLastAnnounced(bit, node, start, events, x) && IsLastAnnounced(bit, node, start, events, y)
    ensures x == y
  {
    hide Announces, Converted;
    if j :| 0 <= j < |events| && Announces(bit, node, events[j], x)
            && forall k, z | j < k < |events| :: !Announces(bit, node, events[k], z) {
      if i :| 0 <= i < |events| && Announces(bit, node, events[i], y)
              && forall k, z | i < k < |events| :: !Announces(bit, node, events[k], z) {
        assert i == j;
        UpdateAnnounces(bit, node, events[j], x);
        UpdateAnnounces(bit, node, events[j], y);
        assert GaugeStep(bit, node, start, events[j]) == x;
      }
    }
  }

  /** What one more message does to the counters: nothing if it has failed or is empty. */
  lemma MessageCounts(events: seq<Event>, node: string, failed: bool, value: Option<Variant>)
    ensures var e := Received(Message(node, failed, value));
            var good := !failed && value != None;
            && Deliveries(events + [e]) == Deliveries(events) + (if good then 1 else 0)
            && Increments(events + [e]) == Increments(events) + (if good then [Increment(node)] else [])
  {
    var e := Received(Message(node, failed, value));
    CountsConcat(events, [e]);
    assert [e][..0] == [];
  }

  function GoodMessageFor(node: string): Event -> bool {
    (e: Event) => e.Received? && e.msg.nodeId == node && !e.msg.failed && e.msg.value.Some?
  }

  /** The summary gets one increment on a channel for every good message of that node. */
  lemma {:induction false} IncrementsByChannel(events: seq<Event>, node: string)
    ensures IncsOn(Increments(events), node) == |Filter(events, GoodMessageFor(node))|
  {
    if events != [] {
      var front, e := events[..|events| - 1], events[|events| - 1];
      assert events == front + [e];
      IncrementsByChannel(front, node);
      FilterSnoc(front, e, GoodMessageFor(node));
      if Delivers(e) {
        IncsOnSnoc(Increments(front), Increment(e.msg.nodeId), node);
      } else {
        assert Increments(front) + [] == Increments(front);
      }
    }
  }

  // ---------- node names ----------

  /** A message as the server sends it: for a node that was subscribed to under some spelling. */
  datatype Notification = Notification(subscribed: string, failed: bool, value: Option<Variant>)

  /** It arrives under the canonical spelling of the node. */
  function Arrivals(canonical: string -> string, ns: seq<Notification>): (events: seq<Event>)
    ensures |events| == |ns|
  {
    seq(|ns|, i requires 0 <= i < |ns| =>
      Received(Message(canonical(ns[i].subscribed), ns[i].failed, ns[i].value)))
  }

  /** A handler can move its gauge if and only if its mapping spells the node canonically: otherwise
      no run of notifications, for whatever subscriptions, ever does. */
  lemma CanonicalNamesFire(canonical: string -> string, bit: Option<int>, name: string, v: Variant, start: Float64)
    requires forall x :: canonical(canonical(x)) == canonical(x)
    requires Converted(bit, v).Ok? && Converted(bit, v).value != start
    ensures canonical(name) == name <==>
            exists ns :: GaugeAfter(bit, name, start, Arrivals(canonical, ns)) != start
  {
    hide Converted;
    if canonical(name) == name {
      var ns := [Notification(name, false, Some(v))];
      var events := Arrivals(canonical, ns);
      assert Updates(bit, name, events[0]);
      LastConvertible(bit, name, start, events);
      assert GaugeAfter(bit, name, start, Arrivals(canonical, ns)) != start;
    } else {
      forall ns: seq<Notification> ensures GaugeAfter(bit, name, start, Arrivals(canonical, ns)) == start {
        var events := Arrivals(canonical, ns);
        forall j | 0 <= j < |events| ensures !Updates(bit, name, events[j]) {
          assert events[j].msg.nodeId == canonical(ns[j].subscribed);
        }
        LastConvertible(bit, name, start, events);
      }
    }
  }

  /** For instance, where the server drops the default namespace: a mapping for "ns=0;i=2258" never
      moves its gauge, whatever is subscribed to and reported, and one for "i=2258" can. */
  lemma DefaultNamespaceIsStuck(canonical: string -> string, bit: Option<int>, v: Variant, start: Float64)
    requires canonical("ns=0;i=2258") == "i=2258"
    requires forall x :: canonical(canonical(x)) == canonical(x)
    requires Converted(bit, v).Ok? && Converted(bit, v).value != start
    ensures forall ns :: GaugeAfter(bit, "ns=0;i=2258", start, Arrivals(canonical, ns)) == start
    ensures exists ns :: GaugeAfter(bit, "i=2258", start, Arrivals(canonical, ns)) != start
  {
    hide Converted, GaugeAfter;
    assert |"i=2258"| == 6 && |"ns=0;i=2258"| == 11;
    CanonicalNamesFire(canonical, bit, "ns=0;i=2258", v, start);
    CanonicalNamesFire(canonical, bit, "i=2258", v, start);
  }
}
