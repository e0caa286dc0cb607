/** The monitor and the summary ticker side by side. A step is one operation that the counter's
    mutex, or the counter itself, makes atomic; any interleaving of enabled steps is a run. */
module Goroutines {
  import opened Outcomes
  import opened Variants
  import opened Gauges
  import opened Metrics
  import opened Summary
  import opened Monitor

  /** Where the monitor is: waiting in select, or between two operations on one message. */
  datatype MonitorPoint =
    | Selecting
    | Counted(msg: Message)
    | Summarised(msg: Message)
    | Returned(status: Status)

  /** Where the ticker is: before its start-up Reset, waiting, or between report and Reset. */
  datatype TickerPoint = Starting | Waiting | Reporting | Exited

  datatype State = State(
    monitor: MonitorPoint,
    timeouts: nat,
    messages: nat,
    handled: seq<Event>,
    ticker: TickerPoint,
    tally: Tally,
    history: seq<Op>)

  datatype Step = Select(event: Event) | IncSummary | Dispatch | StartReset | LogTick | ResetTick | ExitTicker

  const INITIAL := State(Selecting, 0, 0, [], Starting, NO_EVENTS, [])

  function OnCounter(s: State, op: Op): State {
    s.(tally := Apply(s.tally, op), history := s.history + [op])
  }

  /** One atomic step, or None where it cannot happen. */
  function Next(maxTimeouts: int, s: State, step: Step): Option<State> {
    match step
    case Select(event) =>
      if !s.monitor.Selecting? then None
      else (match event
        case Cancelled => Some(s.(monitor := Returned(Stopped)))
        case Received(msg) =>
          if Delivers(event) then Some(s.(monitor := Counted(msg), messages := s.messages + 1)) else Some(s)
        case ReadTimeout =>
          var t := s.timeouts + 1;
          if maxTimeouts > 0 && t >= maxTimeouts then Some(s.(timeouts := t, monitor := Returned(TimedOut)))
          else Some(s.(timeouts := t)))
    case IncSummary =>
      if s.monitor.Counted? then Some(OnCounter(s, Increment(s.monitor.msg.nodeId)).(monitor := Summarised(s.monitor.msg)))
      else None
    case Dispatch =>
      if s.monitor.Summarised? then Some(s.(monitor := Selecting, handled := s.handled + [Received(s.monitor.msg)]))
      else None
    case StartReset =>
      if s.ticker.Starting? then Some(OnCounter(s, Clear).(ticker := Waiting)) else None
    case LogTick =>
      if s.ticker.Waiting? then Some(OnCounter(s, Report).(ticker := Reporting)) else None
    case ResetTick =>
      if s.ticker.Reporting? then Some(OnCounter(s, Clear).(ticker := Waiting)) else None
    case ExitTicker =>
      if s.ticker.Waiting? then Some(s.(ticker := Exited)) else None
  }

  function Run(maxTimeouts: int, steps: seq<Step>): Option<State> {
    if steps == [] then Some(INITIAL)
    else match Run(maxTimeouts, steps[..|steps| - 1])
      case Some(s) => Next(maxTimeouts, s, steps[|steps| - 1])
      case None => None
  }

  /** The events that the monitor selected, in order. */
  function Selected(steps: seq<Step>): seq<Event> {
    if steps == [] then []
    else
      var step := steps[|steps| - 1];
      Selected(steps[..|steps| - 1]) + if step.Select? then [step.event] else []
  }

  // ---------- the monitor is not disturbed ----------

  function Delivered(events: seq<Event>): seq<Event> {
    Filter(events, Delivers)
  }

  /** The message, if any, that the monitor has taken but not yet dispatched. */
  function InFlight(s: State): seq<Event> {
    if s.monitor.Counted? || s.monitor.Summarised? then [Received(s.monitor.msg)] else []
  }

  /** The events without the message in flight, which is the last of them. */
  function Settled(s: State, events: seq<Event>): seq<Event> {
    if InFlight(s) == [] || events == [] then events else events[..|events| - 1]
  }

  function StatusOf(s: State): Status {
    if s.monitor.Returned? then s.monitor.status else Running
  }

  lemma {:induction false} LoopSnoc(events: seq<Event>, e: Event, maxTimeouts: int, timeouts: nat)
    requires Loop(events, maxTimeouts, timeouts).0.Running?
    ensures Loop(events, maxTimeouts, timeouts).1 == |events|
    ensures Loop(events + [e], maxTimeouts, timeouts) ==
            match e
            case Cancelled => (Stopped, |events| + 1)
            case Received(_) => (Running, |events| + 1)
            case ReadTimeout =>
              (if maxTimeouts > 0 && timeouts + Timeouts(events) + 1 >= maxTimeouts then TimedOut else Running, |events| + 1)
    decreases events
  {
    var all := events + [e];
    if events == [] {
      assert all[1..] == [];
    } else {
      assert all[1..] == events[1..] + [e];
      if events[0].Received? {
        LoopSnoc(events[1..], e, maxTimeouts, timeouts);
      } else {
        LoopSnoc(events[1..], e, maxTimeouts, timeouts + 1);
      }
    }
  }

  lemma {:induction false} TimeoutsSnoc(events: seq<Event>, e: Event)
    ensures Timeouts(events + [e]) == Timeouts(events) + if e.ReadTimeout? then 1 else 0
  {
    if events == [] {
      assert (events + [e])[1..] == [];
    } else {
      assert (events + [e])[1..] == events[1..] + [e];
      TimeoutsSnoc(events[1..], e);
    }
  }

  /** Whatever the ticker does in between: the monitor has counted, dispatched and decided exactly
      what its loop alone does on the events it selected. */
  ghost predicate MonitorAsAlone(maxTimeouts: int, s: State, events: seq<Event>) {
    && Loop(events, maxTimeouts, 0) == (StatusOf(s), |events|)
    && s.timeouts == Timeouts(events)
    && s.messages == Deliveries(events)
    && s.handled + InFlight(s) == Delivered(events)
    && Settled(s, events) + InFlight(s) == events
  }

  lemma SelectKeeps(maxTimeouts: int, s: State, events: seq<Event>, e: Event)
    requires s.monitor.Selecting? && MonitorAsAlone(maxTimeouts, s, events)
    ensures MonitorAsAlone(maxTimeouts, Next(maxTimeouts, s, Select(e)).value, events + [e])
  {
    var after := events + [e];
    LoopSnoc(events, e, maxTimeouts, 0);
    TimeoutsSnoc(events, e);
    assert after[..|events|] == events;
    FilterSnoc(events, e, Delivers);
    assert s.handled + [] == s.handled && events + [] == events && after + [] == after;
  }

  lemma OtherStepKeeps(maxTimeouts: int, s: State, events: seq<Event>, step: Step)
    requires MonitorAsAlone(maxTimeouts, s, events)
    requires !step.Select? && Next(maxTimeouts, s, step).Some?
    ensures MonitorAsAlone(maxTimeouts, Next(maxTimeouts, s, step).value, events)
  {
    hide Loop, Timeouts, Deliveries, Delivered, Apply;
    assert events + [] == events;
    if step.Dispatch? {
      var s' := Next(maxTimeouts, s, step).value;
      assert s'.handled + [] == s.handled + InFlight(s);
    }
  }

  lemma {:induction false} TickerDoesNotInterfere(maxTimeouts: int, steps: seq<Step>)
    requires Run(maxTimeouts, steps).Some?
    ensures MonitorAsAlone(maxTimeouts, Run(maxTimeouts, steps).value, Selected(steps))
  {
    if steps != [] {
      hide MonitorAsAlone;
      var front, step := steps[..|steps| - 1], steps[|steps| - 1];
      TickerDoesNotInterfere(maxTimeouts, front);
      var s := Run(maxTimeouts, front).value;
      if step.Select? {
        assert s.monitor.Selecting?;
        SelectKeeps(maxTimeouts, s, Selected(front), step.event);
      } else {
        OtherStepKeeps(maxTimeouts, s, Selected(front), step);
        assert Selected(steps) == Selected(front);
      }
    }
  }

  /** So in every interleaving a gauge shows what the loop alone would make it show: with the message
      in flight, if there is one, it would be the loop's result on all the events; without it, which
      is what it shows until the dispatch, it is the result on the events before that message. */
  lemma GaugesUnderInterleaving(maxTimeouts: int, steps: seq<Step>, bit: Option<int>, node: string, start: Float64)
    requires Run(maxTimeouts, steps).Some?
    ensures var s, events := Run(maxTimeouts, steps).value, Selected(steps);
            && GaugeAfter(bit, node, start, s.handled + InFlight(s)) ==
               GaugeAfter(bit, node, start, Consumed(events, maxTimeouts))
            && GaugeAfter(bit, node, start, s.handled) == GaugeAfter(bit, node, start, Settled(s, events))
            && Settled(s, events) + InFlight(s) == Consumed(events, maxTimeouts)
  {
    hide GaugeAfter, Run;
    var s, events := Run(maxTimeouts, steps).value, Selected(steps);
    TickerDoesNotInterfere(maxTimeouts, steps);
    assert Consumed(events, maxTimeouts) == events;
    OnlyUpdatesMatter(bit, node, start, events, Delivers);
    HandledAreSettled(maxTimeouts, s, events);
    OnlyUpdatesMatter(bit, node, start, Settled(s, events), Delivers);
  }

  lemma HandledAreSettled(maxTimeouts: int, s: State, events: seq<Event>)
    requires MonitorAsAlone(maxTimeouts, s, events)
    ensures s.handled == Delivered(Settled(s, events))
  {
    hide Loop, Timeouts, Deliveries;
    var settled := Settled(s, events);
    if InFlight(s) == [] {
      assert s.handled + [] == s.handled && settled + [] == settled;
    } else {
      var e := InFlight(s)[0];
      FilterSnoc(settled, e, Delivers);
      assert (settled + [e])[|settled|] == e;
      assert e in s.handled + [e];
      assert (s.handled + [e])[..|s.handled|] == (Delivered(settled) + [e])[..|Delivered(settled)|];
    }
  }

  // ---------- no event is lost unaccounted ----------

  /** What the counter holds is the replay of its history, and every delivered message is in the
      history once, in order, except one that has been counted but not yet summarised. */
  ghost predicate CounterInStep(s: State) {
    && s.tally == Replay(s.history)
    && Incs(s.history) + (if s.monitor.Counted? then 1 else 0) == s.messages
  }

  lemma OperationReplays(s: State, op: Op)
    requires s.tally == Replay(s.history)
    ensures var after := OnCounter(s, op);
            && after.tally == Replay(after.history)
            && Incs(after.history) == Incs(s.history) + if op.Increment? then 1 else 0
  {
    ReplaySnoc(s.history, op);
    assert (s.history + [op])[..|s.history|] == s.history;
  }

  lemma StepKeepsInStep(maxTimeouts: int, s: State, step: Step)
    requires CounterInStep(s) && Next(maxTimeouts, s, step).Some?
    ensures CounterInStep(Next(maxTimeouts, s, step).value)
  {
    hide Replay, Incs, Apply;
    match step
    case Select(_) =>
    case Dispatch =>
    case ExitTicker =>
    case IncSummary => OperationReplays(s, Increment(s.monitor.msg.nodeId));
    case LogTick => OperationReplays(s, Report);
    case StartReset => OperationReplays(s, Clear);
    case ResetTick => OperationReplays(s, Clear);
  }

  lemma {:induction false} CounterStaysInStep(maxTimeouts: int, steps: seq<Step>)
    requires Run(maxTimeouts, steps).Some?
    ensures CounterInStep(Run(maxTimeouts, steps).value)
  {
    if steps != [] {
      hide CounterInStep, Next;
      var front := steps[..|steps| - 1];
      CounterStaysInStep(maxTimeouts, front);
      StepKeepsInStep(maxTimeouts, Run(maxTimeouts, front).value, steps[|steps| - 1]);
    }
  }

  /** Conservation over every interleaving: each delivered message is still in the counter, has been
      thrown away by a Reset, or is about to be counted. */
  lemma MessagesConserved(maxTimeouts: int, steps: seq<Step>)
    requires Run(maxTimeouts, steps).Some?
    ensures var s := Run(maxTimeouts, steps).value;
            Deliveries(Selected(steps)) ==
            s.tally.total + Discarded(s.history) + if s.monitor.Counted? then 1 else 0
  {
    CounterStaysInStep(maxTimeouts, steps);
    TickerDoesNotInterfere(maxTimeouts, steps);
    Conservation(Run(maxTimeouts, steps).value.history);
  }

  // ---------- the right channel for every message ----------

  /** The increment that the monitor is about to make. */
  function Pending(s: State): seq<Op> {
    if s.monitor.Counted? then [Increment(s.monitor.msg.nodeId)] else []
  }

  ghost predicate ChannelsInStep(s: State, events: seq<Event>) {
    Increases(s.history) + Pending(s) == Increments(events)
  }

  lemma IncreasesSnoc(ops: seq<Op>, op: Op)
    ensures Increases(ops + [op]) == Increases(ops) + if op.Increment? then [op] else []
  {
    assert (ops + [op])[..|ops|] == ops;
  }

  lemma StepKeepsChannels(maxTimeouts: int, s: State, events: seq<Event>, step: Step)
    requires ChannelsInStep(s, events) && Next(maxTimeouts, s, step).Some?
    ensures ChannelsInStep(Next(maxTimeouts, s, step).value, events + if step.Select? then [step.event] else [])
  {
    hide Increases, Apply, Increments;
    assert events + [] == events;
    match step
    case Select(Received(msg)) =>
      MessageCounts(events, msg.nodeId, msg.failed, msg.value);
      assert Increments(events) + [] == Increments(events);
      assert Increases(s.history) + [] == Increases(s.history);
    case Select(e) =>
      SilentEvent(events, e);
    case Dispatch =>
    case ExitTicker =>
    case IncSummary =>
      IncreasesSnoc(s.history, Increment(s.monitor.msg.nodeId));
      assert Increments(events) + [] == Increments(events);
    case LogTick => IncreasesSnoc(s.history, Report);
    case StartReset => IncreasesSnoc(s.history, Clear);
    case ResetTick => IncreasesSnoc(s.history, Clear);
  }

  lemma SilentEvent(events: seq<Event>, e: Event)
    requires !e.Received?
    ensures Increments(events + [e]) == Increments(events)
  {
    assert (events + [e])[..|events|] == events;
  }

  /** In every interleaving the increments of the summary are those that the loop alone makes on the
      selected events, on the same channels and in the same order, but for the one it is about to make. */
  lemma {:induction false} SummarisedInOrder(maxTimeouts: int, steps: seq<Step>)
    requires Run(maxTimeouts, steps).Some?
    ensures var s := Run(maxTimeouts, steps).value;
            Increases(s.history) + Pending(s) == Increments(Selected(steps))
  {
    if steps != [] {
      hide Next;
      var front, step := steps[..|steps| - 1], steps[|steps| - 1];
      SummarisedInOrder(maxTimeouts, front);
      StepKeepsChannels(maxTimeouts, Run(maxTimeouts, front).value, Selected(front), step);
    }
  }

  /** And so every good message of a node is on the channel of that node: still counted there, thrown
      away from there by a Reset, or about to be counted. */
  lemma ChannelsAccounted(maxTimeouts: int, steps: seq<Step>, node: string)
    requires Run(maxTimeouts, steps).Some?
    ensures var s := Run(maxTimeouts, steps).value;
            var pending := if s.monitor.Counted? && s.monitor.msg.nodeId == node then 1 else 0;
            var messages := |Filter(Selected(steps), GoodMessageFor(node))|;
            && IncsOn(s.history, node) + pending == messages
            && CountOf(s.tally.counts, node) + DiscardedOn(s.history, node) + pending == messages
  {
    hide Run, Replay;
    var s := Run(maxTimeouts, steps).value;
    SummarisedInOrder(maxTimeouts, steps);
    IncrementsByChannel(Selected(steps), node);
    IncreasesOn(s.history, node);
    if s.monitor.Counted? {
      IncsOnSnoc(Increases(s.history), Increment(s.monitor.msg.nodeId), node);
    } else {
      assert Increases(s.history) + [] == Increases(s.history);
    }
    CounterStaysInStep(maxTimeouts, steps);
    ConservationOn(s.history, node);
  }

  // ---------- where discarded events went ----------

  /** The last operation of the ticker in a history. */
  function LastTicker(ops: seq<Op>): (last: Option<Op>)
    ensures last.Some? ==> !last.value.Increment?
  {
    if ops == [] then None
    else if ops[|ops| - 1].Increment? then LastTicker(ops[..|ops| - 1])
    else Some(ops[|ops| - 1])
  }

  /** Sum of the totals that the reports printed. */
  function Logged(ops: seq<Op>): nat {
    if ops == [] then 0
    else
      var before := ops[..|ops| - 1];
      Logged(before) + if ops[|ops| - 1].Report? then Replay(before).total else 0
  }

  /** Increments that found the ticker having last done `last`. */
  function IncsAfter(ops: seq<Op>, last: Option<Op>): nat {
    if ops == [] then 0
    else
      var before := ops[..|ops| - 1];
      IncsAfter(before, last) + if ops[|ops| - 1].Increment? && LastTicker(before) == last then 1 else 0
  }

  /** The ticker's operations alternate: a Reset at the start, then report and Reset in turn. */
  predicate TickerShape(ops: seq<Op>) {
    ops == [] ||
    (var before, op := ops[..|ops| - 1], ops[|ops| - 1];
     && TickerShape(before)
     && (op.Report? ==> LastTicker(before) == Some(Clear))
     && (op.Clear? ==> LastTicker(before) != Some(Clear)))
  }

  predicate TickerInShape(s: State) {
    && TickerShape(s.history)
    && LastTicker(s.history) == (match s.ticker
       case Starting => None
       case Reporting => Some(Report)
       case _ => Some(Clear))
  }

  lemma ShapeExtended(ops: seq<Op>, op: Op)
    requires TickerShape(ops)
    requires op.Report? ==> LastTicker(ops) == Some(Clear)
    requires op.Clear? ==> LastTicker(ops) != Some(Clear)
    ensures TickerShape(ops + [op])
    ensures LastTicker(ops + [op]) == if op.Increment? then LastTicker(ops) else Some(op)
  {
    assert (ops + [op])[..|ops|] == ops;
  }

  lemma StepKeepsShape(maxTimeouts: int, s: State, step: Step)
    requires TickerInShape(s) && Next(maxTimeouts, s, step).Some?
    ensures TickerInShape(Next(maxTimeouts, s, step).value)
  {
    hide TickerShape, LastTicker, Apply;
    match step
    case Select(_) =>
    case Dispatch =>
    case ExitTicker =>
    case IncSummary => ShapeExtended(s.history, Increment(s.monitor.msg.nodeId));
    case LogTick => ShapeExtended(s.history, Report);
    case StartReset => ShapeExtended(s.history, Clear);
    case ResetTick => ShapeExtended(s.history, Clear);
  }

  lemma {:induction false} TickerAlternates(maxTimeouts: int, steps: seq<Step>)
    requires Run(maxTimeouts, steps).Some?
    ensures TickerInShape(Run(maxTimeouts, steps).value)
  {
    if steps != [] {
      hide TickerInShape, Next;
      var front := steps[..|steps| - 1];
      TickerAlternates(maxTimeouts, front);
      StepKeepsShape(maxTimeouts, Run(maxTimeouts, front).value, steps[|steps| - 1]);
    }
  }

  /** Each tick: what its Reset throws away is what the report before it printed, plus the events
      that came in between the two. */
  lemma TickDiscards(before: seq<Op>, between: seq<Op>)
    requires Clear !in between
    ensures Discarded(before + [Report] + between + [Clear]) ==
            Discarded(before + [Report] + between) + Replay(before).total + Incs(between)
  {
    var ops := before + [Report] + between;
    assert (ops + [Clear])[..|ops|] == ops;
    TotalGrowsByIncs(before + [Report], between);
    ReplaySnoc(before, Report);
  }

  /** The ledger of a history: events lost at start-up, printed, and lost between report and Reset. */
  lemma {:induction false} LedgerOf(ops: seq<Op>)
    requires TickerShape(ops)
    ensures var lost := IncsAfter(ops, None) + IncsAfter(ops, Some(Report));
            Incs(ops) == lost + Logged(ops) + (if LastTicker(ops) == Some(Clear) then Replay(ops).total else 0)
    ensures LastTicker(ops) == None ==> IncsAfter(ops, Some(Report)) == 0 && Logged(ops) == 0 && Replay(ops).total == IncsAfter(ops, None)
  {
    if ops != [] {
      var before, op := ops[..|ops| - 1], ops[|ops| - 1];
      LedgerOf(before);
      assert Replay(ops) == Apply(Replay(before), op);
      assert Incs(ops) == Incs(before) + if op.Increment? then 1 else 0;
      assert op.Increment? ==> LastTicker(ops) == LastTicker(before);
    }
  }

  /** Over every interleaving, every delivered message has exactly one fate: printed in a summary,
      lost in the start-up Reset, lost between a report and its Reset, still held, or in flight.
      (While the ticker is between report and Reset what it holds is already in one of the first.) */
  lemma EveryEventAccounted(maxTimeouts: int, steps: seq<Step>)
    requires Run(maxTimeouts, steps).Some?
    ensures var s := Run(maxTimeouts, steps).value;
            var held := if s.ticker.Waiting? || s.ticker.Exited? then s.tally.total else 0;
            Deliveries(Selected(steps)) ==
            Logged(s.history) + IncsAfter(s.history, None) + IncsAfter(s.history, Some(Report))
            + held + if s.monitor.Counted? then 1 else 0
  {
    CounterStaysInStep(maxTimeouts, steps);
    TickerDoesNotInterfere(maxTimeouts, steps);
    TickerAlternates(maxTimeouts, steps);
    LedgerOf(Run(maxTimeouts, steps).value.history);
  }

  // ---------- the real objects under a schedule ----------

  /** The message that the monitor holds between two of its operations. */
  function InHand(taken: Option<Message>): seq<Event> {
    if taken.Some? then [Received(taken.value)] else []
  }

  /** The gauges move only when a message is dispatched. */
  function Dispatched(step: Step, bit: Option<int>, node: string, before: Float64, taken: Option<Message>): Float64 {
    if step.Dispatch? && taken.Some? then GaugeStep(bit, node, before, Received(taken.value)) else before
  }

  /** One step of one goroutine on the shared objects and the monitor's own variables. */
  method ExecuteStep(handlers: HandlerMap, messageCounter: Counter, summary: EventSummaryCounter,
                     maxTimeouts: int, ghost s: State, step: Step, taken: Option<Message>, timeoutCount: nat, status: Status)
    returns (taken': Option<Message>, timeoutCount': nat, status': Status)
    requires Next(maxTimeouts, s, step).Some?
    requires Separate(handlers) && summary.Valid() && summary.Interval > 0.0
    requires summary.history == s.history && messageCounter.value == s.messages
    requires timeoutCount == s.timeouts && status == StatusOf(s)
    requires InFlight(s) == InHand(taken) && forall e | e in InHand(taken) :: Delivers(e)
    modifies GaugesOf(handlers), messageCounter, summary
    ensures var s' := Next(maxTimeouts, s, step).value;
            && summary.Valid() && summary.history == s'.history && messageCounter.value == s'.messages
            && timeoutCount' == s'.timeouts && status' == StatusOf(s')
            && InFlight(s') == InHand(taken') && (forall e | e in InHand(taken') :: Delivers(e))
    ensures forall node, i | IsSlot(handlers, node, i) ::
              GaugeAt(handlers, node, i).value ==
              Dispatched(step, handlers[node][i].handler.Bit(), node, old(GaugeAt(handlers, node, i).value), taken)
  {
    hide Converted, Replay, Apply;
    taken', timeoutCount', status' := taken, timeoutCount, status;
    match step {
      case Select(Cancelled) =>
        status' := Stopped;
      case Select(Received(msg)) =>
        if !msg.failed && msg.value.Some? {
          messageCounter.Inc();
          taken' := Some(msg);
        }
      case Select(ReadTimeout) =>
        timeoutCount' := timeoutCount + 1;
        if maxTimeouts > 0 && timeoutCount' >= maxTimeouts {
          status' := TimedOut;
        }
      case IncSummary =>
        assert InHand(taken)[0] == Received(s.monitor.msg);
        summary.Inc(taken.value.nodeId);
      case Dispatch =>
        assert Delivers(InHand(taken)[0]);
        HandleMessage(handlers, taken.value.nodeId, taken.value.value.value);
        taken' := None;
      case StartReset =>
        summary.Reset();
      case ResetTick =>
        summary.Reset();
      case LogTick =>
        var _, _, _ := summary.LogSummary();
      case ExitTicker =>
    }
  }

  lemma HandledStep(maxTimeouts: int, s: State, step: Step, taken: Option<Message>, bit: Option<int>, node: string, start: Float64)
    requires Next(maxTimeouts, s, step).Some? && InFlight(s) == InHand(taken)
    ensures GaugeAfter(bit, node, start, Next(maxTimeouts, s, step).value.handled) ==
            Dispatched(step, bit, node, GaugeAfter(bit, node, start, s.handled), taken)
  {
    hide Converted, GaugeAfter, Updates;
    if step.Dispatch? {
      assert InHand(taken)[0] == Received(s.monitor.msg);
      GaugeAfterSnoc(bit, node, start, s.handled, Received(s.monitor.msg));
    }
  }

  /** The monitor has not begun: only the ticker has moved. */
  predicate TickerOnly(steps: seq<Step>) {
    forall step | step in steps :: step.StartReset? || step.LogTick? || step.ResetTick? || step.ExitTicker?
  }

  lemma {:induction false} BeforeMonitor(maxTimeouts: int, steps: seq<Step>)
    requires TickerOnly(steps) && Run(maxTimeouts, steps).Some?
    ensures var s := Run(maxTimeouts, steps).value;
            s.monitor == Selecting && s.timeouts == 0 && s.messages == 0 && s.handled == []
  {
    if steps != [] {
      assert steps[|steps| - 1] in steps;
      BeforeMonitor(maxTimeouts, steps[..|steps| - 1]);
    }
  }

  /** Executes a schedule after some steps of the ticker. The gauges, the message counter, the summary
      counter and the monitor's result are then those of the state that the whole schedule leads to. */
  method Execute(handlers: HandlerMap, messageCounter: Counter, summary: EventSummaryCounter,
                 maxTimeouts: int, ghost early: seq<Step>, steps: seq<Step>)
    returns (status: Status)
    requires TickerOnly(early) && Run(maxTimeouts, early).Some? && Run(maxTimeouts, early + steps).Some?
    requires Separate(handlers) && summary.Valid() && summary.Interval > 0.0
    requires summary.history == Run(maxTimeouts, early).value.history && messageCounter.value == 0
    modifies GaugesOf(handlers), messageCounter, summary
    ensures var s := Run(maxTimeouts, early + steps).value;
            && status == StatusOf(s)
            && messageCounter.value == s.messages && summary.Valid()
            && Tally(summary.Counts, summary.Total) == s.tally && summary.history == s.history
            && forall node, i | IsSlot(handlers, node, i) ::
                 GaugeAt(handlers, node, i).value ==
                 GaugeAfter(handlers[node][i].handler.Bit(), node, old(GaugeAt(handlers, node, i).value), s.handled)
  {
    hide Converted, GaugeAfter, GaugeStep, Next, Replay, Dispatched, Run;
    ghost var all, n, s := early + steps, |early|, Run(maxTimeouts, early).value;
    var taken: Option<Message>, timeoutCount: nat := None, 0;
    status := Running;
    BeforeMonitor(maxTimeouts, early);
    GaugeAtStart();
    assert all[..n] == early;
    for k := 0 to |steps|
      invariant Run(maxTimeouts, all[..n + k]) == Some(s)
      invariant InFlight(s) == InHand(taken) && forall e | e in InHand(taken) :: Delivers(e)
      invariant summary.Valid() && summary.history == s.history && messageCounter.value == s.messages
      invariant timeoutCount == s.timeouts && status == StatusOf(s)
      invariant forall node, i | IsSlot(handlers, node, i) ::
                  GaugeAt(handlers, node, i).value ==
                  GaugeAfter(handlers[node][i].handler.Bit(), node, old(GaugeAt(handlers, node, i).value), s.handled)
    {
      RunPrefix(maxTimeouts, all, n + k);
      assert all[n + k] == steps[k];
      forall node, i | IsSlot(handlers, node, i)
        ensures GaugeAfter(handlers[node][i].handler.Bit(), node, old(GaugeAt(handlers, node, i).value),
                  Next(maxTimeouts, s, steps[k]).value.handled)
             == Dispatched(steps[k], handlers[node][i].handler.Bit(), node, GaugeAt(handlers, node, i).value, taken)
      {
        HandledStep(maxTimeouts, s, steps[k], taken, handlers[node][i].handler.Bit(), node, old(GaugeAt(handlers, node, i).value));
      }
      taken, timeoutCount, status :=
        ExecuteStep(handlers, messageCounter, summary, maxTimeouts, s, steps[k], taken, timeoutCount, status);
      s := Next(maxTimeouts, s, steps[k]).value;
    }
    assert all[..n + |steps|] == all;
    CounterStaysInStep(maxTimeouts, all);
  }

  /** A run that is possible as a whole is possible up to every point. */
  lemma {:induction false} RunPrefix(maxTimeouts: int, steps: seq<Step>, k: nat)
    requires Run(maxTimeouts, steps).Some? && k < |steps|
    ensures Run(maxTimeouts, steps[..k]).Some?
    ensures Run(maxTimeouts, steps[..k + 1]) == Next(maxTimeouts, Run(maxTimeouts, steps[..k]).value, steps[k])
    ensures Run(maxTimeouts, steps[..k + 1]).Some?
    decreases |steps|
  {
    if k + 1 == |steps| {
      assert steps[..k + 1] == steps;
    } else {
      var front := steps[..|steps| - 1];
      RunPrefix(maxTimeouts, front, k);
      assert front[..k] == steps[..k] && front[..k + 1] == steps[..k + 1];
    }
  }
}
