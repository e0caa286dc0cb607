/** From configuration to gauges: the pieces put together in the order of the main program. */
module Exporter {
  import opened Outcomes
  import opened Variants
  import opened NodeConfig
  import opened NodeFlag
  import opened NodeEnv
  import opened Gauges
  import opened Summary
  import opened Metrics
  import opened Monitor
  import opened Goroutines
  import Connection

  const TIME_NODE := NodeMapping("i=2258", "opcua_server_time", NoBit)

  /** The mappings to register: the configured ones, and the server clock on request. */
  function Nodes(configured: seq<NodeMapping>, subscribeToTimeNode: bool): seq<NodeMapping> {
    if subscribeToTimeNode then configured + [TIME_NODE] else configured
  }

  datatype StartError =
    | NotLoaded(load: LoadError)
    | NoMappings
    | NotConnected
    | NotCreated(cause: RegisterError)
    | NotSubscribed

  function NodeNames(nodes: seq<NodeMapping>): set<string> {
    set m | m in nodes :: m.nodeName
  }

  /** Everything else that the start depends on: settings, and what the outside world answers to the
      attempts to connect and to the subscription of the node names. */
  datatype Start = Start(
    subscribeToTimeNode: bool,
    prefix: string,
    settings: Connection.Settings,
    worlds: seq<Connection.World>,
    subscribes: set<string> -> bool)

  /** Why the program does not get as far as monitoring, if it does not. */
  function Obstacle(configured: seq<NodeMapping>, at: Naming, names: set<string>, start: Start): Option<StartError> {
    var nodes := Nodes(configured, start.subscribeToTimeNode);
    if configured == [] then Some(NoMappings)
    else if !Connection.Connects(start.worlds, start.settings) then Some(NotConnected)
    else match RegisteredAll(at, Books(names, map[]), nodes).1
      case Some(e) => Some(NotCreated(e))
      case None => if start.subscribes(NodeNames(nodes)) then None else Some(NotSubscribed)
  }

  /** The mappings that are registered, with the clock spelled out. */
  function WithClock(configured: seq<NodeMapping>, start: Start): seq<NodeMapping> {
    configured + if start.subscribeToTimeNode then [NodeMapping("i=2258", "opcua_server_time", NoBit)] else []
  }

  /** It does if and only if there are mappings, an attempt to connect succeeds, the metrics can be
      registered one beside the other, and the subscription is accepted. Otherwise the first of these
      that fails is the obstacle. */
  lemma StartsExactly(configured: seq<NodeMapping>, at: Naming, names: set<string>, start: Start)
    ensures var nodes, obstacle := WithClock(configured, start), Obstacle(configured, at, names, start);
            var connects := Connection.Connects(start.worlds, start.settings);
            var registers := AllAcceptable(at, names, nodes) && UniqueMetrics(nodes);
            && (obstacle == None <==> configured != [] && connects && registers && start.subscribes(NodeNames(nodes)))
            && (obstacle == Some(NoMappings) <==> configured == [])
            && (obstacle == Some(NotConnected) <==> configured != [] && !connects)
            && ((exists e :: obstacle == Some(NotCreated(e))) <==> configured != [] && connects && !registers)
            && (obstacle == Some(NotSubscribed) <==>
                  configured != [] && connects && registers && !start.subscribes(NodeNames(nodes)))
  {
    hide RegisteredAll, AllAcceptable, UniqueMetrics, Connection.Connects;
    assert configured + [] == configured;
    SucceedsExactly(at, Books(names, map[]), Nodes(configured, start.subscribeToTimeNode));
  }

  /** The metric names that are taken when the start is over, one way or the other. */
  function NamesLeft(configured: seq<NodeMapping>, at: Naming, names: set<string>, start: Start): set<string> {
    if configured == [] || !Connection.Connects(start.worlds, start.settings) then names
    else RegisteredAll(at, Books(names, map[]), Nodes(configured, start.subscribeToTimeNode)).0.names
  }

  /** After a start without an obstacle exactly the names of the mappings have been added. */
  lemma NamesLeftExactly(configured: seq<NodeMapping>, at: Naming, names: set<string>, start: Start)
    requires Obstacle(configured, at, names, start) == None
    ensures NamesLeft(configured, at, names, start) == names + FullNames(at.prefix, WithClock(configured, start))
  {
    hide RegisteredAll, AllAcceptable, UniqueMetrics, Connection.Connects;
    assert configured + [] == configured;
    SucceedsExactly(at, Books(names, map[]), Nodes(configured, start.subscribeToTimeNode));
  }

  /** A handler for m is in place: it sits in the bucket of its node, takes the bit that m asks for,
      and owns the gauge under its full name. */
  predicate ServesAt(handlers: HandlerMap, gauges: map<string, Gauge>, prefix: string, m: NodeMapping, i: int) {
    && IsSlot(handlers, m.nodeName, i)
    && FullName(prefix, m.metricName) in gauges
    && GaugeAt(handlers, m.nodeName, i) == gauges[FullName(prefix, m.metricName)]
    && handlers[m.nodeName][i].handler.Bit() == BitOf(m)
  }

  ghost predicate Serves(handlers: HandlerMap, gauges: map<string, Gauge>, prefix: string, m: NodeMapping) {
    exists i :: ServesAt(handlers, gauges, prefix, m, i)
  }

  lemma GroupedIsServed(nodes: seq<NodeMapping>, handlers: HandlerMap, gauges: map<string, Gauge>, prefix: string, m: NodeMapping)
    requires ConfigGroups(handlers) == GroupedAll(map[], nodes) && Wired(handlers, gauges, prefix)
    requires m in nodes
    ensures Serves(handlers, gauges, prefix, m)
  {
    BucketIsSubsequence(nodes, m.nodeName);
    var bucket := Filter(nodes, OnNode(m.nodeName));
    assert OnNode(m.nodeName)(m) && m in bucket;
    var i :| 0 <= i < |bucket| && bucket[i] == m;
    assert Bucket(ConfigGroups(handlers), m.nodeName) == Configs(handlers[m.nodeName]);
    assert IsSlot(handlers, m.nodeName, i) && handlers[m.nodeName][i].config == m;
    assert ServesAt(handlers, gauges, prefix, m, i);
  }

  lemma GroupedKeys(nodes: seq<NodeMapping>, handlers: HandlerMap)
    requires ConfigGroups(handlers) == GroupedAll(map[], nodes)
    ensures handlers.Keys == NodeNames(nodes)
  {
    hide GroupedAll;
    GroupingIsPartition(nodes);
    assert ConfigGroups(handlers).Keys == handlers.Keys;
    assert forall node | node in handlers.Keys :: node in GroupedAll(map[], nodes);
  }

  method CreateHandlers(nodes: seq<NodeMapping>, prom: Prometheus, prefix: string)
    returns (r: Result<HandlerMap, RegisterError>)
    requires prom.Valid()
    modifies prom
    ensures RegisteredAll(Naming(prefix, prom.wellFormed), Books(old(prom.names), map[]), nodes).1 ==
            if r.Ok? then None else Some(r.error)
    ensures prom.names == RegisteredAll(Naming(prefix, prom.wellFormed), Books(old(prom.names), map[]), nodes).0.names
    ensures r.Ok? ==> r.value.Keys == NodeNames(nodes)
    ensures r.Ok? ==> Separate(r.value) && forall m | m in nodes :: Serves(r.value, prom.gauges, prefix, m)
    ensures r.Ok? ==> fresh(GaugesOf(r.value))
    ensures r.Ok? ==> forall node, i | IsSlot(r.value, node, i) :: GaugeAt(r.value, node, i).value == FromInt(0)
  {
    hide Converted, RegisteredAll, AllAcceptable, UniqueMetrics, Serves;
    var registry := new Registry();
    ghost var at, start := Naming(prefix, prom.wellFormed), Books(prom.names, map[]);
    assert ConfigGroups(registry.handlerMap) == map[] && GaugesOf(registry.handlerMap) == {};
    var err := registry.CreateFromNodeMappings(prom, nodes, prefix);
    SucceedsExactly(at, start, nodes);
    if err.Some? {
      return Err(err.value);
    }
    GroupedKeys(nodes, registry.handlerMap);
    forall m | m in nodes ensures Serves(registry.handlerMap, prom.gauges, prefix, m) {
      GroupedIsServed(nodes, registry.handlerMap, prom.gauges, prefix, m);
    }
    forall node, i | IsSlot(registry.handlerMap, node, i)
      ensures GaugeAt(registry.handlerMap, node, i).value == FromInt(0)
    {
      assert registry.handlerMap[node][i].handler.gauge in GaugesOf(registry.handlerMap);
    }
    r := Ok(registry.handlerMap);
  }

  /** What a run of both goroutines leaves behind: the counters and, for every mapping, the gauge under
      its full name, which shows the last value of its node that it could convert, or zero. */
  ghost predicate RanTo(s: State, nodes: seq<NodeMapping>, prefix: string, prom: Prometheus,
                        messageCounter: Counter, summary: EventSummaryCounter)
    reads prom, prom.gauges.Values, messageCounter, summary
  {
    && messageCounter.value == s.messages
    && Tally(summary.Counts, summary.Total) == s.tally && summary.history == s.history
    && forall m | m in nodes ::
         var name := FullName(prefix, m.metricName);
         name in prom.gauges && prom.gauges[name].value == GaugeAfter(BitOf(m), m.nodeName, FromInt(0), s.handled)
  }

  /** The main program once its mappings are known. The ticker is started first; `early` are its steps
      until the monitor begins, and `later` the steps of both from then on. */
  method StartAndMonitor(configured: seq<NodeMapping>, start: Start, prom: Prometheus, interval: real, maxTimeouts: int,
                         early: seq<Step>, later: seq<Step>)
    returns (r: Result<Status, StartError>, messageCounter: Counter, summary: EventSummaryCounter)
    requires prom.Valid() && interval > 0.0
    requires TickerOnly(early) && Run(maxTimeouts, early).Some? && Run(maxTimeouts, early + later).Some?
    modifies prom
    ensures match Obstacle(configured, Naming(start.prefix, prom.wellFormed), old(prom.names), start)
            case Some(e) => r == Err(e)
            case None =>
              var s := Run(maxTimeouts, early + later).value;
              && r == Ok(StatusOf(s))
              && RanTo(s, Nodes(configured, start.subscribeToTimeNode), start.prefix, prom, messageCounter, summary)
    ensures prom.names == NamesLeft(configured, Naming(start.prefix, prom.wellFormed), old(prom.names), start)
  {
    hide GaugeAfter, Converted, RegisteredAll, Connection.Connects, Run, StatusOf, Replay, NodeNames;
    messageCounter := new Counter();
    summary := new EventSummaryCounter(interval);
    TickerAlone(maxTimeouts, early);
    assert [] + early == early;
    var idle := Execute(map[], messageCounter, summary, maxTimeouts, [], early);
    if |configured| == 0 {
      return Err(NoMappings), messageCounter, summary;
    }
    var nodes := Nodes(configured, start.subscribeToTimeNode);
    var manager := new Connection.Manager(start.settings);
    var client := manager.Connect(start.worlds);
    if client.None? {
      return Err(NotConnected), messageCounter, summary;
    }
    var created := CreateHandlers(nodes, prom, start.prefix);
    if created.Err? {
      return Err(NotCreated(created.error)), messageCounter, summary;
    }
    if !start.subscribes(created.value.Keys) {
      return Err(NotSubscribed), messageCounter, summary;
    }
    var status := Execute(created.value, messageCounter, summary, maxTimeouts, early, later);
    forall m | m in nodes
      ensures FullName(start.prefix, m.metricName) in prom.gauges
      ensures prom.gauges[FullName(start.prefix, m.metricName)].value ==
              GaugeAfter(BitOf(m), m.nodeName, FromInt(0), Run(maxTimeouts, early + later).value.handled)
    {
      var i :| ServesAt(created.value, prom.gauges, start.prefix, m, i);
      assert IsSlot(created.value, m.nodeName, i);
    }
    r := Ok(status);
  }

  lemma TickerAlone(maxTimeouts: int, early: seq<Step>)
    requires TickerOnly(early) && Run(maxTimeouts, early).Some?
    ensures Run(maxTimeouts, []) == Some(INITIAL)
    ensures Run(maxTimeouts, early).value.messages == 0
  {
    BeforeMonitor(maxTimeouts, early);
  }

  /** The mappings that loading starts from: those of the environment if there are any. */
  function Chosen(fromFile: seq<NodeMapping>, env: Environment): seq<NodeMapping> {
    if |MappingsFrom(env, 0)| > 0 then MappingsFrom(env, 0) else fromFile
  }

  /** The main program from its three sources of mappings on. */
  method RunExporter(fromFile: seq<NodeMapping>, env: Environment, flags: seq<string>, start: Start,
                     prom: Prometheus, interval: real, maxTimeouts: int, early: seq<Step>, later: seq<Step>)
    returns (r: Result<Status, StartError>, messageCounter: Counter, summary: EventSummaryCounter)
    requires prom.Valid() && interval > 0.0
    requires TickerOnly(early) && Run(maxTimeouts, early).Some? && Run(maxTimeouts, early + later).Some?
    modifies prom
    ensures var chosen := Chosen(fromFile, env);
            var configured := WithOverrides(chosen, ParsedFlags(flags));
            if exists m :: m in chosen && Validate(m).Some? then
              && r.Err? && r.error.NotLoaded?
              && var InvalidMapping(i, e) := r.error.load;
              && i < |chosen| && Validate(chosen[i]) == Some(e) && forall j | 0 <= j < i :: Validate(chosen[j]) == None
            else match Obstacle(configured, Naming(start.prefix, prom.wellFormed), old(prom.names), start)
              case Some(e) => r == Err(e)
              case None =>
                var s := Run(maxTimeouts, early + later).value;
                && r == Ok(StatusOf(s))
                && RanTo(s, Nodes(configured, start.subscribeToTimeNode), start.prefix, prom, messageCounter, summary)
    ensures var chosen := Chosen(fromFile, env);
            prom.names ==
            if exists m :: m in chosen && Validate(m).Some? then old(prom.names)
            else NamesLeft(WithOverrides(chosen, ParsedFlags(flags)), Naming(start.prefix, prom.wellFormed), old(prom.names), start)
  {
    hide Obstacle, NamesLeft, RanTo, Run, Validate, MappingsFrom, WithOverrides, ParsedFlags;
    var fromEnv := ParseEnvNodeMappings(env);
    var loaded := LoadNodes(fromFile, fromEnv);
    if loaded.Err? {
      messageCounter := new Counter();
      summary := new EventSummaryCounter(interval);
      return Err(NotLoaded(loaded.error)), messageCounter, summary;
    }
    var cfg := new Config(loaded.value);
    ApplyNodeFlagOverrides(cfg, flags);
    r, messageCounter, summary := StartAndMonitor(cfg.NodeMappings, start, prom, interval, maxTimeouts, early, later);
  }

  /** After any such run the gauge of a mapping shows what the monitor's loop alone would show for the
      events it has dealt with, the ticker and a message in flight notwithstanding. */
  lemma GaugesOfRun(maxTimeouts: int, steps: seq<Step>, nodes: seq<NodeMapping>, prefix: string, prom: Prometheus,
                    messageCounter: Counter, summary: EventSummaryCounter, m: NodeMapping)
    requires Run(maxTimeouts, steps).Some?
    requires RanTo(Run(maxTimeouts, steps).value, nodes, prefix, prom, messageCounter, summary) && m in nodes
    ensures var s := Run(maxTimeouts, steps).value;
            var gauge := prom.gauges[FullName(prefix, m.metricName)];
            && gauge.value == GaugeAfter(BitOf(m), m.nodeName, FromInt(0), Settled(s, Selected(steps)))
            && messageCounter.value == Deliveries(Selected(steps))
            && summary.Total + Discarded(summary.history) + (if s.monitor.Counted? then 1 else 0) == messageCounter.value
            && forall node ::
                 CountOf(summary.Counts, node) + DiscardedOn(summary.history, node)
                 + (if s.monitor.Counted? && s.monitor.msg.nodeId == node then 1 else 0)
                 == |Filter(Selected(steps), GoodMessageFor(node))|
  {
    hide GaugeAfter, Run, Next;
    forall node ensures var s := Run(maxTimeouts, steps).value;
                        CountOf(s.tally.counts, node) + DiscardedOn(s.history, node)
                        + (if s.monitor.Counted? && s.monitor.msg.nodeId == node then 1 else 0)
                        == |Filter(Selected(steps), GoodMessageFor(node))|
    {
      ChannelsAccounted(maxTimeouts, steps, node);
    }
    GaugesUnderInterleaving(maxTimeouts, steps, BitOf(m), m.nodeName, FromInt(0));
    TickerDoesNotInterfere(maxTimeouts, steps);
    MessagesConserved(maxTimeouts, steps);
  }

  /** The gauge of this name shows what the last message for the node had to show, or zero. */
  ghost predicate Displays(prom: Prometheus, name: string, bit: Option<int>, node: string, events: seq<Event>)
    reads prom, prom.gauges.Values
  {
    name in prom.gauges && IsLastAnnounced(bit, node, FromInt(0), events, prom.gauges[name].value)
  }

  /** What can be read off after any such run, for the events before a message in flight: under the
      metric name of every mapping, behind the prefix if there is one, the bit that the mapping asks
      for, or the number, of the last good message for its node; and the server's clock on request. */
  lemma DisplayedByRun(maxTimeouts: int, steps: seq<Step>, configured: seq<NodeMapping>, start: Start, prom: Prometheus,
                       messageCounter: Counter, summary: EventSummaryCounter)
    requires Run(maxTimeouts, steps).Some?
    requires RanTo(Run(maxTimeouts, steps).value, Nodes(configured, start.subscribeToTimeNode), start.prefix, prom,
               messageCounter, summary)
    ensures var events := Settled(Run(maxTimeouts, steps).value, Selected(steps));
            var lead := if start.prefix == "" then "" else start.prefix + "_";
            && (forall m | m in configured ::
                  && (m.bit.NoBit? ==> Displays(prom, lead + m.metricName, None, m.nodeName, events))
                  && (m.bit.IntBit? ==> Displays(prom, lead + m.metricName, Some(m.bit.n), m.nodeName, events)))
            && (start.subscribeToTimeNode ==> Displays(prom, lead + "opcua_server_time", None, "i=2258", events))
  {
    hide GaugeAfter, Run, Settled, Selected, IsLastAnnounced;
    var nodes := Nodes(configured, start.subscribeToTimeNode);
    var events := Settled(Run(maxTimeouts, steps).value, Selected(steps));
    var lead := if start.prefix == "" then "" else start.prefix + "_";
    forall m | m in nodes ensures Displays(prom, lead + m.metricName, BitOf(m), m.nodeName, events) {
      var name := FullName(start.prefix, m.metricName);
      assert name == lead + m.metricName;
      GaugesOfRun(maxTimeouts, steps, nodes, start.prefix, prom, messageCounter, summary, m);
      GaugeShowsLast(BitOf(m), m.nodeName, FromInt(0), events, prom.gauges[name].value);
    }
    if start.subscribeToTimeNode {
      assert nodes[|configured|] == TIME_NODE;
    }
  }

  // ---------- overrides meet registration ----------

  /** Metric names that are unique before the flags stay so, and prefixing keeps them apart:
      registration then never refuses a name because another mapping has taken it. */
  lemma OverridesNeverCollide(at: Naming, names: set<string>, base: seq<NodeMapping>, flags: seq<NodeMapping>)
    requires UniqueMetrics(base)
    ensures var err := RegisteredAll(at, Books(names, map[]), WithOverrides(base, flags)).1;
            forall name :: err == Some(NotRegistered(name)) ==> !at.wellFormed(name) || name in names
  {
    OverridesUnique(base, flags);
    RefusedForOwnName(at, names, WithOverrides(base, flags));
  }

  lemma RefusedForOwnName(at: Naming, names: set<string>, nodes: seq<NodeMapping>)
    requires UniqueMetrics(nodes)
    ensures var err := RegisteredAll(at, Books(names, map[]), nodes).1;
            forall name :: err == Some(NotRegistered(name)) ==> !at.wellFormed(name) || name in names
  {
    var b := Books(names, map[]);
    if RegisteredAll(at, b, nodes).1.Some? {
      StopsAtFirstOffender(at, b, nodes);
      var i := Accepted(at, b, nodes);
      FullNamesOf(at.prefix, nodes[..i], nodes[i].metricName);
    }
  }

  lemma {:induction false} RegisteredSnoc(at: Naming, b: Books, ms: seq<NodeMapping>, m: NodeMapping)
    ensures RegisteredAll(at, b, ms + [m]) ==
            var (after, err) := RegisteredAll(at, b, ms);
            if err.Some? then (after, err) else Registered(at, after, m)
    decreases ms
  {
    if ms == [] {
      assert (ms + [m])[1..] == [];
    } else {
      assert (ms + [m])[1..] == ms[1..] + [m];
      RegisteredSnoc(at, Registered(at, b, ms[0]).0, ms[1..], m);
    }
  }

  /** What asking for the server clock does to the outcome of registration, whatever the mappings: an
      error stays the same; otherwise the full name of the clock is refused if it is malformed or
      taken, or if a mapping of the base or a flag uses the clock's metric name; and nothing else. */
  lemma TimeNodeCollision(at: Naming, names: set<string>, base: seq<NodeMapping>, flags: seq<NodeMapping>)
    ensures var nodes, clock := WithOverrides(base, flags), FullName(at.prefix, TIME_NODE.metricName);
            var without := RegisteredAll(at, Books(names, map[]), nodes).1;
            RegisteredAll(at, Books(names, map[]), Nodes(nodes, true)).1 ==
            if without.Some? then without
            else if !at.wellFormed(clock) || clock in names
                    || Names(base, TIME_NODE.metricName) || Names(flags, TIME_NODE.metricName)
            then Some(NotRegistered(clock))
            else None
  {
    var nodes, b := WithOverrides(base, flags), Books(names, map[]);
    RegisteredSnoc(at, b, nodes, TIME_NODE);
    SucceedsExactly(at, b, nodes);
    FullNamesOf(at.prefix, nodes, TIME_NODE.metricName);
    OverridesNames(base, flags, TIME_NODE.metricName);
  }

  /** Overriding neither drops a metric nor invents one. */
  lemma {:induction false} OverridesNames(base: seq<NodeMapping>, flags: seq<NodeMapping>, metric: string)
    ensures Names(WithOverrides(base, flags), metric) <==> Names(base, metric) || Names(flags, metric)
  {
    if flags != [] {
      var front, m := flags[..|flags| - 1], flags[|flags| - 1];
      assert flags == front + [m];
      var before := WithOverrides(base, front);
      OverridesNames(base, front, metric);
      NamesSnoc(front, m, metric);
      NamesSnoc(Filter(before, OtherMetricThan(m)), m, metric);
      if m.metricName != metric {
        FilterKeepsNames(before, OtherMetricThan(m), metric);
      }
    }
  }

  lemma FilterKeepsNames(ms: seq<NodeMapping>, p: NodeMapping -> bool, metric: string)
    requires forall x: NodeMapping :: x.metricName == metric ==> p(x)
    ensures Names(Filter(ms, p), metric) <==> Names(ms, metric)
  {
    if Names(ms, metric) {
      var i :| 0 <= i < |ms| && ms[i].metricName == metric;
      assert ms[i] in Filter(ms, p);
      var j :| 0 <= j < |Filter(ms, p)| && Filter(ms, p)[j] == ms[i];
    }
    if Names(Filter(ms, p), metric) {
      var j :| 0 <= j < |Filter(ms, p)| && Filter(ms, p)[j].metricName == metric;
      assert Filter(ms, p)[j] in ms;
    }
  }

  // ---------- validation against registration ----------

  /** Validation and registration disagree on exactly one kind of bit: of the valid mappings, those
      with a float64 bit are refused. */
  lemma ValidButRefused(m: NodeMapping)
    requires Validate(m) == None
    ensures AcceptedBit(m) <==> !m.bit.FloatBit?
  {
  }

  /** So a start can fail over the type of a bit only because of a float64 bit in the file. */
  lemma RefusedBitIsFromFile(at: Naming, names: set<string>, fromFile: seq<NodeMapping>, env: Environment,
                             flags: seq<string>, subscribeToTimeNode: bool)
    requires forall m | m in Chosen(fromFile, env) :: Validate(m) == None
    requires RegisteredAll(at, Books(names, map[]),
               Nodes(WithOverrides(Chosen(fromFile, env), ParsedFlags(flags)), subscribeToTimeNode)).1 == Some(BitNotAnInt)
    ensures MappingsFrom(env, 0) == [] && exists m :: m in fromFile && m.bit.FloatBit?
  {
    var configured := WithOverrides(Chosen(fromFile, env), ParsedFlags(flags));
    var nodes := Nodes(configured, subscribeToTimeNode);
    LeftBehind(at, Books(names, map[]), nodes);
    var m := nodes[Accepted(at, Books(names, map[]), nodes)];
    assert m in nodes && !AcceptedBit(m);
    ParsedFlagsHaveInts(flags);
    OverridesAmong(Chosen(fromFile, env), ParsedFlags(flags));
    EnvHasInts(env);
    assert m in Chosen(fromFile, env);
    ValidButRefused(m);
  }

  lemma EnvHasInts(env: Environment)
    ensures forall m | m in MappingsFrom(env, 0) :: AcceptedBit(m)
  {
    MappingsFromIsRun(env, 0);
    var ms := MappingsFrom(env, 0);
    forall m | m in ms ensures AcceptedBit(m) {
      var j :| 0 <= j < |ms| && ms[j] == m;
      assert ms[j - 0] == MappingAt(env, j);
    }
  }

  /** And such a file exists: bit 3.0 is valid, is refused, and its name stays registered. */
  lemma FloatBitRefused(at: Naming, names: set<string>)
    requires at.wellFormed(FullName(at.prefix, "m")) && FullName(at.prefix, "m") !in names
    ensures var m := NodeMapping("n", "m", FloatBit(3.0));
            && Validate(m) == None
            && RegisteredAll(at, Books(names, map[]), [m]) ==
               (Books(names + {FullName(at.prefix, "m")}, map[]), Some(BitNotAnInt))
  {
    assert 3.0 == 3 as real;
    assert 3.0.Floor == 3;
  }
}
