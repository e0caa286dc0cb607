/** The metrics registry: one gauge and one handler per node mapping, grouped by node. */
module Metrics {
  import opened Outcomes
  import opened Variants
  import opened NodeConfig
  import opened Gauges

  /** The Prometheus side: names that are taken, and the gauges registered through Register. Which
      names are well formed is the client library's decision. */
  class Prometheus {
    const wellFormed: string -> bool
    var names: set<string>
    var gauges: map<string, Gauge>

    ghost predicate Valid()
      reads this
    {
      && gauges.Keys <= names
      && forall a, b | a in gauges && b in gauges && gauges[a] == gauges[b] :: a == b
    }

    constructor (wellFormed: string -> bool, taken: set<string>)
      ensures Valid()
      ensures this.wellFormed == wellFormed && names == taken && gauges == map[]
    {
      this.wellFormed := wellFormed;
      names, gauges := taken, map[];
    }

    method Register(name: string, gauge: Gauge) returns (ok: bool)
      requires Valid() && gauge !in gauges.Values
      modifies this
      ensures Valid()
      ensures ok == (wellFormed(name) && name !in old(names))
      ensures names == if ok then old(names) + {name} else old(names)
      ensures gauges == if ok then old(gauges)[name := gauge] else old(gauges)
    {
      ok := wellFormed(name) && name !in names;
      if ok {
        assert forall a | a in gauges :: gauges[a] in gauges.Values;
        names := names + {name};
        gauges := gauges[name := gauge];
      }
    }
  }

  datatype HandlerRecord = HandlerRecord(config: NodeMapping, handler: Handler)

  type HandlerMap = map<string, seq<HandlerRecord>>

  datatype RegisterError = NoMetricName | NotRegistered(name: string) | BitNotAnInt

  function FullName(prefix: string, metricName: string): string {
    if prefix != "" then prefix + "_" + metricName else metricName
  }

  lemma FullNameInjective(prefix: string, a: string, b: string)
    requires FullName(prefix, a) == FullName(prefix, b)
    ensures a == b
  {
    if prefix != "" {
      assert a == FullName(prefix, a)[|prefix| + 1..];
      assert b == FullName(prefix, b)[|prefix| + 1..];
    }
  }

  /** The handler that a mapping asks for; only absent and int bits are accepted. */
  function HandlerFor(m: NodeMapping, gauge: Gauge): Option<Handler> {
    match m.bit
    case NoBit => Some(OpcValueHandler(gauge))
    case IntBit(n) => Some(BitVectorHandler(gauge, n))
    case _ => None
  }

  function BitOf(m: NodeMapping): Option<int> {
    if m.bit.IntBit? then Some(m.bit.n) else None
  }

  predicate AcceptedBit(m: NodeMapping) {
    m.bit.NoBit? || m.bit.IntBit?
  }

  // ---------- registration on values ----------

  type Grouping = map<string, seq<NodeMapping>>

  function Bucket<T>(m: map<string, seq<T>>, node: string): seq<T> {
    if node in m then m[node] else []
  }

  function Grouped(g: Grouping, m: NodeMapping): Grouping {
    g[m.nodeName := Bucket(g, m.nodeName) + [m]]
  }

  function GroupedAll(g: Grouping, ms: seq<NodeMapping>): Grouping {
    if ms == [] then g else Grouped(GroupedAll(g, ms[..|ms| - 1]), ms[|ms| - 1])
  }

  /** Everything that registration reads and changes, with configurations in place of handlers. */
  datatype Books = Books(names: set<string>, groups: Grouping)

  datatype Naming = Naming(prefix: string, wellFormed: string -> bool)

  function Registered(at: Naming, b: Books, m: NodeMapping): (Books, Option<RegisterError>) {
    var name := FullName(at.prefix, m.metricName);
    if m.metricName == "" then (b, Some(NoMetricName))
    else if !at.wellFormed(name) || name in b.names then (b, Some(NotRegistered(name)))
    else if !AcceptedBit(m) then (b.(names := b.names + {name}), Some(BitNotAnInt))
    else (Books(b.names + {name}, Grouped(b.groups, m)), None)
  }

  function RegisteredAll(at: Naming, b: Books, ms: seq<NodeMapping>): (Books, Option<RegisterError>)
    decreases ms
  {
    if ms == [] then (b, None)
    else
      var (b', err) := Registered(at, b, ms[0]);
      if err.Some? then (b', err) else RegisteredAll(at, b', ms[1..])
  }

  // ---------- the registry ----------

  function Configs(records: seq<HandlerRecord>): (r: seq<NodeMapping>)
    ensures |r| == |records|
  {
    seq(|records|, i requires 0 <= i < |records| => records[i].config)
  }

  function ConfigGroups(handlers: HandlerMap): Grouping {
    map node | node in handlers :: Configs(handlers[node])
  }

  predicate IsSlot(handlers: HandlerMap, node: string, i: int) {
    node in handlers && 0 <= i < |handlers[node]|
  }

  function GaugeAt(handlers: HandlerMap, node: string, i: int): Gauge
    requires IsSlot(handlers, node, i)
  {
    handlers[node][i].handler.gauge
  }

  /** No two handlers share a gauge. */
  ghost predicate Separate(handlers: HandlerMap) {
    forall n, i, n', i' | IsSlot(handlers, n, i) && IsSlot(handlers, n', i') ::
      GaugeAt(handlers, n, i) == GaugeAt(handlers, n', i') ==> n == n' && i == i'
  }

  ghost function GaugesOf(handlers: HandlerMap): set<Gauge> {
    set node, i | node in handlers && 0 <= i < |handlers[node]| :: handlers[node][i].handler.gauge
  }

  /** Every handler sits in the bucket of its node, does what its mapping asks for, and owns the
      gauge that is registered under its full name. */
  ghost predicate Wired(handlers: HandlerMap, gauges: map<string, Gauge>, prefix: string) {
    forall node, i | IsSlot(handlers, node, i) ::
      var record := handlers[node][i];
      var name := FullName(prefix, record.config.metricName);
      && record.config.nodeName == node
      && name in gauges
      && HandlerFor(record.config, gauges[name]) == Some(record.handler)
  }

  lemma ConfigGroupsAdd(handlers: HandlerMap, node: string, record: HandlerRecord)
    ensures ConfigGroups(handlers[node := Bucket(handlers, node) + [record]]) ==
            ConfigGroups(handlers)[node := Bucket(ConfigGroups(handlers), node) + [record.config]]
  {
    var records := Bucket(handlers, node);
    assert Configs(records + [record]) == Configs(records) + [record.config];
    assert Bucket(ConfigGroups(handlers), node) == Configs(records);
  }

  function WithRecord(handlers: HandlerMap, record: HandlerRecord): HandlerMap {
    handlers[record.config.nodeName := Bucket(handlers, record.config.nodeName) + [record]]
  }

  lemma SlotsAdd(handlers: HandlerMap, record: HandlerRecord, node: string, i: int)
    requires IsSlot(WithRecord(handlers, record), node, i)
    ensures if IsSlot(handlers, node, i) then WithRecord(handlers, record)[node][i] == handlers[node][i]
            else node == record.config.nodeName && i == |Bucket(handlers, node)|
                 && WithRecord(handlers, record)[node][i] == record
  {
  }

  lemma GaugesAdd(handlers: HandlerMap, record: HandlerRecord)
    ensures GaugesOf(WithRecord(handlers, record)) <= GaugesOf(handlers) + {record.handler.gauge}
  {
    forall g | g in GaugesOf(WithRecord(handlers, record)) ensures g in GaugesOf(handlers) + {record.handler.gauge} {
      var node, i :| IsSlot(WithRecord(handlers, record), node, i) && WithRecord(handlers, record)[node][i].handler.gauge == g;
      SlotsAdd(handlers, record, node, i);
      if IsSlot(handlers, node, i) {
        assert handlers[node][i].handler.gauge == g;
      }
    }
  }

  lemma SeparateAdd(handlers: HandlerMap, record: HandlerRecord)
    requires Separate(handlers)
    requires forall n, i | IsSlot(handlers, n, i) :: GaugeAt(handlers, n, i) != record.handler.gauge
    ensures Separate(WithRecord(handlers, record))
  {
    var after := WithRecord(handlers, record);
    forall n, i, n', i' | IsSlot(after, n, i) && IsSlot(after, n', i') && GaugeAt(after, n, i) == GaugeAt(after, n', i')
      ensures n == n' && i == i'
    {
      SlotsAdd(handlers, record, n, i);
      SlotsAdd(handlers, record, n', i');
      assert IsSlot(handlers, n, i) ==> GaugeAt(handlers, n, i) == GaugeAt(after, n, i);
      assert IsSlot(handlers, n', i') ==> GaugeAt(handlers, n', i') == GaugeAt(after, n', i');
    }
  }

  lemma WiredAdd(handlers: HandlerMap, gauges: map<string, Gauge>, prefix: string, record: HandlerRecord, gauge: Gauge)
    requires Wired(handlers, gauges, prefix)
    requires FullName(prefix, record.config.metricName) !in gauges
    requires HandlerFor(record.config, gauge) == Some(record.handler)
    ensures Wired(WithRecord(handlers, record), gauges[FullName(prefix, record.config.metricName) := gauge], prefix)
  {
    forall n, i | IsSlot(WithRecord(handlers, record), n, i)
      ensures IsSlot(handlers, n, i) ==> WithRecord(handlers, record)[n][i] == handlers[n][i]
      ensures !IsSlot(handlers, n, i) ==> n == record.config.nodeName && WithRecord(handlers, record)[n][i] == record
    {
      SlotsAdd(handlers, record, n, i);
    }
  }

  class Registry {
    var handlerMap: HandlerMap

    ghost predicate Valid(prom: Prometheus, prefix: string)
      reads this, prom
    {
      && prom.Valid()
      && Separate(handlerMap)
      && Wired(handlerMap, prom.gauges, prefix)
    }

    constructor ()
      ensures handlerMap == map[]
    {
      handlerMap := map[];
    }

    method RegisterNodeMapping(prom: Prometheus, m: NodeMapping, prefix: string)
      returns (err: Option<RegisterError>)
      requires Valid(prom, prefix)
      modifies this, prom
      ensures Valid(prom, prefix)
      ensures (Books(prom.names, ConfigGroups(handlerMap)), err) ==
              Registered(Naming(prefix, prom.wellFormed), old(Books(prom.names, ConfigGroups(handlerMap))), m)
      ensures forall name | name in old(prom.gauges) :: name in prom.gauges && prom.gauges[name] == old(prom.gauges[name])
      ensures forall name | name in prom.gauges && name !in old(prom.gauges) ::
                fresh(prom.gauges[name]) && prom.gauges[name].value == FromInt(0)
      ensures forall g | g in GaugesOf(handlerMap) :: g in old(GaugesOf(handlerMap)) || fresh(g)
    {
      if m.metricName == "" {
        return Some(NoMetricName);
      }
      var name := FullName(prefix, m.metricName);
      var gauge := new Gauge();
      var ok := prom.Register(name, gauge);
      if !ok {
        return Some(NotRegistered(name));
      }
      var handler;
      match m.bit {
        case IntBit(n) => handler := BitVectorHandler(gauge, n);
        case NoBit => handler := OpcValueHandler(gauge);
        case _ => return Some(BitNotAnInt);
      }
      var record := HandlerRecord(m, handler);
      GaugesAdd(handlerMap, record);
      SeparateAdd(handlerMap, record);
      WiredAdd(handlerMap, old(prom.gauges), prefix, record, gauge);
      ConfigGroupsAdd(handlerMap, m.nodeName, record);
      handlerMap := WithRecord(handlerMap, record);
      err := None;
    }

    method CreateFromNodeMappings(prom: Prometheus, ms: seq<NodeMapping>, prefix: string)
      returns (err: Option<RegisterError>)
      requires Valid(prom, prefix)
      modifies this, prom
      ensures Valid(prom, prefix)
      ensures (Books(prom.names, ConfigGroups(handlerMap)), err) ==
              RegisteredAll(Naming(prefix, prom.wellFormed), old(Books(prom.names, ConfigGroups(handlerMap))), ms)
      ensures forall name | name in old(prom.gauges) :: name in prom.gauges && prom.gauges[name] == old(prom.gauges[name])
      ensures forall name | name in prom.gauges && name !in old(prom.gauges) ::
                fresh(prom.gauges[name]) && prom.gauges[name].value == FromInt(0)
      ensures forall g | g in GaugesOf(handlerMap) :: g in old(GaugesOf(handlerMap)) || fresh(g)
    {
      ghost var at, start := Naming(prefix, prom.wellFormed), Books(prom.names, ConfigGroups(handlerMap));
      for i := 0 to |ms|
        invariant Valid(prom, prefix)
        invariant RegisteredAll(at, Books(prom.names, ConfigGroups(handlerMap)), ms[i..]) == RegisteredAll(at, start, ms)
        invariant forall name | name in old(prom.gauges) :: name in prom.gauges && prom.gauges[name] == old(prom.gauges[name])
        invariant forall name | name in prom.gauges && name !in old(prom.gauges) ::
                    fresh(prom.gauges[name]) && prom.gauges[name].value == FromInt(0)
        invariant forall g | g in GaugesOf(handlerMap) :: g in old(GaugesOf(handlerMap)) || fresh(g)
      {
        assert ms[i..][0] == ms[i] && ms[i..][1..] == ms[i + 1..];
        err := RegisterNodeMapping(prom, ms[i], prefix);
        if err.Some? {
          return;
        }
      }
      err := None;
    }
  }

  // ---------- what the grouping is ----------

  function OnNode(node: string): NodeMapping -> bool {
    (m: NodeMapping) => m.nodeName == node
  }

  /** The bucket of a node is the stable subsequence of the mappings for it. */
  lemma {:induction false} BucketIsSubsequence(ms: seq<NodeMapping>, node: string)
    ensures Bucket(GroupedAll(map[], ms), node) == Filter(ms, OnNode(node))
    ensures node in GroupedAll(map[], ms) <==> Filter(ms, OnNode(node)) != []
  {
    if ms != [] {
      var front, m := ms[..|ms| - 1], ms[|ms| - 1];
      assert ms == front + [m];
      BucketIsSubsequence(front, node);
      FilterSnoc(front, m, OnNode(node));
    }
  }

  /** The keys are exactly the node names in use, no bucket is empty, and the buckets together are
      a permutation of the input: every mapping occurs in the bucket of its own node as often as in
      the input, and in no other bucket. */
  lemma {:induction false} GroupingIsPartition(ms: seq<NodeMapping>)
    ensures var g := GroupedAll(map[], ms);
            && (forall node :: node in g <==> exists m :: m in ms && m.nodeName == node)
            && (forall node | node in g :: g[node] != [])
            && (forall m: NodeMapping :: multiset(Bucket(g, m.nodeName))[m] == multiset(ms)[m])
            && (forall node, m: NodeMapping :: m in Bucket(g, node) ==> m.nodeName == node)
  {
    var g := GroupedAll(map[], ms);
    forall node
      ensures Bucket(g, node) == Filter(ms, OnNode(node))
      ensures node in g <==> exists m :: m in ms && m.nodeName == node
      ensures node in g ==> g[node] != []
    {
      BucketIsSubsequence(ms, node);
      var bucket := Filter(ms, OnNode(node));
      if bucket != [] {
        assert bucket[0] in ms && bucket[0].nodeName == node;
      }
      if m :| m in ms && m.nodeName == node {
        assert OnNode(node)(m) && m in bucket;
      }
    }
    forall m: NodeMapping ensures multiset(Bucket(g, m.nodeName))[m] == multiset(ms)[m] {
      FilterMultiplicity(ms, OnNode(m.nodeName), m);
    }
  }

  // ---------- when registration succeeds ----------

  function FullNames(prefix: string, ms: seq<NodeMapping>): set<string> {
    set m | m in ms :: FullName(prefix, m.metricName)
  }

  /** Nothing stands in the way of registering m, apart from the other mappings. */
  predicate Acceptable(at: Naming, names: set<string>, m: NodeMapping) {
    var name := FullName(at.prefix, m.metricName);
    m.metricName != "" && at.wellFormed(name) && name !in names && AcceptedBit(m)
  }

  predicate AllAcceptable(at: Naming, names: set<string>, ms: seq<NodeMapping>) {
    forall i | 0 <= i < |ms| :: Acceptable(at, names, ms[i])
  }

  lemma FullNamesOf(prefix: string, ms: seq<NodeMapping>, metric: string)
    ensures FullName(prefix, metric) in FullNames(prefix, ms) <==> Names(ms, metric)
  {
    if FullName(prefix, metric) in FullNames(prefix, ms) {
      var m :| m in ms && FullName(prefix, m.metricName) == FullName(prefix, metric);
      FullNameInjective(prefix, m.metricName, metric);
      var i :| 0 <= i < |ms| && ms[i] == m;
      assert ms[i].metricName == metric;
    }
    if Names(ms, metric) {
      var i :| 0 <= i < |ms| && ms[i].metricName == metric;
      assert ms[i] in ms;
    }
  }

  lemma {:induction false} GroupedAllConcat(g: Grouping, a: seq<NodeMapping>, b: seq<NodeMapping>)
    ensures GroupedAll(g, a + b) == GroupedAll(GroupedAll(g, a), b)
  {
    if b == [] {
      assert a + b == a;
    } else {
      assert (a + b)[..|a + b| - 1] == a + b[..|b| - 1];
      GroupedAllConcat(g, a, b[..|b| - 1]);
    }
  }

  /** The books after a list of mappings without an offender. */
  function Entered(at: Naming, b: Books, ms: seq<NodeMapping>): Books {
    Books(b.names + FullNames(at.prefix, ms), GroupedAll(b.groups, ms))
  }

  lemma EnteredCons(at: Naming, b: Books, m: NodeMapping, ms: seq<NodeMapping>)
    ensures Entered(at, Entered(at, b, [m]), ms) == Entered(at, b, [m] + ms)
    ensures Entered(at, b, [m]) == Books(b.names + {FullName(at.prefix, m.metricName)}, Grouped(b.groups, m))
  {
    GroupedAllConcat(b.groups, [m], ms);
    assert FullNames(at.prefix, [m] + ms) == {FullName(at.prefix, m.metricName)} + FullNames(at.prefix, ms);
    assert FullNames(at.prefix, [m]) == {FullName(at.prefix, m.metricName)};
    assert [m][..0] == [];
  }

  /** Registration of a list succeeds if and only if every mapping is acceptable and the metric
      names are pairwise distinct; then the books hold exactly all of them. */
  lemma {:induction false} SucceedsExactly(at: Naming, b: Books, ms: seq<NodeMapping>)
    ensures RegisteredAll(at, b, ms).1.None? <==> AllAcceptable(at, b.names, ms) && UniqueMetrics(ms)
    ensures RegisteredAll(at, b, ms).1.None? ==> RegisteredAll(at, b, ms).0 == Entered(at, b, ms)
    decreases ms
  {
    if ms == [] {
      assert b.names + FullNames(at.prefix, ms) == b.names;
    } else {
      var m, rest := ms[0], ms[1..];
      assert ms == [m] + rest;
      var (b', err) := Registered(at, b, m);
      if err.None? {
        SucceedsExactly(at, b', rest);
        EnteredCons(at, b, m, rest);
        OneMoreName(at, b.names, m, rest);
      } else {
        assert !Acceptable(at, b.names, ms[0]);
      }
    }
  }

  /** Taking the name of m out of reach for the rest is the same as asking for distinct metrics. */
  lemma OneMoreName(at: Naming, names: set<string>, m: NodeMapping, rest: seq<NodeMapping>)
    requires Acceptable(at, names, m)
    ensures AllAcceptable(at, names + {FullName(at.prefix, m.metricName)}, rest) && UniqueMetrics(rest) <==>
            AllAcceptable(at, names, [m] + rest) && UniqueMetrics([m] + rest)
  {
    var all, more := [m] + rest, names + {FullName(at.prefix, m.metricName)};
    forall i | 0 <= i < |rest|
      ensures all[i + 1] == rest[i]
      ensures Acceptable(at, more, rest[i]) <==>
              Acceptable(at, names, rest[i]) && rest[i].metricName != m.metricName
    {
      if FullName(at.prefix, rest[i].metricName) == FullName(at.prefix, m.metricName) {
        FullNameInjective(at.prefix, rest[i].metricName, m.metricName);
      }
    }
    if AllAcceptable(at, names, all) && UniqueMetrics(all) {
      forall i | 0 <= i < |rest| ensures Acceptable(at, more, rest[i]) {
        assert Acceptable(at, names, all[i + 1]) && all[0].metricName != all[i + 1].metricName;
      }
    }
    if AllAcceptable(at, more, rest) && UniqueMetrics(rest) {
      forall i | 0 <= i < |all| ensures Acceptable(at, names, all[i]) {
        if i > 0 {
          assert Acceptable(at, more, rest[i - 1]);
        }
      }
    }
  }

  /** How many mappings are registered before the first offender. */
  function Accepted(at: Naming, b: Books, ms: seq<NodeMapping>): (i: nat)
    ensures i <= |ms|
    ensures i < |ms| <==> RegisteredAll(at, b, ms).1.Some?
    decreases ms
  {
    if ms == [] || Registered(at, b, ms[0]).1.Some? then 0
    else 1 + Accepted(at, Registered(at, b, ms[0]).0, ms[1..])
  }

  /** Otherwise it stops at the first offender: the mappings before it are all entered and would
      have registered without it, and nothing after it is looked at. */
  lemma {:induction false} StopsAtFirstOffender(at: Naming, b: Books, ms: seq<NodeMapping>)
    requires RegisteredAll(at, b, ms).1.Some?
    ensures var i := Accepted(at, b, ms);
            && AllAcceptable(at, b.names, ms[..i]) && UniqueMetrics(ms[..i])
            && RegisteredAll(at, b, ms) == Registered(at, Entered(at, b, ms[..i]), ms[i])
    decreases ms
  {
    var i := Accepted(at, b, ms);
    var m, rest := ms[0], ms[1..];
    var (b', err) := Registered(at, b, m);
    if err.Some? {
      assert Entered(at, b, []) == b;
      assert ms[..0] == [];
    } else {
      StopsAtFirstOffender(at, b', rest);
      assert ms[..i] == [m] + rest[..i - 1];
      EnteredCons(at, b, m, rest[..i - 1]);
      OneMoreName(at, b.names, m, rest[..i - 1]);
    }
  }

  /** Which error that is: the metric of the offender is empty, or its name with the prefix is malformed,
      taken, or that of a mapping before it, or its bit is no int. */
  lemma OffenceExactly(at: Naming, b: Books, ms: seq<NodeMapping>)
    requires RegisteredAll(at, b, ms).1.Some?
    ensures var i := Accepted(at, b, ms);
            var metric := ms[i].metricName;
            var name := if at.prefix == "" then metric else at.prefix + "_" + metric;
            RegisteredAll(at, b, ms).1 == Some(
              if metric == "" then NoMetricName
              else if !at.wellFormed(name) || name in b.names || Names(ms[..i], metric) then NotRegistered(name)
              else BitNotAnInt)
  {
    StopsAtFirstOffender(at, b, ms);
    var i := Accepted(at, b, ms);
    FullNamesOf(at.prefix, ms[..i], ms[i].metricName);
  }

  /** A failed registration leaves a name without a handler exactly when the offence is the type of
      the bit, because the gauge is registered before the bit is looked at. */
  lemma LeftBehind(at: Naming, b: Books, ms: seq<NodeMapping>)
    requires RegisteredAll(at, b, ms).1.Some?
    ensures var i := Accepted(at, b, ms);
            var (after, err) := RegisteredAll(at, b, ms);
            && after.groups == GroupedAll(b.groups, ms[..i])
            && after.names - b.names - FullNames(at.prefix, ms[..i]) ==
               (if err == Some(BitNotAnInt) then {FullName(at.prefix, ms[i].metricName)} else {})
            && (err == Some(BitNotAnInt) <==>
                  && !AcceptedBit(ms[i])
                  && Acceptable(at, b.names + FullNames(at.prefix, ms[..i]), ms[i].(bit := NoBit)))
  {
    StopsAtFirstOffender(at, b, ms);
  }
}
