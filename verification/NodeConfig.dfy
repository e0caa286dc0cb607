/** Node mappings: validation, loading, and the override by command-line flags. */
module NodeConfig {
  import opened Outcomes
  import opened Decimal

  /** The dynamically typed extractBit field: absent, an int, a float64, or something else. */
  datatype Bit = NoBit | IntBit(n: GoInt) | FloatBit(x: real) | OtherBit

  datatype NodeMapping = NodeMapping(nodeName: string, metricName: string, bit: Bit)

  datatype ConfigError = EmptyNodeName | EmptyMetricName | NegativeBit | BadFloatBit | BitNotANumber

  /** Converting the float64 to int and back gives the same number. */
  predicate IsIntegral(x: real) {
    x.Floor as real == x && -9223372036854775808.0 <= x < 9223372036854775808.0
  }

  function Validate(m: NodeMapping): Option<ConfigError> {
    if m.nodeName == "" then Some(EmptyNodeName)
    else if m.metricName == "" then Some(EmptyMetricName)
    else match m.bit
      case NoBit => None
      case IntBit(n) => if n < 0 then Some(NegativeBit) else None
      case FloatBit(x) => if x < 0.0 || !IsIntegral(x) then Some(BadFloatBit) else None
      case OtherBit => Some(BitNotANumber)
  }

  predicate Spells(bit: Bit, n: GoInt) {
    bit == IntBit(n) || bit == FloatBit(n as real)
  }

  /** Valid are the mappings with both names whose bit is absent or a non-negative int, given as an
      int or as the float64 of one. */
  lemma ValidExactly(m: NodeMapping)
    ensures Validate(m) == None <==>
            && m.nodeName != "" && m.metricName != ""
            && (m.bit.NoBit? || exists n: GoInt :: Spells(m.bit, n) && n >= 0)
    ensures Validate(m) == Some(EmptyNodeName) <==> m.nodeName == ""
    ensures Validate(m) == Some(EmptyMetricName) <==> m.nodeName != "" && m.metricName == ""
    ensures Validate(m) == Some(NegativeBit) <==>
            m.nodeName != "" && m.metricName != "" && m.bit.IntBit? && m.bit.n < 0
    ensures Validate(m) == Some(BitNotANumber) <==> m.nodeName != "" && m.metricName != "" && m.bit.OtherBit?
  {
    if m.bit.FloatBit? && m.bit.x >= 0.0 && IsIntegral(m.bit.x) {
      assert Spells(m.bit, m.bit.x.Floor);
    }
    if m.bit.IntBit? {
      assert Spells(m.bit, m.bit.n);
    }
    forall n: GoInt | Spells(m.bit, n) && n >= 0 ensures HasNames(m) ==> Validate(m) == None {
      assert (n as real).Floor == n;
    }
  }

  datatype LoadError = InvalidMapping(index: nat, error: ConfigError)

  predicate HasNames(m: NodeMapping) {
    m.nodeName != "" && m.metricName != ""
  }

  method FilterValidNodeMappings(mappings: seq<NodeMapping>) returns (valid: seq<NodeMapping>)
    ensures valid == Filter(mappings, HasNames)
    ensures forall m :: m in valid <==> m in mappings && m.nodeName != "" && m.metricName != ""
  {
    valid := [];
    for i := 0 to |mappings|
      invariant valid == Filter(mappings[..i], HasNames)
    {
      assert mappings[..i + 1] == mappings[..i] + [mappings[i]];
      FilterSnoc(mappings[..i], mappings[i], HasNames);
      if mappings[i].nodeName != "" && mappings[i].metricName != "" {
        valid := valid + [mappings[i]];
      }
    }
    assert mappings[..|mappings|] == mappings;
  }

  /** The node-mapping part of loading: environment mappings replace those of the file, every
      mapping is validated, and then mappings without names are filtered out. The contract shows
      that the filter never removes anything. */
  method LoadNodes(fromFile: seq<NodeMapping>, fromEnv: seq<NodeMapping>)
    returns (r: Result<seq<NodeMapping>, LoadError>)
    ensures var chosen := if |fromEnv| > 0 then fromEnv else fromFile;
            match r
            case Ok(nodes) => nodes == chosen && forall m | m in chosen :: Validate(m) == None
            case Err(InvalidMapping(i, e)) =>
              && i < |chosen| && Validate(chosen[i]) == Some(e)
              && forall j | 0 <= j < i :: Validate(chosen[j]) == None
  {
    var nodes := fromFile;
    if |fromEnv| > 0 {
      nodes := fromEnv;
    }
    for i := 0 to |nodes|
      invariant forall j | 0 <= j < i :: Validate(nodes[j]) == None
    {
      var err := Validate(nodes[i]);
      if err.Some? {
        return Err(InvalidMapping(i, err.value));
      }
    }
    FilterAll(nodes, HasNames);
    nodes := FilterValidNodeMappings(nodes);
    r := Ok(nodes);
  }

  // ---------- override by metric name ----------

  function OtherMetricThan(m: NodeMapping): NodeMapping -> bool {
    (x: NodeMapping) => x.metricName != m.metricName
  }

  /** What AddNodeMapping leaves in the configuration. */
  function WithOverride(nodes: seq<NodeMapping>, m: NodeMapping): seq<NodeMapping> {
    Filter(nodes, OtherMetricThan(m)) + [m]
  }

  function WithOverrides(nodes: seq<NodeMapping>, flags: seq<NodeMapping>): seq<NodeMapping> {
    if flags == [] then nodes
    else WithOverride(WithOverrides(nodes, flags[..|flags| - 1]), flags[|flags| - 1])
  }

  class Config {
    var NodeMappings: seq<NodeMapping>

    constructor (nodes: seq<NodeMapping>)
      ensures NodeMappings == nodes
    {
      NodeMappings := nodes;
    }

    method AddNodeMapping(m: NodeMapping)
      modifies this
      ensures NodeMappings == WithOverride(old(NodeMappings), m)
    {
      var result := [];
      ghost var keep := OtherMetricThan(m);
      for i := 0 to |NodeMappings|
        invariant NodeMappings == old(NodeMappings)
        invariant result == Filter(NodeMappings[..i], keep)
      {
        var mapping := NodeMappings[i];
        assert NodeMappings[..i + 1] == NodeMappings[..i] + [mapping];
        FilterSnoc(NodeMappings[..i], mapping, keep);
        if mapping.metricName != m.metricName {
          result := result + [mapping];
        }
      }
      assert NodeMappings[..|NodeMappings|] == NodeMappings;
      result := result + [m];
      NodeMappings := result;
    }
  }

  predicate Names(ms: seq<NodeMapping>, metric: string) {
    exists i :: 0 <= i < |ms| && ms[i].metricName == metric
  }

  predicate UniqueMetrics(ms: seq<NodeMapping>) {
    forall i, j :: 0 <= i < j < |ms| ==> ms[i].metricName != ms[j].metricName
  }

  function NotNamedBy(flags: seq<NodeMapping>): NodeMapping -> bool {
    (x: NodeMapping) => !Names(flags, x.metricName)
  }

  /** The mappings that no flag overrides. */
  function Unnamed(nodes: seq<NodeMapping>, flags: seq<NodeMapping>): seq<NodeMapping> {
    Filter(nodes, NotNamedBy(flags))
  }

  /** Of the flags for one metric only the last, in order of these last occurrences. */
  function LastFlags(flags: seq<NodeMapping>): seq<NodeMapping> {
    if flags == [] then []
    else if Names(flags[1..], flags[0].metricName) then LastFlags(flags[1..])
    else [flags[0]] + LastFlags(flags[1..])
  }

  lemma NamesSnoc(flags: seq<NodeMapping>, m: NodeMapping, metric: string)
    ensures Names(flags + [m], metric) <==> Names(flags, metric) || m.metricName == metric
  {
    var all := flags + [m];
    if Names(flags, metric) {
      var i :| 0 <= i < |flags| && flags[i].metricName == metric;
      assert all[i].metricName == metric;
    }
    assert all[|flags|] == m;
  }

  lemma {:induction false} LastFlagsSnoc(flags: seq<NodeMapping>, m: NodeMapping)
    ensures LastFlags(flags + [m]) == WithOverride(LastFlags(flags), m)
  {
    var all := flags + [m];
    if flags == [] {
      assert all[1..] == [];
    } else {
      assert all[1..] == flags[1..] + [m];
      LastFlagsSnoc(flags[1..], m);
      NamesSnoc(flags[1..], m, flags[0].metricName);
    }
  }

  /** Any list of flags applied one by one: the base without the named metrics, in its order,
      then the last flag for every metric, in order of last occurrence. */
  lemma {:induction false} OverridesClosedForm(nodes: seq<NodeMapping>, flags: seq<NodeMapping>)
    ensures WithOverrides(nodes, flags) == Unnamed(nodes, flags) + LastFlags(flags)
  {
    var unnamed := NotNamedBy(flags);
    if flags == [] {
      FilterAll(nodes, unnamed);
    } else {
      var front, m := flags[..|flags| - 1], flags[|flags| - 1];
      assert flags == front + [m];
      OverridesClosedForm(nodes, front);
      LastFlagsSnoc(front, m);
      var before := NotNamedBy(front);
      var keep := OtherMetricThan(m);
      FilterConcat(Unnamed(nodes, front), LastFlags(front), keep);
      forall x | x in nodes ensures unnamed(x) == (before(x) && keep(x)) {
        NamesSnoc(front, m, x.metricName);
      }
      FilterTwice(nodes, before, keep, unnamed);
    }
  }

  lemma {:induction false} LastFlagsNames(flags: seq<NodeMapping>, metric: string)
    ensures Names(LastFlags(flags), metric) <==> Names(flags, metric)
  {
    if flags != [] {
      LastFlagsNames(flags[1..], metric);
      NamesCons(flags[0], flags[1..], metric);
      NamesCons(flags[0], LastFlags(flags[1..]), metric);
      assert flags == [flags[0]] + flags[1..];
    }
  }

  lemma NamesCons(m: NodeMapping, ms: seq<NodeMapping>, metric: string)
    ensures Names([m] + ms, metric) <==> m.metricName == metric || Names(ms, metric)
  {
    var all := [m] + ms;
    assert all[0] == m;
    if Names(ms, metric) {
      var i :| 0 <= i < |ms| && ms[i].metricName == metric;
      assert all[i + 1].metricName == metric;
    }
    if Names(all, metric) && m.metricName != metric {
      var i :| 0 <= i < |all| && all[i].metricName == metric;
      assert ms[i - 1].metricName == metric;
    }
  }

  lemma {:induction false} LastFlagsAmong(flags: seq<NodeMapping>)
    ensures forall m | m in LastFlags(flags) :: m in flags
  {
    if flags != [] {
      LastFlagsAmong(flags[1..]);
    }
  }

  /** Every mapping after the overrides is one of the base or one of the flags. */
  lemma OverridesAmong(nodes: seq<NodeMapping>, flags: seq<NodeMapping>)
    ensures forall m | m in WithOverrides(nodes, flags) :: m in nodes || m in flags
  {
    OverridesClosedForm(nodes, flags);
    LastFlagsAmong(flags);
  }

  lemma {:induction false} LastFlagsUnique(flags: seq<NodeMapping>)
    ensures UniqueMetrics(LastFlags(flags))
  {
    if flags != [] {
      LastFlagsUnique(flags[1..]);
      LastFlagsNames(flags[1..], flags[0].metricName);
    }
  }

  lemma {:induction false} FilterUnique(nodes: seq<NodeMapping>, p: NodeMapping -> bool)
    requires UniqueMetrics(nodes)
    ensures UniqueMetrics(Filter(nodes, p))
  {
    if nodes != [] {
      FilterUnique(nodes[1..], p);
      var rest := Filter(nodes[1..], p);
      forall j | 0 <= j < |rest| ensures rest[j].metricName != nodes[0].metricName {
        assert rest[j] in nodes[1..];
      }
    }
  }

  /** Overriding never introduces a duplicate: the result has unique metric names exactly when the
      part of the base that no flag names has. */
  lemma OverridesUnique(nodes: seq<NodeMapping>, flags: seq<NodeMapping>)
    ensures UniqueMetrics(WithOverrides(nodes, flags)) <==> UniqueMetrics(Unnamed(nodes, flags))
    ensures UniqueMetrics(nodes) ==> UniqueMetrics(WithOverrides(nodes, flags))
  {
    OverridesClosedForm(nodes, flags);
    LastFlagsUnique(flags);
    var kept, last := Unnamed(nodes, flags), LastFlags(flags);
    var all := kept + last;
    forall i, j | 0 <= i < |kept| && 0 <= j < |last| ensures kept[i].metricName != last[j].metricName {
      LastFlagsNames(flags, last[j].metricName);
      assert Names(last, last[j].metricName);
      assert kept[i] in kept;
    }
    if UniqueMetrics(all) {
      assert forall i :: 0 <= i < |kept| ==> all[i] == kept[i];
    }
    if UniqueMetrics(nodes) {
      FilterUnique(nodes, NotNamedBy(flags));
    }
  }

  lemma UnnamedSettled(nodes: seq<NodeMapping>, flags: seq<NodeMapping>)
    ensures Unnamed(Unnamed(nodes, flags), flags) == Unnamed(nodes, flags)
    ensures Unnamed(LastFlags(flags), flags) == []
  {
    FilterAll(Unnamed(nodes, flags), NotNamedBy(flags));
    var last := LastFlags(flags);
    forall x | x in last ensures !NotNamedBy(flags)(x) {
      LastFlagsNames(flags, x.metricName);
      assert Names(last, x.metricName);
    }
    FilterNone(last, NotNamedBy(flags));
  }

  lemma UnnamedOfResult(nodes: seq<NodeMapping>, flags: seq<NodeMapping>)
    ensures Unnamed(Unnamed(nodes, flags) + LastFlags(flags), flags) == Unnamed(nodes, flags)
  {
    FilterConcat(Unnamed(nodes, flags), LastFlags(flags), NotNamedBy(flags));
    UnnamedSettled(nodes, flags);
    assert Unnamed(nodes, flags) + [] == Unnamed(nodes, flags);
  }

  /** Giving the same flags a second time changes nothing. */
  lemma OverridesIdempotent(nodes: seq<NodeMapping>, flags: seq<NodeMapping>)
    ensures WithOverrides(WithOverrides(nodes, flags), flags) == WithOverrides(nodes, flags)
  {
    OverridesClosedForm(nodes, flags);
    OverridesClosedForm(WithOverrides(nodes, flags), flags);
    UnnamedOfResult(nodes, flags);
  }
}
