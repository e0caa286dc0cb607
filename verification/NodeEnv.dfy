/** Node mappings in numbered environment variables: the parser, and the writer of the
    end-to-end tests. */
module NodeEnv {
  import opened Outcomes
  import opened Decimal
  import opened NodeConfig
  import opened NodeFlag

  type Environment = map<string, string>

  /** os.Getenv: an unset variable reads as the empty text. */
  function Getenv(env: Environment, key: string): string {
    if key in env then env[key] else ""
  }

  const KEY_PREFIX := "OPCUA_EXPORTER_NODES_"

  function NodeNameKey(i: nat): string { KEY_PREFIX + FormatNat(i) + "_NODENAME" }

  function MetricNameKey(i: nat): string { KEY_PREFIX + FormatNat(i) + "_METRICNAME" }

  function ExtractBitKey(i: nat): string { KEY_PREFIX + FormatNat(i) + "_EXTRACTBIT" }

  predicate Present(env: Environment, i: nat) {
    Getenv(env, NodeNameKey(i)) != "" && Getenv(env, MetricNameKey(i)) != ""
  }

  function BitFor(env: Environment, i: nat): Bit {
    var text := Getenv(env, ExtractBitKey(i));
    if text == "" then NoBit
    else match Atoi(text)
      case Some(n) => IntBit(n)
      case None => NoBit
  }

  function MappingAt(env: Environment, i: nat): NodeMapping {
    NodeMapping(Getenv(env, NodeNameKey(i)), Getenv(env, MetricNameKey(i)), BitFor(env, i))
  }

  // ---------- keys ----------

  lemma CancelAffixes(a: string, b: string, suffix: string)
    requires KEY_PREFIX + a + suffix == KEY_PREFIX + b + suffix
    ensures a == b
  {
    var x, y := KEY_PREFIX + a + suffix, KEY_PREFIX + b + suffix;
    assert a == x[|KEY_PREFIX|..|x| - |suffix|];
    assert b == y[|KEY_PREFIX|..|y| - |suffix|];
  }

  /** Keys of one field are equal only for equal indices. */
  lemma KeysInjective(i: nat, j: nat)
    ensures NodeNameKey(i) == NodeNameKey(j) ==> i == j
    ensures MetricNameKey(i) == MetricNameKey(j) ==> i == j
    ensures ExtractBitKey(i) == ExtractBitKey(j) ==> i == j
  {
    if NodeNameKey(i) == NodeNameKey(j) {
      CancelAffixes(FormatNat(i), FormatNat(j), "_NODENAME");
    }
    if MetricNameKey(i) == MetricNameKey(j) {
      CancelAffixes(FormatNat(i), FormatNat(j), "_METRICNAME");
    }
    if ExtractBitKey(i) == ExtractBitKey(j) {
      CancelAffixes(FormatNat(i), FormatNat(j), "_EXTRACTBIT");
    }
    if FormatNat(i) == FormatNat(j) {
      FormatInjective(i, j);
    }
  }

  function FromEnd(s: string, k: nat): char
    requires 0 < k <= |s|
  {
    s[|s| - k]
  }

  /** Keys of different fields differ, whatever the indices: five characters before the end. */
  lemma FieldsDiffer(i: nat, j: nat)
    ensures NodeNameKey(i) != MetricNameKey(j)
    ensures NodeNameKey(i) != ExtractBitKey(j)
    ensures MetricNameKey(i) != ExtractBitKey(j)
  {
    assert FromEnd(NodeNameKey(i), 5) == 'E' && FromEnd(NodeNameKey(i), 1) == 'E';
    assert FromEnd(MetricNameKey(j), 5) == 'C';
    assert FromEnd(MetricNameKey(i), 1) == 'E';
    assert FromEnd(ExtractBitKey(j), 1) == 'T';
  }

  // ---------- parser ----------

  /** The variables that the parser has not reached when it is about to read index i. */
  ghost function Unread(env: Environment, i: nat): set<string> {
    set key | key in env && forall j: nat | j < i :: key != NodeNameKey(j)
  }

  lemma UnreadShrinks(env: Environment, i: nat)
    requires Present(env, i)
    ensures Unread(env, i + 1) < Unread(env, i)
  {
    forall j: nat | j < i ensures NodeNameKey(i) != NodeNameKey(j) {
      KeysInjective(i, j);
    }
    assert NodeNameKey(i) in Unread(env, i);
    assert NodeNameKey(i) !in Unread(env, i + 1);
  }

  /** Mappings from index i on, up to the first index without both names. */
  function MappingsFrom(env: Environment, i: nat): seq<NodeMapping>
    decreases Unread(env, i)
  {
    if !Present(env, i) then []
    else
      UnreadShrinks(env, i);
      [MappingAt(env, i)] + MappingsFrom(env, i + 1)
  }

  /** The parsed list is the longest gap-free run of indices from i on. */
  lemma {:induction false} MappingsFromIsRun(env: Environment, i: nat)
    ensures var ms := MappingsFrom(env, i);
            && (forall j: nat :: i <= j < i + |ms| ==> Present(env, j) && ms[j - i] == MappingAt(env, j))
            && !Present(env, i + |ms|)
    decreases Unread(env, i)
  {
    hide Present, MappingAt, Unread;
    if Present(env, i) {
      UnreadShrinks(env, i);
      MappingsFromIsRun(env, i + 1);
      var ms, rest := MappingsFrom(env, i), MappingsFrom(env, i + 1);
      assert ms == [MappingAt(env, i)] + rest;
      assert i + |ms| == i + 1 + |rest|;
    }
  }

  /** And the only such list: any run of present indices that stops at a gap is what is parsed. */
  lemma RunIsParsed(env: Environment, ms: seq<NodeMapping>)
    requires forall j: nat :: j < |ms| ==> Present(env, j) && ms[j] == MappingAt(env, j)
    requires !Present(env, |ms|)
    ensures MappingsFrom(env, 0) == ms
  {
    var parsed := MappingsFrom(env, 0);
    MappingsFromIsRun(env, 0);
    assert |parsed| == |ms|;
  }

  /** The variable has this text, and it is not empty. */
  predicate IsSet(env: Environment, key: string, text: string) {
    text != "" && key in env && env[key] == text
  }

  /** The same with the variables spelled out: which of them the list is read from, and where it ends. */
  lemma VariablesRead(env: Environment)
    ensures var ms := MappingsFrom(env, 0);
            && (forall i | 0 <= i < |ms| ::
                  var variable := "OPCUA_EXPORTER_NODES_" + Format(i);
                  var bitKey := variable + "_EXTRACTBIT";
                  && IsSet(env, variable + "_NODENAME", ms[i].nodeName)
                  && IsSet(env, variable + "_METRICNAME", ms[i].metricName)
                  && (if bitKey in env && Atoi(env[bitKey]).Some? then ms[i].bit == IntBit(Atoi(env[bitKey]).value)
                      else ms[i].bit == NoBit))
            && forall a, b :: !(IsSet(env, "OPCUA_EXPORTER_NODES_" + Format(|ms|) + "_NODENAME", a)
                                && IsSet(env, "OPCUA_EXPORTER_NODES_" + Format(|ms|) + "_METRICNAME", b))
  {
    hide Atoi, FormatNat;
    EmptyIsNoNumber();
    var ms := MappingsFrom(env, 0);
    MappingsFromIsRun(env, 0);
    forall i | 0 <= i < |ms| ensures Present(env, i) && ms[i] == MappingAt(env, i) {
      assert ms[i - 0] == MappingAt(env, i);
    }
  }

  lemma EmptyIsNoNumber()
    ensures Atoi("") == None
  {
  }

  method ParseEnvNodeMappings(env: Environment) returns (mappings: seq<NodeMapping>)
    ensures mappings == MappingsFrom(env, 0)
  {
    mappings := [];
    var i: nat := 0;
    while true
      invariant i == |mappings|
      invariant forall j: nat :: j < i ==> Present(env, j) && mappings[j] == MappingAt(env, j)
      decreases Unread(env, i)
    {
      var nodeName := Getenv(env, NodeNameKey(i));
      var metricName := Getenv(env, MetricNameKey(i));
      if nodeName == "" || metricName == "" {
        break;
      }
      var mapping := NodeMapping(nodeName, metricName, NoBit);
      var bitText := Getenv(env, ExtractBitKey(i));
      if bitText != "" {
        var bit := Atoi(bitText);
        if bit.Some? {
          mapping := mapping.(bit := IntBit(bit.value));
        }
      }
      mappings := mappings + [mapping];
      UnreadShrinks(env, i);
      i := i + 1;
    }
    RunIsParsed(env, mappings);
  }

  // ---------- writer ----------

  function WriteNode(env: Environment, i: nat, node: TestNode): Environment {
    var named := env[NodeNameKey(i) := node.nodeName][MetricNameKey(i) := node.metricName];
    if node.bit.Some? then named[ExtractBitKey(i) := Format(node.bit.value)] else named
  }

  function WriteNodes(env: Environment, nodes: seq<TestNode>): Environment {
    if nodes == [] then env
    else
      var last := |nodes| - 1;
      WriteNode(WriteNodes(env, nodes[..last]), last, nodes[last])
  }

  method NodeVariables(base: Environment, nodes: seq<TestNode>) returns (env: Environment)
    ensures env == WriteNodes(base, nodes)
  {
    env := base;
    for i := 0 to |nodes|
      invariant env == WriteNodes(base, nodes[..i])
    {
      var node := nodes[i];
      assert nodes[..i + 1][..i] == nodes[..i] && nodes[..i + 1][i] == node;
      env := env[NodeNameKey(i) := node.nodeName];
      env := env[MetricNameKey(i) := node.metricName];
      if node.bit.Some? {
        env := env[ExtractBitKey(i) := Format(node.bit.value)];
      }
    }
    assert nodes[..|nodes|] == nodes;
  }

  /** What the writer leaves in the variables of index i. */
  lemma {:induction false} WrittenAt(env: Environment, nodes: seq<TestNode>, i: nat)
    ensures var w := WriteNodes(env, nodes);
            if i < |nodes| then
              && Getenv(w, NodeNameKey(i)) == nodes[i].nodeName
              && Getenv(w, MetricNameKey(i)) == nodes[i].metricName
              && Getenv(w, ExtractBitKey(i)) ==
                   if nodes[i].bit.Some? then Format(nodes[i].bit.value) else Getenv(env, ExtractBitKey(i))
            else
              && Getenv(w, NodeNameKey(i)) == Getenv(env, NodeNameKey(i))
              && Getenv(w, MetricNameKey(i)) == Getenv(env, MetricNameKey(i))
              && Getenv(w, ExtractBitKey(i)) == Getenv(env, ExtractBitKey(i))
  {
    hide NodeNameKey, MetricNameKey, ExtractBitKey, Format;
    if nodes != [] {
      var last := |nodes| - 1;
      WrittenAt(env, nodes[..last], i);
      KeysInjective(i, last);
      FieldsDiffer(i, last);
      FieldsDiffer(last, i);
    }
  }

  lemma BitReadBack(env: Environment, nodes: seq<TestNode>, i: nat)
    requires i < |nodes|
    ensures BitFor(WriteNodes(env, nodes), i) ==
            if nodes[i].bit.Some? then IntBit(nodes[i].bit.value) else BitFor(env, i)
  {
    WrittenAt(env, nodes, i);
    if nodes[i].bit.Some? {
      PrintParse(nodes[i].bit.value, "");
      FormatShape(nodes[i].bit.value);
    }
  }

  predicate Named(node: TestNode) {
    node.nodeName != "" && node.metricName != ""
  }

  /** Node i comes back as written: it is present, and its bit is its own or nobody's. */
  predicate ComesBack(env: Environment, nodes: seq<TestNode>, i: nat)
    requires i < |nodes|
  {
    Named(nodes[i]) && (nodes[i].bit.Some? || BitFor(env, i).NoBit?)
  }

  lemma WrittenComesBack(env: Environment, nodes: seq<TestNode>, i: nat)
    requires i < |nodes|
    ensures var w := WriteNodes(env, nodes);
            Present(w, i) && MappingAt(w, i) == Mappings(nodes)[i] <==> ComesBack(env, nodes, i)
  {
    WrittenAt(env, nodes, i);
    BitReadBack(env, nodes, i);
  }

  lemma PresentBeyond(env: Environment, nodes: seq<TestNode>)
    ensures Present(WriteNodes(env, nodes), |nodes|) == Present(env, |nodes|)
  {
    WrittenAt(env, nodes, |nodes|);
  }

  /** Writing a list of nodes over an environment and parsing it gives the same list in the same
      order, if and only if no name is empty, and the environment before neither continues the
      list nor supplies a bit to a node that has none. */
  lemma {:induction false} EnvRoundTrip(env: Environment, nodes: seq<TestNode>)
    ensures MappingsFrom(WriteNodes(env, nodes), 0) == Mappings(nodes) <==>
            (forall i: nat | i < |nodes| :: ComesBack(env, nodes, i)) && !Present(env, |nodes|)
  {
    var w, ms := WriteNodes(env, nodes), Mappings(nodes);
    PresentBeyond(env, nodes);
    if MappingsFrom(w, 0) == ms {
      MappingsFromIsRun(w, 0);
      forall i: nat | i < |nodes| ensures ComesBack(env, nodes, i) {
        WrittenComesBack(env, nodes, i);
      }
    }
    if (forall i: nat | i < |nodes| :: ComesBack(env, nodes, i)) && !Present(env, |nodes|) {
      forall j: nat | j < |ms| ensures Present(w, j) && ms[j] == MappingAt(w, j) {
        WrittenComesBack(env, nodes, j);
      }
      RunIsParsed(w, ms);
    }
  }

  /** The environment the tests start from: four settings, none of them about nodes. */
  function FreshEnvironment(endpoint: string, port: nat): Environment {
    map["OPCUA_EXPORTER_ENDPOINT" := endpoint,
        "OPCUA_EXPORTER_PORT" := Format(port),
        "OPCUA_EXPORTER_DEBUG" := "true",
        "OPCUA_EXPORTER_SUBSCRIBE_TO_TIME_NODE" := "true"]
  }

  lemma FreshHasNoNodes(endpoint: string, port: nat, i: nat)
    ensures NodeNameKey(i) !in FreshEnvironment(endpoint, port)
    ensures MetricNameKey(i) !in FreshEnvironment(endpoint, port)
    ensures ExtractBitKey(i) !in FreshEnvironment(endpoint, port)
  {
    assert NodeNameKey(i)[15] == 'N' && MetricNameKey(i)[15] == 'N' && ExtractBitKey(i)[15] == 'N';
    assert "OPCUA_EXPORTER_ENDPOINT"[15] == 'E' && "OPCUA_EXPORTER_PORT"[15] == 'P';
    assert "OPCUA_EXPORTER_DEBUG"[15] == 'D' && "OPCUA_EXPORTER_SUBSCRIBE_TO_TIME_NODE"[15] == 'S';
  }

  /** From the tests' own start the only thing that can go wrong is an empty name. */
  lemma {:induction false} FreshEnvRoundTrip(endpoint: string, port: nat, nodes: seq<TestNode>)
    ensures MappingsFrom(WriteNodes(FreshEnvironment(endpoint, port), nodes), 0) == Mappings(nodes) <==>
            forall i | 0 <= i < |nodes| :: Named(nodes[i])
  {
    var env := FreshEnvironment(endpoint, port);
    EnvRoundTrip(env, nodes);
    forall i: nat ensures BitFor(env, i).NoBit? && !Present(env, i) {
      FreshHasNoNodes(endpoint, port, i);
    }
    if forall i | 0 <= i < |nodes| :: Named(nodes[i]) {
      assert forall i: nat | i < |nodes| :: ComesBack(env, nodes, i);
    }
    if forall i: nat | i < |nodes| :: ComesBack(env, nodes, i) {
      forall i | 0 <= i < |nodes| ensures Named(nodes[i]) {
        assert ComesBack(env, nodes, i);
      }
    }
  }
}
