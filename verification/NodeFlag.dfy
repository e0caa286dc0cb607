/** The text of a `--node` flag: its parser, and the printer that the end-to-end tests use. */
module NodeFlag {
  import opened Outcomes
  import opened Text
  import opened Decimal
  import opened NodeConfig

  datatype FlagError = TooFewParts | InvalidBit

  function ParseNodeFlag(flag: string): Result<NodeMapping, FlagError> {
    var parts := Split(flag, ',');
    if |parts| < 2 then Err(TooFewParts)
    else
      var nodeName, metricName := TrimSpace(parts[0]), TrimSpace(parts[1]);
      var bitText := if |parts| >= 3 then TrimSpace(parts[2]) else "";
      if bitText == "" then Ok(NodeMapping(nodeName, metricName, NoBit))
      else match Sscanf(bitText)
        case Some(n) => Ok(NodeMapping(nodeName, metricName, IntBit(n)))
        case None => Err(InvalidBit)
  }

  /** A node as the tests describe it: the bit is absent or an int. */
  datatype TestNode = TestNode(nodeName: string, metricName: string, bit: Option<GoInt>)

  function MappingOf(node: TestNode): NodeMapping {
    NodeMapping(node.nodeName, node.metricName, if node.bit.Some? then IntBit(node.bit.value) else NoBit)
  }

  function Mappings(nodes: seq<TestNode>): (ms: seq<NodeMapping>)
    ensures |ms| == |nodes|
  {
    seq(|nodes|, i requires 0 <= i < |nodes| => MappingOf(nodes[i]))
  }

  function FlagText(node: TestNode): string {
    var flag := node.nodeName + "," + node.metricName;
    if node.bit.Some? then flag + "," + Format(node.bit.value) else flag
  }

  /** The flags one after another, each printed with its option name in front. */
  method NodeArguments(nodes: seq<TestNode>, args0: seq<string>) returns (args: seq<string>)
    ensures |args| == |args0| + 2 * |nodes| && args0 <= args
    ensures forall i | 0 <= i < |nodes| ::
              && args[|args0| + 2 * i] == "--node"
              && args[|args0| + 2 * i + 1] == FlagText(nodes[i])
  {
    hide FlagText;
    args := args0;
    for i := 0 to |nodes|
      invariant |args| == |args0| + 2 * i && args0 <= args
      invariant forall j | 0 <= j < i ::
                  && args[|args0| + 2 * j] == "--node"
                  && args[|args0| + 2 * j + 1] == FlagText(nodes[j])
    {
      args := args + ["--node", FlagText(nodes[i])];
    }
  }

  /** The mappings that a list of flags contributes: unparsable flags are logged and skipped. */
  function ParsedFlags(flags: seq<string>): seq<NodeMapping> {
    if flags == [] then []
    else
      var last := ParseNodeFlag(flags[|flags| - 1]);
      ParsedFlags(flags[..|flags| - 1]) + if last.Ok? then [last.value] else []
  }

  method ApplyNodeFlagOverrides(cfg: Config, flags: seq<string>)
    modifies cfg
    ensures cfg.NodeMappings == WithOverrides(old(cfg.NodeMappings), ParsedFlags(flags))
  {
    for i := 0 to |flags|
      invariant cfg.NodeMappings == WithOverrides(old(cfg.NodeMappings), ParsedFlags(flags[..i]))
    {
      ghost var parsed := ParsedFlags(flags[..i]);
      assert flags[..i + 1][..i] == flags[..i] && flags[..i + 1][i] == flags[i];
      match ParseNodeFlag(flags[i]) {
        case Err(_) =>
          assert ParsedFlags(flags[..i + 1]) == parsed;
        case Ok(m) =>
          cfg.AddNodeMapping(m);
          assert ParsedFlags(flags[..i + 1]) == parsed + [m];
          assert (parsed + [m])[..|parsed|] == parsed;
      }
    }
    assert flags[..|flags|] == flags;
  }

  /** A flag is refused for its form exactly when it has no comma, and for its bit exactly when the
      third part is not blank and does not start with a number in range. */
  lemma RefusedExactly(flag: string)
    ensures ParseNodeFlag(flag) == Err(TooFewParts) <==> ',' !in flag
    ensures ParseNodeFlag(flag) == Err(InvalidBit) <==>
            var parts := Split(flag, ',');
            |parts| >= 3 && TrimSpace(parts[2]) != "" && Sscanf(TrimSpace(parts[2])) == None
  {
    SplitSingle(flag, ',');
  }

  /** What a flag means, by its fields: the first two are the names; the third, if there is one that is
      not blank, is the bit; and a fourth makes no difference. Every text is of one of these forms. */
  lemma FlagFields(a: string, b: string, c: string, more: string)
    requires ',' !in a && ',' !in b && ',' !in c
    requires more == "" || more[0] == ','
    ensures ParseNodeFlag(a) == Err(TooFewParts)
    ensures ParseNodeFlag(a + "," + b) == Ok(NodeMapping(TrimSpace(a), TrimSpace(b), NoBit))
    ensures ParseNodeFlag(a + "," + b + "," + c + more) ==
            if TrimSpace(c) == "" then Ok(NodeMapping(TrimSpace(a), TrimSpace(b), NoBit))
            else match Sscanf(TrimSpace(c))
              case Some(n) => Ok(NodeMapping(TrimSpace(a), TrimSpace(b), IntBit(n)))
              case None => Err(InvalidBit)
  {
    hide Split, TrimSpace, Sscanf;
    SplitWhole(a, ',');
    SplitTwo(a, b);
    SplitThree(a, b, c + more);
    assert a + "," + b + "," + c + more == a + [','] + b + [','] + (c + more);
    if more == "" {
      assert c + more == c;
      SplitWhole(c, ',');
    } else {
      assert c + more == c + [','] + more[1..];
      SplitFirst(c, ',', more[1..]);
    }
  }

  lemma {:induction false} ParsedFlagsConcat(a: seq<string>, b: seq<string>)
    ensures ParsedFlags(a + b) == ParsedFlags(a) + ParsedFlags(b)
  {
    hide ParseNodeFlag;
    if b == [] {
      assert a + b == a;
    } else {
      assert (a + b)[..|a + b| - 1] == a + b[..|b| - 1];
      ParsedFlagsConcat(a, b[..|b| - 1]);
    }
  }

  /** A refused flag leaves no trace, wherever it stands; any other contributes itself in its place. */
  lemma FlagInPlace(before: seq<string>, flag: string, after: seq<string>)
    ensures ParsedFlags(before + [flag] + after) ==
            if ParseNodeFlag(flag).Ok? then ParsedFlags(before) + [ParseNodeFlag(flag).value] + ParsedFlags(after)
            else ParsedFlags(before + after)
  {
    hide ParseNodeFlag;
    ParsedFlagsConcat(before + [flag], after);
    ParsedFlagsConcat(before, after);
    ParsedFlagsSnoc(before, flag);
  }

  /** Flags bring in ints only. */
  lemma {:induction false} ParsedFlagsHaveInts(flags: seq<string>)
    ensures forall m | m in ParsedFlags(flags) :: m.bit.NoBit? || m.bit.IntBit?
  {
    if flags != [] {
      ParsedFlagsHaveInts(flags[..|flags| - 1]);
      ParsedNamesArePlain(flags[|flags| - 1]);
    }
  }

  // ---------- round trip ----------

  /** A field that survives the trip: no comma in it, and no space around it. */
  predicate PlainField(s: string) {
    ',' !in s && Trimmed(s)
  }

  /** Six paddings, one on either side of every field. */
  datatype Padding = Padding(left: string, right: string)

  function Padded(pad: Padding, field: string): string {
    pad.left + field + pad.right
  }

  predicate IsPadding(pad: Padding) {
    AllSpace(pad.left) && AllSpace(pad.right)
  }

  function PaddedFlagText(node: TestNode, p: Padding, q: Padding, r: Padding): string {
    var flag := Padded(p, node.nodeName) + [','] + Padded(q, node.metricName);
    if node.bit.Some? then flag + [','] + Padded(r, Format(node.bit.value)) else flag
  }

  lemma PaddedField(pad: Padding, field: string)
    requires IsPadding(pad) && PlainField(field)
    ensures ',' !in Padded(pad, field)
    ensures TrimSpace(Padded(pad, field)) == field
  {
    TrimPadded(pad.left, field, pad.right);
    assert !IsSpace(',');
  }

  lemma SplitThree(a: string, b: string, tail: string)
    requires ',' !in a && ',' !in b
    ensures Split(a + [','] + b + [','] + tail, ',') == [a, b] + Split(tail, ',')
  {
    hide Split;
    SplitFirst(b, ',', tail);
    SplitFirst(a, ',', b + [','] + tail);
    assert a + [','] + b + [','] + tail == a + [','] + (b + [','] + tail);
    assert [a] + ([b] + Split(tail, ',')) == [a, b] + Split(tail, ',');
  }

  lemma SplitTwo(a: string, b: string)
    requires ',' !in a && ',' !in b
    ensures Split(a + [','] + b, ',') == [a, b]
  {
    SplitFirst(a, ',', b);
    SplitWhole(b, ',');
  }

  lemma FormatIsPlain(n: int)
    ensures PlainField(Format(n)) && Format(n) != ""
  {
    FormatShape(n);
  }

  /** Spaces around the fields of a printed flag make no difference. */
  lemma PaddedRoundTrip(node: TestNode, p: Padding, q: Padding, r: Padding)
    requires PlainField(node.nodeName) && PlainField(node.metricName)
    requires IsPadding(p) && IsPadding(q) && IsPadding(r)
    ensures ParseNodeFlag(PaddedFlagText(node, p, q, r)) == Ok(MappingOf(node))
  {
    hide Split, TrimSpace, Format, Sscanf, Atoi;
    PaddedField(p, node.nodeName);
    PaddedField(q, node.metricName);
    var a, b := Padded(p, node.nodeName), Padded(q, node.metricName);
    match node.bit {
      case None =>
        SplitTwo(a, b);
      case Some(n) =>
        FormatIsPlain(n);
        PaddedField(r, Format(n));
        SplitThree(a, b, Padded(r, Format(n)));
        SplitWhole(Padded(r, Format(n)), ',');
        PrintParse(n, "");
        assert Format(n) + "" == Format(n);
    }
  }

  /** Parsing a printed flag gives the mapping back if and only if both names are free of commas
      and of surrounding space. */
  lemma FlagRoundTrip(node: TestNode)
    ensures ParseNodeFlag(FlagText(node)) == Ok(MappingOf(node)) <==>
            PlainField(node.nodeName) && PlainField(node.metricName)
  {
    var none := Padding("", "");
    if PlainField(node.nodeName) && PlainField(node.metricName) {
      PaddedRoundTrip(node, none, none, none);
      assert Padded(none, node.nodeName) == node.nodeName;
      assert Padded(none, node.metricName) == node.metricName;
      if node.bit.Some? {
        assert Padded(none, Format(node.bit.value)) == Format(node.bit.value);
      }
    }
    ParsedNamesArePlain(FlagText(node));
  }

  predicate Plain(node: TestNode) {
    PlainField(node.nodeName) && PlainField(node.metricName)
  }

  function FlagTexts(nodes: seq<TestNode>): (texts: seq<string>)
    ensures |texts| == |nodes|
  {
    seq(|nodes|, i requires 0 <= i < |nodes| => FlagText(nodes[i]))
  }

  /** Printing a list of nodes as flags and applying them contributes just these nodes, in order, if
      and only if all names are plain; otherwise some flag is skipped or read as something else. */
  lemma FlagListRoundTrip(nodes: seq<TestNode>)
    ensures ParsedFlags(FlagTexts(nodes)) == Mappings(nodes) <==> forall i | 0 <= i < |nodes| :: Plain(nodes[i])
  {
    if forall i | 0 <= i < |nodes| :: Plain(nodes[i]) {
      PlainListRoundTrip(nodes);
    }
    if ParsedFlags(FlagTexts(nodes)) == Mappings(nodes) {
      forall i | 0 <= i < |nodes| ensures Plain(nodes[i]) {
        ParsedFlagsArePlain(FlagTexts(nodes));
        assert Mappings(nodes)[i] in Mappings(nodes);
      }
    }
  }

  lemma ParsedFlagsSnoc(flags: seq<string>, flag: string)
    ensures ParsedFlags(flags + [flag]) ==
            ParsedFlags(flags) + if ParseNodeFlag(flag).Ok? then [ParseNodeFlag(flag).value] else []
  {
    hide ParseNodeFlag;
    assert (flags + [flag])[..|flags|] == flags;
  }

  lemma ListsSnoc(nodes: seq<TestNode>, node: TestNode)
    ensures FlagTexts(nodes + [node]) == FlagTexts(nodes) + [FlagText(node)]
    ensures Mappings(nodes + [node]) == Mappings(nodes) + [MappingOf(node)]
  {
    hide FlagText, MappingOf;
  }

  lemma {:induction false} PlainListRoundTrip(nodes: seq<TestNode>)
    requires forall i | 0 <= i < |nodes| :: Plain(nodes[i])
    ensures ParsedFlags(FlagTexts(nodes)) == Mappings(nodes)
  {
    if nodes != [] {
      hide FlagText, MappingOf, ParseNodeFlag, PlainField, FlagTexts, Mappings, ParsedFlags;
      var front, last := nodes[..|nodes| - 1], nodes[|nodes| - 1];
      assert nodes == front + [last];
      PlainListRoundTrip(front);
      FlagRoundTrip(last);
      ListsSnoc(front, last);
      ParsedFlagsSnoc(FlagTexts(front), FlagText(last));
    }
  }

  lemma {:induction false} ParsedFlagsArePlain(flags: seq<string>)
    ensures forall m | m in ParsedFlags(flags) :: PlainField(m.nodeName) && PlainField(m.metricName)
  {
    if flags != [] {
      ParsedFlagsArePlain(flags[..|flags| - 1]);
      ParsedNamesArePlain(flags[|flags| - 1]);
    }
  }

  /** Whatever the text, a parsed flag has plain names, and its bit is absent or an int. */
  lemma ParsedNamesArePlain(flag: string)
    ensures ParseNodeFlag(flag).Ok? ==>
              var m := ParseNodeFlag(flag).value;
              PlainField(m.nodeName) && PlainField(m.metricName) && (m.bit.NoBit? || m.bit.IntBit?)
  {
    var parts := Split(flag, ',');
    SplitParts(flag, ',');
    if |parts| >= 2 {
      TrimSpaceResult(parts[0]);
      TrimSpaceResult(parts[1]);
    }
  }

  lemma TrimPlain(s: string)
    requires Trimmed(s)
    ensures TrimSpace(s) == s
  {
    TrimPadded("", s, "");
    assert "" + s + "" == s;
  }

  /** Text that follows the digits of the bit is ignored, and so is everything behind a third comma. */
  lemma TrailingTextIgnored(node: TestNode, n: GoInt, junk: string)
    requires PlainField(node.nodeName) && PlainField(node.metricName) && node.bit == Some(n)
    requires junk == [] || !IsDigit(junk[0])
    ensures ParseNodeFlag(FlagText(node) + junk) == Ok(MappingOf(node))
  {
    var c := Format(n);
    FormatIsPlain(n);
    assert FlagText(node) + junk == node.nodeName + [','] + node.metricName + [','] + (c + junk);
    SplitThree(node.nodeName, node.metricName, c + junk);
    TrimPlain(node.nodeName);
    TrimPlain(node.metricName);
    SplitTail(c, junk);
    HeadOfJunk(c, junk, n);
  }

  lemma {:induction false} SplitTail(c: string, junk: string)
    requires ',' !in c
    ensures Split(c + junk, ',')[0] == c + Split(junk, ',')[0]
  {
    if c == [] {
      assert c + junk == junk;
    } else {
      assert (c + junk)[1..] == c[1..] + junk;
      SplitTail(c[1..], junk);
    }
  }

  lemma HeadOfJunk(c: string, junk: string, n: GoInt)
    requires c == Format(n)
    requires junk == [] || !IsDigit(junk[0])
    ensures TrimSpace(c + Split(junk, ',')[0]) != ""
    ensures Sscanf(TrimSpace(c + Split(junk, ',')[0])) == Some(n)
  {
    var head := Split(junk, ',')[0];
    SplitHead(junk);
    FormatShape(n);
    FormatIsPlain(n);
    var text := c + head;
    assert TrimLeft(text) == text;
    TrimRightKeeps(c, head);
    var rest := TrimRight(text)[|c|..];
    assert TrimRight(text) == c + rest;
    TrimRightIsPrefix(text);
    PrintParse(n, rest);
  }

  lemma {:induction false} TrimRightKeeps(c: string, head: string)
    requires c != [] && !IsSpace(c[|c| - 1])
    ensures c <= TrimRight(c + head)
    decreases |head|
  {
    if head == [] {
      assert c + head == c;
    } else {
      assert (c + head)[..|c + head| - 1] == c + head[..|head| - 1];
      TrimRightKeeps(c, head[..|head| - 1]);
    }
  }

  lemma SplitHead(junk: string)
    ensures Split(junk, ',')[0] != [] ==> junk != [] && Split(junk, ',')[0][0] == junk[0]
  {
  }
}
