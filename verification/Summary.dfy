/** The event counter that the monitor and the summary ticker share. Every method holds the
    counter's mutex from start to end, so each call is one atomic operation. */
module Summary {

  datatype Op = Increment(channel: string) | Clear | Report

  datatype Tally = Tally(counts: map<string, nat>, total: nat)

  const NO_EVENTS := Tally(map[], 0)

  function CountOf(counts: map<string, nat>, channel: string): nat {
    if channel in counts then counts[channel] else 0
  }

  function Apply(t: Tally, op: Op): Tally {
    match op
    case Increment(c) => Tally(t.counts[c := CountOf(t.counts, c) + 1], t.total + 1)
    case Clear => NO_EVENTS
    case Report => t
  }

  /** The counter after a sequence of atomic operations. */
  function Replay(ops: seq<Op>): Tally {
    if ops == [] then NO_EVENTS else Apply(Replay(ops[..|ops| - 1]), ops[|ops| - 1])
  }

  /** What the log says about one channel: its events, and how many of them a second. */
  datatype Line = Line(channel: string, count: nat, rate: real)

  /** Events a second, over an interval in seconds. */
  function Rate(count: nat, interval: real): (rate: real)
    requires interval > 0.0
    ensures rate * interval == count as real
  {
    count as real / interval
  }

  function ChannelsOf(lines: seq<Line>): set<string> {
    set line | line in lines :: line.channel
  }

  class EventSummaryCounter {
    const Interval: real
    var Counts: map<string, nat>
    var Total: nat
    ghost var history: seq<Op>

    ghost predicate Valid()
      reads this
    {
      Tally(Counts, Total) == Replay(history)
    }

    /** The interval is in seconds. */
    constructor (interval: real)
      ensures Valid() && history == [] && Interval == interval
    {
      Interval := interval;
      Counts, Total, history := map[], 0, [];
    }

    method Inc(channel: string)
      requires Valid()
      modifies this
      ensures Valid() && history == old(history) + [Increment(channel)]
      ensures Total == old(Total) + 1
      ensures Counts == old(Counts)[channel := CountOf(old(Counts), channel) + 1]
    {
      ReplaySnoc(history, Increment(channel));
      Counts := Counts[channel := CountOf(Counts, channel) + 1];
      Total := Total + 1;
      history := history + [Increment(channel)];
    }

    method Reset()
      requires Valid()
      modifies this
      ensures Valid() && history == old(history) + [Clear]
      ensures Counts == map[] && Total == 0
    {
      ReplaySnoc(history, Clear);
      Counts := map[];
      Total := 0;
      history := history + [Clear];
    }

    predicate IsLine(line: Line)
      requires Interval > 0.0
      reads this
    {
      && line.channel in Counts
      && line.count == Counts[line.channel]
      && line.rate == Rate(line.count, Interval)
    }

    /** Reports the events, the channels they came in on, and one line for every channel, in no
        particular order. The ticker that calls this cannot be made with an interval that is not
        positive. */
    method LogSummary() returns (events: nat, channels: nat, lines: seq<Line>)
      requires Valid() && Interval > 0.0
      modifies this
      ensures Valid() && history == old(history) + [Report]
      ensures Counts == old(Counts) && Total == old(Total)
      ensures events == Total && channels == |Counts|
      ensures |lines| == |Counts| && ChannelsOf(lines) == Counts.Keys
      ensures forall line | line in lines ::
                && line.channel in Counts && line.count == Counts[line.channel]
                && line.rate == Rate(line.count, Interval)
    {
      hide Replay, Rate;
      lines := [];
      var left := Counts.Keys;
      while left != {}
        invariant left <= Counts.Keys && |lines| + |left| == |Counts.Keys|
        invariant forall line | line in lines :: IsLine(line)
        invariant ChannelsOf(lines) == Counts.Keys - left
        invariant Valid() && history == old(history) && Counts == old(Counts) && Total == old(Total)
        decreases left
      {
        var c :| c in left;
        var line := Line(c, Counts[c], Rate(Counts[c], Interval));
        assert ChannelsOf(lines + [line]) == ChannelsOf(lines) + {c};
        lines := lines + [line];
        left := left - {c};
      }
      ReplaySnoc(history, Report);
      history := history + [Report];
      return Total, |Counts|, lines;
    }
  }

  lemma ReplaySnoc(ops: seq<Op>, op: Op)
    ensures Replay(ops + [op]) == Apply(Replay(ops), op)
  {
    assert (ops + [op])[..|ops|] == ops;
  }

  // ---------- counting on histories ----------

  /** Increments in a history, on any channel or on one. */
  function Incs(ops: seq<Op>): nat {
    if ops == [] then 0 else Incs(ops[..|ops| - 1]) + if ops[|ops| - 1].Increment? then 1 else 0
  }

  function IncsOn(ops: seq<Op>, channel: string): nat {
    if ops == [] then 0
    else IncsOn(ops[..|ops| - 1], channel) + if ops[|ops| - 1] == Increment(channel) then 1 else 0
  }

  /** The operations after the last Reset. */
  function SinceReset(ops: seq<Op>): seq<Op> {
    if ops == [] || ops[|ops| - 1].Clear? then []
    else SinceReset(ops[..|ops| - 1]) + [ops[|ops| - 1]]
  }

  /** Events thrown away by all Resets together. */
  function Discarded(ops: seq<Op>): nat {
    if ops == [] then 0
    else
      var before := ops[..|ops| - 1];
      Discarded(before) + if ops[|ops| - 1].Clear? then Replay(before).total else 0
  }

  /** No event is lost silently: it is still counted, or a Reset threw it away. */
  lemma {:induction false} Conservation(ops: seq<Op>)
    ensures Incs(ops) == Replay(ops).total + Discarded(ops)
  {
    if ops != [] {
      Conservation(ops[..|ops| - 1]);
    }
  }

  /** The counter holds exactly the events since the last Reset, channel by channel. */
  lemma {:induction false} HoldsSinceReset(ops: seq<Op>)
    ensures Replay(ops).total == Incs(SinceReset(ops))
    ensures forall c :: c in Replay(ops).counts <==> IncsOn(SinceReset(ops), c) > 0
    ensures forall c :: CountOf(Replay(ops).counts, c) == IncsOn(SinceReset(ops), c)
  {
    if ops != [] {
      var before, op := ops[..|ops| - 1], ops[|ops| - 1];
      HoldsSinceReset(before);
      if !op.Clear? {
        var since := SinceReset(before);
        assert (since + [op])[..|since|] == since;
      }
    }
  }

  /** What happens to the counter between two points without a Reset. */
  lemma {:induction false} TotalGrowsByIncs(before: seq<Op>, between: seq<Op>)
    requires Clear !in between
    ensures Replay(before + between).total == Replay(before).total + Incs(between)
  {
    if between == [] {
      assert before + between == before;
    } else {
      var front, last := between[..|between| - 1], between[|between| - 1];
      TotalGrowsByIncs(before, front);
      assert before + between == (before + front) + [last];
      ReplaySnoc(before + front, last);
    }
  }

  // ---------- channel by channel ----------

  lemma IncsOnSnoc(ops: seq<Op>, op: Op, channel: string)
    ensures IncsOn(ops + [op], channel) == IncsOn(ops, channel) + if op == Increment(channel) then 1 else 0
  {
    assert (ops + [op])[..|ops|] == ops;
  }

  /** Events of one channel thrown away by all Resets together. */
  function DiscardedOn(ops: seq<Op>, channel: string): nat {
    if ops == [] then 0
    else
      var before := ops[..|ops| - 1];
      DiscardedOn(before, channel) + if ops[|ops| - 1].Clear? then CountOf(Replay(before).counts, channel) else 0
  }

  /** Conservation holds on every channel by itself. */
  lemma {:induction false} ConservationOn(ops: seq<Op>, channel: string)
    ensures IncsOn(ops, channel) == CountOf(Replay(ops).counts, channel) + DiscardedOn(ops, channel)
  {
    if ops != [] {
      ConservationOn(ops[..|ops| - 1], channel);
    }
  }

  function Increases(ops: seq<Op>): seq<Op> {
    if ops == [] then []
    else
      var op := ops[|ops| - 1];
      Increases(ops[..|ops| - 1]) + if op.Increment? then [op] else []
  }

  lemma {:induction false} IncreasesOn(ops: seq<Op>, channel: string)
    ensures IncsOn(Increases(ops), channel) == IncsOn(ops, channel)
  {
    if ops != [] {
      var front, op := ops[..|ops| - 1], ops[|ops| - 1];
      IncreasesOn(front, channel);
      IncsOnSnoc(Increases(front), op, channel);
      assert Increases(front) + [] == Increases(front);
    }
  }

  // ---------- total against the counts ----------

  ghost function SumCounts(counts: map<string, nat>): nat
    decreases |counts|
  {
    if counts == map[] then 0
    else
      var c :| c in counts;
      counts[c] + SumCounts(counts - {c})
  }

  lemma {:induction false} SumWithout(counts: map<string, nat>, c: string)
    requires c in counts
    ensures SumCounts(counts) == counts[c] + SumCounts(counts - {c})
    decreases |counts|
  {
    var d :| d in counts && SumCounts(counts) == counts[d] + SumCounts(counts - {d});
    if d != c {
      SumWithout(counts - {d}, c);
      SumWithout(counts - {c}, d);
      assert counts - {d} - {c} == counts - {c} - {d};
    }
  }

  lemma SumBumped(counts: map<string, nat>, c: string)
    ensures SumCounts(counts[c := CountOf(counts, c) + 1]) == SumCounts(counts) + 1
  {
    var bumped := counts[c := CountOf(counts, c) + 1];
    SumWithout(bumped, c);
    assert bumped - {c} == counts - {c};
    if c in counts {
      SumWithout(counts, c);
    } else {
      assert counts - {c} == counts;
    }
  }

  ghost predicate SumsUp(t: Tally) {
    && t.total == SumCounts(t.counts)
    && AllPositive(t.counts)
    && |t.counts| <= t.total
  }

  lemma OperationKeepsSum(t: Tally, op: Op)
    requires SumsUp(t)
    ensures SumsUp(Apply(t, op))
  {
    assert SumsUp(NO_EVENTS);
    hide SumsUp;
    if op.Increment? {
      IncrementKeepsSum(t, op.channel, CountOf(t.counts, op.channel) + 1);
    }
  }

  lemma IncrementKeepsSum(t: Tally, c: string, n: nat)
    requires SumsUp(t) && n == CountOf(t.counts, c) + 1
    ensures SumsUp(Tally(t.counts[c := n], t.total + 1))
  {
    hide SumCounts, AllPositive;
    BumpedTally(t.counts, c, n);
    SumBumped(t.counts, c);
  }

  predicate AllPositive(counts: map<string, nat>) {
    forall c :: c in counts ==> counts[c] >= 1
  }

  lemma BumpedTally(counts: map<string, nat>, c: string, n: nat)
    requires n >= 1 && AllPositive(counts)
    ensures |counts[c := n]| <= |counts| + 1 && AllPositive(counts[c := n])
  {
    assert counts[c := n].Keys == counts.Keys + {c};
    assert |counts.Keys + {c}| <= |counts.Keys| + 1;
  }

  /** In every reachable state the total is the sum of the counts, no count is zero, and so
      there are never more channels than events. */
  lemma {:induction false} TotalIsSum(ops: seq<Op>)
    ensures Replay(ops).total == SumCounts(Replay(ops).counts)
    ensures forall c :: c in Replay(ops).counts ==> Replay(ops).counts[c] >= 1
    ensures |Replay(ops).counts| <= Replay(ops).total
  {
    assert SumCounts(map[]) == 0;
    hide SumCounts, Apply;
    if ops != [] {
      var before := ops[..|ops| - 1];
      TotalIsSum(before);
      OperationKeepsSum(Replay(before), ops[|ops| - 1]);
    }
  }
}
