/** Interval statistics of the flows: src/flowmanager.cc and src/flowbandwidthstats.cc. */
module IntervalStatistics {
  import opened MachineIntegers

  /** Bytes, packets and frames that were transmitted, received and lost. */
  datatype Stats = Stats(
    transmittedBytes: uint64, transmittedPackets: uint64, transmittedFrames: uint64,
    receivedBytes: uint64, receivedPackets: uint64, receivedFrames: uint64,
    lostBytes: uint64, lostPackets: uint64, lostFrames: uint64)

  const NONE: Stats := Stats(0, 0, 0, 0, 0, 0, 0, 0, 0)

  /** The arithmetic of `unsigned long long`. */
  function Add(a: uint64, b: uint64): uint64 { if a + b < MODULUS then a + b else a + b - MODULUS }
  function Subtract(a: uint64, b: uint64): uint64 { if a >= b then a - b else a - b + MODULUS }

  function Plus(a: Stats, b: Stats): Stats {
    Stats(Add(a.transmittedBytes, b.transmittedBytes), Add(a.transmittedPackets, b.transmittedPackets), Add(a.transmittedFrames, b.transmittedFrames),
          Add(a.receivedBytes, b.receivedBytes), Add(a.receivedPackets, b.receivedPackets), Add(a.receivedFrames, b.receivedFrames),
          Add(a.lostBytes, b.lostBytes), Add(a.lostPackets, b.lostPackets), Add(a.lostFrames, b.lostFrames))
  }

  function Minus(a: Stats, b: Stats): Stats {
    Stats(Subtract(a.transmittedBytes, b.transmittedBytes), Subtract(a.transmittedPackets, b.transmittedPackets), Subtract(a.transmittedFrames, b.transmittedFrames),
          Subtract(a.receivedBytes, b.receivedBytes), Subtract(a.receivedPackets, b.receivedPackets), Subtract(a.receivedFrames, b.receivedFrames),
          Subtract(a.lostBytes, b.lostBytes), Subtract(a.lostPackets, b.lostPackets), Subtract(a.lostFrames, b.lostFrames))
  }

  // ----- The counters form a commutative group, wrap-around included -------------------------------

  lemma AddLaws(a: uint64, b: uint64, c: uint64)
    ensures Add(a, b) == Add(b, a) && Add(Add(a, b), c) == Add(a, Add(b, c)) && Add(a, 0) == a
    ensures Add(b, Subtract(a, b)) == a && Subtract(Add(a, b), b) == a && Subtract(a, a) == 0
    ensures Add(a, b) == (a + b) % MODULUS && Subtract(a, b) == (a - b) % MODULUS
  {
  }

  /** The laws for all nine counters. */
  lemma PlusLaws(a: Stats, b: Stats, c: Stats)
    ensures Plus(a, b) == Plus(b, a) && Plus(Plus(a, b), c) == Plus(a, Plus(b, c)) && Plus(a, NONE) == a
    ensures Plus(b, Minus(a, b)) == a && Minus(Plus(a, b), b) == a && Minus(a, a) == NONE
  {
    hide Add, Subtract;
    AddLaws(a.transmittedBytes, b.transmittedBytes, c.transmittedBytes);
    AddLaws(a.transmittedPackets, b.transmittedPackets, c.transmittedPackets);
    AddLaws(a.transmittedFrames, b.transmittedFrames, c.transmittedFrames);
    AddLaws(a.receivedBytes, b.receivedBytes, c.receivedBytes);
    AddLaws(a.receivedPackets, b.receivedPackets, c.receivedPackets);
    AddLaws(a.receivedFrames, b.receivedFrames, c.receivedFrames);
    AddLaws(a.lostBytes, b.lostBytes, c.lostBytes);
    AddLaws(a.lostPackets, b.lostPackets, c.lostPackets);
    AddLaws(a.lostFrames, b.lostFrames, c.lostFrames);
  }

  function Sum(s: seq<Stats>): Stats {
    if s == [] then NONE else Plus(Sum(s[..|s| - 1]), s[|s| - 1])
  }

  lemma SumAppend(s: seq<Stats>, x: Stats)
    ensures Sum(s + [x]) == Plus(Sum(s), x)
  {
    assert (s + [x])[..|s|] == s;
  }

  /** Replacing one summand. */
  lemma {:induction false} SumUpdate(s: seq<Stats>, i: nat, x: Stats)
    requires i < |s|
    ensures Sum(s[i := x]) == Plus(Sum(s), Minus(x, s[i]))
  {
    var init, last := s[..|s| - 1], s[|s| - 1];
    hide Plus, Minus;
    if i == |s| - 1 {
      assert s[i := x][..i] == init;
      PlusLaws(Sum(init), last, Minus(x, last));
      PlusLaws(x, last, NONE);
    } else {
      SumUpdate(init, i, x);
      assert s[i := x][..|s| - 1] == init[i := x];
      PlusLaws(Sum(init), Minus(x, s[i]), last);
      PlusLaws(Sum(init), last, Minus(x, s[i]));
      PlusLaws(last, Minus(x, s[i]), NONE);
    }
  }

  /** A flow with its counters now and at the last vector write; `Rows` are the differences
      written so far. */
  class Flow {
    const MeasurementID: nat
    const FlowID: nat
    var CurrentBandwidthStats: Stats
    var LastBandwidthStats: Stats
    ghost var Rows: seq<Stats>

    constructor (measurementID: nat, flowID: nat)
      ensures MeasurementID == measurementID && FlowID == flowID
      ensures CurrentBandwidthStats == LastBandwidthStats == NONE && Rows == []
    {
      MeasurementID, FlowID := measurementID, flowID;
      CurrentBandwidthStats, LastBandwidthStats, Rows := NONE, NONE, [];
    }
  }

  /** A row of the vector file: absolute and interval values. */
  datatype Row = Row(flowID: nat, absolute: Stats, interval: Stats)

  function Intervals(rows: seq<Row>): (r: seq<Stats>)
    ensures |r| == |rows|
  {
    seq(|rows|, i requires 0 <= i < |rows| => rows[i].interval)
  }

  function Absolutes(rows: seq<Row>): (r: seq<Stats>)
    ensures |r| == |rows|
  {
    seq(|rows|, i requires 0 <= i < |rows| => rows[i].absolute)
  }

  /** The flows of a measurement, in their order. */
  function Members(flows: seq<Flow>, measurementID: nat): (members: seq<Flow>)
    ensures forall f | f in members :: f in flows && f.MeasurementID == measurementID
    ensures forall f | f in flows && f.MeasurementID == measurementID :: f in members
  {
    if flows == [] then [] else
    var init, last := flows[..|flows| - 1], flows[|flows| - 1];
    assert flows == init + [last];
    Members(init, measurementID) + if last.MeasurementID == measurementID then [last] else []
  }

  /** The values of the flows at their last vector write. */
  ghost function LastsOf(flows: seq<Flow>): (r: seq<Stats>)
    reads flows
    ensures |r| == |flows|
  {
    seq(|flows|, i reads flows requires 0 <= i < |flows| => flows[i].LastBandwidthStats)
  }

  /** For each of the flows a row, with its values and an interval that leads there from its last
      values. */
  ghost predicate RowsTell(members: seq<Flow>, rows: seq<Row>)
    reads members
  {
    && |rows| == |members|
    && forall i | 0 <= i < |rows| ::
         && rows[i].flowID == members[i].FlowID && rows[i].absolute == members[i].CurrentBandwidthStats
         && Plus(members[i].LastBandwidthStats, rows[i].interval) == rows[i].absolute
  }

  lemma OneMoreTold(members: seq<Flow>, rows: seq<Row>, flow: Flow)
    requires RowsTell(members, rows)
    ensures RowsTell(members + [flow],
              rows + [Row(flow.FlowID, flow.CurrentBandwidthStats, Minus(flow.CurrentBandwidthStats, flow.LastBandwidthStats))])
  {
    hide Plus, Minus;
    PlusLaws(flow.CurrentBandwidthStats, flow.LastBandwidthStats, NONE);
  }

  lemma NothingTold()
    ensures RowsTell([], [])
  {
  }

  class FlowManager {
    var FlowSet: seq<Flow>
    var CurrentGlobalStats: Stats
    var LastGlobalStats: Stats
    /** What the removed flows had at their last vector write, and the global interval values
        reported so far. */
    ghost var Removed: Stats
    ghost var GlobalRows: seq<Stats>

    constructor ()
      ensures Valid() && FlowSet == [] && GlobalRows == []
    {
      FlowSet, GlobalRows := [], [];
      CurrentGlobalStats, LastGlobalStats, Removed := NONE, NONE, NONE;
      new;
      PlusLaws(NONE, NONE, NONE);
    }

    ghost predicate Valid()
      reads this, FlowSet
    {
      && Flows()
      && CurrentGlobalStats == Plus(Sum(LastsOf(FlowSet)), Removed)
      && LastGlobalStats == CurrentGlobalStats == Sum(GlobalRows)
    }

    method AddFlow(measurementID: nat, flowID: nat) returns (flow: Flow)
      requires Valid()
      modifies this`FlowSet
      ensures Valid() && fresh(flow) && FlowSet == old(FlowSet) + [flow]
    {
      hide Plus, Sum;
      flow := new Flow(measurementID, flowID);
      ghost var lasts := LastsOf(FlowSet);
      FlowSet := FlowSet + [flow];
      assert LastsOf(FlowSet) == lasts + [NONE];
      SumAppend(lasts, NONE);
      PlusLaws(Sum(lasts), NONE, NONE);
      assert Sum([]) == NONE by { NoSummands(); }
    }

    /** Removes the flow at position `i`. */
    method RemoveFlow(i: nat)
      requires Valid() && i < |FlowSet|
      modifies this`FlowSet, this`Removed
      ensures Valid() && FlowSet == old(FlowSet)[..i] + old(FlowSet)[i + 1..]
      ensures Removed == Plus(old(Removed), FlowSetAt(old(FlowSet), i))
    {
      hide Plus, Sum, Minus;
      ghost var lasts := LastsOf(FlowSet);
      Removed := Plus(Removed, FlowSet[i].LastBandwidthStats);
      FlowSet := FlowSet[..i] + FlowSet[i + 1..];
      assert LastsOf(FlowSet) == lasts[..i] + lasts[i + 1..];
      SumRemove(lasts, i);
      PlusLaws(Sum(LastsOf(FlowSet)), lasts[i], old(Removed));
      PlusLaws(lasts[i], old(Removed), NONE);
    }

    ghost function FlowSetAt(flows: seq<Flow>, i: nat): Stats
      requires i < |flows|
      reads flows
    {
      flows[i].LastBandwidthStats
    }

    /** Frames have been sent, or messages received, on a flow. */
    method UpdateStatistics(flow: Flow, change: Stats)
      requires Valid()
      modifies flow`CurrentBandwidthStats
      ensures Valid() && flow.CurrentBandwidthStats == Plus(old(flow.CurrentBandwidthStats), change)
    {
      ghost var lasts := LastsOf(FlowSet);
      flow.CurrentBandwidthStats := Plus(flow.CurrentBandwidthStats, change);
      assert LastsOf(FlowSet) == lasts;
    }

    /** The rows of the first `k` flows, as far as they belong to the measurement. */
    ghost function RowsOf(measurementID: nat, k: nat): (rows: seq<Row>)
      requires k <= |FlowSet|
      reads this, FlowSet
    {
      if k == 0 then [] else
      RowsOf(measurementID, k - 1) +
        var flow := FlowSet[k - 1];
        if flow.MeasurementID == measurementID
        then [Row(flow.FlowID, flow.CurrentBandwidthStats, Minus(flow.CurrentBandwidthStats, flow.LastBandwidthStats))]
        else []
    }

    /** For each of the flows its values now, and an interval that leads there from its last ones. */
    lemma {:induction false} RowsOfMembers(measurementID: nat, k: nat)
      requires k <= |FlowSet|
      ensures RowsTell(Members(FlowSet[..k], measurementID), RowsOf(measurementID, k))
    {
      hide Plus, Minus, RowsTell;
      if k > 0 {
        RowsOfMembers(measurementID, k - 1);
        assert FlowSet[..k][..k - 1] == FlowSet[..k - 1];
        var members, rows := Members(FlowSet[..k - 1], measurementID), RowsOf(measurementID, k - 1);
        OneMoreTold(members, rows, FlowSet[k - 1]);
        assert members + [] == members && rows + [] == rows;
      } else {
        NothingTold();
      }
    }

    /** What a vector write leaves in a flow as its last values. */
    ghost function Written(measurementID: nat, flow: Flow, last: Stats): Stats
      reads flow
    {
      if flow.MeasurementID == measurementID then flow.CurrentBandwidthStats else last
    }

    /** One row for a flow. */
    method WriteFlow(k: nat, flow: Flow) returns (row: Row)
      requires k < |FlowSet| && flow == FlowSet[k] && (forall i, j | 0 <= i < j < |FlowSet| :: FlowSet[i] != FlowSet[j])
      requires Sum(flow.Rows) == flow.LastBandwidthStats
      modifies flow`LastBandwidthStats, flow`Rows
      ensures row == Row(flow.FlowID, flow.CurrentBandwidthStats, Minus(flow.CurrentBandwidthStats, old(flow.LastBandwidthStats)))
      ensures flow.LastBandwidthStats == flow.CurrentBandwidthStats == Sum(flow.Rows)
      ensures flow.Rows == old(flow.Rows) + [row.interval]
      ensures LastsOf(FlowSet) == old(LastsOf(FlowSet))[k := flow.CurrentBandwidthStats]
      ensures Sum(LastsOf(FlowSet)) == Plus(Sum(old(LastsOf(FlowSet))), row.interval)
    {
      hide Plus, Sum, Minus;
      ghost var lasts := LastsOf(FlowSet);
      var relStats := Minus(flow.CurrentBandwidthStats, flow.LastBandwidthStats);
      row := Row(flow.FlowID, flow.CurrentBandwidthStats, relStats);
      SumAppend(flow.Rows, relStats);
      PlusLaws(flow.CurrentBandwidthStats, flow.LastBandwidthStats, NONE);
      SumUpdate(lasts, k, flow.CurrentBandwidthStats);
      flow.Rows := flow.Rows + [relStats];
      flow.LastBandwidthStats := flow.CurrentBandwidthStats;
      assert LastsOf(FlowSet) == lasts[k := flow.CurrentBandwidthStats];
    }

    /** The flows' part of the invariant. */
    ghost predicate Flows()
      reads this, FlowSet
    {
      && (forall i, j | 0 <= i < j < |FlowSet| :: FlowSet[i] != FlowSet[j])
      && (forall i | 0 <= i < |FlowSet| :: Sum(FlowSet[i].Rows) == FlowSet[i].LastBandwidthStats)
    }

    /** Writes the row of a flow and adds it to the totals. */
    method WriteNext(k: nat, flow: Flow, rows0: seq<Row>, currentTotalStats0: Stats, lastTotalStats0: Stats, ghost globalStats0: Stats)
      returns (rows: seq<Row>, currentTotalStats: Stats, lastTotalStats: Stats)
      requires k < |FlowSet| && flow == FlowSet[k] && Flows() && CurrentGlobalStats == Plus(Sum(LastsOf(FlowSet)), Removed)
      requires CurrentGlobalStats == Plus(globalStats0, Sum(Intervals(rows0))) && currentTotalStats0 == Plus(lastTotalStats0, Sum(Intervals(rows0)))
      requires currentTotalStats0 == Sum(Absolutes(rows0))
      modifies this`CurrentGlobalStats, flow`LastBandwidthStats, flow`Rows
      ensures Flows() && CurrentGlobalStats == Plus(Sum(LastsOf(FlowSet)), Removed)
      ensures rows == rows0 + [Row(flow.FlowID, flow.CurrentBandwidthStats, Minus(flow.CurrentBandwidthStats, old(flow.LastBandwidthStats)))]
      ensures flow.LastBandwidthStats == flow.CurrentBandwidthStats
      ensures CurrentGlobalStats == Plus(globalStats0, Sum(Intervals(rows))) && currentTotalStats == Plus(lastTotalStats, Sum(Intervals(rows)))
      ensures currentTotalStats == Sum(Absolutes(rows))
    {
      hide Plus, Sum, Minus, Intervals, Absolutes, LastsOf;
      RowLaws(Sum(LastsOf(FlowSet)), Removed, globalStats0, Sum(Intervals(rows0)), lastTotalStats0,
              flow.LastBandwidthStats, flow.CurrentBandwidthStats);
      lastTotalStats := Plus(lastTotalStats0, flow.LastBandwidthStats);
      currentTotalStats := Plus(currentTotalStats0, flow.CurrentBandwidthStats);
      var row := WriteFlow(k, flow);
      CurrentGlobalStats := Plus(CurrentGlobalStats, row.interval);
      OneMoreInterval(rows0, row);
      rows := rows0 + [row];
      assert forall i | 0 <= i < |FlowSet| && i != k :: FlowSet[i] != flow;
    }

    /** Writes one row for each flow of the measurement and sums up. */
    method WriteFlows(measurementID: nat) returns (rows: seq<Row>, currentTotalStats: Stats, lastTotalStats: Stats)
      requires Flows() && CurrentGlobalStats == Plus(Sum(LastsOf(FlowSet)), Removed)
      modifies this`CurrentGlobalStats, FlowSet
      ensures Flows() && CurrentGlobalStats == Plus(Sum(LastsOf(FlowSet)), Removed)
      ensures rows == old(RowsOf(measurementID, |FlowSet|))
      ensures forall i | 0 <= i < |FlowSet| ::
        && FlowSet[i].CurrentBandwidthStats == old(FlowSet[i].CurrentBandwidthStats)
        && FlowSet[i].LastBandwidthStats == Written(measurementID, FlowSet[i], old(FlowSet[i].LastBandwidthStats))
      ensures CurrentGlobalStats == Plus(old(CurrentGlobalStats), Sum(Intervals(rows)))
      ensures currentTotalStats == Plus(lastTotalStats, Sum(Intervals(rows))) && currentTotalStats == Sum(Absolutes(rows))
    {
      hide Plus, Sum, Minus, Intervals, Absolutes, LastsOf;
      currentTotalStats, lastTotalStats, rows := NONE, NONE, [];
      NoSummands();
      PlusLaws(CurrentGlobalStats, NONE, NONE);
      PlusLaws(NONE, NONE, NONE);
      var k := 0;
      while k < |FlowSet|
        invariant 0 <= k <= |FlowSet| && rows == old(RowsOf(measurementID, k)) && Flows()
        invariant forall i | 0 <= i < |FlowSet| ::
          && FlowSet[i].CurrentBandwidthStats == old(FlowSet[i].CurrentBandwidthStats)
          && FlowSet[i].LastBandwidthStats ==
               if i < k then Written(measurementID, FlowSet[i], old(FlowSet[i].LastBandwidthStats)) else old(FlowSet[i].LastBandwidthStats)
        invariant CurrentGlobalStats == Plus(Sum(LastsOf(FlowSet)), Removed)
        invariant CurrentGlobalStats == Plus(old(CurrentGlobalStats), Sum(Intervals(rows)))
        invariant currentTotalStats == Plus(lastTotalStats, Sum(Intervals(rows))) && currentTotalStats == Sum(Absolutes(rows))
        modifies this`CurrentGlobalStats, FlowSet
      {
        var flow := FlowSet[k];
        if flow.MeasurementID == measurementID {
          rows, currentTotalStats, lastTotalStats := WriteNext(k, flow, rows, currentTotalStats, lastTotalStats, old(CurrentGlobalStats));
          assert forall i | 0 <= i < |FlowSet| && i != k :: FlowSet[i] != flow;
        }
        k := k + 1;
      }
    }

    /** Writes one row for each flow of the measurement and a row of totals, and reports the
        global values of all measurements. */
    method WriteVectorStatistics(measurementID: nat)
      returns (rows: seq<Row>, totalStats: Stats, relTotalStats: Stats, globalStats: Stats, relGlobalStats: Stats)
      requires Valid()
      modifies this`CurrentGlobalStats, this`LastGlobalStats, this`GlobalRows, FlowSet
      ensures Valid() && FlowSet == old(FlowSet) && Removed == old(Removed)
      ensures old(RowsTell(Members(FlowSet, measurementID), rows))
      ensures forall i | 0 <= i < |FlowSet| ::
        && FlowSet[i].CurrentBandwidthStats == old(FlowSet[i].CurrentBandwidthStats)
        && FlowSet[i].LastBandwidthStats ==
             if FlowSet[i].MeasurementID == measurementID then FlowSet[i].CurrentBandwidthStats else old(FlowSet[i].LastBandwidthStats)
      ensures totalStats == Sum(Absolutes(rows))
      ensures relTotalStats == relGlobalStats == Sum(Intervals(rows))
      ensures globalStats == CurrentGlobalStats && GlobalRows == old(GlobalRows) + [relGlobalStats]
    {
      hide Plus, Sum, Minus, Intervals, Absolutes, LastsOf, RowsOf, Members, RowsTell;
      var lastTotalStats;
      RowsOfMembers(measurementID, |FlowSet|);
      assert FlowSet[..|FlowSet|] == FlowSet;
      rows, totalStats, lastTotalStats := WriteFlows(measurementID);
      ghost var change := Sum(Intervals(rows));
      Difference(lastTotalStats, change);
      Difference(old(CurrentGlobalStats), change);
      SumAppend(GlobalRows, change);
      relTotalStats := Minus(totalStats, lastTotalStats);
      globalStats := CurrentGlobalStats;
      relGlobalStats := Minus(CurrentGlobalStats, LastGlobalStats);
      LastGlobalStats := CurrentGlobalStats;
      GlobalRows := GlobalRows + [relGlobalStats];
    }
  }

  lemma Exchange(a: Stats, b: Stats, c: Stats, d: Stats)
    ensures Plus(Plus(a, b), Plus(c, d)) == Plus(Plus(a, c), Plus(b, d))
  {
    hide Plus, Minus;
    PlusLaws(a, b, Plus(c, d));
    PlusLaws(b, c, d);
    PlusLaws(c, b, d);
    PlusLaws(a, c, Plus(b, d));
  }

  lemma Shift(a: Stats, b: Stats, c: Stats)
    ensures Plus(Plus(a, b), c) == Plus(Plus(a, c), b)
  {
    hide Plus, Minus;
    PlusLaws(a, b, c);
    PlusLaws(b, c, NONE);
    PlusLaws(a, c, b);
  }

  lemma Difference(a: Stats, b: Stats)
    ensures Minus(Plus(a, b), a) == b
  {
    PlusLaws(a, b, NONE);
    PlusLaws(b, a, NONE);
  }

  /** What one more row does to the totals. */
  lemma RowLaws(lasts: Stats, removed: Stats, start: Stats, sofar: Stats, lastTotal: Stats, last: Stats, current: Stats)
    ensures var change := Minus(current, last);
      && Plus(Plus(lasts, removed), change) == Plus(Plus(lasts, change), removed)
      && Plus(Plus(start, sofar), change) == Plus(start, Plus(sofar, change))
      && Plus(Plus(lastTotal, sofar), current) == Plus(Plus(lastTotal, last), Plus(sofar, change))
  {
    hide Plus, Minus;
    var change := Minus(current, last);
    PlusLaws(current, last, NONE);
    Exchange(lastTotal, sofar, last, change);
    Shift(lasts, removed, change);
    PlusLaws(start, sofar, change);
  }

  lemma NoSummands()
    ensures Sum([]) == NONE && Intervals([]) == [] && Absolutes([]) == []
  {
  }

  lemma OneMoreInterval(rows: seq<Row>, row: Row)
    ensures Sum(Intervals(rows + [row])) == Plus(Sum(Intervals(rows)), row.interval)
    ensures Sum(Absolutes(rows + [row])) == Plus(Sum(Absolutes(rows)), row.absolute)
  {
    assert Absolutes(rows + [row]) == Absolutes(rows) + [row.absolute];
    SumAppend(Absolutes(rows), row.absolute);
    assert Intervals(rows + [row]) == Intervals(rows) + [row.interval];
    SumAppend(Intervals(rows), row.interval);
  }

  lemma {:induction false} SumRemove(s: seq<Stats>, i: nat)
    requires i < |s|
    ensures Plus(Sum(s[..i] + s[i + 1..]), s[i]) == Sum(s)
  {
    hide Plus;
    if i == |s| - 1 {
      assert s[..i] + s[i + 1..] == s[..i];
    } else {
      var init, last := s[..|s| - 1], s[|s| - 1];
      SumRemove(init, i);
      assert s[..i] + s[i + 1..] == (init[..i] + init[i + 1..]) + [last];
      SumAppend(init[..i] + init[i + 1..], last);
      PlusLaws(Sum(init[..i] + init[i + 1..]), last, s[i]);
      PlusLaws(Sum(init[..i] + init[i + 1..]), s[i], last);
      PlusLaws(last, s[i], NONE);
    }
  }
}
