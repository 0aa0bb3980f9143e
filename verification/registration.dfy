/**
 * Properties of a single registration: the bootstrap event, the deltas of later
 * events, the zero-latency metric policy, and heartbeat_acc's baseline handoff.
 */
module Registration {
  import opened Wrappers
  import opened Types
  import opened Aggregates
  import opened Engine
  import opened NodeInvariant

  /** The latest record of a node that has registered at least one heartbeat. */
  function Latest(n: Node): Record
    requires n.produced != []
  {
    n.produced[|n.produced| - 1]
  }

  predicate AllMetricsZero(r: Record) {
    && r.globalPerf == Zero && r.windowPerf == Zero && r.instantPerf == Zero
    && r.globalAcc == Zero && r.windowAcc == Zero && r.instantAcc == Zero
    && r.globalPwr == Zero && r.windowPwr == Zero && r.instantPwr == Zero
  }

  /** A node's first heartbeat records latency, work, accuracy and energy as 0,
      whatever the caller passed, leaves the lifetime totals as they were and
      stores every metric as 0. */
  lemma FirstHeartbeat(n: Node, sd: SharedData, userTag: nat, work: nat, accuracy: int,
                       time: int, energy: int)
    requires WellFormed(n) && !n.ld.valid
    ensures var m := ProcessHeartbeat(n, sd, userTag, work, accuracy, time, energy).node;
            && Latest(m).latency == 0 && Latest(m).work == 0
            && Latest(m).accuracy == 0 && Latest(m).energy == 0
            && AllMetricsZero(Latest(m))
            && forall q :: Total(m.ld, q) == Total(n.ld, q)
  {
    var d, ld2, rec, ld3 := StepParts(n, sd, userTag, work, accuracy, time, energy);
  }

  /** Every later heartbeat records the time and energy elapsed since the node's
      last event and the caller's work and accuracy, and adds them to the totals. */
  lemma LaterHeartbeat(n: Node, sd: SharedData, userTag: nat, work: nat, accuracy: int,
                       time: int, energy: int)
    requires WellFormed(n) && n.ld.valid
    ensures var m := ProcessHeartbeat(n, sd, userTag, work, accuracy, time, energy).node;
            && Latest(m).latency == time - n.ld.td.lastTimestamp
            && Latest(m).work == work
            && Latest(m).accuracy == accuracy
            && Latest(m).energy == energy - n.ld.ed.lastEnergy
            && forall q :: Total(m.ld, q) == Total(n.ld, q) + Amount(Latest(m), q)
  {
    var d, ld2, rec, ld3 := StepParts(n, sd, userTag, work, accuracy, time, energy);
  }

  /** The four quantities summed together. */
  datatype Sums = Sums(time: int, work: int, accuracy: int, energy: int)

  function SumsOf(rs: seq<Record>): Sums {
    Sums(Sum(rs, Time), Sum(rs, Work), Sum(rs, Accuracy), Sum(rs, Energy))
  }

  /** The nine per-time metrics as a record stores them, from lifetime sums,
      window sums and the record's own amounts. */
  predicate MetricsFrom(r: Record, total: Sums, window: Sums) {
    && r.globalPerf == Ratio(total.work, total.time)
    && r.windowPerf == Ratio(window.work, window.time)
    && r.instantPerf == Ratio(r.work, r.latency)
    && r.globalAcc == Ratio(total.accuracy, total.time)
    && r.windowAcc == Ratio(window.accuracy, window.time)
    && r.instantAcc == Ratio(r.accuracy, r.latency)
    && r.globalPwr == Ratio(total.energy, total.time)
    && r.windowPwr == Ratio(window.energy, window.time)
    && r.instantPwr == Ratio(r.energy, r.latency)
  }

  lemma MetricsFromState(n: Node, sd: SharedData, userTag: nat, work: nat, accuracy: int,
                         time: int, energy: int)
    requires WellFormed(n)
    ensures var m := ProcessHeartbeat(n, sd, userTag, work, accuracy, time, energy).node;
            && (Latest(m).latency == 0 ==> AllMetricsZero(Latest(m)))
            && (Latest(m).latency != 0 ==>
                  MetricsFrom(Latest(m),
                    Sums(Total(m.ld, Time), Total(m.ld, Work), Total(m.ld, Accuracy), Total(m.ld, Energy)),
                    Sums(WindowTotal(m.ld, Time), WindowTotal(m.ld, Work),
                         WindowTotal(m.ld, Accuracy), WindowTotal(m.ld, Energy))))
  {
    var d, ld2, rec, ld3 := StepParts(n, sd, userTag, work, accuracy, time, energy);
  }

  /** The nine metrics of a record: all 0 when its latency is 0; otherwise the
      lifetime, window and instant work, accuracy and energy per elapsed time,
      where lifetime and window include the heartbeat itself. */
  lemma MetricsOfLatest(n: Node, sd: SharedData, userTag: nat, work: nat, accuracy: int,
                        time: int, energy: int)
    requires Inv(n)
    ensures var m := ProcessHeartbeat(n, sd, userTag, work, accuracy, time, energy).node;
            && (Latest(m).latency == 0 ==> AllMetricsZero(Latest(m)))
            && (Latest(m).latency != 0 ==>
                  MetricsFrom(Latest(m), SumsOf(m.produced), SumsOf(Recent(m.produced, WindowLength(m)))))
  {
    var m := ProcessHeartbeat(n, sd, userTag, work, accuracy, time, energy).node;
    MetricsFromState(n, sd, userTag, work, accuracy, time, energy);
    StepTotals(n, sd, userTag, work, accuracy, time, energy);
    StepWindows(n, sd, userTag, work, accuracy, time, energy);
    assert TotalsMatch(m) && WindowsMatch(m);
    assert Total(m.ld, Time) == Sum(m.produced, Time);
    assert Total(m.ld, Work) == Sum(m.produced, Work);
    assert Total(m.ld, Accuracy) == Sum(m.produced, Accuracy);
    assert Total(m.ld, Energy) == Sum(m.produced, Energy);
    var win := Recent(m.produced, WindowLength(m));
    assert WindowTotal(m.ld, Time) == Sum(win, Time);
    assert WindowTotal(m.ld, Work) == Sum(win, Work);
    assert WindowTotal(m.ld, Accuracy) == Sum(win, Accuracy);
    assert WindowTotal(m.ld, Energy) == Sum(win, Energy);
  }

  /** The handoff rewrites only the baseline that the next deltas are taken
      against: the bookkeeping survives it, and the baseline does too unless
      `prev` hands over its own. */
  lemma HandoffKeepsBookkeeping(n: Node, prev: Option<Node>)
    requires Inv(n)
    ensures Bookkeeping(Handoff(n, prev))
    ensures !(prev.Some? && prev.value.ld.valid) ==> Inv(Handoff(n, prev))
  {
    var h := Handoff(n, prev);
    assert forall q :: Total(h.ld, q) == Total(n.ld, q);
    assert forall q :: WindowTotal(h.ld, q) == WindowTotal(n.ld, q);
  }

  /** heartbeat_acc keeps the node invariant, baseline included. */
  lemma HeartbeatAccPreservesInv(n: Node, sd: SharedData, userTag: nat, work: nat, accuracy: int,
                                 prev: Option<Node>, time: int, energy: int)
    requires Inv(n)
    ensures Inv(HeartbeatAcc(n, sd, userTag, work, accuracy, prev, time, energy).node)
  {
    HandoffKeepsBookkeeping(n, prev);
    StepPreservesInv(Handoff(n, prev), sd, userTag, work, accuracy, time, energy);
  }

  /** A record's latency is the time since the previous heartbeat: that of this
      node, or of `prev` when `prev` has registered one. */
  lemma LatencySinceLast(n: Node, sd: SharedData, userTag: nat, work: nat, accuracy: int,
                         prev: Option<Node>, time: int, energy: int)
    requires Inv(n) && n.ld.valid
    requires prev.Some? ==> Inv(prev.value)
    ensures var m := HeartbeatAcc(n, sd, userTag, work, accuracy, prev, time, energy).node;
            var last := if prev.Some? && prev.value.ld.valid then prev.value else n;
            Latest(m).latency == Latest(m).timestamp - Latest(last).timestamp
  {
    LaterHeartbeat(Handoff(n, prev), sd, userTag, work, accuracy, time, energy);
  }

  /** With a valid `prev`, latency and energy are measured from `prev`'s last event
      rather than from this node's own. */
  lemma HandoffBaseline(n: Node, sd: SharedData, userTag: nat, work: nat, accuracy: int,
                        prev: Option<Node>, time: int, energy: int)
    requires WellFormed(n) && n.ld.valid
    ensures var m := HeartbeatAcc(n, sd, userTag, work, accuracy, prev, time, energy).node;
            var handed := prev.Some? && prev.value.ld.valid;
            && Latest(m).latency ==
                 time - (if handed then prev.value.ld.td.lastTimestamp else n.ld.td.lastTimestamp)
            && Latest(m).energy ==
                 energy - (if handed then prev.value.ld.ed.lastEnergy else n.ld.ed.lastEnergy)
  {
    LaterHeartbeat(Handoff(n, prev), sd, userTag, work, accuracy, time, energy);
  }

  /** On a node's first event the handoff makes no difference at all. */
  lemma HandoffIgnoredOnFirst(n: Node, sd: SharedData, userTag: nat, work: nat, accuracy: int,
                              prev: Option<Node>, time: int, energy: int)
    requires WellFormed(n) && !n.ld.valid
    ensures HeartbeatAcc(n, sd, userTag, work, accuracy, prev, time, energy) ==
              ProcessHeartbeat(n, sd, userTag, work, accuracy, time, energy)
  {
    var h := Handoff(n, prev);
    if h != n {
      var d, ld2, rec, ld3 := StepParts(n, sd, userTag, work, accuracy, time, energy);
      var d', ld2', rec', ld3' := StepParts(h, sd, userTag, work, accuracy, time, energy);
      assert d == d' == Delta(0, 0, 0, 0);
      assert ld2' == ld2.(td := ld2.td.(lastTimestamp := h.ld.td.lastTimestamp),
                          ed := ld2.ed.(lastEnergy := h.ld.ed.lastEnergy));
      assert rec == rec';
      assert ld3 == ld3';
    }
  }
}
