/**
 * The per-node registration step of src/heartbeat-tree-accuracy-power.c:
 * deltas against the node's last event, lifetime totals, window totals kept by
 * evicting the slot `window_size` positions behind the write cursor, the record
 * written at the cursor, and the cursor's wrap with a flush of the whole log.
 */
module Engine {
  import opened Wrappers
  import opened Types
  import opened Aggregates

  lemma MulAtLeast(a: int, d: int)
    requires a >= 1 && d >= 1
    ensures a * d >= d
  {
    assert a * d == (a - 1) * d + d;
  }

  lemma MulSub(a: int, b: int, d: int)
    ensures (a - b) * d == a * d - b * d
  {
  }

  /** Euclidean remainder is determined by any quotient/remainder pair. */
  lemma ModUnique(x: int, d: int, q: int, r: int)
    requires d >= 1 && 0 <= r < d && x == q * d + r
    ensures x % d == r
  {
    var q', r' := x / d, x % d;
    assert x == q' * d + r';
    MulSub(q, q', d);
    MulSub(q', q, d);
    if q > q' {
      MulAtLeast(q - q', d);
    } else if q < q' {
      MulAtLeast(q' - q, d);
    }
  }

  /** The remainder after one more step: it wraps to 0 exactly when it reaches `d`. */
  lemma ModNext(k: int, d: int)
    requires d >= 1
    ensures (k + 1) % d == if k % d + 1 == d then 0 else k % d + 1
  {
    var q, r := k / d, k % d;
    assert k == q * d + r;
    if r + 1 < d {
      ModUnique(k + 1, d, q, r + 1);
    } else {
      assert k + 1 == (q + 1) * d + 0;
      ModUnique(k + 1, d, q + 1, 0);
    }
  }

  /** The window set_window_values actually maintains. A window size of 0 passes the
      construction check and evicts the slot about to be overwritten, so it acts as
      a window over the whole buffer. */
  function EffectiveWindow(windowSize: nat, bufferDepth: nat): nat {
    if windowSize == 0 then bufferDepth else windowSize
  }

  /** The slot whose values leave the window when the slot at `bufferIndex` is
      written: `windowSize` positions behind the cursor, modulo the buffer depth. */
  function EvictIndex(bufferIndex: nat, windowSize: nat, bufferDepth: nat): (idx: nat)
    requires bufferIndex < bufferDepth && windowSize <= bufferDepth
    ensures idx < bufferDepth
    ensures idx == (bufferIndex - windowSize) % bufferDepth
    ensures idx == (bufferIndex - EffectiveWindow(windowSize, bufferDepth)) % bufferDepth
  {
    EvictIndexIsMod(bufferIndex, windowSize, bufferDepth);
    if windowSize > bufferIndex then bufferDepth + bufferIndex - windowSize
    else bufferIndex - windowSize
  }

  lemma EvictIndexIsMod(bufferIndex: nat, windowSize: nat, bufferDepth: nat)
    requires bufferIndex < bufferDepth && windowSize <= bufferDepth
    ensures var idx := if windowSize > bufferIndex then bufferDepth + bufferIndex - windowSize
                       else bufferIndex - windowSize;
            && idx == (bufferIndex - windowSize) % bufferDepth
            && idx == (bufferIndex - EffectiveWindow(windowSize, bufferDepth)) % bufferDepth
  {
    var w := EffectiveWindow(windowSize, bufferDepth);
    if windowSize > bufferIndex {
      ModUnique(bufferIndex - windowSize, bufferDepth, -1, bufferDepth + bufferIndex - windowSize);
      ModUnique(bufferIndex - w, bufferDepth, -1, bufferDepth + bufferIndex - windowSize);
    } else {
      ModUnique(bufferIndex - windowSize, bufferDepth, 0, bufferIndex - windowSize);
      if windowSize == 0 {
        ModUnique(bufferIndex - w, bufferDepth, -1, bufferIndex);
      }
    }
  }

  /** What one heartbeat adds: elapsed time, work, accuracy and energy consumed. */
  datatype Delta = Delta(latency: int, work: nat, accuracy: int, energy: int)

  /** The deltas of a heartbeat against the node's last event. On the node's first
      event they are all 0, whatever work and accuracy the caller passed. */
  function Deltas(ld: LocalData, work: nat, accuracy: int, time: int, energy: int): Delta {
    if !ld.valid then Delta(0, 0, 0, 0)
    else Delta(time - ld.td.lastTimestamp, work, accuracy, energy - ld.ed.lastEnergy)
  }

  /** Lifetime totals: the first event only marks the node valid. */
  function AddTotals(ld: LocalData, d: Delta): LocalData {
    if !ld.valid then ld.(valid := true)
    else
      ld.(td := ld.td.(totalTime := ld.td.totalTime + d.latency),
          wd := ld.wd.(totalWork := ld.wd.totalWork + d.work),
          ad := ld.ad.(totalAccuracy := ld.ad.totalAccuracy + d.accuracy),
          ed := ld.ed.(totalEnergy := ld.ed.totalEnergy + d.energy))
  }

  /** What a delta adds to quantity `q`. */
  function DeltaAmount(d: Delta, q: Quantity): int {
    match q
    case Time => d.latency
    case Work => d.work
    case Accuracy => d.accuracy
    case Energy => d.energy
  }

  /** set_window_values: each window total gains the new delta and loses the amount
      of the slot `windowSize` positions behind the cursor; nothing else changes. */
  function SetWindowValues(ld: LocalData, windowSize: nat, d: Delta): (r: LocalData)
    requires ld.bufferIndex < ld.bufferDepth == |ld.log| && windowSize <= ld.bufferDepth
    ensures forall q :: WindowTotal(r, q) ==
              WindowTotal(ld, q) + DeltaAmount(d, q)
              - Amount(ld.log[EvictIndex(ld.bufferIndex, windowSize, ld.bufferDepth)], q)
    ensures forall q :: Total(r, q) == Total(ld, q)
    ensures r.td.lastTimestamp == ld.td.lastTimestamp && r.ed.lastEnergy == ld.ed.lastEnergy
    ensures r.(td := ld.td, wd := ld.wd, ad := ld.ad, ed := ld.ed) == ld
  {
    var out := ld.log[EvictIndex(ld.bufferIndex, windowSize, ld.bufferDepth)];
    ld.(td := ld.td.(windowTime := ld.td.windowTime + d.latency - out.latency),
        wd := ld.wd.(windowWork := ld.wd.windowWork + d.work - out.work),
        ad := ld.ad.(windowAccuracy := ld.ad.windowAccuracy + d.accuracy - out.accuracy),
        ed := ld.ed.(windowEnergy := ld.ed.windowEnergy + d.energy - out.energy))
  }

  /** The record of a heartbeat. Its metrics use the totals and windows already
      updated for this heartbeat; a zero latency stores every metric as 0. */
  function MakeRecord(ld: LocalData, id: nat, sharedId: nat, userTag: nat, time: int, d: Delta): Record {
    if d.latency == 0 then
      Record(id, sharedId, userTag, time,
             d.work, d.latency, Zero, Zero, Zero,
             d.accuracy, Zero, Zero, Zero,
             d.energy, Zero, Zero, Zero)
    else
      Record(id, sharedId, userTag, time,
             d.work, d.latency,
             Ratio(ld.wd.totalWork, ld.td.totalTime),
             Ratio(ld.wd.windowWork, ld.td.windowTime),
             Ratio(d.work, d.latency),
             d.accuracy,
             Ratio(ld.ad.totalAccuracy, ld.td.totalTime),
             Ratio(ld.ad.windowAccuracy, ld.td.windowTime),
             Ratio(d.accuracy, d.latency),
             d.energy,
             Ratio(ld.ed.totalEnergy, ld.td.totalTime),
             Ratio(ld.ed.windowEnergy, ld.td.windowTime),
             Ratio(d.energy, d.latency))
  }

  /** Writes `rs` to the text log, if there is one. */
  function Appended(s: Sink, rs: seq<Record>): Sink {
    match s
    case NoSink => NoSink
    case Sink(written) => Sink(written + rs)
  }

  /** hb_flush_buffer: the slots `[0, bufferIndex)` in index order go to the text log,
      after everything written before; without a text log nothing happens. */
  function FlushBuffer(ld: LocalData): (r: LocalData)
    requires ld.bufferIndex <= |ld.log|
    ensures r.sink.Sink? <==> ld.sink.Sink?
    ensures r.sink.Sink? ==>
              && ld.sink.written <= r.sink.written
              && |r.sink.written| == |ld.sink.written| + ld.bufferIndex
              && forall s :: 0 <= s < ld.bufferIndex ==> r.sink.written[|ld.sink.written| + s] == ld.log[s]
    ensures r.(sink := ld.sink) == ld
  {
    ld.(sink := Appended(ld.sink, ld.log[..ld.bufferIndex]))
  }

  /** New baseline, counter, read index and record at the cursor; the cursor moves on. */
  function WriteRecord(ld: LocalData, rec: Record, time: int, energy: int): LocalData
    requires ld.bufferIndex < |ld.log|
  {
    ld.(td := ld.td.(lastTimestamp := time),
        ed := ld.ed.(lastEnergy := energy),
        counter := ld.counter + 1,
        readIndex := ld.bufferIndex,
        log := ld.log[ld.bufferIndex := rec],
        bufferIndex := ld.bufferIndex + 1)
  }

  /** When the cursor reaches the buffer depth the whole log is flushed and the
      cursor starts again at slot 0. */
  function WrapCursor(ld: LocalData): LocalData
    requires 1 <= ld.bufferDepth && ld.bufferIndex <= |ld.log|
  {
    if ld.bufferIndex % ld.bufferDepth == 0 then FlushBuffer(ld).(bufferIndex := 0) else ld
  }

  /** The shared part of a heartbeat: one more event on the tree, at `time`. */
  function UpdateShared(sd: SharedData, time: int): SharedData {
    sd.(counter := sd.counter + 1, valid := true, lastTimestamp := time)
  }

  /** A node and its tree's shared data after one registration. */
  datatype StepResult = StepResult(node: Node, sd: SharedData)

  /** process_heartbeat: registers one heartbeat at clock reading `time` with the
      summed energy reading `energy`. */
  function ProcessHeartbeat(n: Node, sd: SharedData, userTag: nat, work: nat, accuracy: int,
                            time: int, energy: int): (r: StepResult)
    requires WellFormed(n)
    ensures WellFormed(r.node)
    ensures r.node.hasParent == n.hasParent && r.node.windowSize == n.windowSize
    ensures r.node.ld.bufferDepth == n.ld.bufferDepth
    ensures r.sd.counter == sd.counter + 1 && r.sd.valid && r.sd.lastTimestamp == time
    ensures r.sd.er == sd.er
    ensures r.node.ld.counter == n.ld.counter + 1
    ensures r.node.ld.valid
    ensures r.node.ld.readIndex == n.ld.bufferIndex
    ensures r.node.produced == n.produced + [r.node.ld.log[n.ld.bufferIndex]]
    ensures r.node.ld.log == n.ld.log[n.ld.bufferIndex := r.node.ld.log[n.ld.bufferIndex]]
    ensures r.node.ld.log[n.ld.bufferIndex].id == n.ld.counter
    ensures r.node.ld.log[n.ld.bufferIndex].sharedId == sd.counter
    ensures r.node.ld.log[n.ld.bufferIndex].userTag == userTag
    ensures r.node.ld.log[n.ld.bufferIndex].timestamp == time
    ensures r.node.ld.td.lastTimestamp == time && r.node.ld.ed.lastEnergy == energy
    ensures r.node.ld.bufferIndex ==
              if n.ld.bufferIndex + 1 == n.ld.bufferDepth then 0 else n.ld.bufferIndex + 1
    ensures r.node.ld.sink ==
              if n.ld.bufferIndex + 1 == n.ld.bufferDepth then Appended(n.ld.sink, r.node.ld.log)
              else n.ld.sink
  {
    var d := Deltas(n.ld, work, accuracy, time, energy);
    var ld2 := SetWindowValues(AddTotals(n.ld, d), n.windowSize, d);
    // the local counter is incremented first and the record takes its old value
    var rec := MakeRecord(ld2, n.ld.counter, sd.counter, userTag, time, d);
    var ld3 := WriteRecord(ld2, rec, time, energy);
    ModUnique(ld3.bufferIndex, ld3.bufferDepth, if ld3.bufferIndex == ld3.bufferDepth then 1 else 0,
              if ld3.bufferIndex == ld3.bufferDepth then 0 else ld3.bufferIndex);
    assert ld3.log[..ld3.bufferDepth] == ld3.log;
    StepResult(n.(ld := WrapCursor(ld3), produced := n.produced + [rec]), UpdateShared(sd, time))
  }

  /** heartbeat_acc's baseline handoff: when `prev` has registered a heartbeat, this
      node measures its next deltas from `prev`'s last timestamp and energy. Only
      those two fields change. */
  function Handoff(n: Node, prev: Option<Node>): (h: Node)
    ensures var handed := prev.Some? && prev.value.ld.valid;
            && h.ld.td.lastTimestamp == (if handed then prev.value.ld.td.lastTimestamp else n.ld.td.lastTimestamp)
            && h.ld.ed.lastEnergy == (if handed then prev.value.ld.ed.lastEnergy else n.ld.ed.lastEnergy)
    ensures h.(ld := h.ld.(td := n.ld.td, ed := n.ld.ed)) == n
    ensures h.ld.td.(lastTimestamp := n.ld.td.lastTimestamp) == n.ld.td
    ensures h.ld.ed.(lastEnergy := n.ld.ed.lastEnergy) == n.ld.ed
  {
    if prev.Some? && prev.value.ld.valid then
      n.(ld := n.ld.(td := n.ld.td.(lastTimestamp := prev.value.ld.td.lastTimestamp),
                     ed := n.ld.ed.(lastEnergy := prev.value.ld.ed.lastEnergy)))
    else n
  }

  /** heartbeat_acc: the handoff, then the heartbeat with the clock reading and the
      energy sum taken under the shared lock (both supplied by the caller here). */
  function HeartbeatAcc(n: Node, sd: SharedData, userTag: nat, work: nat, accuracy: int,
                        prev: Option<Node>, time: int, energy: int): (r: StepResult)
    requires WellFormed(n)
    ensures WellFormed(r.node)
    ensures r.node.hasParent == n.hasParent && r.node.windowSize == n.windowSize
    ensures r.node.ld.bufferDepth == n.ld.bufferDepth
    ensures r.node.produced == n.produced + [r.node.ld.log[n.ld.bufferIndex]]
    ensures r.node.ld.counter == n.ld.counter + 1 && r.node.ld.valid
    ensures r.node.ld.log[n.ld.bufferIndex].id == n.ld.counter
    ensures r.node.ld.log[n.ld.bufferIndex].sharedId == sd.counter
    ensures r.node.ld.log[n.ld.bufferIndex].timestamp == time
    ensures r.node.ld.td.lastTimestamp == time && r.node.ld.ed.lastEnergy == energy
    ensures r.sd.counter == sd.counter + 1 && r.sd.valid && r.sd.lastTimestamp == time
    ensures r.sd.er == sd.er
  {
    ProcessHeartbeat(Handoff(n, prev), sd, userTag, work, accuracy, time, energy)
  }
}
