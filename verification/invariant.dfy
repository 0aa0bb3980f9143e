/**
 * What a node's state means: the ring buffer, the cursors, the totals, the
 * window totals and the text log, each in terms of the heartbeats the node has
 * registered. Every registration preserves it.
 */
module NodeInvariant {
  import opened Types
  import opened Aggregates
  import opened Engine

  /** Slot contents in terms of the history. With `base` heartbeats registered
      before the current pass over the buffer, a slot below the cursor holds
      heartbeat base + s of this pass; a slot at or after the cursor holds
      heartbeat base - depth + s of the previous pass, or is still zero-filled
      during the first pass. */
  ghost predicate LogMatches(log: seq<Record>, produced: seq<Record>, bufferIndex: nat)
    requires bufferIndex <= |log| && bufferIndex <= |produced|
  {
    var base := |produced| - bufferIndex;
    && (base == 0 || |log| <= base)
    && (forall s :: 0 <= s < bufferIndex ==> log[s] == produced[base + s])
    && (forall s :: bufferIndex <= s < |log| ==>
          log[s] == if base == 0 then EmptyRecord else produced[base - |log| + s])
  }

  /** How many of the node's records the window totals cover. */
  function WindowLength(n: Node): nat {
    Min(|n.produced|, EffectiveWindow(n.windowSize, n.ld.bufferDepth))
  }

  /** Cursors and counters: the cursor is the number of heartbeats modulo the
      depth, and the read index is the slot of the latest heartbeat. */
  ghost predicate Cursors(n: Node) {
    && WellFormed(n)
    && n.ld.counter == |n.produced|
    && n.ld.bufferIndex <= n.ld.counter
    && n.ld.valid == (n.ld.counter > 0)
    && n.ld.bufferIndex == n.ld.counter % n.ld.bufferDepth
    && n.ld.readIndex == (if n.ld.counter == 0 then 0 else (n.ld.counter - 1) % n.ld.bufferDepth)
  }

  /** Local ids count the node's heartbeats, and the first heartbeat carries no deltas. */
  ghost predicate IdsAndBootstrap(n: Node) {
    && (forall j :: 0 <= j < |n.produced| ==> n.produced[j].id == j)
    && (n.produced != [] ==> forall q :: Amount(n.produced[0], q) == 0)
  }

  ghost predicate TotalsMatch(n: Node) {
    forall q :: Total(n.ld, q) == Sum(n.produced, q)
  }

  ghost predicate WindowsMatch(n: Node) {
    forall q :: WindowTotal(n.ld, q) == Sum(Recent(n.produced, WindowLength(n)), q)
  }

  /** The text log holds every heartbeat of the completed passes over the buffer. */
  ghost predicate SinkMatches(n: Node)
    requires n.ld.bufferIndex <= n.ld.counter <= |n.produced|
  {
    n.ld.sink.Sink? ==> n.ld.sink.written == n.produced[..n.ld.counter - n.ld.bufferIndex]
  }

  /** Everything the node keeps about the heartbeats it registered. */
  ghost predicate Bookkeeping(n: Node) {
    && Cursors(n)
    && LogMatches(n.ld.log, n.produced, n.ld.bufferIndex)
    && IdsAndBootstrap(n)
    && TotalsMatch(n)
    && WindowsMatch(n)
    && SinkMatches(n)
  }

  /** The baseline the next deltas are taken against: once the node has registered
      a heartbeat, its last timestamp is that of its latest record. */
  ghost predicate Baseline(n: Node) {
    n.ld.valid ==> n.produced != [] && n.ld.td.lastTimestamp == n.produced[|n.produced| - 1].timestamp
  }

  ghost predicate Inv(n: Node) {
    Bookkeeping(n) && Baseline(n)
  }

  /** The parts of the bookkeeping that describe the ring buffer. */
  lemma Layout(n: Node)
    requires Bookkeeping(n)
    ensures n.ld.bufferIndex < |n.ld.log| == n.ld.bufferDepth
    ensures n.ld.bufferIndex <= |n.produced| == n.ld.counter
    ensures LogMatches(n.ld.log, n.produced, n.ld.bufferIndex)
  {
  }

  /** The slot evicted by the next heartbeat holds the heartbeat that leaves the
      window, or zeros while fewer heartbeats than the window have been registered. */
  lemma EvictedSlot(n: Node)
    requires Bookkeeping(n)
    ensures
      var w := EffectiveWindow(n.windowSize, n.ld.bufferDepth);
      n.ld.log[EvictIndex(n.ld.bufferIndex, n.windowSize, n.ld.bufferDepth)] ==
        if |n.produced| >= w then n.produced[|n.produced| - w] else EmptyRecord
  {
    var w := EffectiveWindow(n.windowSize, n.ld.bufferDepth);
    var bi, d, k := n.ld.bufferIndex, n.ld.bufferDepth, |n.produced|;
    var e := EvictIndex(bi, n.windowSize, d);
    var base := k - bi;
    if w > bi {
      assert e == d + bi - w;
      assert bi <= e;
    } else {
      assert e == bi - w;
      assert n.ld.log[e] == n.produced[base + e];
    }
  }

  /** The record a heartbeat writes carries exactly its deltas. */
  lemma RecordAmounts(ld: LocalData, id: nat, sharedId: nat, userTag: nat, time: int, d: Delta, q: Quantity)
    ensures Amount(MakeRecord(ld, id, sharedId, userTag, time, d), q) == DeltaAmount(d, q)
  {
  }

  /** The pieces of one registration, named. */
  lemma StepParts(n: Node, sd: SharedData, userTag: nat, work: nat, accuracy: int,
                  time: int, energy: int)
    returns (d: Delta, ld2: LocalData, rec: Record, ld3: LocalData)
    requires WellFormed(n)
    ensures d == Deltas(n.ld, work, accuracy, time, energy)
    ensures ld2 == SetWindowValues(AddTotals(n.ld, d), n.windowSize, d)
    ensures rec == MakeRecord(ld2, n.ld.counter, sd.counter, userTag, time, d)
    ensures ld3 == WriteRecord(ld2, rec, time, energy)
    ensures ProcessHeartbeat(n, sd, userTag, work, accuracy, time, energy).node ==
              n.(ld := WrapCursor(ld3), produced := n.produced + [rec])
    ensures !n.ld.valid ==> d == Delta(0, 0, 0, 0)
    ensures forall q :: Total(WrapCursor(ld3), q) == Total(n.ld, q) + (if n.ld.valid then DeltaAmount(d, q) else 0)
    ensures forall q :: WindowTotal(WrapCursor(ld3), q) ==
              WindowTotal(n.ld, q) + DeltaAmount(d, q)
              - Amount(n.ld.log[EvictIndex(n.ld.bufferIndex, n.windowSize, n.ld.bufferDepth)], q)
    ensures forall q :: Amount(rec, q) == DeltaAmount(d, q)
    ensures forall q :: Total(WrapCursor(ld3), q) == Total(ld2, q)
    ensures forall q :: WindowTotal(WrapCursor(ld3), q) == WindowTotal(ld2, q)
  {
    d := Deltas(n.ld, work, accuracy, time, energy);
    ld2 := SetWindowValues(AddTotals(n.ld, d), n.windowSize, d);
    rec := MakeRecord(ld2, n.ld.counter, sd.counter, userTag, time, d);
    ld3 := WriteRecord(ld2, rec, time, energy);
    forall q ensures Amount(rec, q) == DeltaAmount(d, q) {
      RecordAmounts(ld2, n.ld.counter, sd.counter, userTag, time, d, q);
    }
  }

  lemma StepTotals(n: Node, sd: SharedData, userTag: nat, work: nat, accuracy: int,
                   time: int, energy: int)
    requires Bookkeeping(n)
    ensures TotalsMatch(ProcessHeartbeat(n, sd, userTag, work, accuracy, time, energy).node)
  {
    var d, ld2, rec, ld3 := StepParts(n, sd, userTag, work, accuracy, time, energy);
    var m := ProcessHeartbeat(n, sd, userTag, work, accuracy, time, energy).node;
    forall q ensures Total(m.ld, q) == Sum(m.produced, q) {
      SumAppend(n.produced, rec, q);
    }
  }

  /** Adding a record and evicting the slot that leaves the window keeps the
      window totals equal to the sums over the recent records. */
  lemma WindowSlides(n: Node, m: Node, rec: Record, evicted: Record)
    requires WellFormed(n) && WindowsMatch(n)
    requires evicted == if |n.produced| >= EffectiveWindow(n.windowSize, n.ld.bufferDepth)
                        then n.produced[|n.produced| - EffectiveWindow(n.windowSize, n.ld.bufferDepth)]
                        else EmptyRecord
    requires m.windowSize == n.windowSize && m.ld.bufferDepth == n.ld.bufferDepth
    requires m.produced == n.produced + [rec]
    requires forall q :: WindowTotal(m.ld, q) == WindowTotal(n.ld, q) + Amount(rec, q) - Amount(evicted, q)
    ensures WindowsMatch(m)
  {
    var w := EffectiveWindow(n.windowSize, n.ld.bufferDepth);
    forall q ensures WindowTotal(m.ld, q) == Sum(Recent(m.produced, WindowLength(m)), q) {
      SlideWindow(n.produced, rec, w, q);
      EmptyAmount(q);
    }
  }

  lemma StepWindows(n: Node, sd: SharedData, userTag: nat, work: nat, accuracy: int,
                    time: int, energy: int)
    requires Bookkeeping(n)
    ensures WindowsMatch(ProcessHeartbeat(n, sd, userTag, work, accuracy, time, energy).node)
  {
    var d, ld2, rec, ld3 := StepParts(n, sd, userTag, work, accuracy, time, energy);
    EvictedSlot(n);
    WindowSlides(n, n.(ld := WrapCursor(ld3), produced := n.produced + [rec]), rec,
                 n.ld.log[EvictIndex(n.ld.bufferIndex, n.windowSize, n.ld.bufferDepth)]);
  }

  lemma StepIds(n: Node, sd: SharedData, userTag: nat, work: nat, accuracy: int,
                time: int, energy: int)
    requires Bookkeeping(n)
    ensures IdsAndBootstrap(ProcessHeartbeat(n, sd, userTag, work, accuracy, time, energy).node)
  {
    var d, ld2, rec, ld3 := StepParts(n, sd, userTag, work, accuracy, time, energy);
  }

  lemma StepCursors(n: Node, sd: SharedData, userTag: nat, work: nat, accuracy: int,
                    time: int, energy: int)
    requires Bookkeeping(n)
    ensures Cursors(ProcessHeartbeat(n, sd, userTag, work, accuracy, time, energy).node)
  {
    var d, ld2, rec, ld3 := StepParts(n, sd, userTag, work, accuracy, time, energy);
    ModNext(n.ld.counter, n.ld.bufferDepth);
  }

  /** Writing the next heartbeat at the cursor keeps the slot layout, with the
      cursor wrapping to 0 when it reaches the end of the log. */
  lemma LogAfterWrite(log: seq<Record>, p: seq<Record>, bi: nat, rec: Record)
    requires bi < |log| && bi <= |p| && LogMatches(log, p, bi)
    ensures LogMatches(log[bi := rec], p + [rec], if bi + 1 == |log| then 0 else bi + 1)
    ensures bi + 1 == |log| ==> log[bi := rec] == (p + [rec])[|p| + 1 - |log|..]
  {
    var p', log' := p + [rec], log[bi := rec];
    var base := |p| - bi;
    if bi + 1 < |log| {
      assert forall s :: 0 <= s < bi + 1 ==> log'[s] == p'[base + s];
    } else {
      assert forall s :: 0 <= s < |log| ==> log'[s] == p'[base + s];
    }
  }

  /** The text log after one write at the cursor: a completed pass appends the
      whole buffer, which holds exactly the pass's heartbeats. */
  lemma SinkStep(n: Node, m: Node)
    requires WellFormed(n) && WellFormed(m)
    requires n.ld.counter == |n.produced| && n.ld.bufferIndex <= n.ld.counter && SinkMatches(n)
    requires m.ld.bufferDepth == n.ld.bufferDepth && m.ld.counter == n.ld.counter + 1
    requires m.produced == n.produced + [m.ld.log[n.ld.bufferIndex]]
    requires n.ld.bufferIndex + 1 == n.ld.bufferDepth ==>
               m.ld.log == m.produced[|m.produced| - m.ld.bufferDepth..]
    requires m.ld.bufferIndex ==
               if n.ld.bufferIndex + 1 == n.ld.bufferDepth then 0 else n.ld.bufferIndex + 1
    requires m.ld.sink ==
               if n.ld.bufferIndex + 1 == n.ld.bufferDepth then Appended(n.ld.sink, m.ld.log)
               else n.ld.sink
    ensures m.ld.bufferIndex <= m.ld.counter <= |m.produced|
    ensures SinkMatches(m)
  {
    var p, p' := n.produced, m.produced;
    var base := |p| - n.ld.bufferIndex;
    assert p'[..base] == p[..base];
    if n.ld.sink.Sink? {
      if n.ld.bufferIndex + 1 == n.ld.bufferDepth {
        assert m.ld.log == p'[base..];
        assert p'[..|p'|] == p'[..base] + p'[base..];
        assert m.ld.sink.written == p'[..m.ld.counter - m.ld.bufferIndex];
      } else {
        assert m.ld.sink.written == p'[..m.ld.counter - m.ld.bufferIndex];
      }
    }
  }

  lemma StepLog(n: Node, sd: SharedData, userTag: nat, work: nat, accuracy: int,
                time: int, energy: int)
    requires Bookkeeping(n)
    ensures var m := ProcessHeartbeat(n, sd, userTag, work, accuracy, time, energy).node;
            && m.ld.bufferIndex <= |m.produced|
            && LogMatches(m.ld.log, m.produced, m.ld.bufferIndex)
            && (m.ld.bufferIndex <= m.ld.counter <= |m.produced| ==> SinkMatches(m))
  {
    var m := ProcessHeartbeat(n, sd, userTag, work, accuracy, time, energy).node;
    Layout(n);
    LogAfterWrite(n.ld.log, n.produced, n.ld.bufferIndex, m.ld.log[n.ld.bufferIndex]);
    SinkStep(n, m);
  }

  /** Registering a heartbeat keeps every part of the bookkeeping and sets the
      baseline to the new record, whatever the baseline was before. */
  lemma StepPreservesInv(n: Node, sd: SharedData, userTag: nat, work: nat, accuracy: int,
                         time: int, energy: int)
    requires Bookkeeping(n)
    ensures Inv(ProcessHeartbeat(n, sd, userTag, work, accuracy, time, energy).node)
  {
    StepCursors(n, sd, userTag, work, accuracy, time, energy);
    StepLog(n, sd, userTag, work, accuracy, time, energy);
    StepIds(n, sd, userTag, work, accuracy, time, energy);
    StepTotals(n, sd, userTag, work, accuracy, time, energy);
    StepWindows(n, sd, userTag, work, accuracy, time, energy);
  }
}
