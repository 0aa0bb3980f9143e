/**
 * Queries of src/heartbeat-tree-util.c: the history of the last `n` records
 * rebuilt from the ring buffer, the current record, and the accessors for the
 * running totals and the latest record's metrics.
 */
module History {
  import opened Wrappers
  import opened Types
  import opened Aggregates
  import opened Engine
  import opened NodeInvariant
  import opened Registration
  import opened Lifecycle

  /** hb_get_history as written: up to `n` records copied out of the ring buffer;
      the count it returns is the length of the result. */
  function GetHistory(node: Node, n: nat): (r: seq<Record>)
    requires WellFormed(node)
    ensures n == 0 ==> r == []
    ensures |r| <= node.ld.bufferDepth
  {
    Slices(node.ld.log, node.ld.bufferIndex, node.ld.counter, n)
  }

  /** The copy hb_get_history makes out of a log of `|log|` slots with the cursor
      at `bi` after `counter` heartbeats. */
  function Slices(log: seq<Record>, bi: nat, counter: nat, n: nat): (r: seq<Record>)
    requires bi < |log|
    ensures n == 0 ==> r == []
    ensures |r| <= |log|
  {
    var depth := |log|;
    if n == 0 then []
    // more records requested than ever registered
    else if n > counter then log[..bi]
    // the records requested lie below the cursor
    else if bi >= n then log[bi - n..bi]
    // the whole buffer, oldest retained record first
    else if n >= depth then log[bi..] + log[..bi]
    // bi < n < depth: the tail of the previous pass, then the current pass
    else log[depth + bi - n..] + log[..bi]
  }

  /** The slots below the cursor hold the current pass over the buffer. */
  lemma CurrentPass(log: seq<Record>, p: seq<Record>, bi: nat, n: nat)
    requires bi <= |log| && bi <= |p| && LogMatches(log, p, bi) && n <= bi
    ensures log[bi - n..bi] == p[|p| - n..]
  {
    var base, r, t := |p| - bi, log[bi - n..bi], p[|p| - n..];
    forall i | 0 <= i < n
      ensures r[i] == t[i]
    {
      assert r[i] == log[bi - n + i];
    }
  }

  /** After a wrap, the slots from the cursor on followed by the slots below it
      hold the last `|log|` records in order. */
  lemma WholeBuffer(log: seq<Record>, p: seq<Record>, bi: nat)
    requires bi < |log| && bi <= |p| && LogMatches(log, p, bi) && bi < |p|
    ensures log[bi..] + log[..bi] == p[|p| - |log|..]
  {
    var r, k, depth := log[bi..] + log[..bi], |p|, |log|;
    assert k - bi >= depth;
    assert forall i :: 0 <= i < depth - bi ==> r[i] == log[bi + i] == p[k - depth + i];
    assert forall i :: depth - bi <= i < depth ==> r[i] == log[i - (depth - bi)] == p[k - depth + i];
  }

  /** After a wrap, the last `n - bi` slots followed by the slots below the cursor
      hold the last `n` records in order. */
  lemma AcrossWrap(log: seq<Record>, p: seq<Record>, bi: nat, n: nat)
    requires bi < n < |log| && n <= |p| && LogMatches(log, p, bi)
    ensures log[|log| + bi - n..] + log[..bi] == p[|p| - n..]
  {
    var r, k, depth := log[|log| + bi - n..] + log[..bi], |p|, |log|;
    assert k - bi >= depth;
    assert forall i :: 0 <= i < n - bi ==> r[i] == log[depth + bi - n + i] == p[k - n + i];
    assert forall i :: n - bi <= i < n ==> r[i] == log[i - (n - bi)] == p[k - n + i];
  }

  /** What hb_get_history returns, in terms of the node's history. When at most as
      many records are requested as were registered, it returns the last
      min(n, depth) of them in registration order, each exactly once. When more are
      requested it returns only the records of the current pass over the buffer:
      everything before the buffer first fills, nothing at all right after a wrap. */
  lemma HistoryIsRecent(node: Node, n: nat)
    requires Inv(node)
    ensures var r := GetHistory(node, n);
            var k := |node.produced|;
            && |r| <= Min(n, node.ld.bufferDepth)
            && (n <= k ==> |r| == Min(n, node.ld.bufferDepth) && r == Recent(node.produced, |r|))
            && (n > k ==> r == Recent(node.produced, node.ld.bufferIndex))
            && (n > k && k < node.ld.bufferDepth ==> r == node.produced)
  {
    Layout(node);
    SlicesAreRecent(node.ld.log, node.produced, node.ld.bufferIndex, n);
  }

  /** The five branches of hb_get_history over a log laid out as LogMatches says. */
  lemma SlicesAreRecent(log: seq<Record>, p: seq<Record>, bi: nat, n: nat)
    requires bi < |log| && bi <= |p| && LogMatches(log, p, bi)
    ensures var k, depth := |p|, |log|;
            var r := Slices(log, bi, k, n);
            && |r| <= Min(n, depth)
            && (n <= k ==> |r| == Min(n, depth) && r == Recent(p, |r|))
            && (n > k ==> r == Recent(p, bi))
            && (n > k && k < depth ==> r == p)
  {
    var k, depth := |p|, |log|;
    if n == 0 {
    } else if n > k {
      CurrentPass(log, p, bi, bi);
      assert log[..bi] == log[bi - bi..bi];
    } else if bi >= n {
      CurrentPass(log, p, bi, n);
    } else if n >= depth {
      WholeBuffer(log, p, bi);
    } else {
      AcrossWrap(log, p, bi, n);
    }
  }

  /** hb_get_history with the request first clamped to the number of records
      registered, so a request beyond that returns everything still retained. */
  function GetHistoryClamped(node: Node, n: nat): (r: seq<Record>)
    requires WellFormed(node)
  {
    GetHistory(node, Min(n, node.ld.counter))
  }

  /** The clamped query returns the last min(n, registered, depth) records, oldest
      first, for every request size. */
  lemma ClampedHistoryIsRecent(node: Node, n: nat)
    requires Inv(node)
    ensures var r := GetHistoryClamped(node, n);
            && |r| == Min(Min(n, |node.produced|), node.ld.bufferDepth)
            && r == Recent(node.produced, |r|)
  {
    HistoryIsRecent(node, Min(n, node.ld.counter));
  }

  /** With as many records requested as registered plus one, right after the
      buffer has filled for the first time, hb_get_history returns nothing,
      although the whole buffer holds records and a request one smaller returns
      all of them. */
  lemma HistoryEmptyAfterWrap(node: Node)
    requires Inv(node) && |node.produced| == node.ld.bufferDepth
    ensures GetHistory(node, |node.produced| + 1) == []
    ensures GetHistory(node, |node.produced|) == node.produced
    ensures GetHistoryClamped(node, |node.produced| + 1) == node.produced
  {
    ModUnique(node.ld.counter, node.ld.bufferDepth, 1, 0);
    HistoryIsRecent(node, |node.produced|);
    ClampedHistoryIsRecent(node, |node.produced| + 1);
  }

  /** A reachable node where the two differ: any node of depth 2, freshly created
      with any window, after any two heartbeats. A request for 3 records gets
      none back, although both are still buffered. */
  lemma HistoryEmptyAfterWrapExample(w: nat, sd0: SharedData, t1: int, t2: int, e1: int, e2: int)
    requires w <= 2
    ensures var n0 := FreshNode(false, w, 2, false);
            var b1 := ProcessHeartbeat(n0, sd0, 0, 0, 0, t1, e1);
            var b2 := ProcessHeartbeat(b1.node, b1.sd, 1, 10, 0, t2, e2);
            && |b2.node.produced| == 2
            && GetHistory(b2.node, 3) == []
            && GetHistoryClamped(b2.node, 3) == b2.node.produced
  {
    var n0 := FreshNode(false, w, 2, false);
    var b1 := ProcessHeartbeat(n0, sd0, 0, 0, 0, t1, e1);
    StepPreservesInv(n0, sd0, 0, 0, 0, t1, e1);
    var b2 := ProcessHeartbeat(b1.node, b1.sd, 1, 10, 0, t2, e2);
    StepPreservesInv(b1.node, b1.sd, 1, 10, 0, t2, e2);
    HistoryEmptyAfterWrap(b2.node);
  }

  /** The latest record sits at the read index; before any heartbeat the read
      index is slot 0, still zero-filled. */
  lemma ReadIndexIsLatest(node: Node)
    requires Inv(node)
    ensures node.ld.log[node.ld.readIndex] ==
              if node.produced == [] then EmptyRecord else Latest(node)
  {
    var k, depth := node.ld.counter, node.ld.bufferDepth;
    if k > 0 {
      ModNext(k - 1, depth);
    }
  }

  /** hb_get_current: the history of one record. The clamped and the as-written
      query agree on a request of one. */
  function GetCurrent(node: Node): (r: Option<Record>)
    requires Inv(node)
    ensures r == if node.produced == [] then None else Some(Latest(node))
    ensures GetHistoryClamped(node, 1) == GetHistory(node, 1)
  {
    HistoryIsRecent(node, 1);
    ClampedHistoryIsRecent(node, 1);
    var h := GetHistory(node, 1);
    if h == [] then None else Some(h[0])
  }

  // Running totals (hb_get_global_time and the rest): the fields as they are.

  function GlobalTime(node: Node): (t: int)
    requires Inv(node)
    ensures t == Sum(node.produced, Time)
  {
    assert TotalsMatch(node) && Total(node.ld, Time) == node.ld.td.totalTime;
    node.ld.td.totalTime
  }

  function WindowTime(node: Node): (t: int)
    requires Inv(node)
    ensures t == Sum(Recent(node.produced, WindowLength(node)), Time)
  {
    assert WindowsMatch(node) && WindowTotal(node.ld, Time) == node.ld.td.windowTime;
    node.ld.td.windowTime
  }

  function GlobalWork(node: Node): (w: int)
    requires Inv(node)
    ensures w == Sum(node.produced, Work)
  {
    assert TotalsMatch(node) && Total(node.ld, Work) == node.ld.wd.totalWork;
    node.ld.wd.totalWork
  }

  function WindowWork(node: Node): (w: int)
    requires Inv(node)
    ensures w == Sum(Recent(node.produced, WindowLength(node)), Work)
  {
    assert WindowsMatch(node) && WindowTotal(node.ld, Work) == node.ld.wd.windowWork;
    node.ld.wd.windowWork
  }

  function GlobalEnergy(node: Node): (e: int)
    requires Inv(node)
    ensures e == Sum(node.produced, Energy)
  {
    assert TotalsMatch(node) && Total(node.ld, Energy) == node.ld.ed.totalEnergy;
    node.ld.ed.totalEnergy
  }

  function WindowEnergy(node: Node): (e: int)
    requires Inv(node)
    ensures e == Sum(Recent(node.produced, WindowLength(node)), Energy)
  {
    assert WindowsMatch(node) && WindowTotal(node.ld, Energy) == node.ld.ed.windowEnergy;
    node.ld.ed.windowEnergy
  }

  // Metrics of the record at the read index (hb_get_global_rate and the rest).

  /** The record the metric accessors read. */
  function ReadRecord(node: Node): (r: Record)
    requires Inv(node)
    ensures r == if node.produced == [] then EmptyRecord else Latest(node)
  {
    ReadIndexIsLatest(node);
    node.ld.log[node.ld.readIndex]
  }

  function GlobalRate(node: Node): (r: Rate)
    requires Inv(node)
    ensures r == if node.produced == [] then Zero else Latest(node).globalPerf
  {
    ReadRecord(node).globalPerf
  }

  function WindowRate(node: Node): (r: Rate)
    requires Inv(node)
    ensures r == if node.produced == [] then Zero else Latest(node).windowPerf
  {
    ReadRecord(node).windowPerf
  }

  function InstantRate(node: Node): (r: Rate)
    requires Inv(node)
    ensures r == if node.produced == [] then Zero else Latest(node).instantPerf
  {
    ReadRecord(node).instantPerf
  }

  function GlobalPower(node: Node): (r: Rate)
    requires Inv(node)
    ensures r == if node.produced == [] then Zero else Latest(node).globalPwr
  {
    ReadRecord(node).globalPwr
  }

  function WindowPower(node: Node): (r: Rate)
    requires Inv(node)
    ensures r == if node.produced == [] then Zero else Latest(node).windowPwr
  {
    ReadRecord(node).windowPwr
  }

  function InstantPower(node: Node): (r: Rate)
    requires Inv(node)
    ensures r == if node.produced == [] then Zero else Latest(node).instantPwr
  {
    ReadRecord(node).instantPwr
  }
}
