/**
 * Construction and teardown of a node (heartbeat_acc_pow_init, heartbeat_finish):
 * the depth check, the failure paths and their clean-up, and the final flush.
 */
module Lifecycle {
  import opened Wrappers
  import opened Types
  import opened Aggregates
  import opened Engine
  import opened NodeInvariant
  import opened Energy

  /** Where a node's text log goes: nowhere (no log name), or to a file whose
      opening succeeds or fails. */
  datatype LogTarget = NoLog | LogFile(opens: bool)

  /** Which of the construction's allocations succeed: the node, the shared data
      (root only) and the record buffer. */
  datatype Alloc = Alloc(node: bool, shared: bool, log: bool)

  datatype InitError = DepthBelowWindow | OutOfMemory | EnergyStartFailed | LogOpenFailed

  datatype Created = Created(node: Node, sd: SharedData)

  /** The index of the first backend the start-up loop rejects, or the number of
      backends when it rejects none; 0 without a backend array. */
  function FirstUnstartable(impls: Option<seq<Backend>>): (i: nat)
    ensures impls.None? ==> i == 0
    ensures impls.Some? ==> i <= |impls.value|
    ensures impls.Some? ==> forall j :: 0 <= j < i ==> Startable(impls.value[j])
    ensures impls.Some? && i < |impls.value| ==> !Startable(impls.value[i])
  {
    if impls.None? then 0 else FirstUnstartableFrom(impls.value, 0)
  }

  function FirstUnstartableFrom(bs: seq<Backend>, from: nat): (i: nat)
    requires from <= |bs|
    requires forall j :: 0 <= j < from ==> Startable(bs[j])
    ensures from <= i <= |bs|
    ensures forall j :: 0 <= j < i ==> Startable(bs[j])
    ensures i < |bs| ==> !Startable(bs[i])
    decreases |bs| - from
  {
    if from == |bs| || !Startable(bs[from]) then from else FirstUnstartableFrom(bs, from + 1)
  }

  /** The first unstartable backend is the one a scan finds. */
  lemma FirstUnstartableIs(impls: Option<seq<Backend>>, i: nat)
    requires impls.Some? && i <= |impls.value|
    requires forall j :: 0 <= j < i ==> Startable(impls.value[j])
    requires i < |impls.value| ==> !Startable(impls.value[i])
    ensures FirstUnstartable(impls) == i
  {
  }

  /** init_shared_data: fresh shared data over the started backends, or the
      start-up failure with the backends it finished again. */
  method InitSharedData(impls: Option<seq<Backend>>) returns (r: Result<SharedData, InitError>, finished: seq<nat>)
    ensures r.Success? <==> FirstUnstartable(impls) == (if impls.None? then 0 else |impls.value|)
    ensures r.Success? ==>
      && finished == []
      && r.value.counter == 0 && !r.value.valid
      && r.value.er == (if impls.None? then EnergyResource(0, None) else EnergyResource(|impls.value|, impls))
    ensures r.Failure? ==>
      r.error == EnergyStartFailed && finished == FinishEnergyReadings(FirstUnstartable(impls), impls)
  {
    var started := InitEnergyResource(impls);
    if started.StartFailed? {
      FirstUnstartableIs(impls, started.failedAt);
      return Failure(EnergyStartFailed), started.finished;
    }
    if impls.Some? {
      FirstUnstartableIs(impls, |impls.value|);
    }
    return Success(SharedData(false, 0, 0, started.er)), [];
  }

  /** init_local_data on success: zeroed totals, a zero-filled log of `bufferDepth`
      slots, both cursors at slot 0, and an empty text log if one was opened. */
  function FreshLocalData(bufferDepth: nat, hasLog: bool): LocalData {
    LocalData(false, 0, TimeData(-1, 0, 0), WorkData(0, 0), AccuracyData(0, 0), EnergyData(0, 0, 0),
              if hasLog then Sink([]) else NoSink,
              seq(bufferDepth, _ => EmptyRecord), bufferDepth, 0, 0)
  }

  /** A node that has registered nothing: it satisfies the invariant. */
  function FreshNode(hasParent: bool, windowSize: nat, bufferDepth: nat, hasLog: bool): (n: Node)
    requires 1 <= bufferDepth && windowSize <= bufferDepth
    ensures Inv(n)
    ensures n.produced == [] && n.hasParent == hasParent && n.windowSize == windowSize
    ensures n.ld.bufferDepth == bufferDepth && n.ld.sink == (if hasLog then Sink([]) else NoSink)
  {
    var n := Node(hasParent, windowSize, FreshLocalData(bufferDepth, hasLog), []);
    assert forall q :: Total(n.ld, q) == 0;
    assert forall q :: WindowTotal(n.ld, q) == 0;
    assert Recent(n.produced, WindowLength(n)) == [];
    n
  }

  /** heartbeat_acc_pow_init. A child (`parent` given) uses its parent's shared
      data; a root creates shared data and starts the energy backends. Any failure
      returns no node and releases what the attempt acquired: `finished` lists the
      backends whose teardown ran, in call order. The shared data's last timestamp
      is left unset by the library; the model starts it at 0, and nothing reads it
      before the first heartbeat writes it. */
  method HeartbeatInit(parent: Option<SharedData>, windowSize: nat, bufferDepth: nat,
                       log: LogTarget, impls: Option<seq<Backend>>, alloc: Alloc)
    returns (r: Result<Created, InitError>, finished: seq<nat>)
    requires 1 <= bufferDepth || bufferDepth < windowSize
    ensures r == Failure(DepthBelowWindow) <==> bufferDepth < windowSize
    ensures r.Success? <==>
      && windowSize <= bufferDepth
      && alloc.node
      && (parent.None? ==> alloc.shared && FirstUnstartable(impls) == (if impls.None? then 0 else |impls.value|))
      && alloc.log
      && log != LogFile(false)
    ensures r.Success? ==>
      && finished == []
      && Inv(r.value.node)
      && r.value.node.produced == []
      && r.value.node.hasParent == parent.Some?
      && r.value.node.windowSize == windowSize
      && r.value.node.ld.bufferDepth == bufferDepth
      && r.value.node.ld.sink == (if log.LogFile? then Sink([]) else NoSink)
      && (parent.Some? ==> r.value.sd == parent.value)
      && (parent.None? ==> && r.value.sd.counter == 0 && !r.value.sd.valid
                           && r.value.sd.er == (if impls.None? then EnergyResource(0, None)
                                                else EnergyResource(|impls.value|, impls)))
    ensures r.Failure? ==>
      finished == (if parent.None? && windowSize <= bufferDepth && alloc.node && alloc.shared
                   then FinishEnergyReadings(FirstUnstartable(impls), impls)
                   else [])
  {
    finished := [];
    if bufferDepth < windowSize {
      return Failure(DepthBelowWindow), finished;
    }
    if !alloc.node {
      return Failure(OutOfMemory), finished;
    }
    var sd: SharedData;
    if parent.None? {
      if !alloc.shared {
        return Failure(OutOfMemory), finished;
      }
      var shared;
      shared, finished := InitSharedData(impls);
      if shared.Failure? {
        // the start-up loop already finished the backends before the failing one;
        // heartbeat_finish then sees an empty resource and finishes nothing more
        return Failure(shared.error), finished;
      }
      sd := shared.value;
    } else {
      sd := parent.value;
    }
    if !alloc.log || log == LogFile(false) {
      // heartbeat_finish on the half-built node: a root finishes every backend
      if parent.None? {
        finished := FinishEnergyReadings(sd.er.count, sd.er.impls);
      }
      return Failure(if !alloc.log then OutOfMemory else LogOpenFailed), finished;
    }
    var node := FreshNode(parent.Some?, windowSize, bufferDepth, log.LogFile?);
    return Success(Created(node, sd)), finished;
  }

  /** What heartbeat_finish leaves behind: the full content of the node's text log
      (if it has one) and the backends whose teardown ran, in call order. */
  datatype Teardown = Teardown(written: Option<seq<Record>>, finished: seq<nat>)

  /** heartbeat_finish: flushes the records not yet written and closes the text log;
      only a root tears down the energy backends. */
  function HeartbeatFinish(n: Node, sd: SharedData): (t: Teardown)
    requires n.ld.bufferIndex <= |n.ld.log|
    requires sd.er.impls.Some? ==> sd.er.count <= |sd.er.impls.value|
    ensures n.hasParent ==> t.finished == []
    ensures !n.hasParent ==>
      forall j :: j in t.finished <==> sd.er.impls.Some? && 0 <= j < sd.er.count && sd.er.impls.value[j].hasFinish
    ensures t.written.Some? <==> n.ld.sink.Sink?
  {
    var flushed := FlushBuffer(n.ld);
    Teardown(if flushed.sink.Sink? then Some(flushed.sink.written) else None,
             if n.hasParent then [] else FinishEnergyReadings(sd.er.count, sd.er.impls))
  }

  /** Every record a node registered reaches its text log exactly once, in
      registration order, by the time the node is torn down. */
  lemma FinishWritesEverything(n: Node, sd: SharedData)
    requires Inv(n) && n.ld.sink.Sink?
    requires sd.er.impls.Some? ==> sd.er.count <= |sd.er.impls.value|
    ensures HeartbeatFinish(n, sd).written == Some(n.produced)
  {
    var base := n.ld.counter - n.ld.bufferIndex;
    assert n.ld.log[..n.ld.bufferIndex] == n.produced[base..];
    assert n.produced == n.produced[..base] + n.produced[base..];
  }
}
