/**
 * Data layout of a heartbeat node (inc/heartbeat-tree-accuracy-power-types.h).
 *
 * Machine integers become unbounded `int`/`nat`; `double` accuracy and energy
 * become `int`, since the window and total bookkeeping only adds and subtracts them.
 */
module Types {
  import opened Wrappers

  /** A derived metric as stored in a record. `Zero` is the literal 0 the engine
      writes when a record's latency is 0 (and the value of a zero-filled slot);
      `Ratio(amount, nanos)` is `amount` per `nanos` nanoseconds, that is
      amount / (nanos / 10^9) per second. The floating-point evaluation of the
      quotient (including inf/NaN when `nanos` is 0) is not modelled. */
  datatype Rate = Zero | Ratio(amount: int, nanos: int)

  /** One heartbeat as stored in the circular log (`_heartbeat_record_t`). */
  datatype Record = Record(
    id: nat,
    sharedId: nat,
    userTag: nat,
    timestamp: int,
    work: nat,
    latency: int,
    globalPerf: Rate,
    windowPerf: Rate,
    instantPerf: Rate,
    accuracy: int,
    globalAcc: Rate,
    windowAcc: Rate,
    instantAcc: Rate,
    energy: int,
    globalPwr: Rate,
    windowPwr: Rate,
    instantPwr: Rate)

  /** The content of a slot the node has not written yet: the log is zero-filled at creation. */
  const EmptyRecord: Record :=
    Record(0, 0, 0, 0, 0, 0, Zero, Zero, Zero, 0, Zero, Zero, Zero, 0, Zero, Zero, Zero)

  datatype TimeData = TimeData(lastTimestamp: int, totalTime: int, windowTime: int)

  datatype WorkData = WorkData(totalWork: int, windowWork: int)

  datatype AccuracyData = AccuracyData(totalAccuracy: int, windowAccuracy: int)

  datatype EnergyData = EnergyData(lastEnergy: int, totalEnergy: int, windowEnergy: int)

  /** An energy backend (`em_impl`), reduced to which of its operations are present
      and how its setup behaves. What `fread` returns is supplied per reading. */
  datatype Backend = Backend(
    hasRead: bool,
    hasSource: bool,
    hasInit: bool,
    initFails: bool,
    hasFinish: bool)

  /** The backends a tree reads energy from; `impls == None` is a NULL array. */
  datatype EnergyResource = EnergyResource(count: nat, impls: Option<seq<Backend>>)

  /** State shared by every node of one tree (`_heartbeat_shared_data`): the
      counter handing out shared ids, the time of the latest event on the tree and
      the energy backends. The shared total time is never initialised by the
      library and is not modelled. */
  datatype SharedData = SharedData(
    valid: bool,
    counter: nat,
    lastTimestamp: int,
    er: EnergyResource)

  /** The node's text log: absent, or open with everything flushed to it so far. */
  datatype Sink = NoSink | Sink(written: seq<Record>)

  /** Per-node state (`_heartbeat_local_data`). */
  datatype LocalData = LocalData(
    valid: bool,
    counter: nat,
    td: TimeData,
    wd: WorkData,
    ad: AccuracyData,
    ed: EnergyData,
    sink: Sink,
    log: seq<Record>,
    bufferDepth: nat,
    bufferIndex: nat,
    readIndex: nat)

  /** A heartbeat node (`_heartbeat_t`). Its shared data is kept apart (see module Tree).
      `produced` is not part of the C structure: it is the model's record of every
      heartbeat the node has ever registered, oldest first, against which the
      ring buffer, the totals and the history query are specified. */
  datatype Node = Node(
    hasParent: bool,
    windowSize: nat,
    ld: LocalData,
    produced: seq<Record>)

  /** The shape every live node has: a log of `bufferDepth >= 1` slots, the cursors
      inside it and a window that fits in it. */
  predicate WellFormed(n: Node) {
    && 1 <= n.ld.bufferDepth
    && |n.ld.log| == n.ld.bufferDepth
    && n.ld.bufferIndex < n.ld.bufferDepth
    && n.ld.readIndex < n.ld.bufferDepth
    && n.windowSize <= n.ld.bufferDepth
  }
}
