# Heartbeats: the sliding-window aggregation engine

A Dafny model of the core of the heartbeats library (accuracy-and-power flavour,
`HEARTBEAT_MODE_ACC_POW`). An application registers *heartbeats* on a node of a
heartbeat tree. Each heartbeat records:

- how much time has passed, how much work was done, with what accuracy, and how much energy was used;
- lifetime totals;
- totals over a sliding window of the last `window_size` heartbeats;
- throughput, accuracy rate and power metrics.

Every node keeps its records in a zero-filled ring buffer of `buffer_depth` slots. It flushes the buffer to an optional text log each time the write cursor wraps. All nodes of a tree share one *shared data*: a counter that hands out tree-wide sequence ids, and the energy backends.

The model is a functional state machine:

- `Types`: the C structures as immutable datatypes (`Record`, `LocalData`, `SharedData`, `Node`).
  - Every `Node` also carries `produced`, the sequence of every record it has ever written. The C has no such field; the model relates the ring buffer, the totals, the window totals, the text log and the history query to it.
- `Engine`: one registration (`process_heartbeat`, `set_window_values`, the flush on wrap) and the baseline handoff of `heartbeat_acc`.
- `NodeInvariant`: what a node's state means in terms of `produced`, proved to be preserved by every registration.
- `Registration`: properties of single registrations (bootstrap event, deltas, the metric policy, the handoff).
- `Energy`: the start-up of the energy backends with rollback, their teardown, and the summed reading.
- `Lifecycle`: construction (`heartbeat_acc_pow_init`) with all its failure paths, and `heartbeat_finish`.
- `History`: `hb_get_history`, `hb_get_current` and the accessors of `src/heartbeat-tree-util.c`.
- `Tree`: a root and its children sharing one shared data; shared ids number the tree's heartbeats.

Metrics are floating-point quotients in the C. Here they are a symbolic `Rate`:
- `Ratio(amount, nanoseconds)` when the latency is non-zero;
- `Zero` when the latency is zero.

Accuracy and energy are exact integers, not `double`. Only their sums and differences matter to the invariants, and the rounding of the C's floating-point sums is listed under "Left out".

The clock reading and the backends' energy readings are parameters of a heartbeat. Memory allocation and log-file opening are parameters of construction (`Alloc`, `LogTarget`).

## Model

| member | source | states |
|---|---|---|
| Engine.EvictIndex | src/heartbeat-tree-accuracy-power.c:278-285 | the slot set_window_values evicts lies in `[0, buffer_depth)`. It is `(buffer_index - window_size) mod buffer_depth`, and also that value with a window of 0 read as the whole buffer |
| Engine.ProcessHeartbeat | src/heartbeat-tree-accuracy-power.c:294-375 | one registration writes one record at the cursor and changes no other slot. The record's local id is the node's count of earlier heartbeats; its shared id is the tree's count. Both counters go up by one. The read index becomes the written slot. The cursor advances and resets to 0 exactly when it reaches the depth; at that moment the whole buffer, in slot order, is appended to the text log |
| Engine.SetWindowValues | src/heartbeat-tree-accuracy-power.c:273-292 | each window total gains the new delta and loses the amount held in the slot `window_size` places behind the cursor; the lifetime totals, the baseline and everything else stay as they were |
| Engine.FlushBuffer | src/heartbeat-tree-accuracy-power.c:219-251 | with a text log, the slots `[0, buffer_index)` are appended in slot order after everything written before; without one nothing happens; no other part of the node changes |
| Engine.Handoff | src/heartbeat-tree-accuracy-power.c:411-415 | when the previous node has registered a heartbeat, the node's last timestamp and last energy become the previous node's; otherwise they stay; nothing else changes |
| Engine.HeartbeatAcc | src/heartbeat-tree-accuracy-power.c:402-422 | heartbeat_acc appends exactly one record to the node, with the next local and shared ids and the clock reading; both counters go up by one, and the new baseline is this heartbeat's time and energy |
| Aggregates.SlideWindow | src/heartbeat-tree-accuracy-power.c:286-291 | the sum over the last `min(k+1, w)` records is the sum over the last `min(k, w)`, plus the new record, minus the record `w` places back once `k >= w` |
| NodeInvariant.EvictedSlot | src/heartbeat-tree-accuracy-power.c:111-112 | the slot evicted next holds the record leaving the window, or the zero-filled initial record while fewer than `w` heartbeats exist. This is why the zeroed buffer makes the window arithmetic exact |
| NodeInvariant.StepWindows | src/heartbeat-tree-accuracy-power.c:286-291 | after any registration, each window total equals the sum of its field over the last `min(k, w)` records |
| NodeInvariant.WindowSlides | src/heartbeat-tree-accuracy-power.c:288-291 | adding the new deltas and subtracting the evicted record's amounts keeps every window total equal to the sum over the recent records |
| NodeInvariant.StepTotals | src/heartbeat-tree-accuracy-power.c:319-326 | after any registration, each lifetime total equals the sum of its field over all records |
| NodeInvariant.StepCursors | src/heartbeat-tree-accuracy-power.c:330-333 | after any registration, the local counter is the number of records, the cursor is that number mod the depth, and the read index is the slot of the latest record |
| NodeInvariant.StepIds | src/heartbeat-tree-accuracy-power.c:336 | the i-th record of a node carries local id i, and its first record carries no amounts |
| NodeInvariant.LogAfterWrite | src/heartbeat-tree-accuracy-power.c:332-343 | writing at the cursor keeps the slot layout: slots below the cursor hold the current pass and the rest hold the previous pass or zeros. On a wrap the buffer is exactly the last `depth` records |
| NodeInvariant.SinkStep | src/heartbeat-tree-accuracy-power.c:370-374 | a wrap appends the whole buffer to the text log, so the log keeps holding exactly the records of all completed passes in order |
| NodeInvariant.StepLog | src/heartbeat-tree-accuracy-power.c:332-374 | after any registration the slot layout and the text-log contents still hold |
| NodeInvariant.StepPreservesInv | src/heartbeat-tree-accuracy-power.c:273-375 | every registration preserves the node's bookkeeping (cursor, slot layout, ids, totals, windows, text log) and, whatever the baseline was before, leaves the last timestamp equal to the new record's timestamp |
| Registration.FirstHeartbeat | src/heartbeat-tree-accuracy-power.c:313-318 | a node's first heartbeat records latency, work, accuracy and energy as 0 whatever the caller passed, leaves the totals unchanged, and stores every metric as 0 |
| Registration.LaterHeartbeat | src/heartbeat-tree-accuracy-power.c:319-326 | a later heartbeat records the time and energy since the node's last event and the caller's work and accuracy, and adds exactly those to the totals |
| Registration.MetricsOfLatest | src/heartbeat-tree-accuracy-power.c:344-368 | a record with zero latency has all nine metrics 0. Otherwise each global metric is the lifetime sum per lifetime time, each window metric the window sum per window time, and each instant metric the record's own amount per its latency; lifetime and window include the record itself |
| Registration.HandoffKeepsBookkeeping | src/heartbeat-tree-accuracy-power.c:411-415 | the handoff only moves the baseline: the bookkeeping survives it, and so does the whole invariant unless a previous node that has registered a heartbeat hands over its baseline |
| Registration.HeartbeatAccPreservesInv | src/heartbeat-tree-accuracy-power.c:402-422 | heartbeat_acc, with or without a previous node, preserves the node invariant, including the baseline: afterwards the last timestamp is that of the latest record |
| Registration.LatencySinceLast | inc/heartbeat-tree-accuracy-power-types.h:48-50 | a later heartbeat's latency is the time since the latest record of the previous node given to heartbeat_acc, when that node has registered one, and otherwise since this node's own latest record |
| Registration.HandoffBaseline | src/heartbeat-tree-accuracy-power.c:411-415 | when the previous node has registered a heartbeat, latency and energy are measured from its last timestamp and energy instead of the node's own |
| Registration.HandoffIgnoredOnFirst | src/heartbeat-tree-accuracy-power.c:313-318 | on a node's first event the handoff makes no difference at all |
| Energy.FinishEnergyReadings | src/heartbeat-tree-accuracy-power.c:20-35 | teardown of the first `n` backends calls `ffinish` on exactly those that have one, in index order, even when some fail; a NULL array finishes nothing |
| Energy.InitEnergyResource | src/heartbeat-tree-accuracy-power.c:59-91 | start-up succeeds iff every backend has `fread` and `fsource` and an `finit` that does not fail. On failure at the first bad index `i`, exactly the backends below `i` that have `ffinish` are finished again. On success the count and array are recorded; a NULL array gives an empty resource |
| Energy.ValidReadings | src/heartbeat-tree-accuracy-power.c:389-397 | a reading counts exactly when it is non-negative, and no more readings are kept than were taken |
| Energy.ValidReadingsCounts | src/heartbeat-tree-accuracy-power.c:389-397 | each non-negative value is kept as often as backends returned it, and no negative value is kept |
| Energy.AllReadingsValid | src/heartbeat-tree-accuracy-power.c:389-397 | without a negative reading every reading counts |
| Energy.GetEnergy | src/heartbeat-tree-accuracy-power.c:383-400 | the summed energy is 0 without a backend array, and otherwise the sum of the non-negative readings; it is never negative |
| Lifecycle.FirstUnstartable | src/heartbeat-tree-accuracy-power.c:67-86 | the index where the start-up loop stops: every backend before it is startable and the one at it is not |
| Lifecycle.InitSharedData | src/heartbeat-tree-accuracy-power.c:133-146 | a root's shared data starts with counter 0 and no event, over the started backends; it fails exactly when a backend cannot be started |
| Lifecycle.FreshNode | src/heartbeat-tree-accuracy-power.c:93-112 | a new node has a zero-filled buffer, both cursors at 0, zero totals and no record, and it satisfies the node invariant |
| Lifecycle.HeartbeatInit | src/heartbeat-tree-accuracy-power.c:148-198 | construction fails with no node and no teardown exactly when `buffer_depth < window_size`. It succeeds exactly when every allocation, backend start and log open succeeds. A child shares its parent's shared data. On each failure path the listed backends are torn down: none for a child, those before the failing one when start-up fails, all with `ffinish` when a root fails afterwards |
| Lifecycle.HeartbeatFinish | src/heartbeat-tree-accuracy-power.c:253-271 | only a root tears down the backends, exactly those with `ffinish`; a child tears down none. A text log is left behind exactly when the node had one |
| Lifecycle.FinishWritesEverything | src/heartbeat-tree-accuracy-power.c:219-271 | after the final flush, a node's text log holds every record the node ever wrote, in order, each once |
| History.GetHistory | src/heartbeat-tree-util.c:80-124 | a request of 0 returns nothing, and no request returns more than the buffer depth |
| History.CurrentPass | src/heartbeat-tree-util.c:95-100 | `n` slots just below the cursor are the last `n` records, oldest first |
| History.WholeBuffer | src/heartbeat-tree-util.c:104-112 | after a wrap, the slots from the cursor on, then those below it, are the last `depth` records in order |
| History.AcrossWrap | src/heartbeat-tree-util.c:115-123 | for `buffer_index < n < depth`, the last `n - buffer_index` slots and then the slots below the cursor are the last `n` records in order, with no gap or repeat |
| History.SlicesAreRecent | src/heartbeat-tree-util.c:80-124 | over any buffer laid out as registrations leave it, the five branches return at most `min(n, depth)` records. Whenever `n` is at most the count registered, they return exactly the last `min(n, depth)` records in order |
| History.HistoryIsRecent | src/heartbeat-tree-util.c:80-124 | hb_get_history returns at most `min(n, depth)` records. If `n` is at most the count registered, it returns exactly the last `min(n, depth)` records in order. If `n` is larger, it returns only the current pass: everything before the first wrap, but only the records since the last wrap after it |
| History.HistoryEmptyAfterWrap | src/heartbeat-tree-util.c:87-93 | as written: when the buffer has just filled, asking for one more record than were registered returns nothing, although the whole buffer holds records |
| History.HistoryEmptyAfterWrapExample | src/heartbeat-tree-util.c:87-93 | as written: a fresh node of depth 2 with any window and any shared data, after two heartbeats at any times and energy readings (tags, work and accuracy are fixed), returns no record for a request of 3, while the clamped query returns both |
| History.ClampedHistoryIsRecent | src/heartbeat-tree-util.c:80-124 | corrected: with the request clamped to the count registered, every request returns exactly the last `min(n, registered, depth)` records in order |
| History.ReadIndexIsLatest | src/heartbeat-tree-accuracy-power.c:331 | the read index holds the latest record, or the zero-filled slot 0 before any heartbeat |
| History.GetCurrent | src/heartbeat-tree-util.c:47-50 | the current record is the latest one, or none before the first heartbeat; on a request of one the clamped and as-written queries agree |
| History.GlobalTime | src/heartbeat-tree-util.c:52-54 | the global time is the sum of all records' latencies |
| History.WindowTime | src/heartbeat-tree-util.c:56-58 | the window time is the sum of the latencies of the last `min(k, w)` records |
| History.GlobalWork | src/heartbeat-tree-util.c:60-62 | the global work is the sum of all records' work |
| History.WindowWork | src/heartbeat-tree-util.c:64-66 | the window work is the sum of the work of the last `min(k, w)` records |
| History.GlobalEnergy | src/heartbeat-tree-util.c:212-214 | the global energy is the sum of all records' energy |
| History.WindowEnergy | src/heartbeat-tree-util.c:216-218 | the window energy is the sum of the energy of the last `min(k, w)` records |
| History.ReadRecord | src/heartbeat-tree-util.c:68-78 | the metric accessors read the latest record, or a zero record before any heartbeat |
| History.GlobalRate | src/heartbeat-tree-util.c:68-70 | the latest record's global throughput, 0 before any heartbeat |
| History.WindowRate | src/heartbeat-tree-util.c:72-74 | the latest record's window throughput, 0 before any heartbeat |
| History.InstantRate | src/heartbeat-tree-util.c:76-78 | the latest record's instant throughput, 0 before any heartbeat |
| History.GlobalPower | src/heartbeat-tree-util.c:220-222 | the latest record's global power, 0 before any heartbeat |
| History.WindowPower | src/heartbeat-tree-util.c:224-226 | the latest record's window power, 0 before any heartbeat |
| History.InstantPower | src/heartbeat-tree-util.c:228-230 | the latest record's instant power, 0 before any heartbeat |
| Tree.Plant | src/heartbeat-tree-accuracy-power.c:133-137 | a fresh root with fresh shared data forms a tree that satisfies the tree invariant and has no heartbeats yet |
| Tree.NewTree | src/heartbeat-tree-accuracy-power.c:148-198 | creating a root gives a one-node tree satisfying the tree invariant, or the construction error with the backends torn down |
| Tree.AddChild | src/heartbeat-tree-accuracy-power.c:186-189 | a child joins with the tree's shared data and keeps the tree invariant; the existing nodes are untouched |
| Tree.Join | src/heartbeat-tree-accuracy-power.c:186-189 | a node with no record can join a tree without disturbing the numbering |
| Tree.Beat | src/heartbeat-tree-accuracy-power.c:304-337 | a heartbeat on one node appends one record carrying the next shared id and the node's next local id; every other node stays the same |
| Tree.SteppedKeepsTreeInv | src/heartbeat-tree-accuracy-power.c:304-310 | one heartbeat on any node keeps the shared numbering of the whole tree |
| Tree.BeatPreservesTreeInv | src/heartbeat-tree-accuracy-power.c:402-422 | heartbeat_acc on any node of a tree keeps every node's invariant and the shared numbering |
| Tree.SharedIdsNumberBeats | src/heartbeat-tree-accuracy-power.c:337 | across the tree, each shared id below the shared counter is carried by exactly one record, and every record's shared id is below the counter |
| Tree.Heartbeat | src/heartbeat-tree-accuracy-power.c:402-422 | heartbeat_acc returns the clock reading it registered, reads energy once as the sum of the valid readings, and keeps the tree invariant |

## Left out

- Clock reads (`get_time`): the timestamp is a parameter of each heartbeat.
- Energy backend internals (`fread`, `finit`, `ffinish`, `fsource`) are foreign calls. Each backend is a record of which functions it has and whether `finit` fails; a reading is a parameter. Error and progress messages are not modelled.
- The pthread mutex: each `heartbeat_acc` call is one atomic step.
- Floating-point arithmetic of the metrics: conversion to seconds and division (with inf/NaN when a window time is 0). Only the zero-latency policy and which amounts are divided by which times are kept, in the symbolic `Rate`.
- The text format of the log (header line, `fprintf` layout, `fflush`, `fclose`): the log is the sequence of records written to it. A log file that fails to open is a `LogTarget` flag.
- Allocation failures are flags (`Alloc`); `free` has no counterpart.
- The shared data's total time and its update: the library never initialises it, and no accessor reads it.
- Engine.ProcessHeartbeat: `buffer_depth == 0` is excluded by requiring a depth of at least 1, because the C then takes a remainder by zero and writes past an empty buffer.
- Lifecycle.HeartbeatInit: a depth of 0 is modelled only with a window above 0, where construction fails. With `buffer_depth == window_size == 0` the C may build a node over a zero-byte buffer, depending on what `malloc(0)` returns, and such a node cannot register a heartbeat safely. That case is excluded.
- Tree.NewTree: the same exclusion of `buffer_depth == window_size == 0` as `Lifecycle.HeartbeatInit`.
- Tree.AddChild: the same exclusion of `buffer_depth == window_size == 0` as `Lifecycle.HeartbeatInit`.
- Accuracy and energy are `double` in the C (the accuracy argument, `total_accuracy`, `window_accuracy`, `last_energy`, `total_energy`, `window_energy`). The model uses exact integers. In the C, each addition and subtraction rounds, so the window and lifetime totals drift from the exact sums over the records. NodeInvariant.StepWindows and NodeInvariant.StepTotals state the exact equalities, which the C meets only up to that rounding.
- Engine.ProcessHeartbeat: integers are unbounded. The `uint64_t` wrap-around in `window_work += work - old` nets out in two's complement.
- Energy.InitEnergyResource: `num_energy_impls` is passed as a `uint64_t` but stored as an `unsigned int` in the energy resource, so a count of 2^32 or more is truncated. The model keeps the count unbounded. The truncated count would also change what Energy.GetEnergy sums and what Lifecycle.HeartbeatFinish tears down.
- The accuracy-mode accessors (`hb_get_global_accuracy`, `hb_get_window_accuracy`, `hb_get_instant_accuracy`) compile only in accuracy mode, and there two of them are defined twice. They are not modelled.
- Trivial getters (`hb_get_parent`, `hb_get_window_size`, `hb_get_buffer_depth`, and the `hbr_get_*` record field readers): these are the datatype fields themselves.
- `heartbeat_init`, `heartbeat_acc_init` and `heartbeat` only pass default arguments. The example driver `src/pipeline.c` is not part of this model.
- Lifecycle.HeartbeatInit: the shared data's last timestamp is not initialised by the library; the model starts it at 0, and nothing reads it before the first heartbeat writes it.

## Findings

| source | as written | input that shows it | evidently intended | confidence | as-written member | corrected member |
|---|---|---|---|---|---|---|
| src/heartbeat-tree-util.c:87-93 | a request for more records than were registered copies only `log[0..buffer_index)` | a node of depth 2 after two heartbeats (the buffer has just wrapped, cursor 0), asked for 3 records, returns 0 records although both are buffered | return every retained record, as the branch for requests beyond the depth does; that is, treat the request as `min(n, counter)` | not executed | History.HistoryEmptyAfterWrap, History.HistoryEmptyAfterWrapExample | History.GetHistoryClamped, History.ClampedHistoryIsRecent |
