/**
 * A heartbeat tree: a root and its children registering heartbeats against one
 * shared data. The shared counter hands out shared ids; across the tree they
 * number the heartbeats 0, 1, 2, ... in registration order, each exactly once.
 */
module Tree {
  import opened Wrappers
  import opened Types
  import opened Engine
  import opened NodeInvariant
  import opened Registration
  import opened Lifecycle
  import opened Energy

  /** Where a shared id went: the node that registered it and its local id there. */
  datatype BeatRef = BeatRef(node: nat, id: nat)

  /** The nodes of one tree and their shared data. `beats` is not part of the C
      structures: it is the model's log of every heartbeat on the tree, indexed by
      shared id. */
  datatype Tree = Tree(sd: SharedData, nodes: seq<Node>, beats: seq<BeatRef>)

  /** Shared id `s` names an existing record, and that record carries `s`. */
  ghost predicate BeatIsRecord(t: Tree, s: nat)
    requires s < |t.beats|
  {
    var b := t.beats[s];
    && b.node < |t.nodes|
    && b.id < |t.nodes[b.node].produced|
    && t.nodes[b.node].produced[b.id].sharedId == s
  }

  /** Record `j` of node `i` is logged under its shared id. */
  ghost predicate RecordIsBeat(t: Tree, i: nat, j: nat)
    requires i < |t.nodes| && j < |t.nodes[i].produced|
  {
    var s := t.nodes[i].produced[j].sharedId;
    s < |t.beats| && t.beats[s] == BeatRef(i, j)
  }

  /** Shared ids number the tree's heartbeats: the shared counter counts them,
      each id is carried by exactly the record the beat log names, each node's ids
      increase, and the shared timestamp is the latest beat's. */
  ghost predicate Numbering(t: Tree) {
    && t.sd.counter == |t.beats|
    && t.sd.valid == (|t.beats| > 0)
    && (forall s :: 0 <= s < |t.beats| ==> BeatIsRecord(t, s))
    && (forall i, j :: 0 <= i < |t.nodes| && 0 <= j < |t.nodes[i].produced| ==> RecordIsBeat(t, i, j))
    && (forall i, j, j' :: 0 <= i < |t.nodes| && 0 <= j < j' < |t.nodes[i].produced| ==>
          t.nodes[i].produced[j].sharedId < t.nodes[i].produced[j'].sharedId)
    && (|t.beats| > 0 ==>
          var b := t.beats[|t.beats| - 1];
          b.node < |t.nodes| && b.id < |t.nodes[b.node].produced| &&
          t.sd.lastTimestamp == t.nodes[b.node].produced[b.id].timestamp)
  }

  ghost predicate NodesInv(t: Tree) {
    forall i :: 0 <= i < |t.nodes| ==> Inv(t.nodes[i])
  }

  ghost predicate TreeInv(t: Tree) {
    NodesInv(t) && Numbering(t)
  }

  /** A tree of one freshly created root. */
  function Plant(root: Node, sd: SharedData): (t: Tree)
    requires Inv(root) && root.produced == [] && sd.counter == 0 && !sd.valid
    ensures TreeInv(t)
  {
    Tree(sd, [root], [])
  }

  /** heartbeat_acc_pow_init without a parent: a new tree of one root that has
      registered nothing, or the error with the backends whose teardown ran. */
  method NewTree(windowSize: nat, bufferDepth: nat, log: LogTarget, impls: Option<seq<Backend>>,
                 alloc: Alloc)
    returns (r: Result<Tree, InitError>, finished: seq<nat>)
    requires 1 <= bufferDepth || bufferDepth < windowSize
    ensures r.Success? <==>
      && windowSize <= bufferDepth && alloc.node && alloc.shared && alloc.log && log != LogFile(false)
      && FirstUnstartable(impls) == (if impls.None? then 0 else |impls.value|)
    ensures r.Success? ==>
      && TreeInv(r.value) && |r.value.nodes| == 1 && r.value.beats == []
      && !r.value.nodes[0].hasParent && finished == []
    ensures r.Failure? ==>
      finished == (if windowSize <= bufferDepth && alloc.node && alloc.shared
                   then FinishEnergyReadings(FirstUnstartable(impls), impls)
                   else [])
  {
    var created;
    created, finished := HeartbeatInit(None, windowSize, bufferDepth, log, impls, alloc);
    if created.Failure? {
      return Failure(created.error), finished;
    }
    r := Success(Plant(created.value.node, created.value.sd));
  }

  /** heartbeat_acc_pow_init with this tree's root as parent: on success the child
      joins the tree with the tree's shared data; on failure nothing changes and no
      backend is touched. */
  method AddChild(t: Tree, windowSize: nat, bufferDepth: nat, log: LogTarget, alloc: Alloc)
    returns (r: Result<Tree, InitError>)
    requires TreeInv(t) && (1 <= bufferDepth || bufferDepth < windowSize)
    ensures r.Success? <==> windowSize <= bufferDepth && alloc.node && alloc.log && log != LogFile(false)
    ensures r.Success? ==>
      && TreeInv(r.value)
      && r.value.sd == t.sd && r.value.beats == t.beats
      && |r.value.nodes| == |t.nodes| + 1 && r.value.nodes[..|t.nodes|] == t.nodes
      && r.value.nodes[|t.nodes|].hasParent && r.value.nodes[|t.nodes|].produced == []
  {
    var created, finished := HeartbeatInit(Some(t.sd), windowSize, bufferDepth, log, None, alloc);
    if created.Failure? {
      return Failure(created.error);
    }
    var child := created.value.node;
    Join(t, child);
    return Success(Tree(t.sd, t.nodes + [child], t.beats));
  }

  /** A node that has registered nothing can join the tree. */
  lemma Join(t: Tree, child: Node)
    requires TreeInv(t) && Inv(child) && child.produced == []
    ensures var t' := Tree(t.sd, t.nodes + [child], t.beats);
            TreeInv(t') && t'.nodes[..|t.nodes|] == t.nodes
  {
    var t' := Tree(t.sd, t.nodes + [child], t.beats);
    assert t'.nodes[..|t.nodes|] == t.nodes;
    forall s | 0 <= s < |t.beats| ensures BeatIsRecord(t', s) {
      assert BeatIsRecord(t, s);
    }
    forall i, j | 0 <= i < |t'.nodes| && 0 <= j < |t'.nodes[i].produced|
      ensures RecordIsBeat(t', i, j)
    {
      assert RecordIsBeat(t, i, j);
    }
  }

  /** `r` is `t` after node `i` registered one heartbeat: the node's history gained
      one record carrying the next shared id, the beat log gained its place, and
      nothing else moved. */
  ghost predicate Stepped(t: Tree, r: Tree, i: nat)
    requires i < |t.nodes|
  {
    var k := |t.nodes[i].produced|;
    && |r.nodes| == |t.nodes|
    && (forall j :: 0 <= j < |t.nodes| && j != i ==> r.nodes[j] == t.nodes[j])
    && |r.nodes[i].produced| == k + 1
    && r.nodes[i].produced[..k] == t.nodes[i].produced
    && r.nodes[i].produced[k].sharedId == t.sd.counter
    && r.beats == t.beats + [BeatRef(i, k)]
    && r.sd.counter == t.sd.counter + 1
    && r.sd.valid
    && r.sd.lastTimestamp == r.nodes[i].produced[k].timestamp
  }

  /** heartbeat_acc on node `i` of the tree, with `prev` the node whose baseline it
      borrows (if any). */
  function Beat(t: Tree, i: nat, userTag: nat, work: nat, accuracy: int, prev: Option<nat>,
                time: int, energy: int): (r: Tree)
    requires i < |t.nodes| && WellFormed(t.nodes[i])
    requires prev.Some? ==> prev.value < |t.nodes|
    ensures Stepped(t, r, i)
    ensures r.nodes[i].produced[|t.nodes[i].produced|].id == t.nodes[i].ld.counter
    ensures r.nodes[i].produced[|t.nodes[i].produced|].timestamp == time
  {
    var prevNode := if prev.Some? then Some(t.nodes[prev.value]) else None;
    var b := HeartbeatAcc(t.nodes[i], t.sd, userTag, work, accuracy, prevNode, time, energy);
    Tree(b.sd, t.nodes[i := b.node], t.beats + [BeatRef(i, |t.nodes[i].produced|)])
  }

  /** After a step the earlier records of the stepping node are unchanged. */
  lemma SteppedRecord(t: Tree, r: Tree, i: nat, n: nat, j: nat)
    requires i < |t.nodes| && Stepped(t, r, i)
    requires n < |t.nodes| && j < |t.nodes[n].produced|
    ensures j < |r.nodes[n].produced| && r.nodes[n].produced[j] == t.nodes[n].produced[j]
  {
    if n == i {
      assert r.nodes[i].produced[j] == r.nodes[i].produced[..|t.nodes[i].produced|][j];
    }
  }

  lemma {:induction false} SteppedBeats(t: Tree, r: Tree, i: nat)
    requires Numbering(t) && i < |t.nodes| && Stepped(t, r, i)
    ensures forall s :: 0 <= s < |r.beats| ==> BeatIsRecord(r, s)
  {
    forall s | 0 <= s < |r.beats|
      ensures BeatIsRecord(r, s)
    {
      if s < t.sd.counter {
        assert BeatIsRecord(t, s);
        SteppedRecord(t, r, i, t.beats[s].node, t.beats[s].id);
      }
    }
  }

  lemma {:induction false} SteppedRecords(t: Tree, r: Tree, i: nat)
    requires Numbering(t) && i < |t.nodes| && Stepped(t, r, i)
    ensures forall n, j :: 0 <= n < |r.nodes| && 0 <= j < |r.nodes[n].produced| ==> RecordIsBeat(r, n, j)
  {
    forall n, j | 0 <= n < |r.nodes| && 0 <= j < |r.nodes[n].produced|
      ensures RecordIsBeat(r, n, j)
    {
      if n != i || j < |t.nodes[i].produced| {
        SteppedRecord(t, r, i, n, j);
        assert RecordIsBeat(t, n, j);
      }
    }
  }

  lemma {:induction false} SteppedOrder(t: Tree, r: Tree, i: nat)
    requires Numbering(t) && i < |t.nodes| && Stepped(t, r, i)
    ensures forall n, j, j' :: 0 <= n < |r.nodes| && 0 <= j < j' < |r.nodes[n].produced| ==>
              r.nodes[n].produced[j].sharedId < r.nodes[n].produced[j'].sharedId
  {
    var k := |t.nodes[i].produced|;
    forall n, j, j' | 0 <= n < |r.nodes| && 0 <= j < j' < |r.nodes[n].produced|
      ensures r.nodes[n].produced[j].sharedId < r.nodes[n].produced[j'].sharedId
    {
      SteppedRecord(t, r, i, n, j);
      if n == i && j' == k {
        assert RecordIsBeat(t, n, j);
      } else {
        SteppedRecord(t, r, i, n, j');
      }
    }
  }

  /** One registered heartbeat keeps the shared-id numbering of the tree. */
  lemma {:induction false} SteppedKeepsTreeInv(t: Tree, r: Tree, i: nat)
    requires TreeInv(t) && i < |t.nodes| && Stepped(t, r, i) && NodesInv(r)
    ensures TreeInv(r)
  {
    SteppedBeats(t, r, i);
    SteppedRecords(t, r, i);
    SteppedOrder(t, r, i);
  }

  /** Every heartbeat keeps the tree invariant: shared ids stay a numbering of all
      the tree's heartbeats, and each node's shared ids keep increasing. */
  lemma BeatPreservesTreeInv(t: Tree, i: nat, userTag: nat, work: nat, accuracy: int,
                             prev: Option<nat>, time: int, energy: int)
    requires TreeInv(t) && i < |t.nodes|
    requires prev.Some? ==> prev.value < |t.nodes|
    ensures TreeInv(Beat(t, i, userTag, work, accuracy, prev, time, energy))
  {
    var r := Beat(t, i, userTag, work, accuracy, prev, time, energy);
    var prevNode := if prev.Some? then Some(t.nodes[prev.value]) else None;
    HeartbeatAccPreservesInv(t.nodes[i], t.sd, userTag, work, accuracy, prevNode, time, energy);
    assert r.nodes[i] == HeartbeatAcc(t.nodes[i], t.sd, userTag, work, accuracy, prevNode, time, energy).node;
    forall n | 0 <= n < |r.nodes| ensures Inv(r.nodes[n]) {
      if n != i {
        assert r.nodes[n] == t.nodes[n];
      }
    }
    SteppedKeepsTreeInv(t, r, i);
  }

  /** Shared id `s` belongs to some record of the tree. */
  ghost predicate Numbered(t: Tree, s: nat) {
    exists i, j :: 0 <= i < |t.nodes| && 0 <= j < |t.nodes[i].produced| &&
                   t.nodes[i].produced[j].sharedId == s
  }

  /** Shared ids number the tree's heartbeats without gaps or repeats: every id
      below the shared counter belongs to exactly one record, and every record's
      id is below it. */
  lemma SharedIdsNumberBeats(t: Tree)
    requires TreeInv(t)
    ensures forall s: nat :: s < t.sd.counter ==> Numbered(t, s)
    ensures forall i, j, i', j' ::
              && 0 <= i < |t.nodes| && 0 <= j < |t.nodes[i].produced|
              && 0 <= i' < |t.nodes| && 0 <= j' < |t.nodes[i'].produced|
              && t.nodes[i].produced[j].sharedId == t.nodes[i'].produced[j'].sharedId
              ==> i == i' && j == j'
    ensures forall i, j :: 0 <= i < |t.nodes| && 0 <= j < |t.nodes[i].produced| ==>
              t.nodes[i].produced[j].sharedId < t.sd.counter
  {
    forall s: nat | s < t.sd.counter
      ensures Numbered(t, s)
    {
      assert BeatIsRecord(t, s);
      var b := t.beats[s];
      assert t.nodes[b.node].produced[b.id].sharedId == s;
    }
    forall i, j, i', j' |
      && 0 <= i < |t.nodes| && 0 <= j < |t.nodes[i].produced|
      && 0 <= i' < |t.nodes| && 0 <= j' < |t.nodes[i'].produced|
      && t.nodes[i].produced[j].sharedId == t.nodes[i'].produced[j'].sharedId
      ensures i == i' && j == j'
    {
      assert RecordIsBeat(t, i, j) && RecordIsBeat(t, i', j');
    }
    forall i, j | 0 <= i < |t.nodes| && 0 <= j < |t.nodes[i].produced|
      ensures t.nodes[i].produced[j].sharedId < t.sd.counter
    {
      assert RecordIsBeat(t, i, j);
    }
  }

  /** heartbeat_acc with the energy read from the tree's backends: `readings[i]` is
      what backend i returns. The call returns the clock reading it registered. */
  method Heartbeat(t: Tree, i: nat, userTag: nat, work: nat, accuracy: int, prev: Option<nat>,
                   time: int, readings: seq<int>)
    returns (t': Tree, stamp: int)
    requires TreeInv(t) && i < |t.nodes|
    requires prev.Some? ==> prev.value < |t.nodes|
    requires |readings| == t.sd.er.count
    ensures stamp == time
    ensures TreeInv(t')
    ensures t' == Beat(t, i, userTag, work, accuracy, prev, time,
                       if t.sd.er.impls.Some? then SumOf(ValidReadings(readings)) else 0)
  {
    var energy := GetEnergy(t.sd.er, readings);
    t' := Beat(t, i, userTag, work, accuracy, prev, time, energy);
    BeatPreservesTreeInv(t, i, userTag, work, accuracy, prev, time, energy);
    stamp := time;
  }
}
