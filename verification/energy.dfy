/**
 * Energy backends of a tree (src/heartbeat-tree-accuracy-power.c): all-or-nothing
 * start-up with rollback, best-effort teardown, and the summed reading that skips
 * backends reporting an error.
 */
module Energy {
  import opened Wrappers
  import opened Types

  /** A backend the start-up loop accepts: `fread` and `fsource` are present and
      the optional `finit` does not fail. */
  predicate Startable(b: Backend) {
    b.hasRead && b.hasSource && !(b.hasInit && b.initFails)
  }

  /** The indices whose `ffinish` is invoked when the first `n` backends are torn
      down, in call order. A failing `ffinish` is only reported, so every backend
      that has one is finished. */
  function FinishEnergyReadings(n: nat, impls: Option<seq<Backend>>): (finished: seq<nat>)
    requires impls.Some? ==> n <= |impls.value|
    ensures forall j :: j in finished <==> impls.Some? && 0 <= j < n && impls.value[j].hasFinish
    ensures forall a, b :: 0 <= a < b < |finished| ==> finished[a] < finished[b]
    decreases n
  {
    if impls.None? || n == 0 then []
    else
      var earlier := FinishEnergyReadings(n - 1, impls);
      assert forall a :: 0 <= a < |earlier| ==> earlier[a] < n - 1 by {
        forall a | 0 <= a < |earlier| ensures earlier[a] < n - 1 {
          assert earlier[a] in earlier;
        }
      }
      earlier + (if impls.value[n - 1].hasFinish then [n - 1] else [])
  }

  datatype StartResult =
    | Started(er: EnergyResource)
    | StartFailed(failedAt: nat, finished: seq<nat>)

  /** Starts the backends in order. The first backend that cannot be started makes
      the whole start-up fail, after the backends before it (and only those) have
      been finished again; on success the resource records every backend. */
  method InitEnergyResource(impls: Option<seq<Backend>>) returns (r: StartResult)
    ensures r.Started? <==>
      impls.None? || forall j :: 0 <= j < |impls.value| ==> Startable(impls.value[j])
    ensures r.Started? ==>
      r.er == (if impls.None? then EnergyResource(0, None) else EnergyResource(|impls.value|, impls))
    ensures r.StartFailed? ==>
      && impls.Some?
      && r.failedAt < |impls.value|
      && !Startable(impls.value[r.failedAt])
      && (forall j :: 0 <= j < r.failedAt ==> Startable(impls.value[j]))
      && r.finished == FinishEnergyReadings(r.failedAt, impls)
  {
    if impls.None? {
      return Started(EnergyResource(0, None));
    }
    var bs := impls.value;
    var i := 0;
    while i < |bs|
      invariant 0 <= i <= |bs|
      invariant forall j :: 0 <= j < i ==> Startable(bs[j])
    {
      if !bs[i].hasRead || !bs[i].hasSource {
        return StartFailed(i, FinishEnergyReadings(i, impls));
      }
      if bs[i].hasInit && bs[i].initFails {
        return StartFailed(i, FinishEnergyReadings(i, impls));
      }
      i := i + 1;
    }
    return Started(EnergyResource(|bs|, impls));
  }

  /** The readings that count towards the energy total: the non-negative ones, in
      backend order. A negative reading is a backend error. */
  function ValidReadings(readings: seq<int>): (valid: seq<int>)
    ensures forall x :: x in valid <==> x in readings && x >= 0
    ensures |valid| <= |readings|
    decreases |readings|
  {
    if readings == [] then []
    else
      var last := readings[|readings| - 1];
      ValidReadings(readings[..|readings| - 1]) + (if last >= 0 then [last] else [])
  }

  /** Every non-negative reading counts once per backend that returned it, so equal
      readings of two backends are both summed; no negative reading counts. */
  lemma {:induction false} ValidReadingsCounts(readings: seq<int>)
    ensures forall x :: multiset(ValidReadings(readings))[x] == if x >= 0 then multiset(readings)[x] else 0
    decreases |readings|
  {
    if readings != [] {
      var init, last := readings[..|readings| - 1], readings[|readings| - 1];
      assert readings == init + [last];
      ValidReadingsCounts(init);
    }
  }

  function SumOf(xs: seq<int>): int
    decreases |xs|
  {
    if xs == [] then 0 else SumOf(xs[..|xs| - 1]) + xs[|xs| - 1]
  }

  /** Without backend errors every reading counts. */
  lemma {:induction false} AllReadingsValid(readings: seq<int>)
    requires forall i :: 0 <= i < |readings| ==> readings[i] >= 0
    ensures ValidReadings(readings) == readings
    decreases |readings|
  {
    if readings != [] {
      var init := readings[..|readings| - 1];
      AllReadingsValid(init);
      assert init + [readings[|readings| - 1]] == readings;
    }
  }

  /** The summed energy of one reading of every backend: `readings[i]` is what
      backend i's `fread` returns. Negative readings are skipped; with no backend
      array the sum is 0. */
  method GetEnergy(er: EnergyResource, readings: seq<int>) returns (total: int)
    requires |readings| == er.count
    ensures total >= 0
    ensures er.impls.None? ==> total == 0
    ensures er.impls.Some? ==> total == SumOf(ValidReadings(readings))
  {
    total := 0;
    if er.impls.Some? {
      var i := 0;
      while i < er.count
        invariant 0 <= i <= er.count
        invariant total >= 0
        invariant total == SumOf(ValidReadings(readings[..i]))
      {
        assert readings[..i + 1][..i] == readings[..i];
        var valid := ValidReadings(readings[..i]);
        if readings[i] < 0 {
          assert ValidReadings(readings[..i + 1]) == valid;
          i := i + 1;
          continue;
        }
        assert ValidReadings(readings[..i + 1]) == valid + [readings[i]];
        assert (valid + [readings[i]])[..|valid|] == valid;
        total := total + readings[i];
        i := i + 1;
      }
      assert readings[..er.count] == readings;
    }
  }
}
