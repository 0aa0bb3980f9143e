/** The four additive quantities of a record and sums of them over record sequences. */
module Aggregates {
  import opened Types

  datatype Quantity = Time | Work | Accuracy | Energy

  /** The amount a record contributes to the totals and windows of quantity `q`. */
  function Amount(r: Record, q: Quantity): int {
    match q
    case Time => r.latency
    case Work => r.work
    case Accuracy => r.accuracy
    case Energy => r.energy
  }

  /** The sum of quantity `q` over `rs`. */
  function Sum(rs: seq<Record>, q: Quantity): int
    decreases |rs|
  {
    if rs == [] then 0 else Sum(rs[..|rs| - 1], q) + Amount(rs[|rs| - 1], q)
  }

  /** The last `m` records of `rs`. */
  function Recent(rs: seq<Record>, m: nat): seq<Record>
    requires m <= |rs|
  {
    rs[|rs| - m..]
  }

  function Min(a: nat, b: nat): nat {
    if a <= b then a else b
  }

  /** The running total of quantity `q` kept in the local data. */
  function Total(ld: LocalData, q: Quantity): int {
    match q
    case Time => ld.td.totalTime
    case Work => ld.wd.totalWork
    case Accuracy => ld.ad.totalAccuracy
    case Energy => ld.ed.totalEnergy
  }

  /** The window total of quantity `q` kept in the local data. */
  function WindowTotal(ld: LocalData, q: Quantity): int {
    match q
    case Time => ld.td.windowTime
    case Work => ld.wd.windowWork
    case Accuracy => ld.ad.windowAccuracy
    case Energy => ld.ed.windowEnergy
  }

  lemma SumAppend(rs: seq<Record>, r: Record, q: Quantity)
    ensures Sum(rs + [r], q) == Sum(rs, q) + Amount(r, q)
  {
    assert (rs + [r])[..|rs|] == rs;
  }

  /** Taking the oldest record off the front of a sequence. */
  lemma {:induction false} SumCons(r: Record, rs: seq<Record>, q: Quantity)
    ensures Sum([r] + rs, q) == Amount(r, q) + Sum(rs, q)
    decreases |rs|
  {
    if rs != [] {
      var init := rs[..|rs| - 1];
      assert ([r] + rs)[..|rs|] == [r] + init;
      SumCons(r, init, q);
    }
  }

  /** The zero-filled slot contributes nothing to any sum. */
  lemma EmptyAmount(q: Quantity)
    ensures Amount(EmptyRecord, q) == 0
  {
  }

  /** Sliding a window of at most `w` records over one more record: the new record
      enters, and once the window is full the record `w` places back leaves. */
  lemma SlideWindow(rs: seq<Record>, r: Record, w: nat, q: Quantity)
    requires w >= 1
    ensures Sum(Recent(rs + [r], Min(|rs| + 1, w)), q) ==
              Sum(Recent(rs, Min(|rs|, w)), q) + Amount(r, q)
              - (if |rs| >= w then Amount(rs[|rs| - w], q) else 0)
  {
    var k := |rs|;
    if k < w {
      assert Recent(rs + [r], k + 1) == rs + [r];
      assert Recent(rs, k) == rs;
      SumAppend(rs, r, q);
    } else {
      var tail := rs[k - w + 1..];
      assert Recent(rs + [r], w) == tail + [r];
      assert Recent(rs, w) == [rs[k - w]] + tail;
      SumAppend(tail, r, q);
      SumCons(rs[k - w], tail, q);
    }
  }
}
