/** The soak poller's outage detector (scripts/soak/poll.py) against the maximal
    runs of failed probes. */
module Outages {
  import opened Common

  datatype Probe = Probe(ok: bool, tick: int)

  /** sinceRecovery counts from the end of the outage before, or from the start. */
  datatype Outage = Outage(start: int, end: Option<int>, sinceRecovery: int)

  // ----- maximal runs -----

  function RunEnd(ps: seq<Probe>, i: nat): (j: nat)
    requires i <= |ps|
    ensures i <= j <= |ps|
    decreases |ps| - i
  {
    if i == |ps| || ps[i].ok then i else RunEnd(ps, i + 1)
  }

  /** The runs of failed probes from a boundary on, each as where it starts and ends. */
  function Runs(ps: seq<Probe>, i: nat): seq<(nat, nat)>
    requires i <= |ps|
    decreases |ps| - i
  {
    if i == |ps| then []
    else if ps[i].ok then Runs(ps, i + 1)
    else
      RunEndIs(ps, i);
      [(i, RunEnd(ps, i))] + Runs(ps, RunEnd(ps, i))
  }

  ghost predicate MaximalRun(ps: seq<Probe>, i: nat, j: nat) {
    && i < j <= |ps|
    && (forall k :: i <= k < j ==> !ps[k].ok)
    && (i == 0 || ps[i - 1].ok) && (j == |ps| || ps[j].ok)
  }

  lemma {:induction false} RunEndIs(ps: seq<Probe>, i: nat)
    requires i <= |ps|
    ensures var j := RunEnd(ps, i);
      && (forall k :: i <= k < j ==> !ps[k].ok)
      && (j == |ps| || ps[j].ok)
      && (i < |ps| && !ps[i].ok ==> i < j)
    decreases |ps| - i
  {
    if i < |ps| && !ps[i].ok { RunEndIs(ps, i + 1); }
  }

  lemma RunEndAt(ps: seq<Probe>, i: nat, j: nat)
    requires i <= j <= |ps| && (forall k :: i <= k < j ==> !ps[k].ok) && (j == |ps| || ps[j].ok)
    ensures RunEnd(ps, i) == j
    decreases j - i
  {
    if i < j { RunEndAt(ps, i + 1, j); }
  }

  /** Runs lists exactly the maximal runs, in order. */
  lemma {:induction false} RunsAreMaximal(ps: seq<Probe>, from: nat, i: nat, j: nat)
    requires from <= |ps| && (from == 0 || from == |ps| || ps[from].ok || ps[from - 1].ok)
    ensures (i, j) in Runs(ps, from) <==> from <= i && MaximalRun(ps, i, j)
    decreases |ps| - from
  {
    if from < |ps| {
      if ps[from].ok {
        RunsAreMaximal(ps, from + 1, i, j);
      } else {
        RunEndIs(ps, from);
        var e := RunEnd(ps, from);
        RunsAreMaximal(ps, e, i, j);
        if MaximalRun(ps, i, j) && from <= i < e {
          assert i == from;
          RunEndAt(ps, i, j);
        }
        assert Runs(ps, from) == [(from, e)] + Runs(ps, e);
      }
    }
  }

  lemma {:induction false} RunsInOrder(ps: seq<Probe>, from: nat, k: nat)
    requires from <= |ps| && k < |Runs(ps, from)|
    ensures from <= Runs(ps, from)[k].0 < Runs(ps, from)[k].1
    ensures k > 0 ==> Runs(ps, from)[k - 1].1 <= Runs(ps, from)[k].0
    decreases |ps| - from
  {
    if ps[from].ok {
      RunsInOrder(ps, from + 1, k);
    } else {
      RunEndIs(ps, from);
      if k > 0 { RunsInOrder(ps, RunEnd(ps, from), k - 1); }
    }
  }

  // ----- the batch specification -----

  function OutageOf(ps: seq<Probe>, run: (nat, nat), recovery: int): Outage
    requires run.0 < |ps| && run.1 <= |ps|
  {
    Outage(ps[run.0].tick, if run.1 < |ps| then Some(ps[run.1].tick) else None, ps[run.0].tick - recovery)
  }

  predicate InRange(ps: seq<Probe>, runs: seq<(nat, nat)>) {
    forall k :: 0 <= k < |runs| ==> runs[k].0 < |ps| && runs[k].1 <= |ps|
  }

  /** An outage is a run of at least threshold failures after the first success. */
  function Batch(ps: seq<Probe>, threshold: int, runs: seq<(nat, nat)>, recovery: int): seq<Outage>
    requires InRange(ps, runs)
  {
    if runs == [] then []
    else
      var (i, j) := runs[0];
      if i > 0 && j - i >= threshold then
        [OutageOf(ps, (i, j), recovery)]
        + Batch(ps, threshold, runs[1..], if j < |ps| then ps[j].tick else recovery)
      else Batch(ps, threshold, runs[1..], recovery)
  }

  lemma RunsInRange(ps: seq<Probe>, from: nat)
    requires from <= |ps|
    ensures InRange(ps, Runs(ps, from))
    decreases |ps| - from
  {
    if from < |ps| {
      if ps[from].ok {
        RunsInRange(ps, from + 1);
      } else {
        RunEndIs(ps, from);
        RunsInRange(ps, RunEnd(ps, from));
      }
    }
  }

  function Recorded(ps: seq<Probe>, threshold: int, from: nat, recovery: int): seq<Outage>
    requires from <= |ps|
  {
    RunsInRange(ps, from);
    Batch(ps, threshold, Runs(ps, from), recovery)
  }

  // ----- the code -----

  /** The detection loop over the probes of a run, and what is recorded at its end. */
  method Detect(ps: seq<Probe>, threshold: int, start: int) returns (outages: seq<Outage>)
    ensures threshold >= 1 ==> outages == Recorded(ps, threshold, 0, start)
    ensures threshold < 1 ==> outages == []
  {
    hide Recorded;
    outages := [];
    var fails: nat, firstFailAt, lastRecoveryAt := 0, 0, start;
    var cur: Option<Outage> := None;
    var seenOk := false;
    for k := 0 to |ps|
      invariant fails <= k && seenOk == (k - fails > 0)
      invariant forall i :: k - fails <= i < k ==> !ps[i].ok
      invariant fails > 0 ==> firstFailAt == ps[k - fails].tick
      invariant k - fails > 0 ==> ps[k - fails - 1].ok
      invariant cur == if 1 <= threshold <= fails && seenOk
                       then Some(Outage(firstFailAt, None, firstFailAt - lastRecoveryAt)) else None
      invariant threshold >= 1 ==>
          Recorded(ps, threshold, 0, start) == outages + Recorded(ps, threshold, k - fails, lastRecoveryAt)
      invariant threshold < 1 ==> outages == []
    {
      var tick := ps[k].tick;
      if ps[k].ok {
        if threshold >= 1 { RunEnds(ps, threshold, k - fails, k, lastRecoveryAt, cur); }
        if cur.Some? {
          outages := outages + [cur.value.(end := Some(tick))];
          cur := None;
          lastRecoveryAt := tick;
        }
        fails := 0;
        seenOk := true;
      } else {
        fails := fails + 1;
        if fails == 1 { firstFailAt := tick; }
        // failures before the first success are boot time
        if fails == threshold && cur.None? && seenOk {
          cur := Some(Outage(firstFailAt, None, firstFailAt - lastRecoveryAt));
        }
      }
    }
    if threshold >= 1 { RunEnds(ps, threshold, |ps| - fails, |ps|, lastRecoveryAt, cur); }
    NoMore(ps, threshold, lastRecoveryAt);
    if cur.Some? { outages := outages + [cur.value]; }
  }

  lemma NoMore(ps: seq<Probe>, threshold: int, recovery: int)
    ensures Recorded(ps, threshold, |ps|, recovery) == []
  {
  }

  /** What a run of failures adds, once its end is known. */
  lemma RunStep(ps: seq<Probe>, threshold: int, i: nat, j: nat, recovery: int)
    requires i <= j <= |ps| && (forall k :: i <= k < j ==> !ps[k].ok) && (j == |ps| || ps[j].ok)
    ensures Recorded(ps, threshold, i, recovery)
         == if i < j && i > 0 && j - i >= threshold
            then [OutageOf(ps, (i, j), recovery)]
                 + Recorded(ps, threshold, if j < |ps| then j + 1 else j, if j < |ps| then ps[j].tick else recovery)
            else Recorded(ps, threshold, if j < |ps| then j + 1 else j, recovery)
  {
    RunEndAt(ps, i, j);
    if i < j {
      assert Runs(ps, i) == [(i, j)] + Runs(ps, j);
      assert Runs(ps, i)[1..] == Runs(ps, j);
    }
  }

  /** A run ends: the outage that was open, if it came to one, is recorded. */
  lemma RunEnds(ps: seq<Probe>, threshold: int, i: nat, j: nat, recovery: int, cur: Option<Outage>)
    requires i <= j <= |ps| && (forall k :: i <= k < j ==> !ps[k].ok) && (j == |ps| || ps[j].ok) && threshold >= 1
    requires cur == if threshold <= j - i && i > 0 then Some(Outage(ps[i].tick, None, ps[i].tick - recovery)) else None
    ensures Recorded(ps, threshold, i, recovery)
         == (if cur.Some? then [cur.value.(end := if j < |ps| then Some(ps[j].tick) else None)] else [])
            + Recorded(ps, threshold, if j < |ps| then j + 1 else j,
                       if cur.Some? && j < |ps| then ps[j].tick else recovery)
  {
    hide Recorded;
    RunStep(ps, threshold, i, j, recovery);
  }

  /** The runs that count: after the first success, and long enough. */
  function Counting(runs: seq<(nat, nat)>, threshold: int): seq<(nat, nat)> {
    if runs == [] then []
    else (if runs[0].0 > 0 && runs[0].1 - runs[0].0 >= threshold then [runs[0]] else []) + Counting(runs[1..], threshold)
  }

  /** When the last outage before the k-th ended. */
  function RecoveredBefore(ps: seq<Probe>, runs: seq<(nat, nat)>, k: nat, start: int): int
    requires k <= |runs|
  {
    if k == 0 then start
    else if runs[k - 1].1 < |ps| then ps[runs[k - 1].1].tick
    else RecoveredBefore(ps, runs, k - 1, start)
  }

  lemma {:induction false} RecoveredLater(ps: seq<Probe>, run: (nat, nat), runs: seq<(nat, nat)>, k: nat, start: int)
    requires k <= |runs|
    ensures RecoveredBefore(ps, [run] + runs, k + 1, start)
         == RecoveredBefore(ps, runs, k, if run.1 < |ps| then ps[run.1].tick else start)
  {
    var all := [run] + runs;
    assert all[k] == if k == 0 then run else runs[k - 1];
    if k > 0 { RecoveredLater(ps, run, runs, k - 1, start); }
  }

  lemma {:induction false} OutagesCount(ps: seq<Probe>, threshold: int, runs: seq<(nat, nat)>, start: int)
    requires InRange(ps, runs)
    ensures |Batch(ps, threshold, runs, start)| == |Counting(runs, threshold)|
    decreases |runs|
  {
    if runs != [] {
      var (i, j) := runs[0];
      OutagesCount(ps, threshold, runs[1..], if i > 0 && j - i >= threshold && j < |ps| then ps[j].tick else start);
    }
  }

  /** The k-th outage and the k-th run that counts. */
  ghost predicate IsOutage(ps: seq<Probe>, counting: seq<(nat, nat)>, k: nat, start: int, o: Outage)
    requires k < |counting|
  {
    var (i, j) := counting[k];
    && i < |ps| && o.start == ps[i].tick && o.end == (if j < |ps| then Some(ps[j].tick) else None)
    && o.sinceRecovery == ps[i].tick - RecoveredBefore(ps, counting, k, start)
  }

  /** One outage for each of them, from the first failed probe to the first good one
      behind it, with the time since the outage before. */
  lemma {:induction false} OutagesAre(ps: seq<Probe>, threshold: int, runs: seq<(nat, nat)>, start: int, k: nat)
    requires InRange(ps, runs) && k < |Counting(runs, threshold)|
    ensures |Batch(ps, threshold, runs, start)| == |Counting(runs, threshold)|
    ensures IsOutage(ps, Counting(runs, threshold), k, start, Batch(ps, threshold, runs, start)[k])
    decreases |runs|
  {
    hide RecoveredBefore;
    OutagesCount(ps, threshold, runs, start);
    var (i, j) := runs[0];
    if i > 0 && j - i >= threshold {
      var next, later := if j < |ps| then ps[j].tick else start, Counting(runs[1..], threshold);
      OutagesCount(ps, threshold, runs[1..], next);
      if k == 0 {
        NoneBefore(ps, Counting(runs, threshold), start);
      } else {
        OutagesAre(ps, threshold, runs[1..], next, k - 1);
        RecoveredLater(ps, runs[0], later, k - 1, start);
      }
    } else {
      assert Counting(runs, threshold) == Counting(runs[1..], threshold);
      OutagesAre(ps, threshold, runs[1..], start, k);
    }
  }

  lemma NoneBefore(ps: seq<Probe>, counting: seq<(nat, nat)>, start: int)
    ensures RecoveredBefore(ps, counting, 0, start) == start
  {
  }

  /** A threshold below 1 records nothing, so the detector meets the specification
      exactly when the threshold is at least 1 or no probe fails after a success. */
  lemma DetectsExactly(ps: seq<Probe>, threshold: int, start: int, outages: seq<Outage>)
    requires outages == if threshold >= 1 then Recorded(ps, threshold, 0, start) else []
    ensures outages == Recorded(ps, threshold, 0, start)
       <==> threshold >= 1 || forall i :: 0 < i < |ps| && ps[i - 1].ok ==> ps[i].ok
  {
    if threshold < 1 { NoThreshold(ps, threshold, 0, start); }
  }

  lemma {:induction false} NoThreshold(ps: seq<Probe>, threshold: int, from: nat, recovery: int)
    requires from <= |ps| && threshold < 1 && (from == 0 || from == |ps| || ps[from].ok || ps[from - 1].ok)
    ensures Recorded(ps, threshold, from, recovery) == []
       <==> forall i :: from <= i < |ps| && i > 0 && ps[i - 1].ok ==> ps[i].ok
    decreases |ps| - from
  {
    hide Recorded, RunEnd;
    NoMore(ps, threshold, recovery);
    if from < |ps| {
      RunEndIs(ps, from);
      var j := RunEnd(ps, from);
      RunStep(ps, threshold, from, j, recovery);
      if j < |ps| { NoThreshold(ps, threshold, j + 1, recovery); }
    }
  }
}
