/** `RepititionTester` (src/repitition_tester.rs): a loop driver that times
    repeated trials, folds each finished trial into count, totals, minimum and
    maximum, and restarts its wall-clock window whenever a trial sets a new
    minimum. Cycle and page-fault readings and the wall clock are parameters. */
module Repetition {
  import opened Wrapping

  const UNMATCHED: string := "Unmatched start and stop blocks"

  datatype TestingState = Running | Error(reason: string)

  /** `TestCase`: the cycles and page faults of one trial. */
  datatype TestCase = TestCase(time: u64, pageFaults: u64)

  /** `TestResults`. */
  datatype TestResults = TestResults(
    count: u64,
    totalTime: u64,
    totalPageFaults: u64,
    max: TestCase,
    min: TestCase)

  /** `TestResults::default`: no trials, a maximum of 0 cycles and a minimum of
      `u64::MAX` cycles, so that the first trial replaces both (unless it takes
      exactly 0 or `u64::MAX` cycles). */
  function DefaultResults(): (r: TestResults)
    ensures r.count == 0 && r.totalTime == 0 && r.totalPageFaults == 0
    ensures r.min == TestCase(U64_MAX, 0) && r.max == TestCase(0, 0)
  {
    TestResults(0, 0, 0, TestCase(0, 0), TestCase(U64_MAX, 0))
  }

  /** Folding one matched trial into the results: the count and totals grow
      (wrapping), the minimum is replaced only by a strictly shorter trial and
      the maximum only by a strictly longer one. */
  function FoldTrial(r: TestResults, trial: TestCase): (r': TestResults)
    ensures r'.count == WrapAdd(r.count, 1)
    ensures r'.totalTime == WrapAdd(r.totalTime, trial.time)
    ensures r'.totalPageFaults == WrapAdd(r.totalPageFaults, trial.pageFaults)
    ensures r'.min == (if trial.time < r.min.time then trial else r.min)
    ensures r'.max == (if trial.time > r.max.time then trial else r.max)
    ensures r'.min.time <= trial.time <= r'.max.time
    ensures r'.min.time <= r.min.time && r.max.time <= r'.max.time
  {
    var min := if trial.time < r.min.time then trial else r.min;
    var max := if trial.time > r.max.time then trial else r.max;
    TestResults(
      WrapAdd(r.count, 1),
      WrapAdd(r.totalTime, trial.time),
      WrapAdd(r.totalPageFaults, trial.pageFaults),
      max,
      min)
  }

  /** The results after folding `trials` in order into the defaults. */
  function FoldTrials(trials: seq<TestCase>): TestResults
  {
    if trials == [] then DefaultResults()
    else FoldTrial(FoldTrials(trials[..|trials| - 1]), trials[|trials| - 1])
  }

  function TimeSum(trials: seq<TestCase>): nat
  {
    if trials == [] then 0 else TimeSum(trials[..|trials| - 1]) + trials[|trials| - 1].time
  }

  function FaultSum(trials: seq<TestCase>): nat
  {
    if trials == [] then 0 else FaultSum(trials[..|trials| - 1]) + trials[|trials| - 1].pageFaults
  }

  /** What the results say about the trials folded into them: the count and
      totals modulo 2^64, every trial between the minimum and the maximum, both
      extremes attained by some trial, and the recorded extreme trials among the
      folded ones unless no trial ever improved on the defaults. */
  lemma FoldedResults(trials: seq<TestCase>)
    ensures var r := FoldTrials(trials);
      && r.count == Wrap(|trials|)
      && r.totalTime == Wrap(TimeSum(trials))
      && r.totalPageFaults == Wrap(FaultSum(trials))
      && (forall k :: 0 <= k < |trials| ==> r.min.time <= trials[k].time <= r.max.time)
      && (trials != [] ==> exists k :: 0 <= k < |trials| && trials[k].time == r.min.time)
      && (trials != [] ==> exists k :: 0 <= k < |trials| && trials[k].time == r.max.time)
      && (r.min.time < U64_MAX ==> r.min in trials)
      && (r.max.time > 0 ==> r.max in trials)
  {
    FoldedTotals(trials);
    FoldedBounds(trials);
    FoldedExtremes(trials);
  }

  lemma {:induction false} FoldedTotals(trials: seq<TestCase>)
    ensures FoldTrials(trials).count == Wrap(|trials|)
    ensures FoldTrials(trials).totalTime == Wrap(TimeSum(trials))
    ensures FoldTrials(trials).totalPageFaults == Wrap(FaultSum(trials))
    decreases |trials|
  {
    if trials != [] {
      var n := |trials| - 1;
      var prefix := trials[..n];
      FoldedTotals(prefix);
      var p := FoldTrials(prefix);
      assert FoldTrials(trials) == FoldTrial(p, trials[n]);
      WrapAddStep(n, p.count, 1);
      assert n + 1 == |trials|;
      WrapAddStep(TimeSum(prefix), p.totalTime, trials[n].time);
      assert TimeSum(trials) == TimeSum(prefix) + trials[n].time;
      WrapAddStep(FaultSum(prefix), p.totalPageFaults, trials[n].pageFaults);
      assert FaultSum(trials) == FaultSum(prefix) + trials[n].pageFaults;
    }
  }

  lemma {:induction false} FoldedBounds(trials: seq<TestCase>)
    ensures forall k :: 0 <= k < |trials| ==>
      FoldTrials(trials).min.time <= trials[k].time <= FoldTrials(trials).max.time
    decreases |trials|
  {
    if trials != [] {
      var n := |trials| - 1;
      var prefix := trials[..n];
      FoldedBounds(prefix);
      assert forall k :: 0 <= k < n ==> trials[k] == prefix[k];
    }
  }

  lemma {:induction false} FoldedExtremes(trials: seq<TestCase>)
    ensures var r := FoldTrials(trials);
      && (trials != [] ==> exists k :: 0 <= k < |trials| && trials[k].time == r.min.time)
      && (trials != [] ==> exists k :: 0 <= k < |trials| && trials[k].time == r.max.time)
      && (r.min.time < U64_MAX ==> r.min in trials)
      && (r.max.time > 0 ==> r.max in trials)
    decreases |trials|
  {
    if trials != [] {
      var n := |trials| - 1;
      var prefix := trials[..n];
      FoldedExtremes(prefix);
      var r := FoldTrials(trials);
      assert trials == prefix + [trials[n]];
      assert forall k :: 0 <= k < n ==> trials[k] == prefix[k];
      if prefix == [] {
        assert r.min.time == trials[0].time;
        assert r.max.time == trials[0].time;
      } else {
        var p := FoldTrials(prefix);
        if r.min != p.min {
          assert trials[n].time == r.min.time;
        } else {
          var k :| 0 <= k < n && prefix[k].time == p.min.time;
          assert trials[k].time == r.min.time;
        }
        if r.max != p.max {
          assert trials[n].time == r.max.time;
        } else {
          var k :| 0 <= k < n && prefix[k].time == p.max.time;
          assert trials[k].time == r.max.time;
        }
      }
    }
  }

  /** `Instant::elapsed() >= duration`, with the clock reading `now` (an
      `Instant` never reports a negative elapsed time). */
  predicate Expired(startTime: nat, duration: nat, now: nat)
  {
    (if now >= startTime then now - startTime else 0) >= duration
  }

  class RepetitionTester {
    var state: TestingState
    var duration: nat
    /** The wall-clock instant the current window began. */
    var startTime: nat
    var pageFaults: u64
    var startCount: u64
    var stopCount: u64
    var elapsedTime: u64
    var results: TestResults

    /** The trials folded since construction or the last `Reset`. */
    ghost var trials: seq<TestCase>

    ghost predicate Valid()
      reads this
    {
      results == FoldTrials(trials)
    }

    /** `RepititionTester::new(duration)` at wall-clock instant `now`. */
    constructor (duration: nat, now: nat)
      ensures Valid() && trials == []
      ensures state == Running && this.duration == duration && startTime == now
      ensures pageFaults == 0 && startCount == 0 && stopCount == 0 && elapsedTime == 0
      ensures results == DefaultResults()
    {
      state := Running;
      this.duration := duration;
      startTime := now;
      pageFaults := 0;
      startCount := 0;
      stopCount := 0;
      elapsedTime := 0;
      results := DefaultResults();
      trials := [];
    }

    /** `reset`: back to the state `new` gives, keeping the duration. */
    method Reset(now: nat)
      modifies this
      ensures Valid() && trials == []
      ensures state == Running && duration == old(duration) && startTime == now
      ensures pageFaults == 0 && startCount == 0 && stopCount == 0 && elapsedTime == 0
      ensures results == DefaultResults()
    {
      state := Running;
      startTime := now;
      pageFaults := 0;
      startCount := 0;
      stopCount := 0;
      elapsedTime := 0;
      results := DefaultResults();
      trials := [];
    }

    /** `start`, with the cycle and page-fault readings of that moment. */
    method Start(cycles: u64, faults: u64)
      modifies this`startCount, this`elapsedTime, this`pageFaults
      ensures startCount == WrapAdd(old(startCount), 1)
      ensures elapsedTime == WrapSub(old(elapsedTime), cycles)
      ensures pageFaults == WrapSub(old(pageFaults), faults)
    {
      startCount := WrapAdd(startCount, 1);
      elapsedTime := WrapSub(elapsedTime, cycles);
      pageFaults := WrapSub(pageFaults, faults);
    }

    /** `stop`, with the cycle and page-fault readings of that moment. */
    method Stop(cycles: u64, faults: u64)
      modifies this`stopCount, this`elapsedTime, this`pageFaults
      ensures stopCount == WrapAdd(old(stopCount), 1)
      ensures elapsedTime == WrapAdd(old(elapsedTime), cycles)
      ensures pageFaults == WrapAdd(old(pageFaults), faults)
    {
      stopCount := WrapAdd(stopCount, 1);
      elapsedTime := WrapAdd(elapsedTime, cycles);
      pageFaults := WrapAdd(pageFaults, faults);
    }

    /** `start` then `stop` from cleared counters leaves the trial's elapsed
        cycles and fault delta as the wrapped differences of the readings. */
    method Trial(cycles0: u64, faults0: u64, cycles1: u64, faults1: u64)
      requires elapsedTime == 0 && pageFaults == 0
      modifies this`startCount, this`stopCount, this`elapsedTime, this`pageFaults
      ensures elapsedTime == WrapSub(cycles1, cycles0)
      ensures pageFaults == WrapSub(faults1, faults0)
      ensures startCount == WrapAdd(old(startCount), 1) && stopCount == WrapAdd(old(stopCount), 1)
    {
      Start(cycles0, faults0);
      Stop(cycles1, faults1);
      SubThenAdd(0, cycles0, cycles1);
      SubThenAdd(0, faults0, faults1);
    }

    /** The fold step of `is_testing` for a matched trial: count it, add it
        to the totals, record it as the new minimum (restarting the window at
        `now`) or maximum when it is strictly better, and clear the per-trial counters. */
    method FoldCurrent(now: nat)
      requires Valid()
      modifies this`results, this`startTime, this`trials, this`startCount,
        this`stopCount, this`elapsedTime, this`pageFaults
      ensures Valid()
      ensures trials == old(trials) + [TestCase(old(elapsedTime), old(pageFaults))]
      ensures results == FoldTrial(old(results), TestCase(old(elapsedTime), old(pageFaults)))
      ensures startTime == (if old(elapsedTime) < old(results.min.time) then now else old(startTime))
      ensures startCount == 0 && stopCount == 0 && elapsedTime == 0 && pageFaults == 0
    {
      ghost var trial := TestCase(elapsedTime, pageFaults);
      var count := WrapAdd(results.count, 1);
      var totalTime := WrapAdd(results.totalTime, elapsedTime);
      var totalPageFaults := WrapAdd(results.totalPageFaults, pageFaults);
      var min := results.min;
      var max := results.max;
      if elapsedTime < min.time {
        min := TestCase(elapsedTime, pageFaults);
        startTime := now;
      }
      if elapsedTime > max.time {
        max := TestCase(elapsedTime, pageFaults);
      }
      startCount := 0;
      stopCount := 0;
      elapsedTime := 0;
      pageFaults := 0;
      var folded := TestResults(count, totalTime, totalPageFaults, max, min);
      ghost var all := trials + [trial];
      assert all[..|all| - 1] == trials;
      assert folded == FoldTrials(all);
      results := folded;
      trials := all;
    }

    /** `is_testing` at wall-clock instant `now`. */
    method IsTesting(now: nat) returns (testing: bool)
      requires Valid()
      modifies this
      ensures Valid()
      ensures duration == old(duration)
      // Finished: an error happened earlier, or the window has run out.
      ensures (old(state).Error? || Expired(old(startTime), duration, now)) ==>
        !testing && state == old(state) && startTime == old(startTime) && results == old(results)
        && startCount == old(startCount) && stopCount == old(stopCount)
        && elapsedTime == old(elapsedTime) && pageFaults == old(pageFaults) && trials == old(trials)
      // No trial since the last call: keep going, nothing changes.
      ensures (old(state).Running? && !Expired(old(startTime), duration, now) && old(startCount) == 0) ==>
        testing && state == Running && startTime == old(startTime) && results == old(results)
        && stopCount == old(stopCount) && elapsedTime == old(elapsedTime) && pageFaults == old(pageFaults)
        && trials == old(trials) && startCount == 0
      // Unmatched start and stop: enter the error state, fold nothing, this call still says true.
      ensures (old(state).Running? && !Expired(old(startTime), duration, now)
        && old(startCount) != 0 && old(startCount) != old(stopCount)) ==>
        testing && state == Error(UNMATCHED) && startTime == old(startTime) && results == old(results)
        && startCount == old(startCount) && stopCount == old(stopCount)
        && elapsedTime == old(elapsedTime) && pageFaults == old(pageFaults) && trials == old(trials)
      // A matched trial: fold it, restart the window on a new minimum, clear the per-trial counters.
      ensures (old(state).Running? && !Expired(old(startTime), duration, now)
        && old(startCount) != 0 && old(startCount) == old(stopCount)) ==>
        testing && state == Running
        && trials == old(trials) + [TestCase(old(elapsedTime), old(pageFaults))]
        && results == FoldTrial(old(results), TestCase(old(elapsedTime), old(pageFaults)))
        && startTime == (if old(elapsedTime) < old(results.min.time) then now else old(startTime))
        && startCount == 0 && stopCount == 0 && elapsedTime == 0 && pageFaults == 0
    {
      if !state.Running? {
        return false;
      }
      if Expired(startTime, duration, now) {
        return false;
      }
      if startCount > 0 {
        if startCount != stopCount {
          state := Error(UNMATCHED);
        }
        if state.Running? {
          FoldCurrent(now);
        }
      }
      return true;
    }
  }
}
