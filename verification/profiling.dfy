/** The profiler that `create_profiler!` (src/macros.rs) instantiates for a
    region enum: the `Profiler` of src/lib.rs (`start_time` and the `timers`
    table) together with the `PROFILER_PARENT` slot, gathered into one owned
    object instead of two `static mut`s. Entering a region (`_ScopedTimer::new`)
    and dropping its handle are methods on it. */
module Profiling {
  import opened Wrapping
  import opened Outcomes
  import opened EnumIndex
  import opened Timing
  import opened Report

  const NOT_STARTED: string := "Profiler was not started."

  /** The handles in `open` were created in this order and none has been
      dropped: the first had no parent, each later one had the one before it
      as parent, and the current parent slot names the last one. */
  ghost predicate ParentChain(open: seq<ScopedTimer>, parent: Option<nat>)
  {
    && parent == (if open == [] then None else Some(open[|open| - 1].timer))
    && (open != [] ==> open[0].parent == None)
    && (forall k :: 0 < k < |open| ==> open[k].parent == Some(open[k - 1].timer))
  }

  /** The regions of the live handles. */
  ghost function OpenTimers(open: seq<ScopedTimer>): set<nat>
  {
    set j | 0 <= j < |open| :: open[j].timer
  }

  /** What the table, the live handles, the parent slot, the top-level cycle
      count and the completed regions say of each other between calls: the
      handles address the table and form a chain, the exclusive times sum to the
      top-level cycles modulo 2^64, and a region never entered has exclusive
      time 0. */
  ghost predicate Consistent(ts: seq<Timer>, open: seq<ScopedTimer>, parent: Option<nat>,
                             top: u64, done: set<nat>)
  {
    && (forall k :: 0 <= k < |open| ==> open[k].timer < |ts|)
    && ParentChain(open, parent)
    && Wrap(ExclusiveTotal(ts)) == top
    && (forall k :: 0 <= k < |ts| && k !in done && k !in OpenTimers(open) ==> ts[k].exclusiveTime == 0)
  }

  /** Entering a region pushes a handle whose parent is the current slot and
      keeps the state consistent. */
  lemma OpenKeepsConsistent(ts: seq<Timer>, open: seq<ScopedTimer>, parent: Option<nat>,
                            top: u64, done: set<nat>, h: ScopedTimer)
    requires Consistent(ts, open, parent, top, done)
    requires h.timer < |ts| && h.parent == parent
    ensures Consistent(ts, open + [h], Some(h.timer), top, done)
  {
    assert OpenTimers(open + [h]) == OpenTimers(open) + {h.timer} by {
      assert forall j :: 0 <= j < |open| ==> (open + [h])[j] == open[j];
      assert (open + [h])[|open|] == h;
    }
  }

  /** Dropping the last live handle: it addresses the table, and the completed
      table, the shorter chain, the handle's parent in the slot, the top-level
      count grown by the elapsed cycles when the handle had no parent, and the
      region marked completed are consistent again. */
  lemma DropKeepsConsistent(ts: seq<Timer>, open: seq<ScopedTimer>, parent: Option<nat>,
                            top: u64, done: set<nat>, now: u64)
    requires Consistent(ts, open, parent, top, done) && open != []
    ensures Fits(ts, open[|open| - 1])
    ensures Consistent(
      Completed(ts, open[|open| - 1], now),
      open[..|open| - 1],
      open[|open| - 1].parent,
      if open[|open| - 1].parent.None? then WrapAdd(top, Elapsed(open[|open| - 1], now)) else top,
      done + {open[|open| - 1].timer})
  {
    var h := open[|open| - 1];
    var rest := open[..|open| - 1];
    assert Fits(ts, h) by {
      if |open| > 1 {
        assert h.parent == Some(open[|open| - 2].timer);
      }
    }
    assert OpenTimers(open) == OpenTimers(rest) + {h.timer} by {
      assert forall j :: 0 <= j < |rest| ==> rest[j] == open[j];
    }
    assert h.parent.Some? ==> h.parent.value in OpenTimers(rest) by {
      if h.parent.Some? {
        assert |open| > 1 && rest[|open| - 2] == open[|open| - 2];
      }
    }
    CompletionConservesExclusive(ts, h, now);
    assert ParentChain(rest, h.parent) by {
      if |open| > 1 {
        assert rest[|rest| - 1] == open[|open| - 2];
      }
    }
  }

  /** With no handle live and no hit counter wrapped to 0, the regions without
      hits contribute nothing, so the Remainder `print` reports (the span less
      the hit regions' exclusive times) is the span less the top-level cycles. */
  lemma RemainderAccounting(ts: seq<Timer>, parent: Option<nat>, top: u64, done: set<nat>,
                            total: u64, remainder: i64)
    requires Consistent(ts, [], parent, top, done)
    requires forall k :: 0 <= k < |ts| && k in done ==> ts[k].hits != 0
    requires remainder == WrapSigned(total - HitExclusive(ts, |ts|))
    ensures Wrap(remainder) == Wrap(total - top)
  {
    assert OpenTimers([]) == {};
    HitExclusiveIsTotal(ts, |ts|);
    assert ts[..|ts|] == ts;
    SubtractCongruent(total, HitExclusive(ts, |ts|), top);
  }

  class Profiler {
    /** The `Debug` names of the region enum's variants, in declaration order. */
    const names: seq<string>

    /** `start_time`: the cycle reading taken by `start`, 0 before. */
    var startTime: u64

    /** `timers`: one record per variant. */
    var timers: array<Timer>

    /** `PROFILER_PARENT`: the region whose handle was created last and not yet dropped. */
    var parent: Option<nat>

    /** The live handles, oldest first (the call sites' scopes, as a stack). */
    ghost var open: seq<ScopedTimer>

    /** The elapsed cycles of every dropped handle that had no parent, summed modulo 2^64. */
    ghost var topLevelCycles: u64

    /** The regions of which at least one handle has been dropped. */
    ghost var completed: set<nat>

    ghost predicate Valid()
      reads this, timers
    {
      && timers.Length == |names| <= DUMMY_INDEX
      && Consistent(timers[..], open, parent, topLevelCycles, completed)
    }

    /** No region's hit counter has wrapped back to 0 (fewer than 2^64 completions each). */
    ghost predicate NoHitWrapped()
      reads this, timers
    {
      forall k :: 0 <= k < timers.Length && k in completed ==> timers[k].hits != 0
    }

    /** `Profiler::new` and the initial `PROFILER_PARENT = None`. */
    constructor (names: seq<string>)
      requires |names| <= DUMMY_INDEX
      ensures Valid() && fresh(timers)
      ensures this.names == names && startTime == 0 && parent == None && open == []
      ensures topLevelCycles == 0 && completed == {}
      ensures forall k :: 0 <= k < timers.Length ==> timers[k] == ZERO_TIMER
    {
      this.names := names;
      startTime := 0;
      timers := new Timer[|names|](_ => ZERO_TIMER);
      parent := None;
      open := [];
      topLevelCycles := 0;
      completed := {};
      new;
      ExclusiveTotalZero(timers[..]);
    }

    /** `Profiler::start`: record the cycle reading, replacing any earlier one. */
    method Start(now: u64)
      modifies this`startTime
      ensures startTime == now
    {
      startTime := now;
    }

    /** `_ScopedTimer::_new`: make this region the current parent, remembering
        the previous one in the handle, and snapshot the region's inclusive time
        and the cycle reading `now`. */
    method Open(timer: nat, now: u64, bytes: u64) returns (h: ScopedTimer)
      requires Valid() && timer < timers.Length
      modifies this`parent, this`open
      ensures Valid()
      ensures h == ScopedTimer(timer, now, old(parent), timers[timer].inclusiveTime, bytes)
      ensures parent == Some(timer)
      ensures open == old(open) + [h]
    {
      var previous := parent;
      parent := Some(timer);
      var index := Into(timer);
      var oldInclusiveTime := timers[index].inclusiveTime;
      h := ScopedTimer(timer, now, previous, oldInclusiveTime, bytes);
      OpenKeepsConsistent(timers[..], open, previous, topLevelCycles, completed, h);
      open := open + [h];
    }

    /** `_ScopedTimer::new`: enter a region that processes no bytes. */
    method Begin(timer: nat, now: u64) returns (h: ScopedTimer)
      requires Valid() && timer < timers.Length
      modifies this`parent, this`open
      ensures Valid()
      ensures h == ScopedTimer(timer, now, old(parent), timers[timer].inclusiveTime, 0)
      ensures parent == Some(timer)
      ensures open == old(open) + [h]
    {
      h := Open(timer, now, 0);
    }

    /** `_ScopedTimer::new_with_bandwidth`: enter a region that processes `bytes` bytes. */
    method BeginWithBandwidth(timer: nat, now: u64, bytes: u64) returns (h: ScopedTimer)
      requires Valid() && timer < timers.Length
      modifies this`parent, this`open
      ensures Valid()
      ensures h == ScopedTimer(timer, now, old(parent), timers[timer].inclusiveTime, bytes)
      ensures parent == Some(timer)
      ensures open == old(open) + [h]
    {
      h := Open(timer, now, bytes);
    }

    /** `Drop for _ScopedTimer` at cycle reading `now`. Only the handle created
        last may be dropped (LIFO). The parent slot goes back to what it was
        before the matching `Open`, and the table changes as `Completed` says;
        the sum of exclusive times keeps tracking the top-level elapsed cycles. */
    method End(h: ScopedTimer, now: u64)
      requires Valid() && open != [] && h == open[|open| - 1]
      modifies this`parent, this`open, this`topLevelCycles, this`completed, timers
      ensures Valid()
      ensures parent == h.parent
      ensures open == old(open[..|open| - 1])
      ensures parent == (if open == [] then None else Some(open[|open| - 1].timer))
      ensures timers[..] == Completed(old(timers[..]), h, now)
      ensures topLevelCycles == if h.parent.None? then WrapAdd(old(topLevelCycles), Elapsed(h, now)) else old(topLevelCycles)
      ensures completed == old(completed) + {h.timer}
    {
      DropKeepsConsistent(timers[..], open, parent, topLevelCycles, completed, now);
      parent := h.parent;
      var elapsed := Record(h, now);
      topLevelCycles := if h.parent.None? then WrapAdd(topLevelCycles, Elapsed(h, now)) else topLevelCycles;
      completed := completed + {h.timer};
      open := open[..|open| - 1];
    }

    /** The table updates of `Drop for _ScopedTimer`: the parent's exclusive time
        loses the elapsed cycles, then the region's own record gains them. */
    method Record(h: ScopedTimer, now: u64) returns (elapsed: u64)
      requires Fits(timers[..], h)
      modifies timers
      ensures elapsed == Elapsed(h, now)
      ensures timers[..] == Completed(old(timers[..]), h, now)
    {
      ghost var before := timers[..];
      var index := Into(h.timer);
      elapsed := WrapSub(now, h.startTime);
      if h.parent.Some? {
        var p := h.parent.value;
        timers[p] := timers[p].(exclusiveTime := WrapSub(timers[p].exclusiveTime, elapsed));
      }
      var cur := timers[index];
      timers[index] := cur.(
        exclusiveTime := WrapAdd(cur.exclusiveTime, elapsed),
        inclusiveTime := WrapAdd(h.oldInclusiveTime, elapsed),
        bytesProcessed := WrapAdd(cur.bytesProcessed, h.bytesProcessed),
        hits := WrapAdd(cur.hits, 1));
      assert timers[..] == Completed(before, h, now);
    }

    /** The integer results of `Profiler::print`, given the cycle reading taken
        on entry: a panic if the profiler was never started, otherwise the span
        since `start`, the name width, the hit regions' rows largest exclusive
        time first, the indexes never hit, and the Remainder. */
    method Print(stopTime: u64) returns (r: Outcome<Summary>)
      requires Valid()
      ensures r.Panic? <==> startTime == 0
      ensures r.Panic? ==> r.message == NOT_STARTED
      ensures r.Done? ==> r.value == Summary(
        WrapSub(stopTime, startTime),
        NameWidth(names),
        Reverse(SortByExclusive(HitRows(timers[..], names, NameWidth(names), timers.Length))),
        NotHitIndices(timers[..], timers.Length),
        WrapSigned(WrapSub(stopTime, startTime) - HitExclusive(timers[..], timers.Length)))
      // With every handle dropped, the Remainder is the span less the top-level cycles.
      ensures r.Done? && open == [] && NoHitWrapped() ==>
        Wrap(r.value.remainder) == Wrap(r.value.totalTime - topLevelCycles)
    {
      if startTime == 0 {
        return Panic(NOT_STARTED);
      }
      var width := NameColumnWidth(names);
      var total := WrapSub(stopTime, startTime);
      var notHit, results, other := Tabulate(timers[..], names, width, total);
      var sorted := SortByExclusive(results);
      r := Done(Summary(total, width, Reverse(sorted), notHit, other));
      if open == [] && NoHitWrapped() {
        RemainderAccounting(timers[..], parent, topLevelCycles, completed, total, other);
      }
    }
  }
}
