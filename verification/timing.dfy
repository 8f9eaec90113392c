/** The per-region record of src/lib.rs (`Timer`) and the bookkeeping that
    `Drop for _ScopedTimer` (src/macros.rs) performs on a table of them, as
    functions on values. The class `Profiling.Profiler` applies them in place. */
module Timing {
  import opened Wrapping
  import opened Outcomes

  /** `Timer`: cycles without children, cycles with children, completed
      invocations and bytes processed. */
  datatype Timer = Timer(exclusiveTime: u64, inclusiveTime: u64, hits: u64, bytesProcessed: u64)

  const ZERO_TIMER: Timer := Timer(0, 0, 0, 0)

  /** `_ScopedTimer`: the open-region handle. `timer` and `parent` are region
      indexes (the enum's `into()`), `startTime` the cycle reading taken when the
      region was entered, `oldInclusiveTime` the region's inclusive time then. */
  datatype ScopedTimer = ScopedTimer(
    timer: nat,
    startTime: u64,
    parent: Option<nat>,
    oldInclusiveTime: u64,
    bytesProcessed: u64)

  /** The handle's indexes address entries of the table. */
  predicate Fits(ts: seq<Timer>, h: ScopedTimer)
  {
    h.timer < |ts| && (h.parent.Some? ==> h.parent.value < |ts|)
  }

  /** `stop_time - self.start_time`, wrapping. */
  function Elapsed(h: ScopedTimer, stop: u64): (r: u64)
    ensures h.startTime <= stop ==> r == stop - h.startTime
    ensures WrapAdd(h.startTime, r) == stop
  {
    WrapSub(stop, h.startTime)
  }

  /** The table after the handle `h` is dropped at cycle `stop`: the parent's
      exclusive time loses the elapsed cycles, then this region's exclusive time
      gains them, its inclusive time is overwritten with the snapshot plus the
      elapsed cycles, its bytes grow by the handle's and its hits by one. */
  function Completed(ts: seq<Timer>, h: ScopedTimer, stop: u64): (r: seq<Timer>)
    requires Fits(ts, h)
    ensures |r| == |ts|
    ensures forall j :: 0 <= j < |ts| && j != h.timer && h.parent != Some(j) ==> r[j] == ts[j]
    ensures h.parent.Some? && h.parent.value != h.timer ==>
      r[h.parent.value] == ts[h.parent.value].(exclusiveTime := WrapSub(ts[h.parent.value].exclusiveTime, Elapsed(h, stop)))
    ensures r[h.timer].exclusiveTime ==
      if h.parent == Some(h.timer) then ts[h.timer].exclusiveTime
      else WrapAdd(ts[h.timer].exclusiveTime, Elapsed(h, stop))
    ensures r[h.timer].inclusiveTime == WrapAdd(h.oldInclusiveTime, Elapsed(h, stop))
    ensures r[h.timer].hits == WrapAdd(ts[h.timer].hits, 1)
    ensures r[h.timer].bytesProcessed == WrapAdd(ts[h.timer].bytesProcessed, h.bytesProcessed)
  {
    var elapsed := Elapsed(h, stop);
    var withParent :=
      if h.parent.Some? then
        var p := h.parent.value;
        ts[p := ts[p].(exclusiveTime := WrapSub(ts[p].exclusiveTime, elapsed))]
      else ts;
    var cur := withParent[h.timer];
    var r := withParent[h.timer := Timer(
      WrapAdd(cur.exclusiveTime, elapsed),
      WrapAdd(h.oldInclusiveTime, elapsed),
      WrapAdd(cur.hits, 1),
      WrapAdd(cur.bytesProcessed, h.bytesProcessed))];
    assert h.parent == Some(h.timer) ==> r[h.timer].exclusiveTime == ts[h.timer].exclusiveTime by {
      if h.parent == Some(h.timer) {
        WrapInner(ts[h.timer].exclusiveTime - elapsed, elapsed);
      }
    }
    r
  }

  /** The sum of all exclusive times, as an unbounded integer. */
  function ExclusiveTotal(ts: seq<Timer>): int
  {
    if ts == [] then 0 else ExclusiveTotal(ts[..|ts| - 1]) + ts[|ts| - 1].exclusiveTime
  }

  lemma {:induction false} ExclusiveTotalUpdate(ts: seq<Timer>, i: nat, t: Timer)
    requires i < |ts|
    ensures ExclusiveTotal(ts[i := t]) == ExclusiveTotal(ts) - ts[i].exclusiveTime + t.exclusiveTime
    decreases |ts|
  {
    var n := |ts| - 1;
    assert ts[i := t][..n] == if i < n then ts[..n][i := t] else ts[..n];
    if i < n {
      ExclusiveTotalUpdate(ts[..n], i, t);
    }
  }

  lemma {:induction false} ExclusiveTotalZero(ts: seq<Timer>)
    requires forall k :: 0 <= k < |ts| ==> ts[k] == ZERO_TIMER
    ensures ExclusiveTotal(ts) == 0
    decreases |ts|
  {
    if ts != [] {
      ExclusiveTotalZero(ts[..|ts| - 1]);
    }
  }

  /** A completion with a parent moves cycles from the parent to the child and
      leaves the sum of all exclusive times unchanged modulo 2^64; a completion
      without one adds exactly its elapsed cycles. */
  lemma CompletionConservesExclusive(ts: seq<Timer>, h: ScopedTimer, stop: u64)
    requires Fits(ts, h)
    ensures Wrap(ExclusiveTotal(Completed(ts, h, stop))) ==
      if h.parent.Some? then Wrap(ExclusiveTotal(ts))
      else WrapAdd(Wrap(ExclusiveTotal(ts)), Elapsed(h, stop))
  {
    if h.parent.None? {
      TopLevelCompletion(ts, h, stop);
    } else if h.parent.value == h.timer {
      var r := Completed(ts, h, stop);
      assert r == ts[h.timer := r[h.timer]];
      ExclusiveTotalUpdate(ts, h.timer, r[h.timer]);
    } else {
      ChildCompletion(ts, h, stop);
    }
  }

  lemma TopLevelCompletion(ts: seq<Timer>, h: ScopedTimer, stop: u64)
    requires Fits(ts, h) && h.parent.None?
    ensures Wrap(ExclusiveTotal(Completed(ts, h, stop))) == WrapAdd(Wrap(ExclusiveTotal(ts)), Elapsed(h, stop))
  {
    var e := Elapsed(h, stop);
    var r := Completed(ts, h, stop);
    var i := h.timer;
    assert r == ts[i := r[i]];
    ExclusiveTotalUpdate(ts, i, r[i]);
    AddCycles(ExclusiveTotal(ts), ts[i].exclusiveTime, e, ExclusiveTotal(r));
  }

  /** Replacing one summand `x` of `total` by `Wrap(x + e)` adds `e` modulo 2^64. */
  lemma AddCycles(total: int, x: int, e: u64, result: int)
    requires result == total - x + Wrap(x + e)
    ensures Wrap(result) == WrapAdd(Wrap(total), e)
  {
    WrapInner(x + e, total - x);
    assert Wrap(x + e) + (total - x) == result;
    assert x + e + (total - x) == total + e;
    WrapInner(total, e);
  }

  lemma ChildCompletion(ts: seq<Timer>, h: ScopedTimer, stop: u64)
    requires Fits(ts, h) && h.parent.Some? && h.parent.value != h.timer
    ensures Wrap(ExclusiveTotal(Completed(ts, h, stop))) == Wrap(ExclusiveTotal(ts))
  {
    var e := Elapsed(h, stop);
    var r := Completed(ts, h, stop);
    var i := h.timer;
    var p := h.parent.value;
    var mid := ts[p := r[p]];
    assert r == mid[i := r[i]];
    ExclusiveTotalUpdate(ts, p, r[p]);
    ExclusiveTotalUpdate(mid, i, r[i]);
    MoveCycles(ExclusiveTotal(ts), ts[p].exclusiveTime, ts[i].exclusiveTime, e,
      ExclusiveTotal(mid), ExclusiveTotal(r));
  }

  /** Taking `e` from one summand and giving it to another, each wrapped,
      leaves the wrapped sum alone. */
  lemma MoveCycles(total: int, xp: int, xi: int, e: int, mid: int, result: int)
    requires mid == total - xp + Wrap(xp - e)
    requires result == mid - xi + Wrap(xi + e)
    ensures Wrap(result) == Wrap(total)
  {
    var rest := total - xp - xi;
    WrapInner(xp - e, rest + Wrap(xi + e));
    assert xp - e + (rest + Wrap(xi + e)) == Wrap(xi + e) + (xp - e + rest);
    WrapInner(xi + e, xp - e + rest);
    assert xi + e + (xp - e + rest) == total;
    assert Wrap(xp - e) + (rest + Wrap(xi + e)) == result;
  }

  /** The inclusive time a completion leaves behind depends only on its own
      handle, not on what nested completions wrote there before it. */
  lemma InclusiveOverwritten(ts: seq<Timer>, ts': seq<Timer>, h: ScopedTimer, stop: u64)
    requires Fits(ts, h) && Fits(ts', h)
    ensures Completed(ts, h, stop)[h.timer].inclusiveTime == Completed(ts', h, stop)[h.timer].inclusiveTime
  {
  }

  /** Every handle of a nest fits the table. */
  predicate AllFit(ts: seq<Timer>, hs: seq<ScopedTimer>)
  {
    forall k :: 0 <= k < |hs| ==> Fits(ts, hs[k])
  }

  /** Handles opened in the order `hs[0], hs[1], ...`, each inside the one
      before, dropped innermost first (`stops[k]` is the cycle at which `hs[k]`
      is dropped): the table once the outermost handle is dropped. */
  function CloseNested(ts: seq<Timer>, hs: seq<ScopedTimer>, stops: seq<u64>): (r: seq<Timer>)
    requires |hs| == |stops|
    requires AllFit(ts, hs)
    ensures |r| == |ts|
  {
    if hs == [] then ts
    else
      var inner := CloseNested(ts, hs[1..], stops[1..]);
      Completed(inner, hs[0], stops[0])
  }

  /** Each handle inside the outermost one was opened while the one before it
      was the current parent. */
  predicate Nested(hs: seq<ScopedTimer>)
  {
    forall k :: 0 < k < |hs| ==> hs[k].parent == Some(hs[k - 1].timer)
  }

  /** Self-recursion: when one region enters itself `|hs|` levels deep, its hits
      grow by `|hs|`, its inclusive time is the outermost snapshot plus the
      outermost elapsed cycles (not the sum over the levels), and its exclusive
      time grows by the outermost elapsed cycles only, unless the outermost call
      itself ran inside the region. No other entry but the outermost parent changes. */
  lemma {:induction false} SelfRecursion(ts: seq<Timer>, hs: seq<ScopedTimer>, stops: seq<u64>, i: nat)
    requires |hs| == |stops| >= 1
    requires AllFit(ts, hs)
    requires forall k :: 0 <= k < |hs| ==> hs[k].timer == i
    requires Nested(hs)
    ensures CloseNested(ts, hs, stops)[i].hits == Wrap(ts[i].hits + |hs|)
    ensures CloseNested(ts, hs, stops)[i].inclusiveTime == WrapAdd(hs[0].oldInclusiveTime, Elapsed(hs[0], stops[0]))
    ensures CloseNested(ts, hs, stops)[i].exclusiveTime ==
      if hs[0].parent == Some(i) then ts[i].exclusiveTime
      else WrapAdd(ts[i].exclusiveTime, Elapsed(hs[0], stops[0]))
    ensures forall j :: 0 <= j < |ts| && j != i && hs[0].parent != Some(j) ==> CloseNested(ts, hs, stops)[j] == ts[j]
    decreases |hs|
  {
    assert hs[0].timer == i && Fits(ts, hs[0]);
    SelfRecursionHits(ts, hs, stops, i);
    var inner := CloseNested(ts, hs[1..], stops[1..]);
    if |hs| == 1 {
      assert inner == ts;
    } else {
      forall k | 0 < k < |hs[1..]| ensures hs[1..][k].parent == Some(hs[1..][k - 1].timer) {
        assert hs[1..][k] == hs[k + 1];
      }
      SelfRecursion(ts, hs[1..], stops[1..], i);
      assert hs[1].parent == Some(hs[0].timer);
    }
  }

  /** Each level of a self-recursive nest adds one hit. */
  lemma {:induction false} SelfRecursionHits(ts: seq<Timer>, hs: seq<ScopedTimer>, stops: seq<u64>, i: nat)
    requires |hs| == |stops|
    requires AllFit(ts, hs)
    requires forall k :: 0 <= k < |hs| ==> hs[k].timer == i
    requires i < |ts|
    ensures CloseNested(ts, hs, stops)[i].hits == Wrap(ts[i].hits + |hs|)
    decreases |hs|
  {
    if hs != [] {
      var inner := CloseNested(ts, hs[1..], stops[1..]);
      SelfRecursionHits(ts, hs[1..], stops[1..], i);
      var prior := ts[i].hits + |hs[1..]|;
      assert hs[0].timer == i && Fits(inner, hs[0]);
      OneMoreHit(inner, hs[0], stops[0], prior);
      assert prior + 1 == ts[i].hits + |hs|;
    }
  }

  /** A completion adds one hit to its region's count. */
  lemma OneMoreHit(ts: seq<Timer>, h: ScopedTimer, stop: u64, count: int)
    requires Fits(ts, h) && ts[h.timer].hits == Wrap(count)
    ensures Completed(ts, h, stop)[h.timer].hits == Wrap(count + 1)
  {
    WrapAddStep(count, ts[h.timer].hits, 1);
  }

  /** Any nesting (chains, siblings, mutual recursion): once a parentless region
      is dropped after handles that all had a parent, the sum of all exclusive
      times has grown by exactly the parentless region's elapsed cycles, modulo 2^64. */
  lemma {:induction false} NestedConservesExclusive(ts: seq<Timer>, hs: seq<ScopedTimer>, stops: seq<u64>)
    requires |hs| == |stops| >= 1
    requires AllFit(ts, hs)
    requires hs[0].parent.None? && forall k :: 0 < k < |hs| ==> hs[k].parent.Some?
    ensures Wrap(ExclusiveTotal(CloseNested(ts, hs, stops))) ==
      WrapAdd(Wrap(ExclusiveTotal(ts)), Elapsed(hs[0], stops[0]))
  {
    forall k | 0 <= k < |hs[1..]| ensures hs[1..][k].parent.Some? {
      assert hs[1..][k] == hs[k + 1];
    }
    InnerConservesExclusive(ts, hs[1..], stops[1..]);
    CompletionConservesExclusive(CloseNested(ts, hs[1..], stops[1..]), hs[0], stops[0]);
  }

  /** Completions that all have a parent leave the exclusive sum unchanged. */
  lemma {:induction false} InnerConservesExclusive(ts: seq<Timer>, hs: seq<ScopedTimer>, stops: seq<u64>)
    requires |hs| == |stops|
    requires AllFit(ts, hs)
    requires forall k :: 0 <= k < |hs| ==> hs[k].parent.Some?
    ensures Wrap(ExclusiveTotal(CloseNested(ts, hs, stops))) == Wrap(ExclusiveTotal(ts))
    decreases |hs|
  {
    if hs != [] {
      InnerConservesExclusive(ts, hs[1..], stops[1..]);
      CompletionConservesExclusive(CloseNested(ts, hs[1..], stops[1..]), hs[0], stops[0]);
    }
  }
}
