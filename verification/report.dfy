/** The integer part of `Profiler::print` (src/lib.rs): the width of the name
    column, which regions are listed and in what order, and the "Remainder"
    cycles not covered by any listed region. Percentages, throughput and the
    text layout are floating point and formatting and are not modelled. */
module Report {
  import opened Wrapping
  import opened Outcomes
  import opened Timing
  import opened EnumIndex

  const REMAINING_TIME_LABEL: string := "Remainder"

  /** The cap on the name column. */
  const MAX_NAME_WIDTH: nat := 60

  /** The integer fields of a `TimerResult`: the (truncated) region name, its
      hits and its exclusive cycles. */
  datatype Row = Row(name: string, hits: u64, exclusiveTime: u64)

  /** What `print` computes: the total span, the name-column width, the rows in
      the order they are printed, the regions never hit, and the Remainder. */
  datatype Summary = Summary(
    totalTime: u64,
    nameWidth: nat,
    rows: seq<Row>,
    notHit: seq<nat>,
    remainder: i64)

  function Max(a: nat, b: nat): nat { if a < b then b else a }

  function Min(a: nat, b: nat): nat { if a < b then a else b }

  // ---------------------------------------------------------------- name column

  /** The length of the longest of the first `n` variant names (0 for none). */
  function LongestName(names: seq<string>, n: nat): (r: nat)
    requires n <= |names|
    ensures forall k :: 0 <= k < n ==> |names[k]| <= r
    ensures n == 0 ==> r == 0
    ensures n > 0 ==> exists k :: 0 <= k < n && |names[k]| == r
  {
    if n == 0 then 0 else Max(LongestName(names, n - 1), |names[n - 1]|)
  }

  /** The name-column width: as wide as "Remainder" or the longest variant
      name, whichever is wider, but never wider than 60. */
  function NameWidth(names: seq<string>): (r: nat)
    ensures |REMAINING_TIME_LABEL| <= r <= MAX_NAME_WIDTH
    ensures forall k :: 0 <= k < |names| ==> Min(|names[k]|, MAX_NAME_WIDTH) <= r
    ensures r == |REMAINING_TIME_LABEL|
         || (r == MAX_NAME_WIDTH && exists k :: 0 <= k < |names| && |names[k]| >= MAX_NAME_WIDTH)
         || exists k :: 0 <= k < |names| && |names[k]| == r
  {
    Min(MAX_NAME_WIDTH, Max(|REMAINING_TIME_LABEL|, LongestName(names, |names|)))
  }

  /** The loop of src/lib.rs that widens `variant_length` over every variant
      that `try_from` accepts, capping it at 60 on every step. */
  method NameColumnWidth(names: seq<string>) returns (width: nat)
    requires |names| <= DUMMY_INDEX
    ensures width == NameWidth(names)
  {
    width := |REMAINING_TIME_LABEL|;
    for i := 0 to |names|
      invariant width == Min(MAX_NAME_WIDTH, Max(|REMAINING_TIME_LABEL|, LongestName(names, i)))
    {
      match TryFrom(|names|, i)
      case Done(Ok(variant)) =>
        width := Min(Max(width, |names[variant]|), MAX_NAME_WIDTH);
      case _ =>
    }
  }

  /** `name[..name.len().min(width)]`. */
  function Truncate(name: string, width: nat): (r: string)
    ensures |r| == Min(|name|, width) && r <= name
    ensures |name| <= width ==> r == name
  {
    name[..Min(|name|, width)]
  }

  // ---------------------------------------------------------------- partition

  /** Indexes below `n` of the regions never hit, in increasing order. */
  function NotHitIndices(ts: seq<Timer>, n: nat): seq<nat>
    requires n <= |ts|
  {
    if n == 0 then [] else NotHitIndices(ts, n - 1) + (if ts[n - 1].hits == 0 then [n - 1] else [])
  }

  /** Indexes below `n` of the regions hit at least once, in increasing order. */
  function HitIndices(ts: seq<Timer>, n: nat): seq<nat>
    requires n <= |ts|
  {
    if n == 0 then [] else HitIndices(ts, n - 1) + (if ts[n - 1].hits == 0 then [] else [n - 1])
  }

  /** The row that `print` builds for region `i`. */
  function RowOf(ts: seq<Timer>, names: seq<string>, width: nat, i: nat): Row
    requires i < |ts| == |names|
  {
    Row(Truncate(names[i], width), ts[i].hits, ts[i].exclusiveTime)
  }

  /** The rows for the hit regions below `n`, in index order (before sorting). */
  function HitRows(ts: seq<Timer>, names: seq<string>, width: nat, n: nat): seq<Row>
    requires n <= |ts| == |names|
  {
    if n == 0 then []
    else HitRows(ts, names, width, n - 1) + (if ts[n - 1].hits == 0 then [] else [RowOf(ts, names, width, n - 1)])
  }

  /** The sum of the exclusive times of the hit regions below `n`. */
  function HitExclusive(ts: seq<Timer>, n: nat): int
    requires n <= |ts|
  {
    if n == 0 then 0 else HitExclusive(ts, n - 1) + (if ts[n - 1].hits == 0 then 0 else ts[n - 1].exclusiveTime)
  }

  predicate Increasing(s: seq<nat>)
  {
    forall a, b :: 0 <= a < b < |s| ==> s[a] < s[b]
  }

  /** Every region below `n` lands in exactly one of the two lists, according to
      whether it was hit; both lists are in increasing index order, and the
      unsorted rows are those of the hit regions, one per index. */
  lemma Partition(ts: seq<Timer>, names: seq<string>, width: nat, n: nat)
    requires n <= |ts| == |names|
    ensures var hit, notHit := HitIndices(ts, n), NotHitIndices(ts, n);
      && |hit| + |notHit| == n
      && Increasing(hit) && Increasing(notHit)
      && (forall i :: 0 <= i < n ==> (i in hit <==> ts[i].hits != 0))
      && (forall i :: 0 <= i < n ==> (i in notHit <==> ts[i].hits == 0))
      && (forall k :: 0 <= k < |hit| ==> hit[k] < n)
      && |HitRows(ts, names, width, n)| == |hit|
      && (forall k :: 0 <= k < |hit| ==> HitRows(ts, names, width, n)[k] == RowOf(ts, names, width, hit[k]))
  {
    HitSide(ts, n);
    NotHitSide(ts, n);
    RowsFollowHits(ts, names, width, n);
  }

  /** The indexes below `n` of one side of the partition: increasing, below
      `n`, and exactly those whose hit count is (or is not) zero. */
  predicate Side(ts: seq<Timer>, n: nat, side: seq<nat>, hit: bool)
    requires n <= |ts|
  {
    && Increasing(side)
    && (forall k :: 0 <= k < |side| ==> side[k] < n)
    && (forall i :: 0 <= i < n ==> (i in side <==> (ts[i].hits != 0) == hit))
  }

  lemma {:induction false} HitSide(ts: seq<Timer>, n: nat)
    requires n <= |ts|
    ensures Side(ts, n, HitIndices(ts, n), true)
    ensures |HitIndices(ts, n)| + |NotHitIndices(ts, n)| == n
  {
    if n > 0 {
      HitSide(ts, n - 1);
      SideStep(ts, n, HitIndices(ts, n - 1), HitIndices(ts, n), true);
    }
  }

  lemma {:induction false} NotHitSide(ts: seq<Timer>, n: nat)
    requires n <= |ts|
    ensures Side(ts, n, NotHitIndices(ts, n), false)
  {
    if n > 0 {
      NotHitSide(ts, n - 1);
      SideStep(ts, n, NotHitIndices(ts, n - 1), NotHitIndices(ts, n), false);
    }
  }

  /** Extending a side by index `n - 1` when it belongs there. */
  lemma SideStep(ts: seq<Timer>, n: nat, prev: seq<nat>, next: seq<nat>, hit: bool)
    requires 0 < n <= |ts|
    requires Side(ts, n - 1, prev, hit)
    requires next == prev + (if (ts[n - 1].hits != 0) == hit then [n - 1] else [])
    ensures Side(ts, n, next, hit)
  {
    if (ts[n - 1].hits != 0) == hit {
      forall a, b | 0 <= a < b < |next| ensures next[a] < next[b] {
        if b < |prev| {
          assert next[a] == prev[a] && next[b] == prev[b];
        } else {
          assert next[a] == prev[a];
        }
      }
      forall i | 0 <= i < n ensures i in next <==> (ts[i].hits != 0) == hit {
        assert i in next <==> i in prev || i == n - 1;
        if i in prev {
          var k :| 0 <= k < |prev| && prev[k] == i;
        }
      }
    } else {
      assert next == prev;
      forall i | 0 <= i < n ensures i in next <==> (ts[i].hits != 0) == hit {
        if i in prev {
          var k :| 0 <= k < |prev| && prev[k] == i;
        }
      }
    }
  }

  /** The unsorted rows below `n` are those of the hit regions, one per index. */
  predicate RowsMatch(ts: seq<Timer>, names: seq<string>, width: nat, n: nat)
    requires n <= |ts| == |names|
  {
    var hit, rows := HitIndices(ts, n), HitRows(ts, names, width, n);
    && |rows| == |hit|
    && forall k :: 0 <= k < |hit| ==> hit[k] < n && rows[k] == RowOf(ts, names, width, hit[k])
  }

  lemma {:induction false} RowsFollowHits(ts: seq<Timer>, names: seq<string>, width: nat, n: nat)
    requires n <= |ts| == |names|
    ensures RowsMatch(ts, names, width, n)
  {
    if n > 0 {
      RowsFollowHits(ts, names, width, n - 1);
      RowsStep(ts, names, width, n);
    }
  }

  lemma RowsStep(ts: seq<Timer>, names: seq<string>, width: nat, n: nat)
    requires 0 < n <= |ts| == |names|
    requires RowsMatch(ts, names, width, n - 1)
    ensures RowsMatch(ts, names, width, n)
  {
    var prev, rows := HitIndices(ts, n - 1), HitRows(ts, names, width, n - 1);
    var hit, all := HitIndices(ts, n), HitRows(ts, names, width, n);
    if ts[n - 1].hits == 0 {
      assert hit == prev && all == rows;
    } else {
      assert hit == prev + [n - 1];
      assert all == rows + [RowOf(ts, names, width, n - 1)];
      forall k | 0 <= k < |hit| ensures hit[k] < n && all[k] == RowOf(ts, names, width, hit[k]) {
        if k < |prev| {
          assert hit[k] == prev[k] && all[k] == rows[k];
        }
      }
    }
  }

  /** The loop over the timer table: indexes of regions never hit go to
      `notHit`, every other region gets a row and its exclusive time is
      subtracted from the isize `other`, which starts at the total span. */
  method Tabulate(ts: seq<Timer>, names: seq<string>, width: nat, total: u64)
    returns (notHit: seq<nat>, results: seq<Row>, other: i64)
    requires |ts| == |names| <= DUMMY_INDEX
    ensures notHit == NotHitIndices(ts, |ts|)
    ensures results == HitRows(ts, names, width, |ts|)
    ensures other == WrapSigned(total - HitExclusive(ts, |ts|))
  {
    other := AsSigned(total);
    notHit := [];
    results := [];
    for i := 0 to |ts|
      invariant notHit == NotHitIndices(ts, i)
      invariant results == HitRows(ts, names, width, i)
      invariant other == Remainder(total, ts, i)
    {
      var timer := ts[i];
      if timer.hits == 0 {
        notHit := notHit + [i];
        continue;
      }
      other := WrapSigned(other - AsSigned(timer.exclusiveTime));
      var variant := TryFrom(|names|, i).value.value;
      var name := Truncate(names[variant], width);
      results := results + [Row(name, timer.hits, timer.exclusiveTime)];
    }
    RemainderWraps(total, ts, |ts|);
  }

  /** The isize `other` after the first `n` regions: the span, less the
      exclusive time of each hit region, one wrapping subtraction at a time. */
  function Remainder(total: u64, ts: seq<Timer>, n: nat): i64
    requires n <= |ts|
  {
    if n == 0 then AsSigned(total)
    else if ts[n - 1].hits == 0 then Remainder(total, ts, n - 1)
    else WrapSigned(Remainder(total, ts, n - 1) - AsSigned(ts[n - 1].exclusiveTime))
  }

  /** Subtracting one region at a time with wrap-around ends where one unbounded
      subtraction of their sum, wrapped once, does. */
  lemma {:induction false} RemainderWraps(total: u64, ts: seq<Timer>, n: nat)
    requires n <= |ts|
    ensures Remainder(total, ts, n) == WrapSigned(total - HitExclusive(ts, n))
  {
    if n > 0 {
      RemainderWraps(total, ts, n - 1);
      RemainderStep(total, ts, n);
    }
  }

  lemma {:induction false} RemainderStep(total: u64, ts: seq<Timer>, n: nat)
    requires 0 < n <= |ts|
    requires Remainder(total, ts, n - 1) == WrapSigned(total - HitExclusive(ts, n - 1))
    ensures Remainder(total, ts, n) == WrapSigned(total - HitExclusive(ts, n))
  {
    var acc := Remainder(total, ts, n - 1);
    var before := total - HitExclusive(ts, n - 1);
    var after := total - HitExclusive(ts, n);
    if ts[n - 1].hits == 0 {
      assert after == before;
    } else {
      var e := ts[n - 1].exclusiveTime;
      assert Remainder(total, ts, n) == WrapSigned(acc - AsSigned(e));
      SignedSubStep(acc, before, e, after);
    }
  }

  /** When every region never hit has no exclusive time, the listed exclusive
      times are all the exclusive time there is. */
  lemma {:induction false} HitExclusiveIsTotal(ts: seq<Timer>, n: nat)
    requires n <= |ts|
    requires forall k :: 0 <= k < n && ts[k].hits == 0 ==> ts[k].exclusiveTime == 0
    ensures HitExclusive(ts, n) == ExclusiveTotal(ts[..n])
  {
    if n > 0 {
      HitExclusiveIsTotal(ts, n - 1);
      assert ts[..n][..n - 1] == ts[..n - 1];
    }
  }

  /** When the true difference between the span and the listed exclusive times
      fits an isize, the Remainder is exactly that difference. */
  lemma RemainderExact(total: u64, ts: seq<Timer>)
    requires -TWO_63 <= total - HitExclusive(ts, |ts|) < TWO_63
    ensures WrapSigned(total - HitExclusive(ts, |ts|)) == total - HitExclusive(ts, |ts|)
  {
  }

  // ---------------------------------------------------------------- ordering

  predicate Ascending(s: seq<Row>)
  {
    forall a, b :: 0 <= a < b < |s| ==> s[a].exclusiveTime <= s[b].exclusiveTime
  }

  predicate Descending(s: seq<Row>)
  {
    forall a, b :: 0 <= a < b < |s| ==> s[a].exclusiveTime >= s[b].exclusiveTime
  }

  /** The rows whose exclusive time is `key`, in their order in `s`. */
  function WithKey(s: seq<Row>, key: u64): seq<Row>
  {
    if s == [] then [] else (if s[0].exclusiveTime == key then [s[0]] else []) + WithKey(s[1..], key)
  }

  /** Inserting `x` before the first row whose key is at least its own. */
  function Insert(x: Row, s: seq<Row>): seq<Row>
  {
    if s == [] || x.exclusiveTime <= s[0].exclusiveTime then [x] + s
    else [s[0]] + Insert(x, s[1..])
  }

  /** `results.sort_by_key(|timer| timer.exclusive_time)`: the standard
      library's stable sort, here as an insertion sort. */
  function SortByExclusive(s: seq<Row>): seq<Row>
  {
    if s == [] then [] else Insert(s[0], SortByExclusive(s[1..]))
  }

  /** `results.iter().rev()`. */
  function Reverse(s: seq<Row>): (r: seq<Row>)
    ensures |r| == |s|
    ensures forall k :: 0 <= k < |s| ==> r[k] == s[|s| - 1 - k]
  {
    if s == [] then [] else [s[|s| - 1]] + Reverse(s[..|s| - 1])
  }

  lemma WithKeyCons(x: Row, s: seq<Row>, key: u64)
    ensures WithKey([x] + s, key) == (if x.exclusiveTime == key then [x] else []) + WithKey(s, key)
  {
    assert ([x] + s)[1..] == s;
  }

  lemma {:induction false} InsertSorts(x: Row, s: seq<Row>)
    requires Ascending(s)
    ensures Ascending(Insert(x, s))
    ensures multiset(Insert(x, s)) == multiset(s) + multiset{x}
    ensures forall key :: WithKey(Insert(x, s), key) == WithKey([x] + s, key)
  {
    InsertPermutes(x, s);
    InsertAscending(x, s);
    InsertKeepsKeyOrder(x, s);
  }

  lemma {:induction false} InsertPermutes(x: Row, s: seq<Row>)
    ensures multiset(Insert(x, s)) == multiset(s) + multiset{x}
    decreases |s|
  {
    if s != [] && x.exclusiveTime > s[0].exclusiveTime {
      InsertPermutes(x, s[1..]);
      assert s == [s[0]] + s[1..];
    }
  }

  lemma {:induction false} InsertAscending(x: Row, s: seq<Row>)
    requires Ascending(s)
    ensures Ascending(Insert(x, s))
    decreases |s|
  {
    if s != [] && x.exclusiveTime > s[0].exclusiveTime {
      var tail := Insert(x, s[1..]);
      InsertAscending(x, s[1..]);
      InsertPermutes(x, s[1..]);
      forall b | 0 <= b < |tail| ensures s[0].exclusiveTime <= tail[b].exclusiveTime {
        assert tail[b] in multiset(tail);
        if tail[b] != x {
          assert tail[b] in multiset(s[1..]);
          var j :| 0 <= j < |s[1..]| && s[1..][j] == tail[b];
          assert s[1..][j] == s[j + 1];
        }
      }
      assert Insert(x, s) == [s[0]] + tail;
    }
  }

  lemma {:induction false} InsertKeepsKeyOrder(x: Row, s: seq<Row>)
    requires Ascending(s)
    ensures forall key :: WithKey(Insert(x, s), key) == WithKey([x] + s, key)
    decreases |s|
  {
    if s != [] && x.exclusiveTime > s[0].exclusiveTime {
      var tail := Insert(x, s[1..]);
      InsertKeepsKeyOrder(x, s[1..]);
      assert s == [s[0]] + s[1..];
      forall key ensures WithKey(Insert(x, s), key) == WithKey([x] + s, key) {
        WithKeyCons(s[0], tail, key);
        WithKeyCons(x, s[1..], key);
        WithKeyCons(s[0], s[1..], key);
        WithKeyCons(x, s, key);
      }
    }
  }

  /** The sort yields the rows in ascending order of exclusive time, as a
      permutation of its input that keeps rows with equal keys in their
      original order (stability). */
  lemma {:induction false} SortIsStable(s: seq<Row>)
    ensures Ascending(SortByExclusive(s))
    ensures multiset(SortByExclusive(s)) == multiset(s)
    ensures forall key :: WithKey(SortByExclusive(s), key) == WithKey(s, key)
    decreases |s|
  {
    if s != [] {
      SortIsStable(s[1..]);
      InsertSorts(s[0], SortByExclusive(s[1..]));
      assert s == [s[0]] + s[1..];
      forall key ensures WithKey(SortByExclusive(s), key) == WithKey(s, key) {
        WithKeyCons(s[0], SortByExclusive(s[1..]), key);
        WithKeyCons(s[0], s[1..], key);
      }
    }
  }

  /** The printed order: every row of the input exactly once, largest
      exclusive time first. */
  lemma PrintedOrder(s: seq<Row>)
    ensures Descending(Reverse(SortByExclusive(s)))
    ensures multiset(Reverse(SortByExclusive(s))) == multiset(s)
  {
    SortIsStable(s);
    ReverseDescends(SortByExclusive(s));
    ReverseSameMultiset(SortByExclusive(s));
  }

  lemma ReverseDescends(s: seq<Row>)
    requires Ascending(s)
    ensures Descending(Reverse(s))
  {
    var r := Reverse(s);
    forall a, b | 0 <= a < b < |r| ensures r[a].exclusiveTime >= r[b].exclusiveTime {
      assert r[a] == s[|s| - 1 - a] && r[b] == s[|s| - 1 - b];
    }
  }

  lemma {:induction false} ReverseSameMultiset(s: seq<Row>)
    ensures multiset(Reverse(s)) == multiset(s)
    decreases |s|
  {
    if s != [] {
      ReverseSameMultiset(s[..|s| - 1]);
      assert s == s[..|s| - 1] + [s[|s| - 1]];
    }
  }
}
