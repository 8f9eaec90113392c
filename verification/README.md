# timeloop, modelled in Dafny

timeloop is a Rust profiling crate. Code regions are the variants of an enum. The
`create_profiler!` macro gives each program one table of `Timer` records, one per
variant, together with a "current parent" slot. Entering a region creates a
scoped handle. Dropping the handle charges the elapsed cycles to the region as
exclusive time and takes them away from the enclosing region. `Profiler::print`
then lists the hit regions, largest exclusive time first, followed by a
"Remainder" row for the cycles no region covers. A separate repetition tester
times a workload again and again. It keeps count, totals, the minimum and the
maximum of the trials, and it extends its wall-clock window whenever a trial
sets a new minimum.

The model has one module per concern:

- `Wrapping`: u64 and isize arithmetic as the crate gets it in a release build, that is wrapping modulo 2^64.
- `EnumIndex`: the `Into<usize>` and `TryFrom<usize>` that `impl_enum!` generates.
- `Timing`: the `Timer` record, the scoped handle, and the table update on drop as a function on values (`Completed`). It holds the accounting lemmas for completions, self-recursion and nested recursion.
- `Profiling`: the class `Profiler`. It owns the table (an `array<Timer>`), `start_time` and the parent slot. Its methods enter regions, drop handles and print.
  - Handles must be dropped in LIFO order. A ghost stack of live handles carries that requirement.
  - The ghost state also tracks the cycles of the top-level regions and the set of completed regions.
  - The class invariant `Consistent` says the wrapped sum of all exclusive times equals the top-level cycles, and that a region never entered has exclusive time 0.
- `Report`: the integer part of `print`. That is the name-column width, the hit/not-hit partition, the rows, the stable sort and its reversal, and the isize Remainder.
- `PageFaults`: the field extraction of `get_page_faults` over the bytes of the status file.
- `Repetition`: `TestResults` and the class `RepetitionTester`. A ghost list of folded trials gives the meaning of `results`.
- `Outcomes`: `Option`, `Result`, and `Outcome`, which stands for a value or a panic.

Cycle readings, page-fault readings and wall-clock instants are parameters of the methods that take them.

The Remainder that `print` reports equals the span less the cycles of the
top-level regions only modulo 2^64. It also holds only once every handle is
dropped and no hit counter has wrapped back to 0 (`RemainderAccounting`).

## Model

| member | source | states |
|---|---|---|
| EnumIndex.Into | src/macros.rs:23-27 | `self as usize`: the variant's declaration position; `RoundTrip` proves `try_from` inverts it |
| EnumIndex.FindVariant | src/macros.rs:38-42 | the `else if` chain finds a variant exactly when the value is the position of one declared from `from` on, and that variant is the value itself |
| EnumIndex.TryFrom | src/macros.rs:29-47 | panics exactly on 0x1337_1337_1337_1337; gives `Ok(v)` exactly when the value is not the dummy and is below the variant count, with `v` the value; gives `Err("Unknown value")` exactly for every other value |
| EnumIndex.RoundTrip | src/macros.rs:23-47 | `try_from(into(v)) == Ok(v)` for every variant of an enum with fewer variants than the dummy index, and `into(v)` fits a usize |
| Wrapping.WrapAdd | src/macros.rs:135 | the u64 sum, less 2^64 when it overflows |
| Wrapping.WrapSub | src/macros.rs:123 | the u64 difference, plus 2^64 when it would be negative |
| Wrapping.AsSigned | src/lib.rs:158 | `as isize` keeps the bit pattern: the result is congruent to the u64 modulo 2^64 |
| Wrapping.WrapSigned | src/lib.rs:183 | the isize congruent to an integer, equal to it whenever it fits |
| Wrapping.SubThenAdd | src/repitition_tester.rs:228-238 | `wrapping_sub` of a start reading followed by `wrapping_add` of a stop reading advances the accumulator by the wrapped difference of the readings |
| Wrapping.SignedSubStep | src/lib.rs:183 | one `other -= e as isize` keeps the isize accumulator congruent to the unbounded difference |
| Timing.Elapsed | src/macros.rs:122-123 | `stop_time - self.start_time`, wrapping: the plain difference when the stop reading is not below the start, and in every case the start reading plus the result wraps to the stop reading |
| Timing.Completed | src/macros.rs:112-146 | dropping a handle changes only its own region and its parent: the parent's exclusive time loses the elapsed cycles; the region's exclusive time gains them (net unchanged when the parent is the region itself), its inclusive time becomes snapshot plus elapsed, its hits grow by one and its bytes by the handle's; every other entry is unchanged |
| Timing.ExclusiveTotalZero | src/lib.rs:109-119 | a table of zero records has exclusive sum 0 |
| Timing.CompletionConservesExclusive | src/macros.rs:126-135 | a completion with a parent leaves the sum of all exclusive times unchanged modulo 2^64; one without a parent adds exactly its elapsed cycles |
| Timing.TopLevelCompletion | src/macros.rs:132-135 | a parentless completion adds its elapsed cycles to the wrapped exclusive sum |
| Timing.ChildCompletion | src/macros.rs:126-135 | a completion whose parent is another region moves cycles between two summands and leaves the wrapped exclusive sum alone |
| Timing.InclusiveOverwritten | src/macros.rs:138 | the inclusive time left by a completion depends only on its handle, whatever nested completions wrote there before |
| Timing.SelfRecursion | src/macros.rs:112-146 | a region that enters itself `n` levels deep gains `n` hits; it ends with the outermost snapshot plus the outermost elapsed cycles as inclusive time; its exclusive time grows by the outermost elapsed cycles only (or not at all when the outermost call ran inside the region); only the outermost parent's entry also changes |
| Timing.SelfRecursionHits | src/macros.rs:144 | each level of a self-recursive nest adds one hit, modulo 2^64 |
| Timing.OneMoreHit | src/macros.rs:144 | a completion adds one hit to a count tracked modulo 2^64 |
| Timing.NestedConservesExclusive | src/macros.rs:126-135 | when a parentless handle is dropped after any handles that all had a parent (nested chains, siblings one after another, mutual recursion), the exclusive sum has grown by exactly the parentless handle's elapsed cycles modulo 2^64 |
| Timing.InnerConservesExclusive | src/macros.rs:126-135 | completions that all have a parent leave the wrapped exclusive sum unchanged |
| Profiling.OpenKeepsConsistent | src/macros.rs:89-109 | pushing a handle whose parent is the current slot, and making its region the slot, keeps the table, chain and accounting consistent |
| Profiling.DropKeepsConsistent | src/macros.rs:112-146 | the last live handle addresses the table; after its completion the table, the shorter chain, the restored parent slot and the updated top-level cycles are consistent again |
| Profiling.RemainderAccounting | src/lib.rs:158-183 | with no live handle and no hit counter wrapped to 0, the Remainder is the total span less the top-level regions' cycles, modulo 2^64 |
| Profiling.Profiler.constructor | src/lib.rs:109-119 | `start_time` is 0, no parent, no live handle, and every record has zero exclusive, inclusive, hits and bytes; no top-level cycles and no completed region yet |
| Profiling.Profiler.Start | src/lib.rs:123-125 | `start_time` becomes the cycle reading, replacing any earlier one |
| Profiling.Profiler.Open | src/macros.rs:89-109 | the handle records the previous parent, the region's current inclusive time, the start reading and the bytes; the region becomes the parent; the live stack grows by the handle |
| Profiling.Profiler.Begin | src/macros.rs:81-83 | as `Open`, with 0 bytes |
| Profiling.Profiler.BeginWithBandwidth | src/macros.rs:85-87 | as `Open`, with the given byte count |
| Profiling.Profiler.End | src/macros.rs:112-146 | for the last live handle: the parent slot returns to the handle's parent, which is the slot before the matching `Open`; the table becomes `Completed` of the old table; the invariant is kept, with the top-level cycles advanced by the elapsed cycles when the handle had no parent |
| Profiling.Profiler.Record | src/macros.rs:119-144 | the in-place updates of the parent's and the region's records give exactly `Completed` of the old table |
| Profiling.Profiler.Print | src/lib.rs:128-258 | panics with "Profiler was not started." exactly when `start_time` is 0; otherwise gives the span, the name width, the hit rows sorted and reversed, the never-hit indexes, and the Remainder as the span less the hit regions' exclusive times (isize, wrapping); with every handle dropped and no hit counter wrapped, the Remainder is the span less the top-level cycles |
| Report.LongestName | src/lib.rs:141-148 | bounds every name length from above and is attained by one of them |
| Report.NameWidth | src/lib.rs:137-148 | between len("Remainder") and 60; at least every name length capped at 60; and equal to len("Remainder"), or to 60 when some name is at least 60 long, or to some name's length; together these make it min(60, max(len("Remainder"), longest name)) |
| Report.NameColumnWidth | src/lib.rs:137-148 | the loop over `try_from(i)` with the running max capped at 60 ends at `NameWidth` |
| Report.Truncate | src/lib.rs:210-211 | the prefix of the name whose length is the smaller of the name's length and the width, so the whole name when it fits |
| Report.Partition | src/lib.rs:169-221 | every index below `n` lands in exactly one list (not-hit when hits is 0, a row otherwise); both lists are in increasing index order; row `k` is the row of the `k`-th hit index |
| Report.HitSide | src/lib.rs:178-181 | the hit indexes are increasing and are exactly the indexes with nonzero hits; the two lists' lengths add up to `n` |
| Report.NotHitSide | src/lib.rs:178-180 | the not-hit indexes are increasing and are exactly the indexes with zero hits |
| Report.RowsFollowHits | src/lib.rs:210-220 | the unsorted rows are one per hit index, in that order |
| Report.Tabulate | src/lib.rs:158-221 | the loop yields the not-hit indexes, the rows of the hit regions, and `other` equal to the span less their exclusive times, wrapped to an isize |
| Report.Remainder | src/lib.rs:158-183 | the value of `other` after the loop has seen the first `n` regions: the span as an isize, less each hit region's exclusive time with isize wrap-around; `RemainderWraps` gives it in closed form |
| Report.RemainderWraps | src/lib.rs:158-183 | subtracting one exclusive time at a time with isize wrap-around ends where one unbounded subtraction of their sum, wrapped once, ends |
| Report.RemainderStep | src/lib.rs:183 | one subtraction step keeps the running Remainder equal to the wrapped unbounded difference |
| Report.HitExclusiveIsTotal | src/lib.rs:178-183 | when every never-hit region has exclusive time 0, the hit regions' exclusive times add up to the whole table's |
| Report.RemainderExact | src/lib.rs:183 | when the true difference fits an isize, the Remainder is that difference exactly |
| Report.Reverse | src/lib.rs:240 | same length, element `k` is element `len - 1 - k` of the input |
| Report.WithKeyCons | src/lib.rs:223 | the equal-key rows of a consed list are the head (when its key matches) followed by the tail's |
| Report.InsertPermutes | src/lib.rs:223 | inserting a row adds exactly that row to the multiset |
| Report.InsertAscending | src/lib.rs:223 | inserting into an ascending list keeps it ascending |
| Report.InsertKeepsKeyOrder | src/lib.rs:223 | inserting before the first row with a key at least as large puts the row ahead of every row with the same key, as if it were prepended |
| Report.InsertSorts | src/lib.rs:223 | the three properties of one insertion together |
| Report.SortByExclusive | src/lib.rs:223 | `sort_by_key` on exclusive time, as insertion sort on values; `SortIsStable` proves it ascending, a permutation and stable, which determines the result |
| Report.SortIsStable | src/lib.rs:223 | `sort_by_key` by exclusive time: ascending, a permutation, and for every key the rows with that key stay in their original order |
| Report.ReverseDescends | src/lib.rs:240 | reversing an ascending list gives a descending one |
| Report.ReverseSameMultiset | src/lib.rs:240 | reversing keeps the multiset |
| Report.PrintedOrder | src/lib.rs:223-240 | the printed rows are the input rows exactly once each, largest exclusive time first |
| PageFaults.Split | src/lib.rs:75 | splitting on spaces gives at least one piece |
| PageFaults.JoinSplit | src/lib.rs:75 | rejoining the pieces with single spaces gives the buffer back, and no piece contains a space |
| PageFaults.SplitJoin | src/lib.rs:75 | splitting space-free fields joined by single spaces gives the fields back |
| PageFaults.SplitField | src/lib.rs:75 | a space-free prefix joins the first piece of what follows |
| PageFaults.ParseU64 | src/lib.rs:79-80 | succeeds exactly on an optional `+` followed by one or more decimal digits denoting a value below 2^64, and then returns the value the digits denote (leading zeros allowed) |
| PageFaults.Decimal | src/lib.rs:80 | the decimal digits of a number, denoting that number |
| PageFaults.ParseDecimal | src/lib.rs:79-80 | parsing reads back every u64 written in decimal |
| PageFaults.FaultsFromStat | src/lib.rs:75-90 | succeeds exactly when the split has at least 12 fields and fields 9 and 11 both parse; the result is their wrapped sum; field 10 is skipped whatever it holds |
| PageFaults.StatLine | src/lib.rs:75-90 | a line whose fields 9 and 11 are decimal counts yields their sum, whatever the other fields hold |
| Repetition.DefaultResults | src/repitition_tester.rs:39-55 | zero count and totals, max time 0, min time `u64::MAX` |
| Repetition.FoldTrial | src/repitition_tester.rs:196-214 | count +1 and the totals grow (wrapping); min is replaced only by a strictly shorter trial, max only by a strictly longer one; afterwards min <= trial <= max and the bounds only widen |
| Repetition.FoldedResults | src/repitition_tester.rs:196-214 | after any sequence of trials: count and totals are the wrapped count and sums; every trial lies between min and max; both extremes are attained by some trial; and the recorded min/max records are folded trials unless they are still the defaults |
| Repetition.FoldedTotals | src/repitition_tester.rs:198-202 | count and totals are the wrapped count and sums of the trials |
| Repetition.FoldedBounds | src/repitition_tester.rs:204-214 | every folded trial lies between min and max |
| Repetition.FoldedExtremes | src/repitition_tester.rs:204-214 | min and max times are attained by folded trials, and the records are folded trials once they differ from the defaults |
| Repetition.Expired | src/repitition_tester.rs:187 | `start_time.elapsed() >= duration` at instant `now`, with the elapsed time never negative |
| Repetition.RepetitionTester.constructor | src/repitition_tester.rs:159-170 | Running, the window starting now, all per-trial counters 0, default results, no trials |
| Repetition.RepetitionTester.Reset | src/repitition_tester.rs:172-180 | the state `new` gives, keeping the duration |
| Repetition.RepetitionTester.Start | src/repitition_tester.rs:228-232 | start count +1; elapsed and fault counters less the readings (wrapping) |
| Repetition.RepetitionTester.Stop | src/repitition_tester.rs:234-238 | stop count +1; elapsed and fault counters plus the readings (wrapping) |
| Repetition.RepetitionTester.Trial | src/repitition_tester.rs:228-238 | `start(t0)` then `stop(t1)` from cleared counters leaves elapsed `t1 - t0` and the fault delta, modulo 2^64, and bumps both counters |
| Repetition.RepetitionTester.FoldCurrent | src/repitition_tester.rs:196-220 | folds the current trial into the results as `FoldTrial` says; restarts the window on a strictly new minimum; clears the four per-trial counters; keeps results the fold of all trials |
| Repetition.RepetitionTester.IsTesting | src/repitition_tester.rs:182-226 | false with nothing changed after an error or once the window has run out; true with nothing changed when no trial was started; on unmatched starts and stops it enters the error state, folds nothing, and still returns true; otherwise it folds the trial as `FoldCurrent` says and returns true |

## Left out

- `rdtsc` and `calculate_os_frequency` are a hardware intrinsic, a busy-wait and a float division. Cycle readings are parameters instead.
- The open and read of the status file in `get_page_faults` are I/O. The model covers only the field extraction over a buffer of bytes. A field that is not UTF-8 also fails `parse`, so the model merges the two panics into one.
- Percentages, the inclusive-percent threshold, throughput strings, the hits column width and all `println!` output of `print` are floating point and formatting.
- `TestResults::_print`, `print` and `print_with_bytes` are floating point and printing.
- The `static mut` storage and `unsafe` access are modelled as one explicitly owned `Profiler` object.
- The disabled-feature macros expand to nothing. The wrappers `time_work!`, `scoped_timer!`, `raw_timer!`, `start_profiler!` and `print!` only forward to modelled operations.
- The procedural macro crate rewrites syntax trees through libraries that are not part of this model.
- The example programs are not part of this model.
- Noise suppression, per-thread tables, thread start/stop and string-named registration have no implementation in the modelled code.
- Overflow panics of a debug build are not modelled: every u64 `+`, `-`, `+=` and `-=` wraps, as in a release build, and so does the isize `other -= exclusive_time as isize` of `print` (`Report.Remainder`, `Report.Tabulate`).
- Repetition.RepetitionTester.IsTesting: reads the wall clock once per call. The source reads it once for the deadline check and again when it restarts the window.
- Report.Truncate: slices characters, not UTF-8 bytes, so the source's panic on a name cut inside a multi-byte character is not modelled.
- Report.LongestName: counts characters where the source's `len()` counts UTF-8 bytes, so for a non-ASCII variant name the model's length differs.
- Report.NameWidth: built on character counts, so for a non-ASCII variant name the width can differ from the source's byte-based width.
- Report.NameColumnWidth: the same character-count difference as `NameWidth`.
- Report.SortByExclusive: the in-place `sort_by_key` of a `Vec` is modelled as a stable insertion sort function on values.
- Writes to the tester's public `results` field from outside the tester are not modelled. The field is changed only by the tester's own methods.
- Profiling.RemainderAccounting: holds only when every handle is dropped and no region's hit counter has wrapped back to 0 after 2^64 completions.
