# scl_time in Dafny

A model of the interval logic of `scl_time.py`:

- `DateTimeInterval`, the half-open interval `[start, end)` with its predicates, `overlap` and `length` (module `TimeInterval`, `interval.dfy`);
- `time_intervals_between` and `DateTimeInterval.intervals`, which tile an interval with pieces of a fixed length (module `Tiling`, `tiling.dfy`);
- `intersection_of_intervals`, the two-cursor merge of two ascending interval lists (module `Intersection`, `intersection.dfy`);
- the segment lists behind `MultiStatusInterval`: `_SingleStatusInterval`, `_non_overlapping_intervals`, `_smooth_status_intervals`, the filter behind `intervals_with_status`, and the fact that a smoothed list without empty segments is fixed by the status it gives each instant (module `Segments`, `segments.dfy`);
- `MultiStatusInterval` itself, a class with a fixed `bounds` interval and a mutable list `segs`, with `status`, `intervals_with_status`, `mark` and `_mark` (module `MultiStatus`, `multistatus.dfy`).

`wrappers.dfy` holds the `Option` and `Result` datatypes.

An instant is an `int` counting microseconds since 0001-01-01T00:00:00 UTC. So `MIN = 0` is `DATE_TIME_MIN` and `MAX = 315537897599999999` is `DATE_TIME_MAX`. A duration is an `int` number of microseconds. Python's `None` status is `Option.None`, and exceptions are `Result.Failure` values.

The class keeps the three invariants of its list in `Valid()`: the segments are ascending, no two neighbours touch with the same status, and every segment lies inside the bounds. A ghost function `Abs(t)` gives the status of instant `t`: none outside the bounds, otherwise that of the segment holding `t`. `Mark` is specified pointwise through `Abs`. The methods that walk a list (`TimeIntervalsBetween`, `IntersectionOfIntervals`, `SmoothStatusIntervals`, `Splice`, `Status`) are loops with invariants. Each step of a loop is a lemma about a packed invariant (`MergeInv`, `SmoothInv`, `SpliceInv`).

Where the docstring and the code disagree, the model follows the code:

- The `DateTimeInterval` docstring says the start is strictly less than the end. The constructor accepts `start == end`, so empty intervals exist in the model.
- An empty interval strictly inside another overlaps it, and their `overlap` is empty. `mark` with such an interval inside a segment of another status stores an empty segment. With the segment's own status, smoothing merges the pieces back into the one segment.

The `MarkScenario`, `MarkAdjacentScenario`, `MarkOverwriteScenario` and `IntersectionScenario` methods work through concrete examples. `MarkOverwriteScenario` marks all of `[0, 100)` with "A" and then `[20, 40)` with "B", and ends with exactly three segments.

## Model

| member | source | states |
|---|---|---|
| `TimeInterval.Make` | scl_time.py:129-148 | A missing start becomes MIN and a missing end becomes MAX. Construction fails with `InvalidRange` exactly when the end is before the start. Otherwise the interval has the given bounds and is valid. |
| `TimeInterval.CreateWithLengthRoundTrip` | scl_time.py:150-152 | `create_with_length(start, diff)` succeeds exactly when `diff >= 0`. The interval then starts at `start` and has length `diff`, unless a bound is infinite. |
| `TimeInterval.InfiniteBounds` | scl_time.py:154-164 | A start is infinite exactly when the interval holds every representable instant before its end. An end is infinite exactly when it holds every representable instant from its start on. An interval is infinite exactly when it has no length. |
| `TimeInterval.Interval.Length` | scl_time.py:174-178 | The length is `None` exactly when either bound is infinite. Otherwise it is a non-negative duration that carries the start to the end. |
| `TimeInterval.ContainsBounds` | scl_time.py:180-187 | An interval is empty exactly when it contains no instant. |
| `TimeInterval.CoversIsInclusion` | scl_time.py:189-200 | For a non-empty interval, `covers` (inclusive of equal ends) is exactly instant-wise inclusion. |
| `TimeInterval.OverlapsSymmetric` | scl_time.py:202-208 | `overlaps` is symmetric. Intervals that only touch do not overlap. |
| `TimeInterval.Interval.Overlap` | scl_time.py:210-217 | The overlap is `None` exactly when the intervals do not overlap. Otherwise it is a valid interval holding exactly the instants both hold. When it is `None`, no instant is in both. |
| `TimeInterval.OverlapCoveredByBoth` | scl_time.py:210-217 | For two non-empty overlapping intervals, the overlap is `[max(starts), min(ends))`. It is non-empty and covered by both. |
| `TimeInterval.OverlapCommutes` | scl_time.py:210-217 | The overlap does not depend on the order of the arguments. |
| `TimeInterval.OverlapMaximal` | scl_time.py:210-217 | Every interval covered by both arguments is covered by their overlap. |
| `TimeInterval.Trichotomy` | scl_time.py:219-223 | One of `is_before`, `is_after` and `overlaps` always holds. `overlaps` excludes the other two. Both `is_before` and `is_after` hold only for two empty intervals at the same instant. So for non-empty intervals exactly one holds. |
| `TimeInterval.EndpointTests` | scl_time.py:225-235 | For a non-empty interval: `ends_before(t)` holds exactly when all its instants are before `t`, and `ends_after(t)` is its negation. `ends_after(t)` holds exactly when the interval contains `t` or starts after it. `starts_after(t)` holds exactly when all its instants are after `t`. `starts_before(t)` holds exactly when some instant is before `t`. |
| `Tiling.TimeIntervalsBetween` | scl_time.py:35-52 | A negative length with `start < end` fails with `InvalidRange`, because the first piece would end before it starts. Otherwise there are no pieces exactly when `start >= end`. The pieces are contiguous from `start`, and each starts inside `[start, end)`. All but the last have length `length`. With `limit_to_end` (false unless given) the last ends at `end` and may be shorter. Without it the last has full length and ends at or after `end`. |
| `Tiling.ContiguousUnion` | scl_time.py:44-52 | Contiguous valid pieces hold exactly the instants from the first start to the last end. |
| `Tiling.Intervals` | scl_time.py:260-267 | An infinite interval is refused with `UnboundedInterval`, and a negative length on a non-empty interval with `InvalidRange`. Otherwise the pieces tile the interval as `TimeIntervalsBetween` does, with `limit_by_end` defaulting to true: they are contiguous from its start, all but the last of full length. With `limit_by_end` the last ends at the interval's end and the pieces hold exactly its instants. Without it the last has full length. |
| `Intersection.IntersectionOfIntervals` | scl_time.py:72-118 | On ascending inputs the output is ascending. Each output element is the overlap of an element of each input. The output holds exactly the instants held by both inputs. |
| `Intersection.PassFirst` | scl_time.py:86-88 | Passing an `i1` that lies before `i2` keeps the merge invariant, and loses no instant both inputs hold. |
| `Intersection.PassSecond` | scl_time.py:90-92 | Passing an `i2` that lies before `i1` keeps the merge invariant. |
| `Intersection.PassOverlapping` | scl_time.py:96-118 | After the overlap is emitted, `i1` or `i2` ends where the overlap ends (assertion d), so a cursor advances. Advancing the cursors whose interval ends there keeps the merge invariant. |
| `Intersection.MergeDone` | scl_time.py:84 | Once either input is used up, the output holds exactly the shared instants. |
| `Intersection.IntersectionCovered` | scl_time.py:77-78 | With non-empty inputs, every output interval is non-empty and covered by an element of each input. |
| `Segments.SingleStatusThroughout` | scl_time.py:270-271 | A single segment gives its status to exactly the instants of its interval, and no status elsewhere. |
| `Segments.StatusAtMeaning` | scl_time.py:360-368 | In an ascending list, an instant has status `st` exactly when a segment with status `st` contains it. It has no status exactly when no segment contains it. |
| `Segments.NonOverlappingIntervals` | scl_time.py:274-287 | `before` exists exactly when the other interval starts later, and `after` exactly when it ends earlier. Each remainder is non-empty and lies wholly before or after the other interval. For overlapping arguments, the remainders hold exactly the instants of the first interval outside the second. |
| `Segments.SmoothStatusIntervals` | scl_time.py:290-317 | On an ascending list the result is ascending and smoothed, and gives every instant the same status. It is no longer than the input. It lies within the input's span and has no empty segment if the input has none. |
| `Segments.WithStatus` | scl_time.py:377 | The filter keeps only intervals of segments with the given status, and keeps every such interval, empty ones included. It is no longer than the list. |
| `Segments.WithStatusCorrect` | scl_time.py:372-377 | On an ascending list the filter is ascending. It holds exactly the instants whose status is the given one. |
| `Segments.CanonicalUnique` | scl_time.py:327-329 | Two smoothed, ascending lists without empty segments that give every instant the same status are equal. This is the minimal partitioning the class describes. |
| `MultiStatus.MultiStatusInterval.constructor` | scl_time.py:345-352 | A new map over a valid interval is valid, and has no segments and no status anywhere. |
| `MultiStatus.MultiStatusInterval.Status` | scl_time.py:358-370 | The scan with early exit returns exactly `Abs(t)`. It has no status outside the bounds. |
| `MultiStatus.OutsideBoundsNoStatus` | scl_time.py:359 | Segments inside the bounds give no instant outside the bounds a status. So the bounds check in `status` never changes its answer. |
| `MultiStatus.MultiStatusInterval.IntervalsWithStatus` | scl_time.py:372-377 | The intervals with a status are ascending. They hold exactly the instants with that status. |
| `MultiStatus.MultiStatusInterval.Mark` | scl_time.py:379-385 | The map stays valid. Instants inside both the bounds and the interval get the status, and every other instant keeps its old status. An interval that misses the bounds changes nothing. With non-empty bounds and interval, a list without empty segments keeps that form. Marking a range that already has the status everywhere leaves the list unchanged, so marking twice equals marking once. |
| `MultiStatus.MultiStatusInterval.MarkSegment` | scl_time.py:387-434 | Splicing then smoothing keeps the map valid. Inside the new segment the new status holds, and elsewhere the old one. No empty segment appears unless the new segment is empty. |
| `MultiStatus.Splice` | scl_time.py:389-432 | The six-case walk gives a non-empty, ascending list inside the bounds. It gives the new status inside the new segment and the old status elsewhere. |
| `MultiStatus.SpliceKeep` | scl_time.py:402-404 | Case 1: a segment before the new one is kept. This can only happen before the new segment is added. |
| `MultiStatus.SpliceBefore` | scl_time.py:406-412 | Case 2: the new segment (if not yet added) and then the current one are appended, keeping the walk's invariant. |
| `MultiStatus.SpliceOverlap` | scl_time.py:414-428 | Cases 3 to 6 overlap (the assertion at 415). A remainder before exists only while the new segment is not yet added (the assertion at 420). Appending the pieces keeps the walk's invariant. |
| `MultiStatus.OverlapPiecesStatus` | scl_time.py:417-428 | The pieces for an overlapping segment give the new status inside the new segment, if it was not added before. They give the old status in the rest of the old segment. |
| `MultiStatus.CutAround` | scl_time.py:417-428 | The three conditional appends build exactly the pieces `OverlapPieces` describes. |
| `MultiStatus.SpliceFinish` | scl_time.py:430-431 | Appending the new segment when it was never added completes the splice. The result is ascending, in the bounds and gives the intended statuses. |

## Left out

- `beginning_of_day` and `days_between` depend on calendar fields and time-zone rules of `datetime`, which instants as integers do not have.
- `_check_valid_aware_datetime`, the `isinstance` checks of the constructor, `MultiStatusInterval.__init__` and `mark`, and the `ValueError` for a non-string status are enforced by Dafny's types instead. Statuses are `string`. The `bytes` statuses that `mark` also accepts are not modelled.
- Time zones: instants are UTC microseconds, so the model agrees with the source only for datetimes whose `tzinfo` is UTC or a fixed offset (such as pytz-localized datetimes). Python compares and subtracts two datetimes that share one `tzinfo` object by their wall-clock values, and `datetime + timedelta` makes no zone adjustment. So inside one zone with daylight saving time, `length`, `start + interval_length` and the comparisons follow wall-clock time, and that is not modelled. For example, 01:00 to 03:00 on 2020-03-08 in America/New_York has length two hours in the source and one hour here.
- `debug_str` and `__str__` are text formatting through pytz.
- `__eq__` is Dafny's structural equality on `Interval`. Its identity shortcut is not modelled.
- Generators are produced as whole finite sequences, so laziness is not modelled. Where the source raises while a generator is iterated (the `ValueError` for a negative length), the model returns the `Failure` instead of the pieces.
- `intersection_of_intervals` calls `next()` on its inputs. When an input runs out this raises `StopIteration`, and on Python 3.7 and later a generator turns that into `RuntimeError`. The model instead ends the merge when either input runs out, including an empty input, which is what the loop's `is not None` test means. Inputs are sequences, not iterators.
- `datetime` arithmetic past `DATE_TIME_MAX` or below `DATE_TIME_MIN` raises `OverflowError`. Instants are unbounded integers, so `TimeIntervalsBetween` and `CreateWithLength` do not model that error.
- Tiling.TimeIntervalsBetween: requires a non-zero length when `start < end`. With a zero length the source loop never advances and never terminates.
- Tiling.Intervals: requires a non-zero length for a finite, non-empty interval, because it hands the tiling to `time_intervals_between`, which never terminates for a zero length.
- Intersection.IntersectionOfIntervals: when an input holds empty intervals, the contract fixes the output only up to the instants it holds. An empty overlap such as `[5, 5)` met with `[0, 10)` may be kept or dropped as far as the contract says.
- Segments.SmoothStatusIntervals: when the input holds empty segments, the contract fixes the output only up to the status of each instant. It does not say whether an empty segment between two runs of one status keeps them apart. Without empty segments `CanonicalUnique` fixes the output exactly.
- Intersection.IntersectionOfIntervals: requires ascending, non-overlapping inputs, which the docstring demands of callers. Other inputs are not modelled.
- MultiStatus.MultiStatusInterval.Mark: idempotence and the absence of empty segments are stated only when the stored list has no empty segment and the bounds and the marked interval are non-empty. An empty marked interval strictly inside a segment overlaps it. When its status differs from the segment's, the code stores it as an empty segment. That leaves an extra empty interval in `intervals_with_status` and splits the surrounding run in two, though no instant changes status. With the segment's own status, smoothing merges the pieces back into one segment.
- The complexity claims in the class docstring are not modelled.
