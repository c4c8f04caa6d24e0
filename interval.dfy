/**
  The half-open time interval `[start, end)` (DateTimeInterval) and its relations.

  An instant is an integer: microseconds since 0001-01-01T00:00:00 UTC, so that
  MIN and MAX are the first and last instants Python's `datetime` can represent.
  A duration is an integer number of microseconds.
 */
module TimeInterval {
  import opened Wrappers

  /** DATE_TIME_MIN: 0001-01-01T00:00:00 UTC. */
  const MIN: int := 0
  /** DATE_TIME_MAX: 9999-12-31T23:59:59.999999 UTC. */
  const MAX: int := 315_537_897_599_999_999

  /** The exceptions the interval operations raise. */
  datatype Error =
    | InvalidRange        // `end must be >= start`
    | UnboundedInterval   // `cannot iterate over infinite interval`

  function Max(a: int, b: int): int { if a < b then b else a }
  function Min(a: int, b: int): int { if a < b then a else b }

  datatype Interval = Interval(start: int, end: int) {

    /** What the constructor enforces: the end is not before the start. */
    predicate Valid() { start <= end }

    /** Holds no instant at all (allowed by the constructor). */
    predicate IsEmpty() { start == end }

    predicate IsStartInfinite() { start == MIN }
    predicate IsEndInfinite() { end == MAX }
    predicate IsInfinite() { IsStartInfinite() || IsEndInfinite() }

    function Length(): (r: Option<int>)
      requires Valid()
      ensures r.None? <==> IsInfinite()
      ensures r.Some? ==> 0 <= r.value && start + r.value == end
    {
      if IsInfinite() then None else Some(end - start)
    }

    predicate Contains(t: int) { start <= t < end }

    /** End-inclusive: an interval covers one that ends exactly where it ends. */
    predicate Covers(other: Interval) {
      Contains(other.start) && start <= other.end <= end
    }

    predicate Overlaps(other: Interval) {
      other.start < end && start < other.end
    }

    /** The intersection, or None when the two do not overlap. */
    function Overlap(other: Interval): (r: Option<Interval>)
      requires Valid() && other.Valid()
      ensures r.Some? <==> Overlaps(other)
      ensures r.Some? ==> r.value.Valid()
      ensures r.Some? ==> forall t :: r.value.Contains(t) <==> Contains(t) && other.Contains(t)
      ensures r.None? ==> forall t :: !(Contains(t) && other.Contains(t))
    {
      if !Overlaps(other) then None
      else Some(Interval(Max(start, other.start), Min(end, other.end)))
    }

    predicate IsBefore(other: Interval) { end <= other.start }
    predicate IsAfter(other: Interval) { other.IsBefore(this) }

    predicate EndsBefore(t: int) { end <= t }
    predicate EndsAfter(t: int) { end > t }
    predicate StartsAfter(t: int) { start > t }
    predicate StartsBefore(t: int) { start < t }
  }

  /**
    The constructor: a missing start is MIN, a missing end is MAX, and an end
    before the start is refused.
   */
  function Make(start: Option<int>, end: Option<int>): (r: Result<Interval, Error>)
    ensures r.Success? <==> (if start.Some? then start.value else MIN) <= (if end.Some? then end.value else MAX)
    ensures r.Failure? ==> r.error == InvalidRange
    ensures r.Success? ==> r.value.Valid()
    ensures r.Success? && start.Some? ==> r.value.start == start.value
    ensures r.Success? && start.None? ==> r.value.IsStartInfinite()
    ensures r.Success? && end.Some? ==> r.value.end == end.value
    ensures r.Success? && end.None? ==> r.value.IsEndInfinite()
  {
    var s := if start.Some? then start.value else MIN;
    var e := if end.Some? then end.value else MAX;
    if e < s then Failure(InvalidRange) else Success(Interval(s, e))
  }

  /** `DateTimeInterval.create_with_length`. */
  function CreateWithLength(start: int, diff: int): Result<Interval, Error> {
    Make(Some(start), Some(start + diff))
  }

  /** A length-`diff` interval is built exactly when `diff` is not negative, and has that length. */
  lemma CreateWithLengthRoundTrip(start: int, diff: int)
    ensures CreateWithLength(start, diff).Success? <==> 0 <= diff
    ensures CreateWithLength(start, diff).Success? ==>
      var iv := CreateWithLength(start, diff).value;
      iv.start == start && (iv.Length() == Some(diff) || iv.IsInfinite())
  {
  }

  /** An empty interval contains no instant; a non-empty one contains its start. */
  lemma ContainsBounds(iv: Interval)
    requires iv.Valid()
    ensures iv.IsEmpty() <==> forall t :: !iv.Contains(t)
  {
    if !iv.IsEmpty() {
      assert iv.Contains(iv.start);
    }
  }

  /** For a non-empty `other`, `Covers` is exactly instant-wise inclusion. */
  lemma CoversIsInclusion(iv: Interval, other: Interval)
    requires iv.Valid() && other.Valid() && !other.IsEmpty()
    ensures iv.Covers(other) <==> forall t :: other.Contains(t) ==> iv.Contains(t)
  {
    if forall t :: other.Contains(t) ==> iv.Contains(t) {
      assert other.Contains(other.start);
      assert other.Contains(other.end - 1);
    }
  }

  /** `overlaps` is symmetric, and intervals that only touch do not overlap. */
  lemma OverlapsSymmetric(a: Interval, b: Interval)
    ensures a.Overlaps(b) <==> b.Overlaps(a)
    ensures a.end == b.start ==> !a.Overlaps(b)
  {
  }

  /**
    What the intersection is when both inputs are non-empty: the interval
    `[max(starts), min(ends))`, non-empty, covered by both.
   */
  lemma OverlapCoveredByBoth(a: Interval, b: Interval)
    requires a.Valid() && b.Valid() && !a.IsEmpty() && !b.IsEmpty() && a.Overlaps(b)
    ensures a.Overlap(b) == Some(Interval(Max(a.start, b.start), Min(a.end, b.end)))
    ensures !a.Overlap(b).value.IsEmpty()
    ensures a.Covers(a.Overlap(b).value) && b.Covers(a.Overlap(b).value)
  {
  }

  /** The intersection does not depend on the order of its arguments. */
  lemma OverlapCommutes(a: Interval, b: Interval)
    requires a.Valid() && b.Valid()
    ensures a.Overlap(b) == b.Overlap(a)
  {
  }

  /** The intersection is the largest interval covered by both. */
  lemma OverlapMaximal(a: Interval, b: Interval, j: Interval)
    requires a.Valid() && b.Valid() && j.Valid()
    requires a.Covers(j) && b.Covers(j)
    ensures a.Overlap(b).Some? && a.Overlap(b).value.Covers(j)
  {
  }

  /**
    The case split of the two merge loops: `is_before`, `is_after` and
    `overlaps` between them cover every pair; `overlaps` excludes the other
    two; `is_before` and `is_after` both hold only of two empty intervals at
    the same instant. So for non-empty intervals exactly one holds.
   */
  lemma Trichotomy(a: Interval, b: Interval)
    requires a.Valid() && b.Valid()
    ensures a.IsBefore(b) || a.IsAfter(b) || a.Overlaps(b)
    ensures a.Overlaps(b) ==> !a.IsBefore(b) && !a.IsAfter(b)
    ensures a.IsBefore(b) && a.IsAfter(b) <==> a.IsEmpty() && b.IsEmpty() && a.start == b.start
    ensures !a.IsEmpty() && !b.IsEmpty() ==> !(a.IsBefore(b) && a.IsAfter(b))
  {
  }

  /**
    An infinite start or end is one at the edge of what `datetime` can
    represent: a start-infinite interval holds every representable instant
    before its end, an end-infinite one every representable instant from its
    start on, and an infinite interval has no length.
   */
  lemma InfiniteBounds(iv: Interval)
    requires iv.Valid() && MIN <= iv.start && iv.end <= MAX
    ensures iv.IsStartInfinite() <==> forall t :: MIN <= t < iv.end ==> iv.Contains(t)
    ensures iv.IsEndInfinite() <==> forall t :: iv.start <= t < MAX ==> iv.Contains(t)
    ensures iv.IsInfinite() <==> iv.Length().None?
  {
    if !iv.IsStartInfinite() {
      assert MIN < iv.end && !iv.Contains(MIN);
    }
    if !iv.IsEndInfinite() {
      assert iv.end < MAX && !iv.Contains(iv.end);
    }
  }

  /**
    For a non-empty interval, `ends_before`, `ends_after`, `starts_after` and
    `starts_before` say where its instants lie relative to `t`.
   */
  lemma EndpointTests(iv: Interval, t: int)
    requires iv.Valid() && !iv.IsEmpty()
    ensures iv.EndsBefore(t) <==> forall u :: iv.Contains(u) ==> u < t
    ensures iv.EndsAfter(t) <==> !iv.EndsBefore(t)
    ensures iv.EndsAfter(t) <==> iv.Contains(t) || iv.StartsAfter(t)
    ensures iv.StartsAfter(t) <==> forall u :: iv.Contains(u) ==> t < u
    ensures iv.StartsBefore(t) <==> exists u :: iv.Contains(u) && u < t
  {
    assert iv.Contains(iv.start) && iv.Contains(iv.end - 1);
  }

  /** A sequence of valid intervals, each ending no later than every later one starts. */
  ghost predicate Ascending(s: seq<Interval>) {
    (forall k :: 0 <= k < |s| ==> s[k].Valid()) &&
    (forall k, l :: 0 <= k < l < |s| ==> s[k].end <= s[l].start)
  }

  ghost predicate AllNonEmpty(s: seq<Interval>) {
    forall k :: 0 <= k < |s| ==> !s[k].IsEmpty()
  }

  /** Some interval of `s` contains `t`. */
  ghost predicate InSome(s: seq<Interval>, t: int) {
    exists k :: 0 <= k < |s| && s[k].Contains(t)
  }

  lemma InSomeAppend(s: seq<Interval>, x: Interval, t: int)
    ensures InSome(s + [x], t) <==> InSome(s, t) || x.Contains(t)
  {
    if x.Contains(t) {
      assert (s + [x])[|s|] == x;
    }
    if InSome(s, t) {
      var k :| 0 <= k < |s| && s[k].Contains(t);
      assert (s + [x])[k] == s[k];
    }
  }

  lemma InSomeConcat(s: seq<Interval>, u: seq<Interval>, t: int)
    ensures InSome(s + u, t) <==> InSome(s, t) || InSome(u, t)
  {
    if InSome(s + u, t) {
      var k :| 0 <= k < |s + u| && (s + u)[k].Contains(t);
      if k >= |s| {
        assert u[k - |s|] == (s + u)[k];
      }
    }
    if InSome(s, t) {
      var k :| 0 <= k < |s| && s[k].Contains(t);
      assert (s + u)[k] == s[k];
    }
    if InSome(u, t) {
      var k :| 0 <= k < |u| && u[k].Contains(t);
      assert (s + u)[|s| + k] == u[k];
    }
  }

  lemma AscendingAppend(s: seq<Interval>, x: Interval)
    requires Ascending(s) && x.Valid()
    requires forall k :: 0 <= k < |s| ==> s[k].end <= x.start
    ensures Ascending(s + [x])
  {
  }
}
