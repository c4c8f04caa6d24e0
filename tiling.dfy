/**
  Splitting `[start, end)` into consecutive pieces of a fixed length:
  `time_intervals_between` and `DateTimeInterval.intervals`.
 */
module Tiling {
  import opened Wrappers
  import opened TimeInterval

  /** Each piece starts where the previous one ends. */
  ghost predicate Contiguous(s: seq<Interval>) {
    forall k :: 0 <= k < |s| - 1 ==> s[k].end == s[k + 1].start
  }

  /** Contiguous valid pieces hold exactly the instants from the first start to the last end. */
  lemma {:induction false} ContiguousUnion(s: seq<Interval>, t: int)
    requires |s| > 0 && Contiguous(s)
    requires forall k :: 0 <= k < |s| ==> s[k].Valid()
    ensures s[0].start <= s[|s| - 1].start
    ensures InSome(s, t) <==> s[0].start <= t < s[|s| - 1].end
    decreases |s|
  {
    if |s| == 1 {
      assert InSome(s, t) <==> s[0].Contains(t);
    } else {
      var p := s[..|s| - 1];
      assert Contiguous(p) by {
        forall k | 0 <= k < |p| - 1 ensures p[k].end == p[k + 1].start {
          assert p[k] == s[k] && p[k + 1] == s[k + 1];
        }
      }
      ContiguousUnion(p, t);
      assert s == p + [s[|s| - 1]];
      InSomeAppend(p, s[|s| - 1], t);
      assert p[|p| - 1].end == s[|s| - 1].start;
      assert p[0] == s[0];
    }
  }

  /**
    What a tiling of `[start, end)` by pieces of length `length` is: no
    pieces exactly when `start >= end`; otherwise contiguous pieces from
    `start`, each starting inside `[start, end)`, all but the last of length
    `length`. With `limitToEnd` the last piece ends at `end` (and may be
    shorter); without it the last piece has the full length and ends at or
    after `end`.
   */
  ghost predicate IsTiling(pieces: seq<Interval>, start: int, end: int, length: int, limitToEnd: bool) {
    (start >= end <==> pieces == []) &&
    (pieces != [] ==> pieces[0].start == start) &&
    (forall k :: 0 <= k < |pieces| ==> pieces[k].Valid() && start <= pieces[k].start < end) &&
    Contiguous(pieces) &&
    (forall k :: 0 <= k < |pieces| - 1 ==> pieces[k].end - pieces[k].start == length) &&
    (pieces != [] ==> 0 < pieces[|pieces| - 1].end - pieces[|pieces| - 1].start <= length) &&
    (pieces != [] && limitToEnd ==> pieces[|pieces| - 1].end == end) &&
    (pieces != [] && !limitToEnd ==>
      pieces[|pieces| - 1].end - pieces[|pieces| - 1].start == length && end <= pieces[|pieces| - 1].end)
  }

  /**
    `time_intervals_between`: the pieces of `[start, end)` of length `length`,
    left to right. A negative length makes the first piece end before it
    starts, which the interval constructor refuses; a zero length with
    `start < end` never advances, so the caller must not ask for it.
   */
  method TimeIntervalsBetween(start: int, end: int, length: int, limitToEnd: bool := false)
    returns (r: Result<seq<Interval>, Error>)
    requires length != 0 || end <= start
    ensures r.Failure? <==> start < end && length < 0
    ensures r.Failure? ==> r.error == InvalidRange
    ensures r.Success? ==> IsTiling(r.value, start, end, length, limitToEnd)
  {
    var cur := start;
    var pieces: seq<Interval> := [];
    while cur < end
      invariant pieces == [] ==> cur == start
      invariant pieces != [] ==> 0 < length && pieces[0].start == start && pieces[|pieces| - 1].end == cur
      invariant start <= cur
      invariant forall k :: 0 <= k < |pieces| ==> pieces[k].Valid() && start <= pieces[k].start < end
      invariant Contiguous(pieces)
      invariant forall k :: 0 <= k < |pieces| - 1 ==> pieces[k].end - pieces[k].start == length
      invariant pieces != [] ==> 0 < pieces[|pieces| - 1].end - pieces[|pieces| - 1].start <= length
      invariant pieces != [] && !limitToEnd ==> pieces[|pieces| - 1].end - pieces[|pieces| - 1].start == length
      invariant limitToEnd && pieces != [] ==> cur <= end
      invariant pieces != [] && pieces[|pieces| - 1].end - pieces[|pieces| - 1].start != length ==> end <= cur
      decreases end - cur
    {
      var intervalEnd := cur + length;
      if limitToEnd && intervalEnd > end {
        intervalEnd := end;
      }
      var piece := Make(Some(cur), Some(intervalEnd));
      if piece.Failure? {
        return Failure(piece.error);
      }
      pieces := pieces + [piece.value];
      cur := intervalEnd;
    }
    r := Success(pieces);
  }

  /**
    `DateTimeInterval.intervals`: refused for an infinite interval; otherwise
    the tiling of the interval, cut at its end unless `limitByEnd` is false.
    With `limitByEnd` the pieces hold exactly the instants of the interval.
   */
  method Intervals(iv: Interval, length: int, limitByEnd: bool := true) returns (r: Result<seq<Interval>, Error>)
    requires iv.Valid()
    requires iv.IsInfinite() || length != 0 || iv.IsEmpty()
    ensures r.Failure? <==> iv.IsInfinite() || (!iv.IsEmpty() && length < 0)
    ensures r.Failure? ==> r.error == (if iv.IsInfinite() then UnboundedInterval else InvalidRange)
    ensures r.Success? ==> IsTiling(r.value, iv.start, iv.end, length, limitByEnd)
    ensures r.Success? && limitByEnd ==> forall t :: InSome(r.value, t) <==> iv.Contains(t)
  {
    if iv.IsInfinite() {
      return Failure(UnboundedInterval);
    }
    r := TimeIntervalsBetween(iv.start, iv.end, length, limitByEnd);
    if r.Success? && limitByEnd {
      var pieces := r.value;
      forall t ensures InSome(pieces, t) <==> iv.Contains(t) {
        if pieces != [] {
          ContiguousUnion(pieces, t);
        }
      }
    }
  }
}
