/**
  Lists of `(status, interval)` segments, the storage of MultiStatusInterval:
  the status they give each instant, `_non_overlapping_intervals`,
  `_smooth_status_intervals`, the status filter behind
  `intervals_with_status`, and the fact that a smoothed list is determined by
  the status it gives each instant.
 */
module Segments {
  import opened Wrappers
  import opened TimeInterval

  /** `_SingleStatusInterval`: one status throughout one interval. */
  datatype StatusInterval = StatusInterval(status: string, interval: Interval)

  /** Valid segments, each ending no later than every later one starts. */
  ghost predicate SegmentsAscending(s: seq<StatusInterval>) {
    (forall k :: 0 <= k < |s| ==> s[k].interval.Valid()) &&
    (forall k, l :: 0 <= k < l < |s| ==> s[k].interval.end <= s[l].interval.start)
  }

  /** No two neighbours touch and carry the same status. */
  ghost predicate Smoothed(s: seq<StatusInterval>) {
    forall k :: 0 <= k < |s| - 1 ==>
      !(s[k].status == s[k + 1].status && s[k].interval.end == s[k + 1].interval.start)
  }

  /** Every segment lies inside `b`. */
  ghost predicate InBounds(s: seq<StatusInterval>, b: Interval) {
    forall k :: 0 <= k < |s| ==> b.start <= s[k].interval.start && s[k].interval.end <= b.end
  }

  ghost predicate NoEmptySegment(s: seq<StatusInterval>) {
    forall k :: 0 <= k < |s| ==> !s[k].interval.IsEmpty()
  }

  /** The form of a list in which no two lists giving the same statuses differ. */
  ghost predicate Canonical(s: seq<StatusInterval>) {
    SegmentsAscending(s) && Smoothed(s) && NoEmptySegment(s)
  }

  /** The status of the first segment that contains `t`, if any. */
  ghost function StatusAt(s: seq<StatusInterval>, t: int): Option<string> {
    if s == [] then None
    else if s[0].interval.Contains(t) then Some(s[0].status)
    else StatusAt(s[1..], t)
  }

  /** A single segment gives its status to exactly the instants of its interval, and no status elsewhere. */
  lemma SingleStatusThroughout(s: StatusInterval, t: int)
    ensures StatusAt([s], t) == if s.interval.Contains(t) then Some(s.status) else None
  {
    assert [s][1..] == [];
  }

  lemma SuffixAscending(s: seq<StatusInterval>, k: int)
    requires SegmentsAscending(s) && 0 <= k <= |s|
    ensures SegmentsAscending(s[k..])
  {
    var r := s[k..];
    forall m, n | 0 <= m < n < |r| ensures r[m].interval.end <= r[n].interval.start {
      assert r[m] == s[k + m] && r[n] == s[k + n];
    }
  }

  /** No segment contains `t`: no status. */
  lemma {:induction false} StatusAtNone(s: seq<StatusInterval>, t: int)
    requires forall k :: 0 <= k < |s| ==> !s[k].interval.Contains(t)
    ensures StatusAt(s, t) == None
    decreases |s|
  {
    if s != [] {
      assert forall k :: 0 <= k < |s| - 1 ==> s[1..][k] == s[k + 1];
      StatusAtNone(s[1..], t);
    }
  }

  /** In an ascending list, the segment containing `t` decides its status. */
  lemma {:induction false} StatusAtIndex(s: seq<StatusInterval>, k: int, t: int)
    requires SegmentsAscending(s) && 0 <= k < |s| && s[k].interval.Contains(t)
    ensures StatusAt(s, t) == Some(s[k].status)
    decreases k
  {
    if k > 0 {
      assert s[0].interval.end <= s[k].interval.start;
      SuffixAscending(s, 1);
      assert s[1..][k - 1] == s[k];
      StatusAtIndex(s[1..], k - 1, t);
    }
  }

  /**
    `StatusAt` of an ascending list, stated without recursion: `t` has status
    `st` exactly when some segment contains `t` and carries `st`.
   */
  lemma StatusAtMeaning(s: seq<StatusInterval>, t: int, st: string)
    requires SegmentsAscending(s)
    ensures StatusAt(s, t) == Some(st) <==>
      exists k :: 0 <= k < |s| && s[k].interval.Contains(t) && s[k].status == st
    ensures StatusAt(s, t) == None <==> forall k :: 0 <= k < |s| ==> !s[k].interval.Contains(t)
  {
    if k :| 0 <= k < |s| && s[k].interval.Contains(t) {
      StatusAtIndex(s, k, t);
      forall k' | 0 <= k' < |s| && s[k'].interval.Contains(t) ensures s[k'].status == s[k].status {
        StatusAtIndex(s, k', t);
      }
    } else {
      StatusAtNone(s, t);
    }
  }

  /** Appending a segment only decides the instants the list left without status. */
  lemma {:induction false} StatusAtAppend(s: seq<StatusInterval>, y: StatusInterval, t: int)
    ensures StatusAt(s + [y], t) ==
      if StatusAt(s, t).Some? then StatusAt(s, t)
      else if y.interval.Contains(t) then Some(y.status) else None
    decreases |s|
  {
    if s != [] {
      assert (s + [y])[1..] == s[1..] + [y];
      StatusAtAppend(s[1..], y, t);
    }
  }

  /** Two touching segments of one status give the statuses their union gives. */
  lemma StatusAtMerge(s: seq<StatusInterval>, x: StatusInterval, y: StatusInterval, t: int)
    requires x.interval.Valid() && y.interval.Valid()
    requires x.status == y.status && x.interval.end == y.interval.start
    ensures StatusAt(s + [x] + [y], t) ==
      StatusAt(s + [StatusInterval(x.status, Interval(x.interval.start, y.interval.end))], t)
  {
    StatusAtAppend(s, x, t);
    StatusAtAppend(s + [x], y, t);
    StatusAtAppend(s, StatusInterval(x.status, Interval(x.interval.start, y.interval.end)), t);
  }

  /**
    `_non_overlapping_intervals`: the parts of `ofInterval` before and after
    `withInterval`. Each is present only when non-empty; for overlapping
    arguments they hold exactly the instants of `ofInterval` outside
    `withInterval`.
   */
  function NonOverlappingIntervals(ofInterval: Interval, withInterval: Interval)
    : (r: (Option<Interval>, Option<Interval>))
    requires ofInterval.Valid() && withInterval.Valid()
    ensures r.0.Some? <==> ofInterval.start < withInterval.start
    ensures r.1.Some? <==> withInterval.end < ofInterval.end
    ensures r.0.Some? ==>
      r.0.value.Valid() && !r.0.value.IsEmpty() &&
      r.0.value.start == ofInterval.start && r.0.value.IsBefore(withInterval)
    ensures r.1.Some? ==>
      r.1.value.Valid() && !r.1.value.IsEmpty() &&
      r.1.value.end == ofInterval.end && r.1.value.IsAfter(withInterval)
    ensures ofInterval.Overlaps(withInterval) ==> forall t ::
      (ofInterval.Contains(t) && !withInterval.Contains(t)) <==>
      ((r.0.Some? && r.0.value.Contains(t)) || (r.1.Some? && r.1.value.Contains(t)))
  {
    var before := if withInterval.start > ofInterval.start
      then Some(Interval(ofInterval.start, withInterval.start)) else None;
    var after := if ofInterval.end > withInterval.end
      then Some(Interval(withInterval.end, ofInterval.end)) else None;
    (before, after)
  }

  /** The smoothing loop's partial result: the emitted list plus the held segment. */
  ghost function Pending(ys: seq<StatusInterval>, last: Option<StatusInterval>): seq<StatusInterval> {
    if last.Some? then ys + [last.value] else ys
  }

  /**
    After `k` steps of smoothing `xs`: the pending list is ascending, smoothed,
    no longer than `k`, inside the span of `xs[..k]`, free of empty segments
    when `xs` is, and gives every instant the status `xs[..k]` gives it.
   */
  ghost predicate SmoothInv(xs: seq<StatusInterval>, k: int, ys: seq<StatusInterval>, last: Option<StatusInterval>) {
    0 <= k <= |xs| &&
    (last.None? <==> k == 0) && (k == 0 ==> ys == []) &&
    (last.Some? ==> last.value.interval.end == xs[k - 1].interval.end) &&
    var w := Pending(ys, last);
    |w| <= k && SegmentsAscending(w) && Smoothed(w) &&
    (forall m :: 0 <= m < |w| ==>
      xs[0].interval.start <= w[m].interval.start && w[m].interval.end <= xs[k - 1].interval.end) &&
    (NoEmptySegment(xs) ==> NoEmptySegment(w)) &&
    (forall t :: StatusAt(w, t) == StatusAt(xs[..k], t))
  }

  lemma SmoothFirst(xs: seq<StatusInterval>)
    requires SegmentsAscending(xs) && 0 < |xs|
    ensures SmoothInv(xs, 1, [], Some(xs[0]))
  {
    assert Pending([], Some(xs[0])) == xs[..1];
  }

  /** Step of the smoothing loop that merges `xs[k]` into the held segment. */
  lemma SmoothMerge(xs: seq<StatusInterval>, k: int, ys: seq<StatusInterval>, last: StatusInterval)
    requires SegmentsAscending(xs) && 0 < k < |xs| && SmoothInv(xs, k, ys, Some(last))
    requires last.status == xs[k].status && last.interval.end == xs[k].interval.start
    ensures SmoothInv(xs, k + 1, ys,
      Some(StatusInterval(last.status, Interval(last.interval.start, xs[k].interval.end))))
  {
    var m := StatusInterval(last.status, Interval(last.interval.start, xs[k].interval.end));
    assert Pending(ys, Some(last)) == ys + [last];
    assert Pending(ys, Some(m)) == ys + [m];
    assert xs[k - 1].interval.end <= xs[k].interval.start;
    ReplaceLast(ys, last, m);
    SmoothMergeStatus(xs, k, ys, last);
  }

  /**
    Widening the last segment of an ascending, smoothed list to a later end
    keeps it ascending and smoothed, and non-empty segments non-empty.
   */
  lemma ReplaceLast(ys: seq<StatusInterval>, last: StatusInterval, m: StatusInterval)
    requires SegmentsAscending(ys + [last]) && Smoothed(ys + [last])
    requires m.status == last.status && m.interval.start == last.interval.start
    requires last.interval.end <= m.interval.end
    ensures SegmentsAscending(ys + [m]) && Smoothed(ys + [m])
    ensures forall n :: 0 <= n < |ys| ==> (ys + [m])[n] == ys[n] == (ys + [last])[n]
    ensures (ys + [m])[|ys|] == m && (ys + [last])[|ys|] == last
    ensures NoEmptySegment(ys + [last]) ==> NoEmptySegment(ys + [m])
  {
    var w := ys + [last];
    var w' := ys + [m];
    assert w[|ys|] == last && w'[|ys|] == m;
    assert forall n :: 0 <= n < |ys| ==> w[n] == ys[n] && w'[n] == ys[n];
    forall n | 0 <= n < |ys| ensures ys[n].interval.end <= m.interval.start {
      assert w[n].interval.end <= w[|ys|].interval.start;
    }
    SegmentsAppend(ys, m);
    forall n | 0 <= n < |w'| - 1
      ensures !(w'[n].status == w'[n + 1].status && w'[n].interval.end == w'[n + 1].interval.start)
    {
      assert w[n] == w'[n];
      if n < |ys| - 1 {
        assert w[n + 1] == w'[n + 1];
      }
    }
  }

  /** Appending a segment that starts after every segment ends keeps a list ascending. */
  lemma SegmentsAppend(w: seq<StatusInterval>, x: StatusInterval)
    requires SegmentsAscending(w) && x.interval.Valid()
    requires forall n :: 0 <= n < |w| ==> w[n].interval.end <= x.interval.start
    ensures SegmentsAscending(w + [x])
  {
  }

  /** Step of the smoothing loop that emits the held segment and holds `xs[k]`. */
  lemma SmoothPush(xs: seq<StatusInterval>, k: int, ys: seq<StatusInterval>, last: StatusInterval)
    requires SegmentsAscending(xs) && 0 < k < |xs| && SmoothInv(xs, k, ys, Some(last))
    requires !(last.status == xs[k].status && last.interval.end == xs[k].interval.start)
    ensures SmoothInv(xs, k + 1, ys + [last], Some(xs[k]))
  {
    var w := ys + [last];
    var x := xs[k];
    var w' := w + [x];
    assert Pending(ys, Some(last)) == w;
    assert Pending(ys + [last], Some(x)) == w';
    assert xs[k - 1].interval.end <= x.interval.start;
    assert xs[0].interval.start <= x.interval.start by {
      assert xs[0].interval.end <= x.interval.start;
    }
    assert forall n :: 0 <= n < |w| ==> w'[n] == w[n];
    SegmentsAppend(w, x);
    assert Smoothed(w') by {
      forall n | 0 <= n < |w'| - 1
        ensures !(w'[n].status == w'[n + 1].status && w'[n].interval.end == w'[n + 1].interval.start)
      {
        if n == |w| - 1 {
          assert w'[n] == last && w'[n + 1] == x;
        }
      }
    }
    SmoothPushStatus(xs, k, ys, last);
    assert NoEmptySegment(xs) ==> NoEmptySegment(w');
  }

  /** The status part of `SmoothMerge`: the merged segment gives what the two parts gave. */
  lemma SmoothMergeStatus(xs: seq<StatusInterval>, k: int, ys: seq<StatusInterval>, last: StatusInterval)
    requires 0 < k < |xs| && last.interval.Valid() && xs[k].interval.Valid()
    requires last.status == xs[k].status && last.interval.end == xs[k].interval.start
    requires forall t :: StatusAt(ys + [last], t) == StatusAt(xs[..k], t)
    ensures forall t ::
      StatusAt(ys + [StatusInterval(last.status, Interval(last.interval.start, xs[k].interval.end))], t) ==
      StatusAt(xs[..k + 1], t)
  {
    assert xs[..k + 1] == xs[..k] + [xs[k]];
    forall t ensures StatusAt(ys + [StatusInterval(last.status, Interval(last.interval.start, xs[k].interval.end))], t) ==
      StatusAt(xs[..k + 1], t)
    {
      StatusAtMerge(ys, last, xs[k], t);
      StatusAtAppend(xs[..k], xs[k], t);
      StatusAtAppend(ys + [last], xs[k], t);
    }
  }

  /** The status part of `SmoothPush`: appending `xs[k]` to both sides. */
  lemma SmoothPushStatus(xs: seq<StatusInterval>, k: int, ys: seq<StatusInterval>, last: StatusInterval)
    requires 0 < k < |xs|
    requires forall t :: StatusAt(ys + [last], t) == StatusAt(xs[..k], t)
    ensures forall t :: StatusAt(ys + [last] + [xs[k]], t) == StatusAt(xs[..k + 1], t)
  {
    assert xs[..k + 1] == xs[..k] + [xs[k]];
    forall t ensures StatusAt(ys + [last] + [xs[k]], t) == StatusAt(xs[..k + 1], t) {
      StatusAtAppend(xs[..k], xs[k], t);
      StatusAtAppend(ys + [last], xs[k], t);
    }
  }

  /**
    `_smooth_status_intervals`: merges each pair of neighbours that touch and
    share a status. The result is ascending and smoothed, gives every instant
    the status the input gives it, is no longer than the input and lies in
    the span of the input.
   */
  method SmoothStatusIntervals(xs: seq<StatusInterval>) returns (ys: seq<StatusInterval>)
    requires SegmentsAscending(xs)
    ensures SegmentsAscending(ys) && Smoothed(ys)
    ensures forall t :: StatusAt(ys, t) == StatusAt(xs, t)
    ensures |ys| <= |xs|
    ensures forall m :: 0 <= m < |ys| ==>
      xs[0].interval.start <= ys[m].interval.start && ys[m].interval.end <= xs[|xs| - 1].interval.end
    ensures NoEmptySegment(xs) ==> NoEmptySegment(ys)
  {
    ys := [];
    var last: Option<StatusInterval> := None;
    for k := 0 to |xs|
      invariant SmoothInv(xs, k, ys, last)
    {
      var statusInterval := xs[k];
      assert last.None? || last.value.interval.end <= statusInterval.interval.start;
      if last.None? {
        SmoothFirst(xs);
      } else if last.value.status == statusInterval.status &&
                last.value.interval.end == statusInterval.interval.start {
        SmoothMerge(xs, k, ys, last.value);
        statusInterval := StatusInterval(last.value.status,
          Interval(last.value.interval.start, statusInterval.interval.end));
      } else {
        SmoothPush(xs, k, ys, last.value);
        ys := ys + [last.value];
      }
      last := Some(statusInterval);
    }
    assert xs[..|xs|] == xs;
    if last.Some? {
      ys := ys + [last.value];
    }
  }

  /** The intervals, in storage order, of the segments that carry `status`. */
  function WithStatus(segs: seq<StatusInterval>, status: string): (r: seq<Interval>)
    ensures |r| <= |segs|
    ensures forall x :: x in r ==> StatusInterval(status, x) in segs
    ensures forall k :: 0 <= k < |segs| && segs[k].status == status ==> segs[k].interval in r
  {
    if segs == [] then []
    else
      var rest := WithStatus(segs[1..], status);
      if segs[0].status == status then [segs[0].interval] + rest else rest
  }

  /**
    On an ascending list, the filter is ascending and holds exactly the
    instants whose status is `status`.
   */
  lemma {:induction false} WithStatusCorrect(segs: seq<StatusInterval>, status: string)
    requires SegmentsAscending(segs)
    ensures Ascending(WithStatus(segs, status))
    ensures forall t :: InSome(WithStatus(segs, status), t) <==> StatusAt(segs, t) == Some(status)
    decreases |segs|
  {
    if segs != [] {
      var rest := segs[1..];
      SuffixAscending(segs, 1);
      WithStatusCorrect(rest, status);
      var r := WithStatus(rest, status);
      var head := if segs[0].status == status then [segs[0].interval] else [];
      assert WithStatus(segs, status) == head + r;
      forall m | 0 <= m < |r| ensures segs[0].interval.end <= r[m].start {
        assert r[m] in r;
        var k :| 0 <= k < |rest| && rest[k] == StatusInterval(status, r[m]);
        assert rest[k] == segs[k + 1];
      }
      forall t ensures InSome(head + r, t) <==> StatusAt(segs, t) == Some(status) {
        InSomeConcat(head, r, t);
        if segs[0].interval.Contains(t) {
          forall k | 0 <= k < |rest| ensures !rest[k].interval.Contains(t) {
            assert rest[k] == segs[k + 1];
          }
          StatusAtNone(rest, t);
        }
      }
    }
  }

  /** The first start of a list without empty segments has the first segment's status. */
  lemma FirstStartHasStatus(s: seq<StatusInterval>)
    requires s != [] && s[0].interval.Valid() && !s[0].interval.IsEmpty()
    ensures StatusAt(s, s[0].interval.start) == Some(s[0].status)
  {
    assert s[0].interval.Contains(s[0].interval.start);
  }

  /** Before the first start of an ascending list no instant has a status. */
  lemma NoneBeforeFirst(s: seq<StatusInterval>, t: int)
    requires SegmentsAscending(s) && s != [] && t < s[0].interval.start
    ensures StatusAt(s, t) == None
  {
    forall k | 0 <= k < |s| ensures !s[k].interval.Contains(t) {
      if k > 0 {
        assert s[0].interval.end <= s[k].interval.start;
      }
    }
    StatusAtNone(s, t);
  }

  /**
    In a canonical list the instant where the first segment ends does not have
    the first segment's status.
   */
  lemma EndLeavesStatus(xs: seq<StatusInterval>)
    requires Canonical(xs) && xs != []
    ensures StatusAt(xs, xs[0].interval.end) != Some(xs[0].status)
  {
    var t := xs[0].interval.end;
    forall k | 0 <= k < |xs| ensures xs[k].interval.Contains(t) ==> xs[k].status != xs[0].status {
      if k >= 2 {
        assert xs[1].interval.end <= xs[k].interval.start;
      } else if k == 1 {
        assert xs[0].interval.end <= xs[1].interval.start;
      }
    }
    StatusAtMeaning(xs, t, xs[0].status);
  }

  /** Two canonical lists that give every instant the same status have the same first segment. */
  lemma HeadsAgree(xs: seq<StatusInterval>, ys: seq<StatusInterval>)
    requires Canonical(xs) && Canonical(ys) && xs != [] && ys != []
    requires forall t :: StatusAt(xs, t) == StatusAt(ys, t)
    ensures xs[0] == ys[0]
  {
    var x, y := xs[0].interval, ys[0].interval;
    // the first starts agree: the earlier one has a status the other list lacks
    assert StatusAt(xs, x.start) == Some(xs[0].status);
    assert StatusAt(ys, y.start) == Some(ys[0].status);
    assert x.start <= y.start by {
      if y.start < x.start {
        NoneBeforeFirst(xs, y.start);
      }
    }
    assert y.start <= x.start by {
      if x.start < y.start {
        NoneBeforeFirst(ys, x.start);
      }
    }
    // so do the ends: the instant where the shorter one ends separates the lists
    assert x.end <= y.end by {
      if y.end < x.end {
        assert xs[0].interval.Contains(y.end);
        EndLeavesStatus(ys);
      }
    }
    assert y.end <= x.end by {
      if x.end < y.end {
        assert ys[0].interval.Contains(x.end);
        EndLeavesStatus(xs);
      }
    }
  }

  /** Dropping the first segment keeps a list canonical. */
  lemma CanonicalTail(xs: seq<StatusInterval>)
    requires Canonical(xs) && xs != []
    ensures Canonical(xs[1..])
  {
    SuffixAscending(xs, 1);
    var xr := xs[1..];
    assert forall k :: 0 <= k < |xr| ==> xr[k] == xs[k + 1];
  }

  /**
    Lists that agree at every instant and share a first segment also agree at
    every instant once that segment is dropped.
   */
  lemma TailsAgree(xs: seq<StatusInterval>, ys: seq<StatusInterval>)
    requires SegmentsAscending(xs) && SegmentsAscending(ys) && xs != [] && ys != [] && xs[0] == ys[0]
    requires forall t :: StatusAt(xs, t) == StatusAt(ys, t)
    ensures forall t :: StatusAt(xs[1..], t) == StatusAt(ys[1..], t)
  {
    var xr, yr := xs[1..], ys[1..];
    forall t ensures StatusAt(xr, t) == StatusAt(yr, t) {
      if xs[0].interval.Contains(t) {
        forall k | 0 <= k < |xr| ensures !xr[k].interval.Contains(t) {
          assert xr[k] == xs[k + 1];
        }
        forall k | 0 <= k < |yr| ensures !yr[k].interval.Contains(t) {
          assert yr[k] == ys[k + 1];
        }
        StatusAtNone(xr, t);
        StatusAtNone(yr, t);
      } else {
        assert StatusAt(xs, t) == StatusAt(xr, t);
        assert StatusAt(ys, t) == StatusAt(yr, t);
      }
    }
  }

  /**
    A canonical list is determined by the status it gives each instant: two
    canonical lists that agree at every instant are equal.
   */
  lemma {:induction false} CanonicalUnique(xs: seq<StatusInterval>, ys: seq<StatusInterval>)
    requires Canonical(xs) && Canonical(ys)
    requires forall t :: StatusAt(xs, t) == StatusAt(ys, t)
    ensures xs == ys
    decreases |xs| + |ys|
  {
    if xs == [] && ys != [] {
      FirstStartHasStatus(ys);
      assert false;
    } else if xs != [] && ys == [] {
      FirstStartHasStatus(xs);
      assert false;
    } else if xs != [] {
      HeadsAgree(xs, ys);
      CanonicalTail(xs);
      CanonicalTail(ys);
      TailsAgree(xs, ys);
      CanonicalUnique(xs[1..], ys[1..]);
      assert xs == [xs[0]] + xs[1..] && ys == [ys[0]] + ys[1..];
    }
  }
}
