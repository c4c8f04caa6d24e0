/**
  MultiStatusInterval: a fixed bounding interval and an ascending list of
  `(status, interval)` segments inside it, giving each instant of the bounds
  at most one status. `mark` overwrites a range with a status.
 */
module MultiStatus {
  import opened Wrappers
  import opened TimeInterval
  import opened Segments

  /** What `_mark` relies on: ascending segments in `b`, and a valid `toAdd` in `b`. */
  ghost predicate SpliceArgs(segs: seq<StatusInterval>, b: Interval, toAdd: StatusInterval) {
    SegmentsAscending(segs) && InBounds(segs, b) &&
    toAdd.interval.Valid() && InBounds([toAdd], b)
  }

  /**
    The status the list built from the first segments gives `t`: `toAdd`'s
    status inside `toAdd` once it has been added (none before), and the old
    status of those segments elsewhere.
   */
  ghost function SplicedStatus(done: seq<StatusInterval>, toAdd: StatusInterval, didAdd: bool, t: int): Option<string> {
    if toAdd.interval.Contains(t) then (if didAdd then Some(toAdd.status) else None)
    else StatusAt(done, t)
  }

  /**
    The invariant of `_mark`'s walk after `k` segments: the list built is
    ascending and in the bounds; before `toAdd` is added everything built
    ends by `toAdd`'s start; once it is added, `toAdd` started before the
    last segment walked ended; everything built ends by the end of the last
    segment walked or of `toAdd`; and the built list gives each instant its
    `SplicedStatus`.
   */
  ghost predicate SpliceInv(segs: seq<StatusInterval>, b: Interval, toAdd: StatusInterval,
                            k: int, out: seq<StatusInterval>, didAdd: bool) {
    0 <= k <= |segs| &&
    SegmentsAscending(out) && InBounds(out, b) &&
    (!didAdd ==> forall n :: 0 <= n < |out| ==> out[n].interval.end <= toAdd.interval.start) &&
    (didAdd ==> 0 < k && toAdd.interval.start < segs[k - 1].interval.end) &&
    (forall n :: 0 <= n < |out| ==>
      (0 < k && out[n].interval.end <= segs[k - 1].interval.end) ||
      (didAdd && out[n].interval.end <= toAdd.interval.end)) &&
    (NoEmptySegment(segs) && !toAdd.interval.IsEmpty() ==> NoEmptySegment(out)) &&
    (forall t :: StatusAt(out, t) == SplicedStatus(segs[..k], toAdd, didAdd, t))
  }

  /** The status a concatenation gives: the first part's, else the second part's. */
  lemma {:induction false} StatusAtConcat(s: seq<StatusInterval>, u: seq<StatusInterval>, t: int)
    ensures StatusAt(s + u, t) == if StatusAt(s, t).Some? then StatusAt(s, t) else StatusAt(u, t)
    decreases |s|
  {
    if s == [] {
      assert s + u == u;
    } else {
      assert (s + u)[0] == s[0];
      assert (s + u)[1..] == s[1..] + u;
      StatusAtConcat(s[1..], u, t);
    }
  }

  lemma SpliceStart(segs: seq<StatusInterval>, b: Interval, toAdd: StatusInterval)
    ensures SpliceInv(segs, b, toAdd, 0, [], false)
  {
  }

  /** Case 1: `toAdd` lies after `segs[k]`, which is kept. */
  lemma SpliceKeep(segs: seq<StatusInterval>, b: Interval, toAdd: StatusInterval,
                   k: int, out: seq<StatusInterval>, didAdd: bool)
    requires SpliceArgs(segs, b, toAdd) && SpliceInv(segs, b, toAdd, k, out, didAdd) && k < |segs|
    requires toAdd.interval.IsAfter(segs[k].interval)
    ensures !didAdd && SpliceInv(segs, b, toAdd, k + 1, out + [segs[k]], didAdd)
  {
    var s := segs[k];
    assert !didAdd by {
      if k > 0 {
        assert segs[k - 1].interval.end <= s.interval.start;
      }
    }
    forall n | 0 <= n < |out| ensures out[n].interval.end <= s.interval.start {
      if 0 < k {
        assert segs[k - 1].interval.end <= s.interval.start;
      }
    }
    SegmentsAppend(out, s);
    var out' := out + [s];
    assert forall n :: 0 <= n < |out| ==> out'[n] == out[n];
    assert segs[..k + 1] == segs[..k] + [s];
    forall t ensures StatusAt(out', t) == SplicedStatus(segs[..k + 1], toAdd, didAdd, t) {
      StatusAtAppend(out, s, t);
      StatusAtAppend(segs[..k], s, t);
    }
  }

  /** Case 2: `toAdd` lies before `segs[k]`; it is added (if not yet) and `segs[k]` kept. */
  lemma SpliceBefore(segs: seq<StatusInterval>, b: Interval, toAdd: StatusInterval,
                     k: int, out: seq<StatusInterval>, didAdd: bool)
    requires SpliceArgs(segs, b, toAdd) && SpliceInv(segs, b, toAdd, k, out, didAdd) && k < |segs|
    requires !toAdd.interval.IsAfter(segs[k].interval) && toAdd.interval.IsBefore(segs[k].interval)
    ensures didAdd ==> SpliceInv(segs, b, toAdd, k + 1, out + [segs[k]], true)
    ensures !didAdd ==> SpliceInv(segs, b, toAdd, k + 1, out + [toAdd] + [segs[k]], true)
  {
    if didAdd {
      SpliceBeforeAdded(segs, b, toAdd, k, out);
    } else {
      SpliceBeforeFirst(segs, b, toAdd, k, out);
    }
  }

  lemma SpliceBeforeAdded(segs: seq<StatusInterval>, b: Interval, toAdd: StatusInterval,
                          k: int, out: seq<StatusInterval>)
    requires SpliceArgs(segs, b, toAdd) && SpliceInv(segs, b, toAdd, k, out, true) && k < |segs|
    requires !toAdd.interval.IsAfter(segs[k].interval) && toAdd.interval.IsBefore(segs[k].interval)
    ensures SpliceInv(segs, b, toAdd, k + 1, out + [segs[k]], true)
  {
    var s := segs[k];
    var out' := out + [s];
    assert segs[k - 1].interval.end <= s.interval.start;
    assert forall n :: 0 <= n < |out| ==> out[n].interval.end <= s.interval.start;
    SegmentsAppend(out, s);
    assert forall n :: 0 <= n < |out| ==> out'[n] == out[n];
    assert out'[|out|] == s;
    SpliceBeforeStatus(segs, toAdd, k, out, true);
  }

  lemma SpliceBeforeFirst(segs: seq<StatusInterval>, b: Interval, toAdd: StatusInterval,
                          k: int, out: seq<StatusInterval>)
    requires SpliceArgs(segs, b, toAdd) && SpliceInv(segs, b, toAdd, k, out, false) && k < |segs|
    requires !toAdd.interval.IsAfter(segs[k].interval) && toAdd.interval.IsBefore(segs[k].interval)
    ensures SpliceInv(segs, b, toAdd, k + 1, out + [toAdd] + [segs[k]], true)
  {
    var s := segs[k];
    var mid := out + [toAdd];
    var out' := mid + [s];
    SegmentsAppend(out, toAdd);
    assert forall n :: 0 <= n < |out| ==> mid[n] == out[n];
    assert mid[|out|] == toAdd;
    assert forall n :: 0 <= n < |mid| ==> mid[n].interval.end <= s.interval.start;
    SegmentsAppend(mid, s);
    assert forall n :: 0 <= n < |mid| ==> out'[n] == mid[n];
    assert out'[|mid|] == s;
    assert [toAdd][0] == toAdd;
    SpliceBeforeStatus(segs, toAdd, k, out, false);
  }

  /** The status part of `SpliceBefore`. */
  lemma SpliceBeforeStatus(segs: seq<StatusInterval>, toAdd: StatusInterval,
                           k: int, out: seq<StatusInterval>, didAdd: bool)
    requires 0 <= k < |segs|
    requires forall t :: StatusAt(out, t) == SplicedStatus(segs[..k], toAdd, didAdd, t)
    requires didAdd || toAdd.interval.IsBefore(segs[k].interval)
    ensures didAdd ==> forall t ::
      StatusAt(out + [segs[k]], t) == SplicedStatus(segs[..k + 1], toAdd, true, t)
    ensures !didAdd ==> forall t ::
      StatusAt(out + [toAdd] + [segs[k]], t) == SplicedStatus(segs[..k + 1], toAdd, true, t)
  {
    var s := segs[k];
    var mid := if didAdd then out else out + [toAdd];
    assert segs[..k + 1] == segs[..k] + [s];
    forall t ensures StatusAt(mid + [s], t) == SplicedStatus(segs[..k + 1], toAdd, true, t) {
      StatusAtAppend(mid, s, t);
      StatusAtAppend(out, toAdd, t);
      StatusAtAppend(segs[..k], s, t);
    }
  }

  /** The pieces `_mark` emits for a segment `s` that overlaps `toAdd`. */
  ghost function OverlapPieces(s: StatusInterval, toAdd: StatusInterval, didAdd: bool): seq<StatusInterval>
    requires s.interval.Valid() && toAdd.interval.Valid()
  {
    var (before, after) := NonOverlappingIntervals(s.interval, toAdd.interval);
    (if before.Some? then [StatusInterval(s.status, before.value)] else []) +
    (if didAdd then [] else [toAdd]) +
    (if after.Some? then [StatusInterval(s.status, after.value)] else [])
  }

  /**
    The pieces for an overlapping segment give `t` the status `toAdd` (if
    emitted) gives it inside `toAdd`, and `s`'s status in the rest of `s`.
   */
  lemma OverlapPiecesStatus(s: StatusInterval, toAdd: StatusInterval, didAdd: bool, t: int)
    requires s.interval.Valid() && toAdd.interval.Valid() && s.interval.Overlaps(toAdd.interval)
    ensures StatusAt(OverlapPieces(s, toAdd, didAdd), t) ==
      if toAdd.interval.Contains(t) then (if didAdd then None else Some(toAdd.status))
      else if s.interval.Contains(t) then Some(s.status) else None
  {
    var (before, after) := NonOverlappingIntervals(s.interval, toAdd.interval);
    var bs := if before.Some? then [StatusInterval(s.status, before.value)] else [];
    var ts := if didAdd then [] else [toAdd];
    var as_ := if after.Some? then [StatusInterval(s.status, after.value)] else [];
    StatusAtConcat(bs + ts, as_, t);
    StatusAtConcat(bs, ts, t);
  }

  /** The pieces for an overlapping segment are ascending, and lie in `s` or are `toAdd`. */
  lemma OverlapPiecesShape(s: StatusInterval, toAdd: StatusInterval, didAdd: bool)
    requires s.interval.Valid() && toAdd.interval.Valid() && s.interval.Overlaps(toAdd.interval)
    requires didAdd ==> toAdd.interval.start <= s.interval.start
    ensures var p := OverlapPieces(s, toAdd, didAdd);
      SegmentsAscending(p) &&
      (forall x :: x in p ==>
        (x == toAdd && !didAdd) ||
        (s.interval.start <= x.interval.start && x.interval.end <= s.interval.end &&
         !x.interval.IsEmpty())) &&
      (forall x :: x in p ==> x.interval.end <= s.interval.end || x.interval.end <= toAdd.interval.end) &&
      (forall x :: x in p ==> toAdd.interval.start <= x.interval.start || s.interval.start == x.interval.start) &&
      (didAdd ==> forall x :: x in p ==> toAdd.interval.end <= x.interval.start)
  {
    var p := OverlapPieces(s, toAdd, didAdd);
    var (before, after) := NonOverlappingIntervals(s.interval, toAdd.interval);
    var bs := if before.Some? then StatusInterval(s.status, before.value) else s;
    var as_ := if after.Some? then StatusInterval(s.status, after.value) else s;
    if didAdd && after.Some? {
      assert p == [as_];
    } else if didAdd {
      assert p == [];
    } else if before.Some? && after.Some? {
      assert p == [bs, toAdd, as_];
    } else if before.Some? {
      assert p == [bs, toAdd];
    } else if after.Some? {
      assert p == [toAdd, as_];
    } else {
      assert p == [toAdd];
    }
  }

  /** Two ascending lists, the first ending before the second starts, concatenate to one. */
  lemma SegmentsConcat(x: seq<StatusInterval>, y: seq<StatusInterval>)
    requires SegmentsAscending(x) && SegmentsAscending(y)
    requires forall n, m :: 0 <= n < |x| && 0 <= m < |y| ==> x[n].interval.end <= y[m].interval.start
    ensures SegmentsAscending(x + y)
  {
    var z := x + y;
    forall n | 0 <= n < |z| ensures z[n].interval.Valid() {
      if n >= |x| { assert z[n] == y[n - |x|]; }
    }
    forall n, m | 0 <= n < m < |z| ensures z[n].interval.end <= z[m].interval.start {
      if m < |x| {
        assert z[n] == x[n] && z[m] == x[m];
      } else if n < |x| {
        assert z[n] == x[n] && z[m] == y[m - |x|];
      } else {
        assert z[n] == y[n - |x|] && z[m] == y[m - |x|];
      }
    }
  }

  /** Cases 3 to 6: `segs[k]` overlaps `toAdd`; its parts outside `toAdd` are kept around `toAdd`. */
  lemma SpliceOverlap(segs: seq<StatusInterval>, b: Interval, toAdd: StatusInterval,
                      k: int, out: seq<StatusInterval>, didAdd: bool)
    requires SpliceArgs(segs, b, toAdd) && SpliceInv(segs, b, toAdd, k, out, didAdd) && k < |segs|
    requires !toAdd.interval.IsAfter(segs[k].interval) && !toAdd.interval.IsBefore(segs[k].interval)
    ensures segs[k].interval.Overlaps(toAdd.interval)
    ensures didAdd ==> NonOverlappingIntervals(segs[k].interval, toAdd.interval).0.None?
    ensures SpliceInv(segs, b, toAdd, k + 1, out + OverlapPieces(segs[k], toAdd, didAdd), true)
  {
    var s := segs[k];
    var p := OverlapPieces(s, toAdd, didAdd);
    var out' := out + p;
    assert 0 < k ==> segs[k - 1].interval.end <= s.interval.start;
    assert didAdd ==> toAdd.interval.start <= s.interval.start;
    OverlapPiecesShape(s, toAdd, didAdd);
    assert SegmentsAscending(out') by {
      forall n, m | 0 <= n < |out| && 0 <= m < |p| ensures out[n].interval.end <= p[m].interval.start {
        assert p[m] in p;
      }
      SegmentsConcat(out, p);
    }
    SpliceOverlapBounds(segs, b, toAdd, k, out, didAdd);
    SpliceOverlapStatus(segs, b, toAdd, k, out, didAdd);
  }

  /** The status part of `SpliceOverlap`. */
  lemma SpliceOverlapStatus(segs: seq<StatusInterval>, b: Interval, toAdd: StatusInterval,
                            k: int, out: seq<StatusInterval>, didAdd: bool)
    requires SpliceArgs(segs, b, toAdd) && SpliceInv(segs, b, toAdd, k, out, didAdd) && k < |segs|
    requires segs[k].interval.Overlaps(toAdd.interval)
    ensures forall t ::
      StatusAt(out + OverlapPieces(segs[k], toAdd, didAdd), t) == SplicedStatus(segs[..k + 1], toAdd, true, t)
  {
    var s := segs[k];
    var p := OverlapPieces(s, toAdd, didAdd);
    assert segs[..k + 1] == segs[..k] + [s];
    forall t ensures StatusAt(out + p, t) == SplicedStatus(segs[..k + 1], toAdd, true, t) {
      StatusAtConcat(out, p, t);
      OverlapPiecesStatus(s, toAdd, didAdd, t);
      StatusAtAppend(segs[..k], s, t);
    }
  }

  /** The element-wise parts of `SpliceOverlap`: bounds, frontier and non-emptiness. */
  lemma SpliceOverlapBounds(segs: seq<StatusInterval>, b: Interval, toAdd: StatusInterval,
                            k: int, out: seq<StatusInterval>, didAdd: bool)
    requires SpliceArgs(segs, b, toAdd) && SpliceInv(segs, b, toAdd, k, out, didAdd) && k < |segs|
    requires segs[k].interval.Overlaps(toAdd.interval)
    requires didAdd ==> toAdd.interval.start <= segs[k].interval.start
    ensures var out' := out + OverlapPieces(segs[k], toAdd, didAdd);
      InBounds(out', b) &&
      (forall n :: 0 <= n < |out'| ==>
        out'[n].interval.end <= segs[k].interval.end || out'[n].interval.end <= toAdd.interval.end) &&
      (NoEmptySegment(segs) && !toAdd.interval.IsEmpty() ==> NoEmptySegment(out'))
  {
    var s := segs[k];
    assert 0 < k ==> segs[k - 1].interval.end <= s.interval.start;
    assert [toAdd][0] == toAdd;
    assert b.start <= s.interval.start && s.interval.end <= b.end;
    assert forall n :: 0 <= n < |out| ==>
      out[n].interval.end <= s.interval.end || out[n].interval.end <= toAdd.interval.end;
    PiecesInBounds(out, s, toAdd, didAdd, b);
    if NoEmptySegment(segs) && !toAdd.interval.IsEmpty() {
      PiecesNonEmpty(out, s, toAdd, didAdd);
    }
  }

  /** Appending the pieces for `s` keeps a list inside `b` and ending by `s` or `toAdd`. */
  lemma PiecesInBounds(out: seq<StatusInterval>, s: StatusInterval, toAdd: StatusInterval, didAdd: bool, b: Interval)
    requires s.interval.Valid() && toAdd.interval.Valid() && s.interval.Overlaps(toAdd.interval)
    requires didAdd ==> toAdd.interval.start <= s.interval.start
    requires InBounds(out, b) && InBounds([toAdd], b)
    requires b.start <= s.interval.start && s.interval.end <= b.end
    requires forall n :: 0 <= n < |out| ==>
      out[n].interval.end <= s.interval.end || out[n].interval.end <= toAdd.interval.end
    ensures var out' := out + OverlapPieces(s, toAdd, didAdd);
      InBounds(out', b) &&
      forall n :: 0 <= n < |out'| ==>
        out'[n].interval.end <= s.interval.end || out'[n].interval.end <= toAdd.interval.end
  {
    var p := OverlapPieces(s, toAdd, didAdd);
    var out' := out + p;
    OverlapPiecesShape(s, toAdd, didAdd);
    assert [toAdd][0] == toAdd;
    forall n | 0 <= n < |out'|
      ensures b.start <= out'[n].interval.start && out'[n].interval.end <= b.end
      ensures out'[n].interval.end <= s.interval.end || out'[n].interval.end <= toAdd.interval.end
    {
      if n < |out| {
        assert out'[n] == out[n];
      } else {
        assert out'[n] == p[n - |out|];
        assert p[n - |out|] in p;
      }
    }
  }

  /** Appending the pieces for a non-empty `s` and `toAdd` keeps a list free of empty segments. */
  lemma PiecesNonEmpty(out: seq<StatusInterval>, s: StatusInterval, toAdd: StatusInterval, didAdd: bool)
    requires s.interval.Valid() && toAdd.interval.Valid() && s.interval.Overlaps(toAdd.interval)
    requires didAdd ==> toAdd.interval.start <= s.interval.start
    requires NoEmptySegment(out) && !toAdd.interval.IsEmpty()
    ensures NoEmptySegment(out + OverlapPieces(s, toAdd, didAdd))
  {
    var p := OverlapPieces(s, toAdd, didAdd);
    var out' := out + p;
    OverlapPiecesShape(s, toAdd, didAdd);
    forall n | 0 <= n < |out'| ensures !out'[n].interval.IsEmpty() {
      if n < |out| {
        assert out'[n] == out[n];
      } else {
        assert out'[n] == p[n - |out|];
        assert p[n - |out|] in p;
      }
    }
  }

  /** After the walk: `toAdd` is appended if it sorts after every segment. */
  lemma SpliceFinish(segs: seq<StatusInterval>, b: Interval, toAdd: StatusInterval,
                     out: seq<StatusInterval>, didAdd: bool)
    requires SpliceArgs(segs, b, toAdd) && SpliceInv(segs, b, toAdd, |segs|, out, didAdd)
    ensures var out' := if didAdd then out else out + [toAdd];
      SegmentsAscending(out') && InBounds(out', b) &&
      (NoEmptySegment(segs) && !toAdd.interval.IsEmpty() ==> NoEmptySegment(out')) &&
      forall t :: StatusAt(out', t) ==
        if toAdd.interval.Contains(t) then Some(toAdd.status) else StatusAt(segs, t)
  {
    assert segs[..|segs|] == segs;
    var out' := if didAdd then out else out + [toAdd];
    if !didAdd {
      SegmentsAppend(out, toAdd);
      assert forall n :: 0 <= n < |out| ==> out'[n] == out[n];
      assert out'[|out|] == toAdd;
    }
    forall t ensures StatusAt(out', t) ==
      if toAdd.interval.Contains(t) then Some(toAdd.status) else StatusAt(segs, t)
    {
      StatusAtAppend(out, toAdd, t);
    }
  }

  /** Segments inside the bounds leave every instant outside them without status. */
  lemma OutsideBoundsNoStatus(segs: seq<StatusInterval>, b: Interval, t: int)
    requires InBounds(segs, b) && !b.Contains(t)
    ensures StatusAt(segs, t) == None
  {
    StatusAtNone(segs, t);
  }

  class MultiStatusInterval {
    /** The bounding interval, fixed at construction. */
    const bounds: Interval
    /** `_intervals`: the stored segments. */
    var segs: seq<StatusInterval>

    /** The three invariants of the stored list: ascending, smoothed, inside the bounds. */
    ghost predicate Valid()
      reads this
    {
      bounds.Valid() && SegmentsAscending(segs) && Smoothed(segs) && InBounds(segs, bounds)
    }

    /** The status of instant `t`: none outside the bounds, else that of the segment holding `t`. */
    ghost function Abs(t: int): Option<string>
      reads this
    {
      if bounds.Contains(t) then StatusAt(segs, t) else None
    }

    constructor (interval: Interval)
      requires interval.Valid()
      ensures Valid() && bounds == interval && segs == []
      ensures forall t :: Abs(t) == None
    {
      bounds := interval;
      segs := [];
    }

    /**
      `status`: none outside the bounds; otherwise scan the segments, stopping
      at the first that starts after `t`.
     */
    method Status(t: int) returns (r: Option<string>)
      requires Valid()
      ensures r == Abs(t)
      ensures r.Some? ==> bounds.Contains(t)
    {
      r := None;
      if bounds.Contains(t) {
        var k := 0;
        while k < |segs|
          invariant 0 <= k <= |segs|
          invariant forall n :: 0 <= n < k ==> !segs[n].interval.Contains(t)
        {
          var statusInterval := segs[k];
          if statusInterval.interval.StartsAfter(t) {
            forall n | k <= n < |segs| ensures !segs[n].interval.Contains(t) {
              assert segs[k].interval.start <= segs[n].interval.start by {
                if n > k {
                  assert segs[k].interval.end <= segs[n].interval.start;
                }
              }
            }
            break;
          }
          if statusInterval.interval.Contains(t) {
            StatusAtIndex(segs, k, t);
            r := Some(statusInterval.status);
            return;
          }
          k := k + 1;
        }
        StatusAtNone(segs, t);
      }
    }

    /**
      `intervals_with_status`: the stored intervals with status `status`, in
      storage order; they are ascending and hold exactly the instants whose
      status is `status`.
     */
    function IntervalsWithStatus(status: string): (r: seq<Interval>)
      reads this
      requires Valid()
      ensures Ascending(r)
      ensures forall t :: InSome(r, t) <==> Abs(t) == Some(status)
    {
      WithStatusCorrect(segs, status);
      assert forall t :: !bounds.Contains(t) ==> StatusAt(segs, t) == None by {
        forall t | !bounds.Contains(t) ensures StatusAt(segs, t) == None {
          OutsideBoundsNoStatus(segs, bounds, t);
        }
      }
      WithStatus(segs, status)
    }

    /**
      `mark`: clip `interval` to the bounds and, if anything is left, splice
      it in with `status`. Afterwards the clipped range has `status`, every
      other instant keeps its status, and nothing changes when `interval`
      misses the bounds. A store with no empty segment keeps that form when
      both the bounds and `interval` are non-empty, and marking a range that
      already has `status` throughout then leaves the store as it is (so
      marking twice is marking once).
     */
    method Mark(interval: Interval, status: string)
      requires Valid() && interval.Valid()
      modifies this
      ensures Valid()
      ensures forall t :: Abs(t) == if bounds.Contains(t) && interval.Contains(t) then Some(status) else old(Abs(t))
      ensures !bounds.Overlaps(interval) ==> segs == old(segs)
      ensures NoEmptySegment(old(segs)) && !bounds.IsEmpty() && !interval.IsEmpty() ==> NoEmptySegment(segs)
      ensures (NoEmptySegment(old(segs)) && !bounds.IsEmpty() && !interval.IsEmpty() &&
               forall t :: bounds.Contains(t) && interval.Contains(t) ==> old(Abs(t)) == Some(status)) ==>
        segs == old(segs)
    {
      ghost var before := segs;
      var clipped := bounds.Overlap(interval);
      if clipped.Some? {
        if !bounds.IsEmpty() && !interval.IsEmpty() {
          OverlapCoveredByBoth(bounds, interval);
        }
        MarkSegment(StatusInterval(status, clipped.value));
        if NoEmptySegment(before) && !bounds.IsEmpty() && !interval.IsEmpty() &&
           (forall t :: bounds.Contains(t) && interval.Contains(t) ==> old(Abs(t)) == Some(status))
        {
          forall t ensures StatusAt(segs, t) == StatusAt(before, t) {
            if !bounds.Contains(t) {
              OutsideBoundsNoStatus(segs, bounds, t);
              OutsideBoundsNoStatus(before, bounds, t);
            }
          }
          CanonicalUnique(segs, before);
        }
      }
    }

    /**
      `_mark`: splice `toAdd` into the stored segments, then smooth the
      result. Inside `toAdd` the status becomes `toAdd`'s; elsewhere it is
      unchanged.
     */
    method MarkSegment(toAdd: StatusInterval)
      requires Valid() && toAdd.interval.Valid()
      requires bounds.start <= toAdd.interval.start && toAdd.interval.end <= bounds.end
      modifies this
      ensures Valid()
      ensures forall t :: StatusAt(segs, t) == (if toAdd.interval.Contains(t) then Some(toAdd.status) else old(StatusAt(segs, t)))
      ensures NoEmptySegment(old(segs)) && !toAdd.interval.IsEmpty() ==> NoEmptySegment(segs)
    {
      var intervals := Splice(segs, bounds, toAdd);
      var smoothed := SmoothStatusIntervals(intervals);
      segs := smoothed;
    }
  }

  /**
    Cases 3 to 6 of `_mark`'s walk: the part of `statusInterval` before
    `toAdd`, then `toAdd` unless it was added already, then the part of
    `statusInterval` after `toAdd`. `OverlapPieces` is its specification;
    the walk's lemmas reason about that function.
   */
  method CutAround(statusInterval: StatusInterval, toAdd: StatusInterval, didAdd: bool)
    returns (pieces: seq<StatusInterval>)
    requires statusInterval.interval.Valid() && toAdd.interval.Valid()
    requires statusInterval.interval.Overlaps(toAdd.interval)
    requires didAdd ==> NonOverlappingIntervals(statusInterval.interval, toAdd.interval).0.None?
    ensures pieces == OverlapPieces(statusInterval, toAdd, didAdd)
  {
    assert statusInterval.interval.Overlaps(toAdd.interval);
    var added := didAdd;
    pieces := [];
    var (before, after) := NonOverlappingIntervals(statusInterval.interval, toAdd.interval);
    if before.Some? {
      assert !added;
      pieces := pieces + [StatusInterval(statusInterval.status, before.value)];
    }
    if !added {
      pieces := pieces + [toAdd];
      added := true;
    }
    if after.Some? {
      assert added;
      pieces := pieces + [StatusInterval(statusInterval.status, after.value)];
    }
  }

  /**
    The walk of `_mark`: keep the segments before `toAdd`, cut those that
    overlap it down to their parts outside it, insert `toAdd` once, and keep
    those after it. The result is ascending, stays in the bounds, and gives
    `toAdd`'s status inside `toAdd` and the old status elsewhere.
   */
  method Splice(segs: seq<StatusInterval>, bounds: Interval, toAdd: StatusInterval)
    returns (intervals: seq<StatusInterval>)
    requires SpliceArgs(segs, bounds, toAdd)
    ensures intervals != [] && SegmentsAscending(intervals) && InBounds(intervals, bounds)
    ensures NoEmptySegment(segs) && !toAdd.interval.IsEmpty() ==> NoEmptySegment(intervals)
    ensures forall t :: StatusAt(intervals, t) == (if toAdd.interval.Contains(t) then Some(toAdd.status) else StatusAt(segs, t))
  {
    intervals := [];
    var didAdd := false;
    SpliceStart(segs, bounds, toAdd);
    for k := 0 to |segs|
      invariant SpliceInv(segs, bounds, toAdd, k, intervals, didAdd)
      invariant didAdd ==> intervals != []
    {
      var statusInterval := segs[k];
      if toAdd.interval.IsAfter(statusInterval.interval) {
        SpliceKeep(segs, bounds, toAdd, k, intervals, didAdd);
        intervals := intervals + [statusInterval];
      } else if toAdd.interval.IsBefore(statusInterval.interval) {
        SpliceBefore(segs, bounds, toAdd, k, intervals, didAdd);
        if !didAdd {
          intervals := intervals + [toAdd];
          didAdd := true;
        }
        intervals := intervals + [statusInterval];
      } else {
        SpliceOverlap(segs, bounds, toAdd, k, intervals, didAdd);
        var pieces := CutAround(statusInterval, toAdd, didAdd);
        intervals := intervals + pieces;
        didAdd := true;
      }
    }
    SpliceFinish(segs, bounds, toAdd, intervals, didAdd);
    if !didAdd {
      intervals := intervals + [toAdd];
    }
  }

  /** Two overlapping marks in `[0, 100)`: the later status wins where they overlap. */
  method MarkScenario() {
    var m := new MultiStatusInterval(Interval(0, 100));
    m.Mark(Interval(10, 30), "A");
    m.Mark(Interval(20, 40), "B");
    var s1 := m.Status(15);
    var s2 := m.Status(25);
    var s3 := m.Status(50);
    var s4 := m.Status(100);
    assert s1 == Some("A") && s2 == Some("B") && s3 == None && s4 == None;
    var a := m.IntervalsWithStatus("A");
    assert InSome(a, 19) && !InSome(a, 20);
  }

  /** Marking `[10, 20)` and then `[20, 30)` with one status stores the single segment `[10, 30)`. */
  method MarkAdjacentScenario() {
    var m := new MultiStatusInterval(Interval(0, 100));
    m.Mark(Interval(10, 20), "X");
    m.Mark(Interval(20, 30), "X");
    var one := [StatusInterval("X", Interval(10, 30))];
    forall t ensures StatusAt(m.segs, t) == StatusAt(one, t) {
      if !m.bounds.Contains(t) {
        OutsideBoundsNoStatus(m.segs, m.bounds, t);
      }
    }
    CanonicalUnique(m.segs, one);
    assert m.segs == one;
  }

  /** The store `MarkOverwriteScenario` expects: canonical, with these statuses. */
  lemma OverwriteExpected(three: seq<StatusInterval>, t: int)
    requires three == [StatusInterval("A", Interval(0, 20)), StatusInterval("B", Interval(20, 40)),
                       StatusInterval("A", Interval(40, 100))]
    ensures Canonical(three)
    ensures StatusAt(three, t) ==
      if 0 <= t < 20 || 40 <= t < 100 then Some("A") else if 20 <= t < 40 then Some("B") else None
  {
    if t < 0 || 100 <= t {
      StatusAtNone(three, t);
    } else if t < 20 {
      StatusAtIndex(three, 0, t);
    } else if t < 40 {
      StatusAtIndex(three, 1, t);
    } else {
      StatusAtIndex(three, 2, t);
    }
  }

  /**
    The whole range marked "A", then `[20, 40)` marked "B": the store is
    "A" on `[0, 20)`, "B" on `[20, 40)` and "A" on `[40, 100)`.
   */
  method MarkOverwriteScenario() {
    var m := new MultiStatusInterval(Interval(0, 100));
    m.Mark(Interval(0, 100), "A");
    assert forall t :: m.Abs(t) == if 0 <= t < 100 then Some("A") else None;
    m.Mark(Interval(20, 40), "B");
    var three := [StatusInterval("A", Interval(0, 20)), StatusInterval("B", Interval(20, 40)),
                  StatusInterval("A", Interval(40, 100))];
    forall t ensures StatusAt(m.segs, t) == StatusAt(three, t) {
      OverwriteExpected(three, t);
      if !m.bounds.Contains(t) {
        OutsideBoundsNoStatus(m.segs, m.bounds, t);
      }
    }
    OverwriteExpected(three, 0);
    CanonicalUnique(m.segs, three);
    assert m.segs == three;
  }
}
