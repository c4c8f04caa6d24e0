/**
  `intersection_of_intervals`: the lock-step merge of two ascending,
  non-overlapping interval sequences into the ascending sequence of their
  intersections.
 */
module Intersection {
  import opened Wrappers
  import opened TimeInterval

  /** `x` is the intersection of an element of `a` with an element of `b`. */
  ghost predicate IsPairOverlap(a: seq<Interval>, b: seq<Interval>, x: Interval)
    requires Ascending(a) && Ascending(b)
  {
    exists p, q :: 0 <= p < |a| && 0 <= q < |b| && a[p].Overlap(b[q]) == Some(x)
  }

  /**
    Every instant shared by `a[p]` and `b[q]`, where the pair has been passed
    by a cursor (`p < i` or `q < j`), is already in `out`.
   */
  ghost predicate PairsDone(a: seq<Interval>, b: seq<Interval>, i: int, j: int, out: seq<Interval>) {
    forall p, q, t ::
      (0 <= p < |a| && 0 <= q < |b| && (p < i || q < j) && a[p].Contains(t) && b[q].Contains(t)) ==>
        InSome(out, t)
  }

  /**
    The merge loop's invariant after passing `a[..i]` and `b[..j]`: the
    output is ascending, made of pair intersections, ends before the
    current intervals start, and already holds every shared instant of a
    passed pair.
   */
  ghost predicate MergeInv(a: seq<Interval>, b: seq<Interval>, i: int, j: int, out: seq<Interval>)
    requires Ascending(a) && Ascending(b)
  {
    0 <= i <= |a| && 0 <= j <= |b| &&
    Ascending(out) &&
    (forall k :: 0 <= k < |out| ==> IsPairOverlap(a, b, out[k])) &&
    (out != [] && i < |a| && j < |b| ==>
      out[|out| - 1].end <= a[i].start || out[|out| - 1].end <= b[j].start) &&
    PairsDone(a, b, i, j, out)
  }

  /** Passing `a[i]`, which lies wholly before `b[j]`, loses no shared instant. */
  lemma PassFirst(a: seq<Interval>, b: seq<Interval>, i: int, j: int, out: seq<Interval>)
    requires Ascending(a) && Ascending(b) && 0 <= i < |a| && 0 <= j < |b|
    requires MergeInv(a, b, i, j, out) && a[i].IsBefore(b[j])
    ensures MergeInv(a, b, i + 1, j, out)
  {
    if i + 1 < |a| {
      assert a[i].end <= a[i + 1].start;
    }
    forall p, q, t | 0 <= p < |a| && 0 <= q < |b| && (p < i + 1 || q < j) &&
      a[p].Contains(t) && b[q].Contains(t)
      ensures InSome(out, t)
    {
    }
  }

  /** Passing `b[j]`, which lies wholly before `a[i]`, loses no shared instant. */
  lemma PassSecond(a: seq<Interval>, b: seq<Interval>, i: int, j: int, out: seq<Interval>)
    requires Ascending(a) && Ascending(b) && 0 <= i < |a| && 0 <= j < |b|
    requires MergeInv(a, b, i, j, out) && a[i].IsAfter(b[j])
    ensures MergeInv(a, b, i, j + 1, out)
  {
    if j + 1 < |b| {
      assert b[j].end <= b[j + 1].start;
    }
    forall p, q, t | 0 <= p < |a| && 0 <= q < |b| && (p < i || q < j + 1) &&
      a[p].Contains(t) && b[q].Contains(t)
      ensures InSome(out, t)
    {
    }
  }

  /**
    After emitting the overlap of `a[i]` and `b[j]`, the cursors the loop
    advances (those whose current interval ends where the overlap ends) pass
    no shared instant that is not emitted, and at least one of them advances.
   */
  lemma PassOverlapping(a: seq<Interval>, b: seq<Interval>, i: int, j: int, out: seq<Interval>, ov: Interval)
    requires Ascending(a) && Ascending(b) && 0 <= i < |a| && 0 <= j < |b|
    requires MergeInv(a, b, i, j, out) && a[i].Overlap(b[j]) == Some(ov)
    ensures a[i].end == ov.end || b[j].end == ov.end
    ensures var i' := if a[i].end == ov.end then i + 1 else i;
            var j' := if b[j].end == ov.end then j + 1 else j;
            MergeInv(a, b, i', j', out + [ov])
  {
    var i' := if a[i].end == ov.end then i + 1 else i;
    var j' := if b[j].end == ov.end then j + 1 else j;
    var out' := out + [ov];
    EmitAscending(out, ov);
    assert IsPairOverlap(a, b, ov);
    if i' < |a| && j' < |b| {
      if i' == i + 1 {
        assert a[i].end <= a[i + 1].start;
      } else {
        assert b[j].end <= b[j + 1].start;
      }
    }
    PairsDoneOverlapping(a, b, i, j, out, ov);
  }

  /** Appending an interval that starts where or after the last one ends keeps the output ascending. */
  lemma EmitAscending(out: seq<Interval>, ov: Interval)
    requires Ascending(out) && ov.Valid()
    requires out != [] ==> out[|out| - 1].end <= ov.start
    ensures Ascending(out + [ov])
    ensures forall k :: 0 <= k < |out| ==> (out + [ov])[k] == out[k]
    ensures (out + [ov])[|out|] == ov
  {
    forall k | 0 <= k < |out| ensures out[k].end <= ov.start {
      assert out[k].end <= out[|out| - 1].end by {
        if k < |out| - 1 {
          assert out[k].end <= out[|out| - 1].start;
        }
      }
    }
    AscendingAppend(out, ov);
  }

  /** The `PairsDone` part of `PassOverlapping`. */
  lemma PairsDoneOverlapping(a: seq<Interval>, b: seq<Interval>, i: int, j: int, out: seq<Interval>, ov: Interval)
    requires Ascending(a) && Ascending(b) && 0 <= i < |a| && 0 <= j < |b|
    requires PairsDone(a, b, i, j, out) && a[i].Overlap(b[j]) == Some(ov)
    ensures var i' := if a[i].end == ov.end then i + 1 else i;
            var j' := if b[j].end == ov.end then j + 1 else j;
            PairsDone(a, b, i', j', out + [ov])
  {
    var i' := if a[i].end == ov.end then i + 1 else i;
    var j' := if b[j].end == ov.end then j + 1 else j;
    forall p, q, t | 0 <= p < |a| && 0 <= q < |b| && (p < i' || q < j') &&
      a[p].Contains(t) && b[q].Contains(t)
      ensures InSome(out + [ov], t)
    {
      InSomeAppend(out, ov, t);
    }
  }

  /** Once a cursor runs out, the output holds exactly the shared instants. */
  lemma MergeDone(a: seq<Interval>, b: seq<Interval>, i: int, j: int, out: seq<Interval>)
    requires Ascending(a) && Ascending(b) && MergeInv(a, b, i, j, out)
    requires i == |a| || j == |b|
    ensures forall t :: InSome(out, t) <==> InSome(a, t) && InSome(b, t)
  {
    forall t ensures InSome(out, t) <==> InSome(a, t) && InSome(b, t) {
      if InSome(out, t) {
        var k :| 0 <= k < |out| && out[k].Contains(t);
        var p, q :| 0 <= p < |a| && 0 <= q < |b| && a[p].Overlap(b[q]) == Some(out[k]);
        assert a[p].Contains(t) && b[q].Contains(t);
      }
      if InSome(a, t) && InSome(b, t) {
        var p :| 0 <= p < |a| && a[p].Contains(t);
        var q :| 0 <= q < |b| && b[q].Contains(t);
        assert p < i || q < j;
      }
    }
  }

  /**
    The merge. Each step passes a cursor or emits an overlap that ends where
    `a[i]` or `b[j]` ends, so `|a| - i + |b| - j` decreases. Running out of
    either input ends the loop (and so does an empty input).
   */
  method IntersectionOfIntervals(a: seq<Interval>, b: seq<Interval>) returns (out: seq<Interval>)
    requires Ascending(a) && Ascending(b)
    ensures Ascending(out)
    ensures forall k :: 0 <= k < |out| ==> IsPairOverlap(a, b, out[k])
    ensures forall t :: InSome(out, t) <==> InSome(a, t) && InSome(b, t)
  {
    var i, j := 0, 0;
    out := [];
    while i < |a| && j < |b|
      invariant MergeInv(a, b, i, j, out)
      decreases |a| - i + |b| - j
    {
      var i1, i2 := a[i], b[j];
      if i1.IsBefore(i2) {
        PassFirst(a, b, i, j, out);
        i := i + 1;
        continue;
      }
      if i1.IsAfter(i2) {
        PassSecond(a, b, i, j, out);
        j := j + 1;
        continue;
      }
      assert i1.Overlaps(i2);
      var overlap := i1.Overlap(i2).value;
      PassOverlapping(a, b, i, j, out, overlap);
      out := out + [overlap];

      assert i1.end >= overlap.end;
      assert i2.end >= overlap.end;
      assert !(i1.end > overlap.end && i2.end > overlap.end);
      assert i1.end == overlap.end || i2.end == overlap.end;

      if i1.end == overlap.end {
        i := i + 1;
      }
      if i2.end == overlap.end {
        j := j + 1;
      }
    }
    MergeDone(a, b, i, j, out);
  }

  /**
    With non-empty inputs, every emitted interval is non-empty and covered by
    an element of each input.
   */
  lemma IntersectionCovered(a: seq<Interval>, b: seq<Interval>, x: Interval)
    requires Ascending(a) && Ascending(b) && AllNonEmpty(a) && AllNonEmpty(b)
    requires IsPairOverlap(a, b, x)
    ensures !x.IsEmpty()
    ensures exists p :: 0 <= p < |a| && a[p].Covers(x)
    ensures exists q :: 0 <= q < |b| && b[q].Covers(x)
  {
    var p, q :| 0 <= p < |a| && 0 <= q < |b| && a[p].Overlap(b[q]) == Some(x);
    OverlapCoveredByBoth(a[p], b[q]);
  }

  /** An ascending list of non-empty intervals that starts `[x, y]` and repeats only those two is `[x, y]`. */
  lemma NoThird(out: seq<Interval>, x: Interval, y: Interval)
    requires Ascending(out) && 2 <= |out| && out[0] == x && out[1] == y && x.start < x.end && y.start < y.end
    requires forall k :: 0 <= k < |out| ==> out[k] == x || out[k] == y
    ensures out == [x, y]
  {
    var last := out[|out| - 1];
    assert last == x || last == y;
    assert |out| == 2;
  }

  /**
    An ascending list drawn from two non-empty intervals `x` before `y`,
    holding an instant of each, is `[x, y]`.
   */
  lemma AscendingPair(out: seq<Interval>, x: Interval, y: Interval, tx: int, ty: int)
    requires Ascending(out) && x.start < x.end <= y.start < y.end
    requires forall k :: 0 <= k < |out| ==> out[k] == x || out[k] == y
    requires x.Contains(tx) && y.Contains(ty) && InSome(out, tx) && InSome(out, ty)
    ensures out == [x, y]
  {
    var kx :| 0 <= kx < |out| && out[kx].Contains(tx);
    var ky :| 0 <= ky < |out| && out[ky].Contains(ty);
    assert out[kx] == x && out[ky] == y && kx < ky;
    assert out[0] == x && out[1] == y;
    NoThird(out, x, y);
  }

  /** `[[0, 10), [20, 30)]` met with `[[5, 25)]` is exactly `[[5, 10), [20, 25)]`. */
  method IntersectionScenario() {
    var a := [Interval(0, 10), Interval(20, 30)];
    var b := [Interval(5, 25)];
    var out := IntersectionOfIntervals(a, b);
    var x, y := Interval(5, 10), Interval(20, 25);
    forall k | 0 <= k < |out| ensures out[k] == x || out[k] == y {
      var p, q :| 0 <= p < |a| && 0 <= q < |b| && a[p].Overlap(b[q]) == Some(out[k]);
    }
    assert a[0].Contains(5) && b[0].Contains(5) && a[1].Contains(20) && b[0].Contains(20);
    AscendingPair(out, x, y, 5, 20);
  }
}
