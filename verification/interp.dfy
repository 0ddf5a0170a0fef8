/** One-dimensional piecewise-linear interpolation with the semantics of numpy's
    `interp(x, xp, fp)`, with depth as the x axis and time as the value.

    numpy locates the largest index j with xp[j] <= x; a query left of xp[0] gives
    fp[0], a query at or beyond the last xp gives the last fp, and otherwise the
    result is slope * (x - xp[j]) + fp[j] on the segment [xp[j], xp[j+1]). The
    recursive function below walks the readings in the same way. numpy documents
    that xp must be strictly increasing, without checking it. This model requires
    only that xp does not decrease, since the calculator's default table repeats
    depths; at a repeated depth it follows numpy's implementation (the largest j),
    which gives the time of the last reading at that depth. */
module Interpolation {
  import opened Readings

  /** Depths never decrease along the series. */
  predicate DepthsNonDecreasing(pts: seq<Reading>) {
    forall i, j :: 0 <= i < j < |pts| ==> pts[i].depth <= pts[j].depth
  }

  /** Times never decrease along the series. */
  predicate TimesNonDecreasing(pts: seq<Reading>) {
    forall i, j :: 0 <= i < j < |pts| ==> pts[i].time <= pts[j].time
  }

  /** Non-decreasing depths follow from non-decreasing neighbours. */
  lemma {:induction false} AdjacentDepthsNonDecreasing(pts: seq<Reading>)
    requires forall i :: 0 <= i < |pts| - 1 ==> pts[i].depth <= pts[i + 1].depth
    ensures DepthsNonDecreasing(pts)
  {
    if |pts| > 1 {
      var tail := pts[1..];
      assert forall i :: 0 <= i < |tail| - 1 ==> tail[i].depth <= tail[i + 1].depth by {
        assert forall i :: 0 <= i < |tail| ==> tail[i] == pts[i + 1];
      }
      AdjacentDepthsNonDecreasing(tail);
      forall i, j | 0 <= i < j < |pts|
        ensures pts[i].depth <= pts[j].depth
      {
        assert pts[j] == tail[j - 1];
        if i > 0 {
          assert pts[i] == tail[i - 1];
        } else if j > 1 {
          assert pts[1] == tail[0];
        }
      }
    }
  }

  function Min(a: real, b: real): real { if a <= b then a else b }

  function Max(a: real, b: real): real { if a <= b then b else a }

  /** The earliest recorded time of a non-empty series. */
  function MinTime(pts: seq<Reading>): (m: real)
    requires |pts| >= 1
    ensures forall i :: 0 <= i < |pts| ==> m <= pts[i].time
    ensures exists i :: 0 <= i < |pts| && m == pts[i].time
  {
    if |pts| == 1 then pts[0].time
    else
      var rest := MinTime(pts[1..]);
      assert forall i :: 1 <= i < |pts| ==> pts[i] == pts[1..][i - 1];
      Min(pts[0].time, rest)
  }

  /** The latest recorded time of a non-empty series. */
  function MaxTime(pts: seq<Reading>): (m: real)
    requires |pts| >= 1
    ensures forall i :: 0 <= i < |pts| ==> pts[i].time <= m
    ensures exists i :: 0 <= i < |pts| && m == pts[i].time
  {
    if |pts| == 1 then pts[0].time
    else
      var rest := MaxTime(pts[1..]);
      assert forall i :: 1 <= i < |pts| ==> pts[i] == pts[1..][i - 1];
      Max(pts[0].time, rest)
  }

  /** numpy's interpolation on one segment: the straight line through `lo` and `hi`,
      evaluated at a depth in [lo.depth, hi.depth). */
  function Lerp(lo: Reading, hi: Reading, x: real): (r: real)
    requires lo.depth <= x < hi.depth
    ensures Min(lo.time, hi.time) <= r <= Max(lo.time, hi.time)
    ensures x == lo.depth ==> r == lo.time
  {
    var slope := (hi.time - lo.time) / (hi.depth - lo.depth);
    LerpBounds(lo.time, hi.time, hi.depth - lo.depth, x - lo.depth);
    slope * (x - lo.depth) + lo.time
  }

  lemma LerpBounds(t0: real, t1: real, span: real, offset: real)
    requires 0.0 <= offset < span
    ensures var r := (t1 - t0) / span * offset + t0;
            Min(t0, t1) <= r <= Max(t0, t1)
  {
    var lambda := offset / span;
    assert 0.0 <= lambda < 1.0;
    assert (t1 - t0) / span * offset == (t1 - t0) * lambda;
  }

  /** The interpolated time at depth `x`. */
  function Interp(x: real, pts: seq<Reading>): real
    requires |pts| >= 1
    requires DepthsNonDecreasing(pts)
    decreases |pts|
  {
    if x < pts[0].depth then pts[0].time
    else if |pts| == 1 then pts[0].time
    else if x < pts[1].depth then Lerp(pts[0], pts[1], x)
    else Interp(x, pts[1..])
  }

  /** Interpolation never leaves the range of the recorded times. */
  lemma {:induction false} InterpWithinRange(x: real, pts: seq<Reading>)
    requires |pts| >= 1
    requires DepthsNonDecreasing(pts)
    ensures MinTime(pts) <= Interp(x, pts) <= MaxTime(pts)
  {
    if x >= pts[0].depth && |pts| > 1 && x >= pts[1].depth {
      InterpWithinRange(x, pts[1..]);
      assert forall i :: 1 <= i < |pts| ==> pts[i] == pts[1..][i - 1];
    }
  }

  /** When every reading carries the same time, interpolation returns that time. */
  lemma {:induction false} InterpConstantTime(x: real, pts: seq<Reading>, t: real)
    requires |pts| >= 1
    requires DepthsNonDecreasing(pts)
    requires forall i :: 0 <= i < |pts| ==> pts[i].time == t
    ensures Interp(x, pts) == t
  {
    if x >= pts[0].depth && |pts| > 1 && x >= pts[1].depth {
      assert forall i :: 0 <= i < |pts| - 1 ==> pts[1..][i] == pts[i + 1];
      InterpConstantTime(x, pts[1..], t);
    }
  }

  /** Flat extrapolation: a query shallower than the first reading gives the first
      time, one at or deeper than the last reading gives the last time. */
  lemma {:induction false} InterpFlatOutside(x: real, pts: seq<Reading>)
    requires |pts| >= 1
    requires DepthsNonDecreasing(pts)
    ensures x < pts[0].depth ==> Interp(x, pts) == pts[0].time
    ensures x >= pts[|pts| - 1].depth ==> Interp(x, pts) == pts[|pts| - 1].time
  {
    if x >= pts[|pts| - 1].depth && |pts| > 1 {
      assert x >= pts[1].depth;
      InterpFlatOutside(x, pts[1..]);
    }
  }

  /** Exactness at the data points: querying the depth of reading k gives its time,
      provided no later reading repeats that depth (always the case for strictly
      increasing depths). With a repeated depth numpy answers with the time of the
      last reading at that depth. */
  lemma {:induction false} InterpAtKnot(pts: seq<Reading>, k: nat)
    requires k < |pts|
    requires DepthsNonDecreasing(pts)
    requires k == |pts| - 1 || pts[k].depth < pts[k + 1].depth
    ensures Interp(pts[k].depth, pts) == pts[k].time
  {
    if k > 0 {
      assert pts[1..][k - 1] == pts[k];
      InterpAtKnot(pts[1..], k - 1);
    }
  }

  /** Between two consecutive readings the result is the linear blend of their times,
      and so lies between those two times. */
  lemma {:induction false} InterpOnSegment(x: real, pts: seq<Reading>, i: nat)
    requires i + 1 < |pts|
    requires DepthsNonDecreasing(pts)
    requires pts[i].depth <= x < pts[i + 1].depth
    ensures Interp(x, pts) == Lerp(pts[i], pts[i + 1], x)
    ensures Min(pts[i].time, pts[i + 1].time) <= Interp(x, pts) <= Max(pts[i].time, pts[i + 1].time)
  {
    if i > 0 {
      assert pts[1..][i - 1] == pts[i] && pts[1..][i] == pts[i + 1];
      InterpOnSegment(x, pts[1..], i - 1);
    }
  }

  /** With non-decreasing times the interpolated time never decreases with depth. */
  lemma {:induction false} InterpMonotone(x: real, y: real, pts: seq<Reading>)
    requires |pts| >= 1
    requires DepthsNonDecreasing(pts) && TimesNonDecreasing(pts)
    requires x <= y
    ensures Interp(x, pts) <= Interp(y, pts)
  {
    if |pts| == 1 || x < pts[0].depth {
      InterpWithinRange(y, pts);
      assert MinTime(pts) == pts[0].time;
    } else if y < pts[1].depth {
      LerpMonotone(pts[0], pts[1], x, y);
    } else if x < pts[1].depth {
      InterpWithinRange(y, pts[1..]);
      assert MinTime(pts[1..]) == pts[1].time by {
        assert pts[1..][0] == pts[1];
      }
    } else {
      InterpMonotone(x, y, pts[1..]);
    }
  }

  lemma LerpMonotone(lo: Reading, hi: Reading, x: real, y: real)
    requires lo.depth <= x <= y < hi.depth
    requires lo.time <= hi.time
    ensures Lerp(lo, hi, x) <= Lerp(lo, hi, y)
  {
    var slope := (hi.time - lo.time) / (hi.depth - lo.depth);
    var a, b := x - lo.depth, y - lo.depth;
    assert Lerp(lo, hi, x) == slope * a + lo.time;
    assert Lerp(lo, hi, y) == slope * b + lo.time;
    assert slope >= 0.0 && b - a >= 0.0;
    assert slope * b - slope * a == slope * (b - a);
    assert slope * (b - a) >= 0.0;
  }

  /** The same series with every time doubled (the test ran at half the speed). */
  function DoubleTimes(pts: seq<Reading>): (s: seq<Reading>)
    ensures |s| == |pts|
    ensures forall i :: 0 <= i < |pts| ==> s[i].depth == pts[i].depth && s[i].time == 2.0 * pts[i].time
  {
    seq(|pts|, i requires 0 <= i < |pts| => Reading(2.0 * pts[i].time, pts[i].depth))
  }

  /** Doubling every time doubles every interpolated time. */
  lemma {:induction false} InterpDoubleTimes(x: real, pts: seq<Reading>)
    requires |pts| >= 1
    requires DepthsNonDecreasing(pts)
    ensures DepthsNonDecreasing(DoubleTimes(pts))
    ensures Interp(x, DoubleTimes(pts)) == 2.0 * Interp(x, pts)
  {
    var s := DoubleTimes(pts);
    assert DepthsNonDecreasing(s);
    if x < pts[0].depth || |pts| == 1 {
    } else if x < pts[1].depth {
      LerpDouble(pts[0], pts[1], s[0], s[1], x);
    } else {
      var tail := DoubleTimes(pts[1..]);
      assert forall i :: 0 <= i < |tail| ==> s[1..][i] == tail[i];
      assert s[1..] == tail;
      InterpDoubleTimes(x, pts[1..]);
    }
  }

  lemma LerpDouble(lo: Reading, hi: Reading, slo: Reading, shi: Reading, x: real)
    requires lo.depth <= x < hi.depth
    requires slo == Reading(2.0 * lo.time, lo.depth) && shi == Reading(2.0 * hi.time, hi.depth)
    ensures Lerp(slo, shi, x) == 2.0 * Lerp(lo, hi, x)
  {
    var span := hi.depth - lo.depth;
    assert (2.0 * hi.time - 2.0 * lo.time) / span == 2.0 * ((hi.time - lo.time) / span);
  }
}
