/** The soakage calculation of BRE Digest 365 as the calculator performs it: from
    the pit's plan dimensions, the gravel void ratio and the cleaned time-depth
    readings it derives the reference levels h75 and h25, the times t75 and t25 at
    which the water stood at those levels, the effective volume v7525, the
    effective wetted area aP50 and the infiltration rate f in m/s.

    All quantities are exact reals. The calculator works in IEEE-754 doubles, where
    delta_h = h75 - (h75 - 0.150) is only approximately 0.150 and the zero test on
    the denominator of f compares floats; neither rounding effect is modelled.
    Rounding can also carry h25 just below a repeated depth, where the interpolated
    time jumps by a whole reading interval; the model, being exact, does not. */
module Infiltration {
  import opened Readings
  import opened Interpolation

  /** h25 lies this many metres above h75 (a fixed 150 mm). */
  const ReferenceRise: real := 0.150

  const SecondsPerMinute: real := 60.0

  /** The calculation runs only with at least this many complete readings. */
  const MinReadings: nat := 2

  /** Pit geometry in metres. The pit depth is an input of the calculator that no
      formula uses. */
  datatype Pit = Pit(length: real, width: real, depth: real)

  datatype Results = Results(
    h75: real, h25: real, deltaH: real,
    t75: real, t25: real, deltaT: real,
    v7525: real, aP50: real, f: real)

  /** Fewer than two complete readings: the calculator shows a warning instead. */
  datatype Outcome = InsufficientData | Computed(results: Results)

  /** Effective volume: plan area times the depth band times the void fraction. */
  function EffectiveVolume(length: real, width: real, deltaH: real, voidRatio: real): real {
    length * width * deltaH * voidRatio
  }

  /** Effective wetted area: the four side faces over the depth band plus the base. */
  function EffectiveArea(length: real, width: real, deltaH: real): real {
    2.0 * length * deltaH + 2.0 * width * deltaH + length * width
  }

  /** Infiltration rate, with 0 in place of a division by zero. */
  function Rate(volume: real, area: real, deltaT: real): real {
    if area * deltaT != 0.0 then volume / (area * deltaT) else 0.0
  }

  /** The effective volume is a void fraction of the pit volume over the depth band:
      never negative and never more than that volume. */
  lemma EffectiveVolumeBounds(length: real, width: real, deltaH: real, voidRatio: real)
    requires 0.0 <= length && 0.0 <= width && 0.0 <= deltaH && 0.0 <= voidRatio <= 1.0
    ensures 0.0 <= EffectiveVolume(length, width, deltaH, voidRatio) <= length * width * deltaH
  {
    var band := length * width * deltaH;
    assert 0.0 <= length * width;
    assert 0.0 <= band;
    assert band * voidRatio <= band * 1.0;
  }

  /** The effective area is at least the base of the pit, hence positive for a pit
      with positive sides. */
  lemma EffectiveAreaCoversBase(length: real, width: real, deltaH: real)
    requires 0.0 <= length && 0.0 <= width && 0.0 <= deltaH
    ensures EffectiveArea(length, width, deltaH) >= length * width
    ensures 0.0 < length && 0.0 < width ==> EffectiveArea(length, width, deltaH) > 0.0
  {
    assert 0.0 <= length * deltaH && 0.0 <= width * deltaH;
  }

  /** The rate balances the volume against area times elapsed time, and is 0 exactly
      where that product vanishes: nothing is ever divided by zero. */
  lemma RateBalancesVolume(volume: real, area: real, deltaT: real)
    ensures area * deltaT != 0.0 ==> Rate(volume, area, deltaT) * (area * deltaT) == volume
    ensures area * deltaT == 0.0 ==> Rate(volume, area, deltaT) == 0.0
    ensures 0.0 <= volume && 0.0 < area && 0.0 <= deltaT ==> 0.0 <= Rate(volume, area, deltaT)
  {
    if 0.0 <= volume && 0.0 < area && 0.0 < deltaT {
      assert 0.0 < area * deltaT;
    }
  }

  /** The whole calculation. The pit depth is accepted and ignored. */
  function Calculate(pit: Pit, voidRatio: real, rows: seq<Row>): (out: Outcome)
    requires DepthsNonDecreasing(Clean(rows))
    ensures out.InsufficientData? <==> |Clean(rows)| < MinReadings
    ensures out.Computed? ==>
              var r, res := Clean(rows), out.results;
              && res.h75 == r[|r| - 1].depth
              && res.h25 == res.h75 - ReferenceRise
              && res.deltaH == ReferenceRise
              && res.t75 == r[|r| - 1].time * SecondsPerMinute
              && res.t25 == Interp(res.h25, r) * SecondsPerMinute
              && res.deltaT == res.t75 - res.t25
              && res.v7525 == EffectiveVolume(pit.length, pit.width, ReferenceRise, voidRatio)
              && res.aP50 == EffectiveArea(pit.length, pit.width, ReferenceRise)
              && res.f == Rate(res.v7525, res.aP50, res.deltaT)
  {
    var r := Clean(rows);
    if |r| < MinReadings then InsufficientData
    else
      var h75 := r[|r| - 1].depth;
      var h25 := h75 - ReferenceRise;
      var deltaH := h75 - h25;
      var t75 := Interp(h75, r) * SecondsPerMinute;
      var t25 := Interp(h25, r) * SecondsPerMinute;
      var deltaT := t75 - t25;
      var v7525 := EffectiveVolume(pit.length, pit.width, deltaH, voidRatio);
      var aP50 := EffectiveArea(pit.length, pit.width, deltaH);
      var f := Rate(v7525, aP50, deltaT);
      InterpAtKnot(r, |r| - 1);
      Computed(Results(h75, h25, deltaH, t75, t25, deltaT, v7525, aP50, f))
  }

  /** With readings whose times do not decrease, h25 is reached no later than h75,
      so the elapsed time is never negative. */
  lemma CalculateTimesOrdered(pit: Pit, voidRatio: real, rows: seq<Row>)
    requires DepthsNonDecreasing(Clean(rows)) && TimesNonDecreasing(Clean(rows))
    requires |Clean(rows)| >= MinReadings
    ensures Calculate(pit, voidRatio, rows).Computed?
    ensures var res := Calculate(pit, voidRatio, rows).results;
            res.t25 <= res.t75 && res.deltaT >= 0.0
  {
    var r := Clean(rows);
    InterpMonotone(r[|r| - 1].depth - ReferenceRise, r[|r| - 1].depth, r);
  }

  /** For a pit with positive sides, a void ratio in [0, 1] and non-decreasing
      times the computed rate is never negative. */
  lemma CalculateRateNonNegative(pit: Pit, voidRatio: real, rows: seq<Row>)
    requires DepthsNonDecreasing(Clean(rows)) && TimesNonDecreasing(Clean(rows))
    requires |Clean(rows)| >= MinReadings
    requires 0.0 < pit.length && 0.0 < pit.width && 0.0 <= voidRatio <= 1.0
    ensures Calculate(pit, voidRatio, rows).Computed?
    ensures var res := Calculate(pit, voidRatio, rows).results;
            res.v7525 >= 0.0 && res.aP50 > 0.0 && res.f >= 0.0
  {
    CalculateTimesOrdered(pit, voidRatio, rows);
    var res := Calculate(pit, voidRatio, rows).results;
    EffectiveVolumeBounds(pit.length, pit.width, ReferenceRise, voidRatio);
    EffectiveAreaCoversBase(pit.length, pit.width, ReferenceRise);
    RateBalancesVolume(res.v7525, res.aP50, res.deltaT);
  }

  /** The pit depth never influences the outcome. */
  lemma CalculateIgnoresPitDepth(pit: Pit, voidRatio: real, rows: seq<Row>, otherDepth: real)
    requires DepthsNonDecreasing(Clean(rows))
    ensures Calculate(pit.(depth := otherDepth), voidRatio, rows) == Calculate(pit, voidRatio, rows)
  {
  }

  /** When every complete reading carries the same time (for instance two identical
      readings), both reference times coincide and the rate falls back to 0. */
  lemma CalculateConstantTimeGivesZeroRate(pit: Pit, voidRatio: real, rows: seq<Row>, t: real)
    requires DepthsNonDecreasing(Clean(rows))
    requires |Clean(rows)| >= MinReadings
    requires forall x :: x in Clean(rows) ==> x.time == t
    ensures Calculate(pit, voidRatio, rows).Computed?
    ensures var res := Calculate(pit, voidRatio, rows).results;
            res.deltaT == 0.0 && res.f == 0.0
  {
    var r := Clean(rows);
    var h25 := r[|r| - 1].depth - ReferenceRise;
    assert Interp(h25, r) == t by {
      assert forall i :: 0 <= i < |r| ==> r[i].time == t;
      InterpConstantTime(h25, r, t);
    }
    var res := Calculate(pit, voidRatio, rows).results;
    assert res.t75 == t * SecondsPerMinute && res.t25 == t * SecondsPerMinute;
  }

  /** Doubling the elapsed time halves the rate. */
  lemma RateHalvesWhenTimeDoubles(volume: real, area: real, deltaT: real)
    ensures Rate(volume, area, 2.0 * deltaT) == Rate(volume, area, deltaT) / 2.0
  {
    if area * deltaT != 0.0 {
      var d := area * deltaT;
      assert area * (2.0 * deltaT) == 2.0 * d;
      assert volume / (2.0 * d) == (volume / d) / 2.0;
    }
  }

  /** The table with every time doubled, depths and empty cells unchanged. */
  function DoubleRowTimes(rows: seq<Row>): (d: seq<Row>)
    ensures |d| == |rows|
    ensures forall i :: 0 <= i < |rows| ==>
              d[i].depth == rows[i].depth
              && d[i].time == (if rows[i].time.Some? then Some(2.0 * rows[i].time.value) else None)
  {
    seq(|rows|, i requires 0 <= i < |rows| =>
      Row(if rows[i].time.Some? then Some(2.0 * rows[i].time.value) else None, rows[i].depth))
  }

  /** Cleaning commutes with doubling the times. */
  lemma {:induction false} CleanDoubleRowTimes(rows: seq<Row>)
    ensures Clean(DoubleRowTimes(rows)) == DoubleTimes(Clean(rows))
  {
    if rows != [] {
      var d := DoubleRowTimes(rows);
      var dtail := DoubleRowTimes(rows[1..]);
      assert forall i :: 0 <= i < |dtail| ==> d[1..][i] == dtail[i];
      assert d[1..] == dtail;
      CleanDoubleRowTimes(rows[1..]);
      DoubleTimesAppend(if Complete(rows[0]) then [ToReading(rows[0])] else [], Clean(rows[1..]));
      if Complete(rows[0]) {
        assert Complete(d[0]);
        var one := DoubleTimes([ToReading(rows[0])]);
        assert |one| == 1 && one[0] == ToReading(d[0]);
        assert one == [ToReading(d[0])];
      }
    }
  }

  lemma DoubleTimesAppend(a: seq<Reading>, b: seq<Reading>)
    ensures DoubleTimes(a + b) == DoubleTimes(a) + DoubleTimes(b)
  {
    var l, r := DoubleTimes(a + b), DoubleTimes(a) + DoubleTimes(b);
    assert forall i :: 0 <= i < |l| ==> l[i] == r[i];
  }

  /** Doubling every recorded time doubles t75, t25 and delta_t and halves the rate;
      the volume and area terms are unaffected. */
  lemma CalculateDoubledTimesHalveRate(pit: Pit, voidRatio: real, rows: seq<Row>)
    requires DepthsNonDecreasing(Clean(rows))
    ensures DepthsNonDecreasing(Clean(DoubleRowTimes(rows)))
    ensures var slow, fast := Calculate(pit, voidRatio, DoubleRowTimes(rows)), Calculate(pit, voidRatio, rows);
            && slow.Computed? == fast.Computed?
            && (slow.Computed? ==>
                  && slow.results.t75 == 2.0 * fast.results.t75
                  && slow.results.t25 == 2.0 * fast.results.t25
                  && slow.results.deltaT == 2.0 * fast.results.deltaT
                  && slow.results.v7525 == fast.results.v7525
                  && slow.results.aP50 == fast.results.aP50
                  && slow.results.f == fast.results.f / 2.0)
  {
    var r := Clean(rows);
    CleanDoubleRowTimes(rows);
    if |r| >= MinReadings {
      var h25 := r[|r| - 1].depth - ReferenceRise;
      InterpDoubleTimes(h25, r);
      var slow, fast := Calculate(pit, voidRatio, DoubleRowTimes(rows)).results, Calculate(pit, voidRatio, rows).results;
      assert slow.deltaT == 2.0 * fast.deltaT;
      RateHalvesWhenTimeDoubles(fast.v7525, fast.aP50, fast.deltaT);
    } else {
      assert DepthsNonDecreasing(DoubleTimes(r));
    }
  }

  /** The table the calculator opens with. */
  function DefaultRows(): seq<Row> {
    [ Row(Some(0.0), Some(0.70)), Row(Some(1.0), Some(0.71)), Row(Some(2.0), Some(0.72)),
      Row(Some(3.0), Some(0.73)), Row(Some(4.0), Some(0.75)), Row(Some(5.0), Some(0.75)),
      Row(Some(6.0), Some(0.76)), Row(Some(7.0), Some(0.78)), Row(Some(8.0), Some(0.79)),
      Row(Some(9.0), Some(0.79)), Row(Some(10.0), Some(0.80)), Row(Some(15.0), Some(0.86)),
      Row(Some(20.0), Some(0.88)), Row(Some(25.0), Some(0.925)) ]
  }

  /** The same table as readings. */
  function DefaultReadings(): seq<Reading> {
    [ Reading(0.0, 0.70), Reading(1.0, 0.71), Reading(2.0, 0.72), Reading(3.0, 0.73),
      Reading(4.0, 0.75), Reading(5.0, 0.75), Reading(6.0, 0.76), Reading(7.0, 0.78),
      Reading(8.0, 0.79), Reading(9.0, 0.79), Reading(10.0, 0.80), Reading(15.0, 0.86),
      Reading(20.0, 0.88), Reading(25.0, 0.925) ]
  }

  const DefaultPit: Pit := Pit(1.20, 0.35, 1.00)

  const DefaultVoidRatio: real := 0.3

  /** Every row of the default table is complete, so cleaning keeps all of it. */
  lemma DefaultRowsClean()
    ensures Clean(DefaultRows()) == DefaultReadings()
  {
    var rows, pts := DefaultRows(), DefaultReadings();
    assert forall i :: 0 <= i < |rows| ==> Complete(rows[i]) && ToReading(rows[i]) == pts[i];
    CleanCompleteTable(rows);
  }

  /** The default depths never decrease (0.75 and 0.79 each occur twice). */
  lemma DefaultDepthsNonDecreasing()
    ensures DepthsNonDecreasing(DefaultReadings())
  {
    var pts := DefaultReadings();
    assert forall i :: 0 <= i < |pts| - 1 ==> pts[i].depth <= pts[i + 1].depth;
    AdjacentDepthsNonDecreasing(pts);
  }

  /** On the default inputs: h25 = 0.775 falls between the readings at 0.76 m (6 min)
      and 0.78 m (7 min), so t25 = 6.75 min = 405 s; h75 is the last reading, so
      t75 = 25 min = 1500 s. */
  lemma DefaultExample()
    ensures DepthsNonDecreasing(Clean(DefaultRows()))
    ensures Calculate(DefaultPit, DefaultVoidRatio, DefaultRows())
            == Computed(Results(0.925, 0.775, 0.150, 1500.0, 405.0, 1095.0, 0.0189, 0.885,
                                0.0189 / (0.885 * 1095.0)))
    ensures 0.0000195 <= Calculate(DefaultPit, DefaultVoidRatio, DefaultRows()).results.f < 0.0000196
  {
    DefaultRowsClean();
    DefaultDepthsNonDecreasing();
    ExampleFor(DefaultRows(), DefaultReadings());
    DefaultFormulas();
  }

  /** The default example, stated for a table known only to equal the default one. */
  lemma ExampleFor(rows: seq<Row>, pts: seq<Reading>)
    requires pts == DefaultReadings() && Clean(rows) == pts
    requires DepthsNonDecreasing(pts)
    ensures Calculate(DefaultPit, DefaultVoidRatio, rows)
            == Computed(Results(0.925, 0.775, 0.150, 1500.0, 405.0, 1095.0, 0.0189, 0.885,
                                0.0189 / (0.885 * 1095.0)))
  {
    var res := Calculate(DefaultPit, DefaultVoidRatio, rows).results;
    assert |pts| == 14 && pts[13] == Reading(25.0, 0.925);
    assert res.h75 == 0.925 && res.h25 == 0.775 && res.deltaH == 0.150;
    assert res.t75 == 1500.0;
    DefaultInterpolation(pts);
    assert res.t25 == 405.0;
    assert res.deltaT == 1095.0;
    DefaultFormulas();
  }

  /** The time at h25 = 0.775 m is interpolated between 6 min at 0.76 m and 7 min at 0.78 m. */
  lemma DefaultInterpolation(pts: seq<Reading>)
    requires pts == DefaultReadings() && DepthsNonDecreasing(pts)
    ensures Interp(0.775, pts) == 6.75
  {
    assert pts[6] == Reading(6.0, 0.76) && pts[7] == Reading(7.0, 0.78);
    InterpOnSegment(0.775, pts, 6);
    assert Lerp(Reading(6.0, 0.76), Reading(7.0, 0.78), 0.775) == 6.75 by {
      assert (7.0 - 6.0) / (0.78 - 0.76) == 50.0;
    }
  }

  /** The pit formulas on the default pit (1.20 m by 0.35 m, void ratio 0.3). */
  lemma DefaultFormulas()
    ensures EffectiveVolume(1.20, 0.35, 0.150, 0.3) == 0.0189
    ensures EffectiveArea(1.20, 0.35, 0.150) == 0.885
    ensures 0.0000195 <= 0.0189 / (0.885 * 1095.0) < 0.0000196
  {
  }
}
