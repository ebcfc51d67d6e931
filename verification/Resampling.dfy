/** Resampling a window of stored slices onto requested times. */
module Resampling {
  import opened Chunks
  import opened DataTypes
  import opened TimeSearch

  type Row = seq<real>

  // --------------------------------------------------- one interpolated row

  /** Rounds half away from zero, as C's round does. */
  function Round(x: real): real {
    if x >= 0.0 then (x + 0.5).Floor as real else -((0.5 - x).Floor as real)
  }

  function Factor(tInf: real, tSup: real, t: real): real {
    if t < tInf then 0.0
    else if t > tSup then 1.0
    else if tSup != tInf then (t - tInf) / (tSup - tInf)
    else 0.0
  }

  function Mix(isInt: bool, a: real, b: real, f: real): real {
    if f == 0.0 then a else if isInt then Round(a + (b - a) * f) else a + (b - a) * f
  }

  /** The integer nearest to x; of two equally near ones the one further from zero. */
  ghost predicate NearestInteger(x: real, r: real) {
    r.Floor as real == r && if x >= 0.0 then x - 0.5 < r <= x + 0.5 else x - 0.5 <= r < x + 0.5
  }

  lemma {:induction false} RoundNearest(x: real)
    ensures NearestInteger(x, Round(x))
  {
    var y := if x >= 0.0 then x + 0.5 else 0.5 - x;
    assert y.Floor as real <= y < y.Floor as real + 1.0;
    assert (-y.Floor) as real == -(y.Floor as real);
  }

  function Between(a: real, b: real, f: real): real {
    a + (b - a) * f
  }

  /** One number of a row between two samples: on the line through them, for integers the nearest integer. */
  ghost predicate OnLine(isInt: bool, a: real, b: real, tInf: real, tSup: real, t: real, r: real)
    requires tInf < tSup
  {
    var exact := Between(a, b, (t - tInf) / (tSup - tInf));
    if isInt then NearestInteger(exact, r) else r == exact
  }

  lemma {:induction false} MixOnLine(isInt: bool, a: real, b: real, tInf: real, tSup: real, t: real)
    requires tInf < tSup && tInf <= t <= tSup && (isInt ==> a.Floor as real == a)
    ensures OnLine(isInt, a, b, tInf, tSup, t, Mix(isInt, a, b, Factor(tInf, tSup, t)))
  {
    hide Mix, NearestInteger, Between;
    var f := (t - tInf) / (tSup - tInf);
    MixNear(isInt, a, b, f);
    assert Factor(tInf, tSup, t) == f;
  }

  lemma {:induction false} MixNear(isInt: bool, a: real, b: real, f: real)
    requires isInt ==> a.Floor as real == a
    ensures var r := Mix(isInt, a, b, f);
      if isInt then NearestInteger(Between(a, b, f), r) else r == Between(a, b, f)
  {
    hide Round;
    RoundNearest(a + (b - a) * f);
    assert f == 0.0 ==> (b - a) * f == 0.0;
  }

  function MixRows(isInt: bool, a: Row, b: Row, f: real): (r: Row)
    requires |a| == |b|
    ensures |r| == |a|
  {
    seq(|a|, i requires 0 <= i < |a| => Mix(isInt, a[i], b[i], f))
  }

  /** The slice buffers are overwritten in place; the result is the first of them. */
  method Interpolate(isInt: bool, yInf: array<real>, ySup: array<real>, tInf: real, tSup: real, t: real, interp: int)
    requires yInf.Length == ySup.Length > 0 && yInf != ySup
    modifies yInf
    ensures yInf[..] == if interp != LINEAR_INTERP then old(yInf[..])
      else MixRows(isInt, old(yInf[..]), ySup[..], Factor(tInf, tSup, t))
    ensures interp == LINEAR_INTERP && tInf < tSup && tInf <= t <= tSup ==>
      forall k | 0 <= k < yInf.Length :: (isInt ==> old(yInf[k]).Floor as real == old(yInf[k])) ==>
        OnLine(isInt, old(yInf[k]), ySup[k], tInf, tSup, t, yInf[k])
  {
    hide OnLine, Round;
    if interp != LINEAR_INTERP {
      return;
    }
    var factor := 0.0;
    if tSup != tInf && t >= tInf && t <= tSup {
      factor := (t - tInf) / (tSup - tInf);
    }
    if t < tInf {
      factor := 0.0;
    } else if t > tSup {
      factor := 1.0;
    }
    assert factor == Factor(tInf, tSup, t);
    if factor != 0.0 {
      for i := 0 to yInf.Length
        invariant forall k | 0 <= k < i :: yInf[k] == Mix(isInt, old(yInf[k]), ySup[k], factor)
        invariant forall k | i <= k < yInf.Length :: yInf[k] == old(yInf[k])
      {
        yInf[i] := Combine(isInt, yInf[i], ySup[i], factor);
      }
    }
    AllOnLine(isInt, old(yInf[..]), ySup[..], tInf, tSup, t);
  }

  lemma {:induction false} AllOnLine(isInt: bool, a: Row, b: Row, tInf: real, tSup: real, t: real)
    requires |a| == |b|
    ensures tInf < tSup && tInf <= t <= tSup ==>
      forall k | 0 <= k < |a| :: (isInt ==> a[k].Floor as real == a[k]) ==>
        OnLine(isInt, a[k], b[k], tInf, tSup, t, MixRows(isInt, a, b, Factor(tInf, tSup, t))[k])
  {
    hide OnLine, Mix, Factor;
    if tInf < tSup && tInf <= t <= tSup {
      forall k | 0 <= k < |a| && (isInt ==> a[k].Floor as real == a[k])
        ensures OnLine(isInt, a[k], b[k], tInf, tSup, t, MixRows(isInt, a, b, Factor(tInf, tSup, t))[k])
      {
        MixOnLine(isInt, a[k], b[k], tInf, tSup, t);
      }
    }
  }

  function Combine(isInt: bool, a: real, b: real, f: real): (r: real)
    requires f != 0.0
    ensures r == Mix(isInt, a, b, f)
  {
    if isInt then Round(a + (b - a) * f) else a + (b - a) * f
  }

  /** The data at time t, computed from all stored slices. */
  function RowAt(full: seq<Row>, tv: seq<real>, t: real, interp: int, isInt: bool): Row
    requires tv != [] && |full| == |tv| && forall r | r in full :: |r| == |full[0]|
  {
    if interp != LINEAR_INTERP then full[Selected(t, tv, interp)]
    else
      var inf, sup := SliceInf(t, tv, interp), SliceSup(t, tv, interp);
      MixRows(isInt, full[inf], full[sup], Factor(tv[inf], tv[sup], t))
  }

  // ------------------------------------------------------ requested times

  /** The i-th point of the grid, or of the list. */
  function Requested(tmin: real, dtime: seq<real>, i: nat): real
    requires dtime != [] && (|dtime| > 1 ==> i < |dtime|)
  {
    if |dtime| == 1 then tmin + i as real * dtime[0] else dtime[i]
  }

  /** Entries of a list before the first one that goes back before its start. */
  function LeadingEntries(dtime: seq<real>, n: nat): (r: nat)
    requires n <= |dtime|
    ensures r <= n && forall i | 0 <= i < r :: dtime[i] >= dtime[0]
    ensures r < n ==> dtime[r] < dtime[0]
  {
    if n == 0 then 0
    else
      var r := LeadingEntries(dtime, n - 1);
      if r == n - 1 && dtime[n - 1] >= dtime[0] then n else r
  }

  /** How many rows resampling produces. */
  function RowCount(tmin: real, tmax: real, dtime: seq<real>): (n: nat)
    requires dtime != []
    ensures |dtime| > 1 ==> n <= |dtime|
  {
    if |dtime| > 1 then LeadingEntries(dtime, |dtime|)
    else if StepCount(tmin, tmax, dtime[0]) < 0 then 0 else StepCount(tmin, tmax, dtime[0])
  }

  /** The number of rows for a step is the number of points, or none if that is negative. */
  lemma {:induction false} RowCountExact(tmin: real, tmax: real, dt: real)
    ensures exists n :: CountsPoints(tmin, tmax, dt, n) && RowCount(tmin, tmax, [dt]) == if n < 0 then 0 else n
    ensures forall n | CountsPoints(tmin, tmax, dt, n) :: RowCount(tmin, tmax, [dt]) == if n < 0 then 0 else n
  {
    hide CountsPoints;
    StepCountExact(tmin, tmax, dt);
    assert CountsPoints(tmin, tmax, dt, StepCount(tmin, tmax, dt));
  }

  lemma {:induction false} NextPoint(tmin: real, dt: real, i: nat)
    ensures tmin + (i + 1) as real * dt == tmin + i as real * dt + dt
  {
    assert (i + 1) as real == i as real + 1.0;
  }

  lemma {:induction false} RequestedTimes(tmin: real, dtime: seq<real>, i: nat)
    requires dtime != [] && (|dtime| > 1 ==> i < |dtime|)
    ensures Requested(tmin, dtime, 0) == From(tmin, dtime)
    ensures |dtime| == 1 ==> Requested(tmin, dtime, i + 1) == Requested(tmin, dtime, i) + dtime[0]
    ensures |dtime| > 1 ==> Requested(tmin, dtime, i) == dtime[i]
  {
    assert 0 as real * dtime[0] == 0.0;
    NextPoint(tmin, dtime[0], i);
  }

  lemma {:induction false} PointsGrow(tmin: real, dt: real, i: nat, j: nat)
    requires i <= j && dt > 0.0
    ensures tmin + i as real * dt <= tmin + j as real * dt
    decreases j
  {
    if i < j {
      PointsGrow(tmin, dt, i, j - 1);
      NextPoint(tmin, dt, j - 1);
    }
  }

  /** No requested row precedes the first one. */
  lemma {:induction false} NotBeforeStart(tmin: real, tmax: real, dtime: seq<real>, i: nat)
    requires dtime != [] && i < RowCount(tmin, tmax, dtime)
    ensures From(tmin, dtime) <= Requested(tmin, dtime, i)
  {
    if |dtime| == 1 {
      PointsGrow(tmin, dtime[0], 0, i);
      assert 0 as real * dtime[0] == 0.0;
    }
  }

  // ------------------------------------------------------- the slice window

  /** Every slice that resampling will read lies in the reported window. */
  ghost predicate ReadsInWindow(tmin: real, tmax: real, dtime: seq<real>, tv: seq<real>, interp: int)
    requires dtime != [] && tv != []
  {
    var w := ResampleWindow(tmin, tmax, dtime, tv, interp);
    forall i | 0 <= i < RowCount(tmin, tmax, dtime) ::
      var k := Selected(Requested(tmin, dtime, i), tv, interp);
      w.minIndex <= k && (if interp == LINEAR_INTERP then k + 1 else k) <= w.maxIndex
  }

  /** No requested time reaches a sample that the end of the range does not reach. */
  ghost predicate EndsInRange(tmin: real, tmax: real, dtime: seq<real>, tv: seq<real>, interp: int)
    requires dtime != []
  {
    forall i | 0 <= i < RowCount(tmin, tmax, dtime) ::
      ReachesNoFurther(tv, Requested(tmin, dtime, i), To(tmax, dtime), interp)
  }

  ghost predicate ReachesNoFurther(tv: seq<real>, t: real, end: real, interp: int) {
    forall j | 1 <= j < |tv| :: Reaches(tv, t, interp, j) ==> Reaches(tv, end, interp, j)
  }

  lemma {:induction false} NoFurtherSelected(tv: seq<real>, t: real, end: real, interp: int)
    requires Clean(tv) && UNDEFINED_INTERP <= interp <= LINEAR_INTERP
    ensures Selected(t, tv, interp) <= Selected(end, tv, interp) <==> ReachesNoFurther(tv, t, end, interp)
  {
    hide Selected, Reaches;
    forall j | 1 <= j < |tv|
      ensures Selected(t, tv, interp) >= j <==> Reaches(tv, t, interp, j)
      ensures Selected(end, tv, interp) >= j <==> Reaches(tv, end, interp, j)
    {
      SelectedReaches(tv, t, interp, j);
      SelectedReaches(tv, end, interp, j);
    }
    var k := Selected(t, tv, interp);
    if k > Selected(end, tv, interp) {
      assert Reaches(tv, t, interp, k) && !Reaches(tv, end, interp, k);
    }
  }

  predicate EnoughSlices(tv: seq<real>, interp: int) {
    interp == LINEAR_INTERP ==> |tv| >= 2
  }

  /**
   * Nothing before the window is ever read; nothing after it exactly when no requested time reaches further than the
   * end, and LINEAR has two slices to read unless nothing is requested.
   */
  lemma {:induction false} WindowSuffices(tmin: real, tmax: real, dtime: seq<real>, tv: seq<real>, interp: int)
    requires dtime != [] && Clean(tv) && UNDEFINED_INTERP <= interp <= LINEAR_INTERP
    ensures ReadsInWindow(tmin, tmax, dtime, tv, interp) <==>
      && EndsInRange(tmin, tmax, dtime, tv, interp)
      && (EnoughSlices(tv, interp) || RowCount(tmin, tmax, dtime) == 0)
  {
    hide Requested, RowCount, EndsInRange;
    if EnoughSlices(tv, interp) {
      WindowOfTwo(tmin, tmax, dtime, tv, interp);
    } else if RowCount(tmin, tmax, dtime) > 0 {
      assert Selected(Requested(tmin, dtime, 0), tv, interp) == 0;
    } else {
      assert EndsInRange(tmin, tmax, dtime, tv, interp) by {
        NothingRequested(tmin, tmax, dtime, tv, interp);
      }
    }
  }

  lemma {:induction false} NothingRequested(tmin: real, tmax: real, dtime: seq<real>, tv: seq<real>, interp: int)
    requires dtime != [] && RowCount(tmin, tmax, dtime) == 0
    ensures EndsInRange(tmin, tmax, dtime, tv, interp)
  {
  }

  /** One sample, LINEAR, one request: the loop reads a second slice, which neither the window nor the data has. */
  lemma {:induction false} OneSampleExample() returns (tv: seq<real>, dtime: seq<real>)
    ensures tv == [0.0] && dtime == [1.0] && Clean(tv)
    ensures EndsInRange(0.0, 0.0, dtime, tv, LINEAR_INTERP) && !ReadsInWindow(0.0, 0.0, dtime, tv, LINEAR_INTERP)
  {
    tv, dtime := [0.0], [1.0];
    assert StepCount(0.0, 0.0, 1.0) == 1;
    WindowSuffices(0.0, 0.0, dtime, tv, LINEAR_INTERP);
  }

  lemma {:induction false} WindowOfTwo(tmin: real, tmax: real, dtime: seq<real>, tv: seq<real>, interp: int)
    requires dtime != [] && Clean(tv) && UNDEFINED_INTERP <= interp <= LINEAR_INTERP && EnoughSlices(tv, interp)
    ensures ReadsInWindow(tmin, tmax, dtime, tv, interp) <==> EndsInRange(tmin, tmax, dtime, tv, interp)
  {
    hide Selected, SliceSup, Requested, RowCount, ReachesNoFurther, ValidSize;
    var w := ResampleWindow(tmin, tmax, dtime, tv, interp);
    LinearNeighbour(tv, To(tmax, dtime), interp);
    forall i | 0 <= i < RowCount(tmin, tmax, dtime)
      ensures var k := Selected(Requested(tmin, dtime, i), tv, interp);
        w.minIndex <= k
        && ((if interp == LINEAR_INTERP then k + 1 else k) <= w.maxIndex <==>
              ReachesNoFurther(tv, Requested(tmin, dtime, i), To(tmax, dtime), interp))
    {
      NotBeforeStart(tmin, tmax, dtime, i);
      CleanIsTimebase(tv);
      SelectionMonotone(tv, From(tmin, dtime), Requested(tmin, dtime, i), interp);
      NoFurtherSelected(tv, Requested(tmin, dtime, i), To(tmax, dtime), interp);
    }
  }

  /** LINEAR selects the lower neighbour, and the window reaches to the upper one. */
  lemma {:induction false} LinearNeighbour(tv: seq<real>, t: real, interp: int)
    requires Clean(tv) && EnoughSlices(tv, interp)
    ensures interp == LINEAR_INTERP ==>
      SliceSup(t, tv, interp) == Selected(t, tv, interp) + 1 && SliceInf(t, tv, interp) == Selected(t, tv, interp)
  {
    CleanIsTimebase(tv);
  }

  lemma {:induction false} StepInOrder(tmin: real, dtime: seq<real>, i: nat, j: nat)
    requires |dtime| == 1 && dtime[0] > 0.0 && i <= j
    ensures Requested(tmin, dtime, i) <= Requested(tmin, dtime, j)
  {
    PointsGrow(tmin, dtime[0], i, j);
  }

  /** A grid whose last point is not after tmax, or a list in order, ends in range. */
  lemma {:induction false} OrderedRequestsEndInRange(tmin: real, tmax: real, dtime: seq<real>, tv: seq<real>,
      interp: int)
    requires dtime != [] && Clean(tv) && UNDEFINED_INTERP <= interp <= LINEAR_INTERP
    requires |dtime| == 1 && RowCount(tmin, tmax, dtime) > 0
      ==> Requested(tmin, dtime, RowCount(tmin, tmax, dtime) - 1) <= tmax
    requires |dtime| > 1 ==> forall i, j | 0 <= i <= j < |dtime| :: dtime[i] <= dtime[j]
    ensures EndsInRange(tmin, tmax, dtime, tv, interp)
  {
    hide Selected, ReachesNoFurther, ValidSize, Requested;
    var n := RowCount(tmin, tmax, dtime);
    forall i | 0 <= i < n
      ensures ReachesNoFurther(tv, Requested(tmin, dtime, i), To(tmax, dtime), interp)
    {
      if |dtime| == 1 {
        StepInOrder(tmin, dtime, i, n - 1);
      } else {
        RequestedTimes(tmin, dtime, i);
      }
      CleanIsTimebase(tv);
      SelectionMonotone(tv, Requested(tmin, dtime, i), To(tmax, dtime), interp);
      NoFurtherSelected(tv, Requested(tmin, dtime, i), To(tmax, dtime), interp);
    }
  }

  // ---------------------------------------------------- the window's data

  /** The stored slices a window covers. */
  function WindowRows(full: seq<Row>, w: Window): seq<Row> {
    if 0 <= w.minIndex <= w.maxIndex < |full| then full[w.minIndex..w.maxIndex + 1] else []
  }

  /** One row per requested time, each computed from all stored slices. */
  function ResampledRows(full: seq<Row>, tmin: real, dtime: seq<real>, tv: seq<real>, interp: int, isInt: bool,
      n: nat): (rows: seq<Row>)
    requires dtime != [] && (|dtime| > 1 ==> n <= |dtime|) && tv != [] && |full| == |tv|
      && forall r | r in full :: |r| == |full[0]|
    ensures |rows| == n
  {
    seq(n, i requires 0 <= i < n => RowAt(full, tv, Requested(tmin, dtime, i), interp, isInt))
  }

  datatype ResampleError = NoStep | NoTimes | BadMode | EmptySlice

  predicate ValidMode(interp: int) {
    UNDEFINED_INTERP <= interp <= LINEAR_INTERP
  }

  /** What resampling refuses, in the order it finds out. */
  function Refusal(tmin: real, tmax: real, dtime: seq<real>, shape: nat, tv: seq<real>,
      interp: int): Option<ResampleError> {
    if dtime == [] then Some(NoStep)
    else if tv == [] then Some(NoTimes)
    else if !ValidMode(interp) then Some(BadMode)
    else if shape == 0 && RowCount(tmin, tmax, dtime) > 0 then Some(EmptySlice)
    else None
  }

  lemma {:induction false} NextRow(full: seq<Row>, tmin: real, dtime: seq<real>, tv: seq<real>, interp: int,
      isInt: bool, n: nat)
    requires dtime != [] && (|dtime| > 1 ==> n < |dtime|) && tv != [] && |full| == |tv|
      && forall r | r in full :: |r| == |full[0]|
    ensures Flat(ResampledRows(full, tmin, dtime, tv, interp, isInt, n + 1))
         == Flat(ResampledRows(full, tmin, dtime, tv, interp, isInt, n))
            + RowAt(full, tv, Requested(tmin, dtime, n), interp, isInt)
  {
    hide RowAt, Requested, Flat;
    var rows := ResampledRows(full, tmin, dtime, tv, interp, isInt, n);
    var row := RowAt(full, tv, Requested(tmin, dtime, n), interp, isInt);
    assert ResampledRows(full, tmin, dtime, tv, interp, isInt, n + 1) == rows + [row];
    FlatSnoc(rows, row);
  }

  lemma {:induction false} NoRows(full: seq<Row>, tmin: real, dtime: seq<real>, tv: seq<real>, interp: int, isInt: bool)
    requires dtime != [] && tv != [] && |full| == |tv| && forall r | r in full :: |r| == |full[0]|
    ensures Flat(ResampledRows(full, tmin, dtime, tv, interp, isInt, 0)) == []
  {
  }

  /** The slices a requested point reads. */
  lemma {:induction false} PointReads(tmin: real, tmax: real, dtime: seq<real>, tv: seq<real>, interp: int, i: nat)
    requires dtime != [] && Clean(tv) && ValidMode(interp) && EnoughSlices(tv, interp)
    requires EndsInRange(tmin, tmax, dtime, tv, interp) && i < RowCount(tmin, tmax, dtime)
    ensures var w := ResampleWindow(tmin, tmax, dtime, tv, interp);
      var k := Selected(Requested(tmin, dtime, i), tv, interp);
      w.minIndex <= k && (if interp == LINEAR_INTERP then k + 1 else k) <= w.maxIndex < |tv|
  {
    WindowSuffices(tmin, tmax, dtime, tv, interp);
    assert ReadsInWindow(tmin, tmax, dtime, tv, interp);
  }

  /**
   * data holds only the slices of the reported window, yet the result is what interpolating all stored
   * slices at the requested times gives; no read leaves data, so no offset is negative.
   */
  method InterpolateWithResampling(
      tmin: real, tmax: real, dtime: seq<real>, isInt: bool, shape: nat, data: seq<real>, tv: seq<real>, interp: int,
      ghost full: seq<Row>)
    returns (result: seq<real>, nbSlices: nat, error: Option<ResampleError>)
    requires SortedUpTo(tv, ValidSize(tv)) && Shaped(full, shape) && |full| == |tv|
    requires Refusal(tmin, tmax, dtime, shape, tv, interp).None? ==>
      && Clean(tv) && EndsInRange(tmin, tmax, dtime, tv, interp)
      && (EnoughSlices(tv, interp) || RowCount(tmin, tmax, dtime) == 0)
      && data == Flat(WindowRows(full, ResampleWindow(tmin, tmax, dtime, tv, interp)))
    ensures error == Refusal(tmin, tmax, dtime, shape, tv, interp)
    ensures error.None? ==>
      && nbSlices == RowCount(tmin, tmax, dtime)
      && (|dtime| == 1 ==>
            forall n | CountsPoints(tmin, tmax, dtime[0], n) :: nbSlices == if n < 0 then 0 else n)
      && result == Flat(ResampledRows(full, tmin, dtime, tv, interp, isInt, nbSlices))
  {
    hide Selected, SliceSup, SliceInf, RowAt, Flat, StepCount, ValidSize, EndsInRange, ResampledRows, Requested,
      Clean, EnoughSlices, WindowRows, FirstNotBelow, CountsPoints;
    result, nbSlices := [], 0;
    if |dtime| == 0 {
      return result, 0, Some(NoStep);
    }
    var from, to := tmin, tmax;
    if |dtime| > 1 {
      from, to := dtime[0], dtime[|dtime| - 1];
    }
    var w, searchError := GetTimeRangeIndices(from, to, dtime, tv, interp);
    if searchError.Some? {
      return result, 0, Some(BadMode);
    }
    var atStart := GetSlicesTimesIndices(from, tv, interp);
    if atStart.Failed? {
      return result, 0, Some(NoTimes);
    }
    var start := atStart.slices.index;
    var range := w.range.value;
    var requestedTime := from;
    if |dtime| == 1 {
      RowCountExact(tmin, tmax, dtime[0]);
      assert dtime == [dtime[0]];
    }
    RequestedTimes(tmin, dtime, 0);
    NoRows(full, tmin, dtime, tv, interp, isInt);
    while nbSlices < range
      invariant 0 <= nbSlices <= RowCount(tmin, tmax, dtime)
      invariant nbSlices < range ==> requestedTime == Requested(tmin, dtime, nbSlices)
      invariant shape > 0 || nbSlices == 0
      invariant result == Flat(ResampledRows(full, tmin, dtime, tv, interp, isInt, nbSlices))
    {
      RequestedTimes(tmin, dtime, nbSlices);
      if nbSlices < RowCount(tmin, tmax, dtime) {
        NotBeforeStart(tmin, tmax, dtime, nbSlices);
      }
      if requestedTime < from {
        break;
      }
      if shape == 0 {
        return [], 0, Some(EmptySlice);
      }
      PointReads(tmin, tmax, dtime, tv, interp, nbSlices);
      NextRow(full, tmin, dtime, tv, interp, isInt, nbSlices);
      var row := ResampleOne(start, shape, isInt, data, tv, interp, requestedTime, w, full);
      result := result + row;
      nbSlices := nbSlices + 1;
      if |dtime| == 1 {
        RequestedTimes(tmin, dtime, nbSlices - 1);
        requestedTime := requestedTime + dtime[0];
      } else {
        if nbSlices < |dtime| {
          RequestedTimes(tmin, dtime, nbSlices);
          requestedTime := dtime[nbSlices];
        } else {
          break;
        }
      }
    }
    error := None;
  }

  /** Copies the slice at an offset of the window. */
  method ReadStored(data: seq<real>, offset: nat, shape: nat, ghost full: seq<Row>, ghost w: Window)
    returns (slice: array<real>)
    requires Shaped(full, shape) && data == Flat(WindowRows(full, w))
    requires 0 <= w.minIndex && w.minIndex + offset <= w.maxIndex < |full|
    ensures fresh(slice) && slice[..] == full[w.minIndex + offset]
  {
    hide Flat;
    FlatAt(WindowRows(full, w), shape, offset);
    slice := new real[shape](i requires 0 <= i < shape && offset * shape + shape <= |data| => data[offset * shape + i]);
  }

  method ResampleOne(start: nat, shape: nat, isInt: bool, data: seq<real>, tv: seq<real>, interp: int, t: real,
      w: Window, ghost full: seq<Row>)
    returns (row: Row)
    requires shape > 0 && Clean(tv) && ValidMode(interp) && EnoughSlices(tv, interp)
    requires |full| == |tv| && Shaped(full, shape) && data == Flat(WindowRows(full, w))
    requires start == w.minIndex && w.maxIndex < |tv|
    requires start <= Selected(t, tv, interp)
    requires (if interp == LINEAR_INTERP then Selected(t, tv, interp) + 1 else Selected(t, tv, interp)) <= w.maxIndex
    ensures row == RowAt(full, tv, t, interp, isInt)
  {
    hide Flat, FirstNotBelow, ValidSize;
    CleanIsTimebase(tv);
    LinearNeighbour(tv, t, interp);
    var found := GetSlicesTimesIndices(t, tv, interp);
    var index := found.slices.index;
    var tInf := tv[index];
    var tSup := if index == found.slices.sup then tInf else tv[found.slices.sup];
    var offset := index - start;
    var slice1 := ReadStored(data, offset, shape, full, w);
    var slice2 := new real[shape](_ => 0.0);
    if interp == LINEAR_INTERP {
      slice2 := ReadStored(data, offset + 1, shape, full, w);
    }
    Interpolate(isInt, slice1, slice2, tInf, tSup, t, interp);
    row := slice1[..];
  }

  // ------------------------------------------------ what LINEAR computes

  /** Integer data holds integers. */
  ghost predicate Fits(isInt: bool, full: seq<Row>) {
    isInt ==> forall r | r in full :: forall x | x in r :: x.Floor as real == x
  }

  /** For any time in range every number of the row is the one on the line between the two samples around it. */
  lemma {:induction false} LinearOnLine(full: seq<Row>, tv: seq<real>, t: real, i: nat, isInt: bool)
    requires Clean(tv) && 2 <= |tv| == |full| && (forall r | r in full :: |r| == |full[0]|) && i < |full[0]|
    requires tv[0] <= t <= tv[|tv| - 1] && Fits(isInt, full)
    ensures var k := SliceInf(t, tv, LINEAR_INTERP);
      && k + 1 < |tv| && tv[k] <= t <= tv[k + 1] && tv[k] < tv[k + 1]
      && OnLine(isInt, full[k][i], full[k + 1][i], tv[k], tv[k + 1], t, RowAt(full, tv, t, LINEAR_INTERP, isInt)[i])
  {
    hide ValidSize, FirstNotBelow, Mix, Factor, OnLine, Round;
    CleanIsTimebase(tv);
    LinearBrackets(tv, t);
    var k := SliceInf(t, tv, LINEAR_INTERP);
    assert full[k] in full && full[k + 1] in full;
    assert RowAt(full, tv, t, LINEAR_INTERP, isInt)[i]
        == Mix(isInt, full[k][i], full[k + 1][i], Factor(tv[k], tv[k + 1], t));
    assert full[k][i] in full[k];
    MixOnLine(isInt, full[k][i], full[k + 1][i], tv[k], tv[k + 1], t);
  }

  /** Integers 0 and 3 at nine tenths of the way round to 3. */
  lemma {:induction false} RoundingExample() returns (full: seq<Row>, tv: seq<real>)
    ensures full == [[0.0], [3.0]] && tv == [0.0, 1.0] && RowAt(full, tv, 0.9, LINEAR_INTERP, true) == [3.0]
  {
    full, tv := [[0.0], [3.0]], [0.0, 1.0];
    ValidSizeIs(tv, 2);
    assert RowAt(full, tv, 0.9, LINEAR_INTERP, true)[0] == Round(2.7);
  }

  /** Rounding what lies between two integers stays between them. */
  lemma {:induction false} RoundBetween(a: real, b: real, x: real)
    requires a.Floor as real == a && b.Floor as real == b && a <= x <= b
    ensures a <= Round(x) <= b
  {
    RoundWithin(a.Floor, b.Floor, x);
  }

  lemma {:induction false} RoundWithin(m: int, n: int, x: real)
    requires m as real <= x <= n as real
    ensures m as real <= Round(x) <= n as real
  {
    if x >= 0.0 {
      FloorWithin(x + 0.5, m, n);
    } else {
      FloorWithin(0.5 - x, -n, -m);
    }
  }

  lemma {:induction false} FloorWithin(y: real, m: int, n: int)
    requires m as real <= y < n as real + 1.0
    ensures m <= y.Floor <= n
  {
    assert y.Floor as real <= y < y.Floor as real + 1.0;
  }

  /** At a sample the stored row comes back unchanged. */
  lemma {:induction false} LinearAtSample(full: seq<Row>, tv: seq<real>, k: nat, isInt: bool)
    requires Clean(tv) && 2 <= |tv| == |full| && (forall r | r in full :: |r| == |full[0]|) && k < |tv|
      && Fits(isInt, full)
    ensures RowAt(full, tv, tv[k], LINEAR_INTERP, isInt) == full[k]
  {
    hide ValidSize, FirstNotBelow, Round;
    CleanIsTimebase(tv);
    var inf, sup := SliceInf(tv[k], tv, LINEAR_INTERP), SliceSup(tv[k], tv, LINEAR_INTERP);
    LinearBrackets(tv, tv[k]);
    assert k == inf || k == sup;
    var f := Factor(tv[inf], tv[sup], tv[k]);
    EndQuotients(tv[sup] - tv[inf]);
    assert f == if k == inf then 0.0 else 1.0;
    forall i | 0 <= i < |full[k]|
      ensures Mix(isInt, full[inf][i], full[sup][i], f) == full[k][i]
    {
      MixEnd(isInt, full, inf, sup, i);
    }
  }

  lemma {:induction false} MixEnd(isInt: bool, full: seq<Row>, inf: nat, sup: nat, i: nat)
    requires Fits(isInt, full) && inf < |full| && sup < |full| && i < |full[inf]| && i < |full[sup]|
    ensures Mix(isInt, full[inf][i], full[sup][i], 0.0) == full[inf][i]
    ensures Mix(isInt, full[inf][i], full[sup][i], 1.0) == full[sup][i]
  {
    var a, b := full[inf][i], full[sup][i];
    assert a + (b - a) * 1.0 == b;
    if isInt {
      assert full[sup] in full && b in full[sup];
      RoundBetween(b, b, b);
    }
  }

  /** Outside the sampled range the nearest end row is returned. */
  lemma {:induction false} LinearClamps(full: seq<Row>, tv: seq<real>, t: real, isInt: bool)
    requires Clean(tv) && 2 <= |tv| == |full| && (forall r | r in full :: |r| == |full[0]|) && Fits(isInt, full)
    ensures t < tv[0] ==> RowAt(full, tv, t, LINEAR_INTERP, isInt) == full[0]
    ensures t > tv[|tv| - 1] ==> RowAt(full, tv, t, LINEAR_INTERP, isInt) == full[|tv| - 1]
  {
    hide ValidSize, FirstNotBelow, Round, Mix;
    CleanIsTimebase(tv);
    var inf, sup := SliceInf(t, tv, LINEAR_INTERP), SliceSup(t, tv, LINEAR_INTERP);
    assert t < tv[0] ==> inf == 0 && Factor(tv[inf], tv[sup], t) == 0.0;
    assert t > tv[|tv| - 1] ==> sup == |tv| - 1 && Factor(tv[inf], tv[sup], t) == 1.0;
    forall i | 0 <= i < |full[0]|
      ensures Mix(isInt, full[inf][i], full[sup][i], 0.0) == full[inf][i]
      ensures Mix(isInt, full[inf][i], full[sup][i], 1.0) == full[sup][i]
    {
      assert full[inf] in full && full[sup] in full;
      MixEnd(isInt, full, inf, sup, i);
    }
    if t < tv[0] {
      assert RowAt(full, tv, t, LINEAR_INTERP, isInt) == full[0];
    }
    if t > tv[|tv| - 1] {
      assert full[sup] in full;
      assert RowAt(full, tv, t, LINEAR_INTERP, isInt) == full[|tv| - 1];
    }
  }

  /** In between, every number lies between its two neighbours. */
  lemma {:induction false} LinearBetween(full: seq<Row>, tv: seq<real>, t: real, i: nat, isInt: bool)
    requires Clean(tv) && 2 <= |tv| == |full| && (forall r | r in full :: |r| == |full[0]|) && i < |full[0]|
      && Fits(isInt, full)
    requires tv[0] <= t <= tv[|tv| - 1]
    ensures var inf := SliceInf(t, tv, LINEAR_INTERP);
      var a, b, r := full[inf][i], full[inf + 1][i], RowAt(full, tv, t, LINEAR_INTERP, isInt)[i];
      a <= r <= b || b <= r <= a
  {
    hide ValidSize, FirstNotBelow, Mix, Round;
    CleanIsTimebase(tv);
    LinearBrackets(tv, t);
    var inf := SliceInf(t, tv, LINEAR_INTERP);
    var f := Factor(tv[inf], tv[inf + 1], t);
    QuotientInUnit(t - tv[inf], tv[inf + 1] - tv[inf]);
    assert full[inf] in full && full[inf + 1] in full;
    assert RowAt(full, tv, t, LINEAR_INTERP, isInt)[i] == Mix(isInt, full[inf][i], full[inf + 1][i], f);
    MixBetween(isInt, full[inf][i], full[inf + 1][i], f);
  }

  lemma {:induction false} MixBetween(isInt: bool, a: real, b: real, f: real)
    requires 0.0 <= f <= 1.0 && (isInt ==> a.Floor as real == a && b.Floor as real == b)
    ensures a <= Mix(isInt, a, b, f) <= b || b <= Mix(isInt, a, b, f) <= a
  {
    hide Round;
    Convex(a, b, f);
    var x := a + Part(b - a, f);
    if isInt && a <= x <= b {
      RoundBetween(a, b, x);
    } else if isInt {
      RoundBetween(b, a, x);
    }
  }

  lemma {:induction false} EndQuotients(x: real)
    requires x != 0.0
    ensures x / x == 1.0 && 0.0 / x == 0.0
  {
  }

  lemma {:induction false} QuotientInUnit(a: real, b: real)
    requires 0.0 <= a <= b && b > 0.0
    ensures 0.0 <= a / b <= 1.0
  {
  }

  function Part(d: real, f: real): real {
    d * f
  }

  lemma {:induction false} Convex(a: real, b: real, f: real)
    requires 0.0 <= f <= 1.0
    ensures a <= a + Part(b - a, f) <= b || b <= a + Part(b - a, f) <= a
  {
    hide Part;
    if a <= b {
      PartOf(b - a, f);
    } else {
      PartOf(a - b, f);
      NegatedPart(a - b, f);
      assert b - a == -(a - b);
    }
  }

  lemma {:induction false} NegatedPart(d: real, f: real)
    ensures Part(-d, f) == -Part(d, f)
  {
  }

  lemma {:induction false} PartOf(d: real, f: real)
    requires 0.0 <= d && 0.0 <= f <= 1.0
    ensures 0.0 <= Part(d, f) <= d
  {
    assert d * f >= 0.0;
    assert d * (1.0 - f) >= 0.0;
    assert d * (1.0 - f) == d - d * f;
  }

  /**
   * The small term that absorbs rounding can add a point just after tmax. Here it selects a slice the
   * window does not hold: times 0 and 1, range 0 to 1 - 1e-10, step 1.
   */
  lemma {:induction false} OvershootLeavesWindow()
    ensures var tv := [0.0, 1.0];
      Clean(tv) && !ReadsInWindow(0.0, 0.9999999999, [1.0], tv, PREVIOUS_INTERP)
  {
    var tv := [0.0, 1.0];
    var dtime := [1.0];
    assert TrimmedSize(tv, 2) == 2;
    assert StepCount(0.0, 0.9999999999, 1.0) == 2;
    assert RowCount(0.0, 0.9999999999, dtime) == 2;
    assert Requested(0.0, dtime, 1) == 1.0;
    assert Reaches(tv, Requested(0.0, dtime, 1), PREVIOUS_INTERP, 1) && !Reaches(tv, 0.9999999999, PREVIOUS_INTERP, 1);
    WindowSuffices(0.0, 0.9999999999, dtime, tv, PREVIOUS_INTERP);
  }

  // ------------------------------------------------------- the time basis

  /** The times that go with the resampled rows; in a timed array only the one of element aosIndex. */
  method ResampleTimebasis(tmin: real, tmax: real, dtime: seq<real>, aosIndex: int, tv: seq<real>)
    returns (times: seq<real>, nbSlices: int, error: Option<ResampleError>)
    requires SortedUpTo(tv, ValidSize(tv)) && aosIndex >= -1 && (|dtime| > 1 ==> aosIndex < |dtime|)
    ensures error == if dtime == [] then Some(NoStep) else None
    ensures error.None? && aosIndex >= 0 ==> nbSlices == 1 && times == [Requested(tmin, dtime, aosIndex)]
    ensures error.None? && aosIndex == -1 ==>
      && nbSlices == ResampleRange(tmin, tmax, dtime) && |times| == (if nbSlices < 0 then 0 else nbSlices)
      && forall i | 0 <= i < |times| :: times[i] == Requested(tmin, dtime, i)
    ensures error.None? && aosIndex == -1 && |dtime| == 1 ==> CountsPoints(tmin, tmax, dtime[0], nbSlices)
    ensures error.None? && aosIndex == -1 && |dtime| > 1 ==> nbSlices == |dtime|
  {
    hide CountsPoints, StepCount, Selected, SliceSup, ValidSize;
    times, nbSlices, error := [], 0, None;
    if |dtime| == 0 {
      return [], 0, Some(NoStep);
    }
    if aosIndex != -1 {
      if |dtime| == 1 {
        return [tmin + aosIndex as real * dtime[0]], 1, None;
      }
      return [dtime[aosIndex]], 1, None;
    }
    var w, _ := GetTimeRangeIndices(tmin, tmax, dtime, tv, UNDEFINED_INTERP);
    nbSlices := w.range.value;
    if |dtime| == 1 {
      var requestedTime := tmin;
      RequestedTimes(tmin, dtime, 0);
      while |times| < nbSlices
        invariant |times| <= (if nbSlices < 0 then 0 else nbSlices)
        invariant requestedTime == Requested(tmin, dtime, |times|)
        invariant forall i | 0 <= i < |times| :: times[i] == Requested(tmin, dtime, i)
      {
        RequestedTimes(tmin, dtime, |times|);
        times := times + [requestedTime];
        requestedTime := requestedTime + dtime[0];
      }
    } else {
      while |times| < nbSlices
        invariant |times| <= nbSlices
        invariant forall i | 0 <= i < |times| :: times[i] == Requested(tmin, dtime, i)
      {
        RequestedTimes(tmin, dtime, |times|);
        times := times + [dtime[|times|]];
      }
    }
  }

  /** The time basis and the data are resampled to the same points, unless a list goes back before its start. */
  lemma {:induction false} TimebasisMatchesRows(tmin: real, tmax: real, dtime: seq<real>)
    requires dtime != []
    ensures var range := ResampleRange(tmin, tmax, dtime);
      (if range < 0 then 0 else range) == RowCount(tmin, tmax, dtime) <==>
      (|dtime| == 1 || forall i | 0 <= i < |dtime| :: dtime[0] <= dtime[i])
  {
  }
}
