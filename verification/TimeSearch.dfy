/** Looking a time up in a time vector: binary searches, interpolation modes, time windows. */
module TimeSearch {
  import opened DataTypes

  /** The value a partially written slice leaves in a time vector. */
  const INVALID_TIME := -90000000000000000000000000000000000000000.0

  /** The gap between 1.0 and the next double. */
  const EPSILON := 0.0000000000000002220446049250313080847263336181640625

  const UNDEFINED_INTERP := 0
  const CLOSEST_INTERP := 1
  const PREVIOUS_INTERP := 2
  const LINEAR_INTERP := 3

  function Abs(x: real): real {
    if x < 0.0 then -x else x
  }

  // ------------------------------------------------------ the valid prefix

  predicate SortedUpTo(tv: seq<real>, n: nat)
    requires n <= |tv|
  {
    forall i, j | 0 <= i < j < n :: tv[i] <= tv[j]
  }

  predicate IncreasingUpTo(tv: seq<real>, n: nat)
    requires n <= |tv|
  {
    forall i, j | 0 <= i < j < n :: tv[i] < tv[j]
  }

  /** Where the trailing run of invalid times begins; a vector of nothing else is kept whole. */
  function ValidSize(tv: seq<real>): (n: nat)
    ensures n <= |tv|
  {
    if TrimmedSize(tv, |tv|) == 0 then |tv| else TrimmedSize(tv, |tv|)
  }

  function TrimmedSize(tv: seq<real>, n: nat): (r: nat)
    requires n <= |tv|
    ensures r <= n && (r > 0 ==> tv[r - 1] != INVALID_TIME)
    ensures forall k | r <= k < n :: tv[k] == INVALID_TIME
  {
    if n > 0 && tv[n - 1] == INVALID_TIME then TrimmedSize(tv, n - 1) else n
  }

  method IncreasingPrefixSize(tv: seq<real>) returns (n: nat)
    ensures n == ValidSize(tv)
  {
    n := |tv|;
    while n > 0 && tv[n - 1] == INVALID_TIME
      invariant n <= |tv| && TrimmedSize(tv, n) == TrimmedSize(tv, |tv|)
    {
      n := n - 1;
    }
    if n == 0 {
      n := |tv|;
    }
  }

  // ------------------------------------------------------- binary searches

  /** Index of the first of the first n samples that is not below t, or n. */
  function FirstNotBelow(tv: seq<real>, n: nat, t: real): (k: nat)
    requires n <= |tv|
    ensures k <= n && (k < n ==> tv[k] >= t) && forall i | 0 <= i < k :: tv[i] < t
  {
    if n == 0 then 0
    else
      var k := FirstNotBelow(tv, n - 1, t);
      if k < n - 1 || tv[n - 1] >= t then k else n
  }

  /** Index of the first of the first n samples that is above t, or n. */
  function FirstAbove(tv: seq<real>, n: nat, t: real): (k: nat)
    requires n <= |tv|
    ensures k <= n && (k < n ==> tv[k] > t) && forall i | 0 <= i < k :: tv[i] <= t
  {
    if n == 0 then 0
    else
      var k := FirstAbove(tv, n - 1, t);
      if k < n - 1 || tv[n - 1] > t then k else n
  }

  /** std::lower_bound on the first n samples. */
  method LowerBound(tv: seq<real>, n: nat, t: real) returns (k: nat)
    requires n <= |tv| && SortedUpTo(tv, n)
    ensures k == FirstNotBelow(tv, n, t)
  {
    k := 0;
    var len := n;
    while len > 0
      invariant k + len <= n
      invariant forall i | 0 <= i < k :: tv[i] < t
      invariant forall i | k + len <= i < n :: tv[i] >= t
    {
      var half := len / 2;
      if tv[k + half] < t {
        k := k + half + 1;
        len := len - half - 1;
      } else {
        len := half;
      }
    }
    assert k < n ==> tv[k] >= t;
  }

  /** std::upper_bound on the first n samples. */
  method UpperBound(tv: seq<real>, n: nat, t: real) returns (k: nat)
    requires n <= |tv| && SortedUpTo(tv, n)
    ensures k == FirstAbove(tv, n, t)
  {
    k := 0;
    var len := n;
    while len > 0
      invariant k + len <= n
      invariant forall i | 0 <= i < k :: tv[i] <= t
      invariant forall i | k + len <= i < n :: tv[i] > t
    {
      var half := len / 2;
      if tv[k + half] <= t {
        k := k + half + 1;
        len := len - half - 1;
      } else {
        len := half;
      }
    }
    assert k < n ==> tv[k] > t;
  }

  // ------------------------------------------------------- slice selection

  /** The selected slice and the two slices around the requested time. */
  datatype Slices = Slices(index: int, inf: int, sup: int)

  datatype SearchError = EmptyTimeVector | UnsupportedInterpolation

  datatype SearchResult = Found(slices: Slices) | Failed(error: SearchError)

  function SliceSup(t: real, tv: seq<real>, interp: int): (sup: nat)
    requires tv != []
    ensures sup < |tv|
  {
    var first := FirstNotBelow(tv, ValidSize(tv), t);
    if first == ValidSize(tv) then |tv| - 1
    else if interp != CLOSEST_INTERP && first == 0 && |tv| > 1 then 1
    else first
  }

  function SliceInf(t: real, tv: seq<real>, interp: int): (inf: nat)
    requires tv != []
    ensures inf < |tv|
  {
    var sup := SliceSup(t, tv, interp);
    if sup > 0 then sup - 1 else 0
  }

  function Selected(t: real, tv: seq<real>, interp: int): (k: nat)
    requires tv != []
    ensures k < |tv|
  {
    var inf, sup := SliceInf(t, tv, interp), SliceSup(t, tv, interp);
    if interp == CLOSEST_INTERP || interp == UNDEFINED_INTERP then
      if Abs(t - tv[sup]) <= Abs(t - tv[inf]) then sup else inf
    else if interp == PREVIOUS_INTERP then
      if sup > 0 && (Abs(t - tv[sup]) < EPSILON || t > tv[sup]) then sup else inf
    else inf
  }

  method GetSlicesTimesIndices(t: real, tv: seq<real>, interp: int) returns (r: SearchResult)
    requires SortedUpTo(tv, ValidSize(tv))
    ensures r.Failed? <==> tv == [] || !(UNDEFINED_INTERP <= interp <= LINEAR_INTERP)
    ensures r.Failed? ==> r.error == if tv == [] then EmptyTimeVector else UnsupportedInterpolation
    ensures r.Found? ==> r.slices == Slices(Selected(t, tv, interp), SliceInf(t, tv, interp), SliceSup(t, tv, interp))
  {
    hide FirstNotBelow, ValidSize, TrimmedSize;
    if tv == [] {
      return Failed(EmptyTimeVector);
    }
    if interp != UNDEFINED_INTERP && interp != CLOSEST_INTERP && interp != PREVIOUS_INTERP && interp != LINEAR_INTERP {
      return Failed(UnsupportedInterpolation);
    }
    var sup := |tv| - 1;
    var inf := 0;
    if sup > 0 {
      inf := sup - 1;
    }
    var nbValid := IncreasingPrefixSize(tv);
    var it := LowerBound(tv, nbValid, t);
    if it != nbValid {
      sup := it;
      if interp != CLOSEST_INTERP {
        if sup == 0 && |tv| > 1 {
          sup := 1;
        }
      }
      if sup > 0 {
        inf := sup - 1;
      } else {
        inf := sup;
      }
    }
    assert sup == SliceSup(t, tv, interp) && inf == SliceInf(t, tv, interp);
    var mode := if interp == UNDEFINED_INTERP then CLOSEST_INTERP else interp;
    var index := inf;
    if mode == CLOSEST_INTERP {
      if Abs(t - tv[sup]) <= Abs(t - tv[inf]) {
        index := sup;
      }
    } else if mode == PREVIOUS_INTERP {
      if sup > 0 && (Abs(t - tv[sup]) < EPSILON || t > tv[sup]) {
        index := sup;
      }
    }
    return Found(Slices(index, inf, sup));
  }

  // ------------------------------------------------ what a selection means

  /** A time vector with at least one valid sample: increasing up to its trailing invalid run. */
  ghost predicate Timebase(tv: seq<real>) {
    var n := ValidSize(tv);
    0 < n && IncreasingUpTo(tv, n) && INVALID_TIME < tv[0]
  }

  /** No valid sample is nearer to t, and of two equally near ones k is the later. */
  ghost predicate Nearest(tv: seq<real>, t: real, k: int) {
    && 0 <= k < ValidSize(tv)
    && forall j | 0 <= j < ValidSize(tv) ::
         Abs(t - tv[k]) < Abs(t - tv[j]) || (Abs(t - tv[k]) == Abs(t - tv[j]) && j <= k)
  }

  /** The last valid sample that is not after t, or the first one if all are. */
  ghost predicate LastNotAfter(tv: seq<real>, t: real, k: int) {
    && 0 <= k < ValidSize(tv)
    && (k > 0 ==> tv[k] <= t)
    && forall j | k < j < ValidSize(tv) :: t < tv[j]
  }

  /** CLOSEST picks the nearest valid sample, except after the last one when two or more invalid ones follow. */
  lemma {:induction false} ClosestExact(tv: seq<real>, t: real)
    requires Timebase(tv)
    ensures Nearest(tv, t, Selected(t, tv, CLOSEST_INTERP))
       <==> t <= tv[ValidSize(tv) - 1] || |tv| - ValidSize(tv) <= 1
  {
    var n := ValidSize(tv);
    var first := FirstNotBelow(tv, n, t);
    if first == n && |tv| - n == 1 {
      assert tv[n] == INVALID_TIME;
    }
  }

  /** After the last valid sample CLOSEST returns an invalid one. */
  lemma {:induction false} ClosestExample() returns (tv: seq<real>, t: real)
    ensures tv == [0.0, INVALID_TIME, INVALID_TIME] && t == 1.0
    ensures Timebase(tv) && Selected(t, tv, CLOSEST_INTERP) == 2 && !Nearest(tv, t, 2)
  {
    tv, t := [0.0, INVALID_TIME, INVALID_TIME], 1.0;
    ValidSizeIs(tv, 1);
  }

  lemma {:induction false} ValidSizeIs(tv: seq<real>, n: nat)
    requires 0 < n <= |tv| && tv[n - 1] != INVALID_TIME && forall k | n <= k < |tv| :: tv[k] == INVALID_TIME
    ensures ValidSize(tv) == n
  {
    TrimmedIs(tv, n, |tv|);
  }

  lemma {:induction false} TrimmedIs(tv: seq<real>, n: nat, m: nat)
    requires 0 < n <= m <= |tv| && tv[n - 1] != INVALID_TIME && forall k | n <= k < m :: tv[k] == INVALID_TIME
    ensures TrimmedSize(tv, m) == n
  {
    if n < m {
      TrimmedIs(tv, n, m - 1);
    }
  }

  /** t lies before a sample by less than the machine epsilon, and that sample is the one the search compares with. */
  ghost predicate JustBefore(tv: seq<real>, n: nat, t: real)
    requires n <= |tv|
  {
    exists j :: 1 <= j < n && t < tv[j] && tv[j] - t < EPSILON && (j == 1 || tv[j - 1] < t)
  }

  /**
   * PREVIOUS picks the last valid sample not after t exactly when there is one sample in all, or there are two
   * valid ones, t is not beyond them when invalid ones follow, and t is not just before a sample. A single valid
   * sample followed by invalid ones fails for every time that is not below the invalid value by the machine epsilon.
   */
  lemma {:induction false} PreviousExact(tv: seq<real>, t: real)
    requires Timebase(tv)
    ensures LastNotAfter(tv, t, Selected(t, tv, PREVIOUS_INTERP)) <==>
      var n := ValidSize(tv);
      || |tv| == 1
      || (n == 1 && t <= INVALID_TIME - EPSILON)
      || (n >= 2 && (t <= tv[n - 1] || n == |tv|) && !JustBefore(tv, n, t))
  {
    hide ValidSize, FirstNotBelow;
    var n := ValidSize(tv);
    var sup := SliceSup(t, tv, PREVIOUS_INTERP);
    if n >= 2 {
      JustBeforeSup(tv, t);
    }
    TailIsInvalid(tv);
  }

  /** At the only valid sample PREVIOUS returns the invalid one that follows. */
  lemma {:induction false} PreviousExample() returns (tv: seq<real>, t: real)
    ensures tv == [0.0, INVALID_TIME] && t == 0.0
    ensures Timebase(tv) && Selected(t, tv, PREVIOUS_INTERP) == 1 && !LastNotAfter(tv, t, 1)
  {
    tv, t := [0.0, INVALID_TIME], 0.0;
    ValidSizeIs(tv, 1);
  }

  /** Half the machine epsilon before a sample PREVIOUS returns that sample. */
  lemma {:induction false} JustBeforeExample() returns (tv: seq<real>, t: real)
    ensures tv == [0.0, 1.0] && t == 1.0 - EPSILON / 2.0
    ensures Timebase(tv) && Selected(t, tv, PREVIOUS_INTERP) == 1 && !LastNotAfter(tv, t, 1)
  {
    tv, t := [0.0, 1.0], 1.0 - EPSILON / 2.0;
    ValidSizeIs(tv, 2);
  }

  /** The sample that the search compares with when t is just before one. */
  lemma {:induction false} JustBeforeSup(tv: seq<real>, t: real)
    requires Timebase(tv) && ValidSize(tv) >= 2
    ensures var n, sup := ValidSize(tv), SliceSup(t, tv, PREVIOUS_INTERP);
      JustBefore(tv, n, t) <==> sup < n && t < tv[sup] && tv[sup] - t < EPSILON
  {
    hide FirstNotBelow, ValidSize;
    var n, sup := ValidSize(tv), SliceSup(t, tv, PREVIOUS_INTERP);
    if JustBefore(tv, n, t) {
      var j :| 1 <= j < n && t < tv[j] && tv[j] - t < EPSILON && (j == 1 || tv[j - 1] < t);
      if j > 1 {
        FirstIs(tv, n, t, j);
      } else {
        FirstAtMost(tv, n, t, j);
      }
    }
    if sup < n && t < tv[sup] && tv[sup] - t < EPSILON {
      assert sup == 1 || tv[sup - 1] < t;
    }
  }

  lemma {:induction false} FirstAtMost(tv: seq<real>, n: nat, t: real, j: nat)
    requires j < n <= |tv| && t <= tv[j]
    ensures FirstNotBelow(tv, n, t) <= j
  {
    hide FirstNotBelow;
  }

  lemma {:induction false} FirstIs(tv: seq<real>, n: nat, t: real, j: nat)
    requires j < n <= |tv| && SortedUpTo(tv, n) && t <= tv[j] && (j > 0 ==> tv[j - 1] < t)
    ensures FirstNotBelow(tv, n, t) == j
  {
    hide FirstNotBelow;
    FirstAtMost(tv, n, t, j);
    forall i | 0 <= i < j
      ensures tv[i] < t
    {
      assert tv[i] <= tv[j - 1];
    }
  }

  lemma {:induction false} TailIsInvalid(tv: seq<real>)
    requires Timebase(tv)
    ensures forall k | ValidSize(tv) <= k < |tv| :: tv[k] == INVALID_TIME
  {
  }

  /** LINEAR returns the lower of two neighbouring valid samples around any time in range. */
  lemma {:induction false} LinearBrackets(tv: seq<real>, t: real)
    requires Timebase(tv) && ValidSize(tv) >= 2 && tv[0] <= t <= tv[ValidSize(tv) - 1]
    ensures var inf, sup := SliceInf(t, tv, LINEAR_INTERP), SliceSup(t, tv, LINEAR_INTERP);
      Selected(t, tv, LINEAR_INTERP) == inf && sup == inf + 1 < ValidSize(tv) && tv[inf] <= t <= tv[sup]
  {
  }

  /** Time vectors without invalid samples. */
  ghost predicate Clean(tv: seq<real>) {
    tv != [] && IncreasingUpTo(tv, |tv|) && INVALID_TIME < tv[0]
  }

  lemma {:induction false} CleanIsTimebase(tv: seq<real>)
    requires Clean(tv)
    ensures Timebase(tv) && ValidSize(tv) == |tv| && SortedUpTo(tv, |tv|)
  {
    assert tv[0] <= tv[|tv| - 1];
  }

  /**
   * A later time selects an earlier slice only in the default mode, with one valid sample followed by invalid
   * ones, and only when the earlier time is nearer to the invalid value than to the sample.
   */
  lemma {:induction false} SelectionMonotone(tv: seq<real>, s: real, t: real, interp: int)
    requires Timebase(tv) && s <= t && UNDEFINED_INTERP <= interp <= LINEAR_INTERP
    ensures SliceSup(s, tv, interp) <= SliceSup(t, tv, interp)
    ensures Selected(s, tv, interp) <= Selected(t, tv, interp) <==>
      !(&& interp == UNDEFINED_INTERP && ValidSize(tv) == 1 < |tv|
        && 2.0 * s <= INVALID_TIME + tv[0] < 2.0 * t && (t <= tv[0] || |tv| == 2))
  {
    TailIsInvalid(tv);
    var n := ValidSize(tv);
    var a, b := FirstNotBelow(tv, n, s), FirstNotBelow(tv, n, t);
    assert a <= b;
    var supS, supT := SliceSup(s, tv, interp), SliceSup(t, tv, interp);
    if supS == supT && supS > 0 && supS < n {
      assert tv[supS - 1] < tv[supS];
    }
  }

  /** Halfway between the invalid value and the sample the default mode selects slice 1, at the sample slice 0. */
  lemma {:induction false} SelectionExample() returns (tv: seq<real>, s: real, t: real)
    ensures tv == [0.0, INVALID_TIME] && s == INVALID_TIME / 2.0 && t == 0.0
    ensures Timebase(tv) && s < t && Selected(s, tv, UNDEFINED_INTERP) == 1 && Selected(t, tv, UNDEFINED_INTERP) == 0
  {
    tv, s, t := [0.0, INVALID_TIME], INVALID_TIME / 2.0, 0.0;
    ValidSizeIs(tv, 1);
  }

  /**
   * In terms of the samples: when a time selects slice j or a later one. CLOSEST passes the middle between two
   * samples, PREVIOUS reaches a sample or comes just before it, LINEAR passes a sample that is not the last.
   */
  predicate Reaches(tv: seq<real>, t: real, interp: int, j: nat)
    requires 1 <= j < |tv|
  {
    if interp == LINEAR_INTERP then j + 1 < |tv| && tv[j] < t
    else if interp == PREVIOUS_INTERP then t >= tv[j] || (tv[j] - t < EPSILON && (j == 1 || tv[j - 1] < t))
    else tv[j - 1] + tv[j] <= 2.0 * t
  }

  lemma {:induction false} SelectedReaches(tv: seq<real>, t: real, interp: int, j: nat)
    requires Clean(tv) && UNDEFINED_INTERP <= interp <= LINEAR_INTERP && 1 <= j < |tv|
    ensures Selected(t, tv, interp) >= j <==> Reaches(tv, t, interp, j)
  {
    hide FirstNotBelow, ValidSize;
    CleanIsTimebase(tv);
    var first := FirstNotBelow(tv, |tv|, t);
    assert tv[j - 1] < tv[j];
    assert 0 < first < |tv| ==> tv[first - 1] < tv[first];
    assert j < first ==> tv[j] < t;
    assert first < j - 1 ==> tv[first] < tv[j - 1];
    assert 0 < j - 1 ==> tv[j - 2] < tv[j - 1];
  }

  // --------------------------------------------------------- time windows

  /** How many points a step of dt makes between tmin and tmax; the small term absorbs rounding at the end. */
  function StepCount(tmin: real, tmax: real, dt: real): int {
    if dt <= 0.0 then 0 else ((tmax - tmin) / dt + 0.000000001).Floor + 1
  }

  /**
   * n points from tmin on, dt apart: the last is not after tmax, but for a tolerance of a billionth of a step,
   * and one more would be. A step that does not move on makes no points.
   */
  ghost predicate CountsPoints(tmin: real, tmax: real, dt: real, n: int) {
    if dt <= 0.0 then n == 0
    else tmin + (n - 1) as real * dt <= tmax + 0.000000001 * dt < tmin + n as real * dt
  }

  lemma {:induction false} StepCountExact(tmin: real, tmax: real, dt: real)
    ensures forall n :: CountsPoints(tmin, tmax, dt, n) <==> n == StepCount(tmin, tmax, dt)
  {
    if dt > 0.0 {
      forall n: int
        ensures CountsPoints(tmin, tmax, dt, n) <==> n == StepCount(tmin, tmax, dt)
      {
        var q := (tmax - tmin) / dt;
        Scaled((n - 1) as real, q + 0.000000001, dt);
        Scaled(n as real, q + 0.000000001, dt);
        assert q * dt == tmax - tmin;
        assert (q + 0.000000001) * dt == q * dt + 0.000000001 * dt;
      }
    }
  }

  lemma {:induction false} Scaled(a: real, b: real, dt: real)
    requires dt > 0.0
    ensures a <= b <==> a * dt <= b * dt
  {
    if a < b {
      assert (b - a) * dt > 0.0;
    } else {
      assert (a - b) * dt >= 0.0;
      if a > b {
        assert (a - b) * dt > 0.0;
      }
    }
    assert (a - b) * dt == a * dt - b * dt;
  }

  /** The out-parameters of getTimeRangeIndices; the range is not set when no sample qualifies. */
  datatype Window = Window(minIndex: int, maxIndex: int, range: Option<int>)

  function PlainWindow(tmin: real, tmax: real, tv: seq<real>): Window {
    var n := ValidSize(tv);
    var first, above := FirstNotBelow(tv, n, tmin), FirstAbove(tv, n, tmax);
    if first == n then Window(-1, -1, None)
    else if above == 0 then Window(first, -1, None)
    else Window(first, above - 1, Some(above - first))
  }

  /** With a list of times the window spans its first and last entries. */
  function From(tmin: real, dtime: seq<real>): real {
    if |dtime| > 1 then dtime[0] else tmin
  }

  function To(tmax: real, dtime: seq<real>): real {
    if |dtime| > 1 then dtime[|dtime| - 1] else tmax
  }

  function ResampleRange(tmin: real, tmax: real, dtime: seq<real>): int
    requires dtime != []
  {
    if |dtime| == 1 then StepCount(tmin, tmax, dtime[0]) else |dtime|
  }

  function ResampleWindow(tmin: real, tmax: real, dtime: seq<real>, tv: seq<real>, interp: int): Window
    requires dtime != []
  {
    var range := ResampleRange(tmin, tmax, dtime);
    if tv == [] then Window(0, range - 1, Some(range))
    else
      var last := if interp == LINEAR_INTERP then SliceSup(To(tmax, dtime), tv, interp)
        else Selected(To(tmax, dtime), tv, interp);
      Window(Selected(From(tmin, dtime), tv, interp), last, Some(range))
  }

  /** The interpolation mode only matters, and is only checked, when there is a step and a sample. */
  method GetTimeRangeIndices(tmin0: real, tmax0: real, dtime: seq<real>, tv: seq<real>, interp: int)
    returns (w: Window, error: Option<SearchError>)
    requires SortedUpTo(tv, ValidSize(tv))
    ensures error == if dtime != [] && tv != [] && !(UNDEFINED_INTERP <= interp <= LINEAR_INTERP)
                     then Some(UnsupportedInterpolation) else None
    ensures error.None? ==>
      w == if dtime == [] then PlainWindow(tmin0, tmax0, tv) else ResampleWindow(tmin0, tmax0, dtime, tv, interp)
    ensures error.None? && |dtime| == 1 ==> w.range.Some? && CountsPoints(tmin0, tmax0, dtime[0], w.range.value)
    ensures error.None? && |dtime| > 1 ==> w.range == Some(|dtime|)
    ensures error.None? && dtime != [] && tv == [] ==> w.minIndex == 0 && w.range == Some(w.maxIndex + 1)
  {
    hide StepCount, Selected, SliceSup, ValidSize, CountsPoints;
    if |dtime| == 1 {
      StepCountExact(tmin0, tmax0, dtime[0]);
    }
    var tmin, tmax := tmin0, tmax0;
    var timeMinIndex, timeMaxIndex := -1, -1;
    w, error := Window(-1, -1, None), None;
    if |dtime| == 0 {
      var nbValid := IncreasingPrefixSize(tv);
      var minIt := LowerBound(tv, nbValid, tmin);
      if minIt != nbValid {
        timeMinIndex := minIt;
      }
      if timeMinIndex == -1 {
        return Window(timeMinIndex, timeMaxIndex, None), None;
      }
      var maxIt := UpperBound(tv, nbValid, tmax);
      if maxIt != 0 {
        timeMaxIndex := maxIt - 1;
      }
      if timeMaxIndex == -1 {
        return Window(timeMinIndex, timeMaxIndex, None), None;
      }
      return Window(timeMinIndex, timeMaxIndex, Some(timeMaxIndex - timeMinIndex + 1)), None;
    }
    if |dtime| > 1 {
      tmin, tmax := dtime[0], dtime[|dtime| - 1];
    }
    if |tv| > 0 {
      var atMax := GetSlicesTimesIndices(tmax, tv, interp);
      if atMax.Failed? {
        return w, Some(atMax.error);
      }
      timeMaxIndex := atMax.slices.index;
      if interp == LINEAR_INTERP {
        if atMax.slices.sup <= |tv| {
          timeMaxIndex := atMax.slices.sup;
        }
      }
      var atMin := GetSlicesTimesIndices(tmin, tv, interp);
      timeMinIndex := atMin.slices.index;
    }
    var range;
    if |dtime| == 1 {
      range := StepCount(tmin, tmax, dtime[0]);
    } else {
      range := |dtime| - 1 - 0 + 1;
    }
    if |tv| == 0 {
      timeMinIndex, timeMaxIndex := 0, range - 1;
    }
    return Window(timeMinIndex, timeMaxIndex, Some(range)), None;
  }

  /**
   * Without a step the window holds exactly the valid samples in [tmin, tmax]. The range counts them, but
   * turns negative when tmin is after tmax and a sample lies between the two.
   */
  lemma {:induction false} PlainWindowExact(tmin: real, tmax: real, tv: seq<real>)
    requires SortedUpTo(tv, ValidSize(tv))
    ensures var w, n := PlainWindow(tmin, tmax, tv), ValidSize(tv);
      && (forall k | 0 <= k < n :: tmin <= tv[k] <= tmax <==> w.range.Some? && w.minIndex <= k <= w.maxIndex)
      && (w.range.Some? ==> 0 <= w.minIndex < n && 0 <= w.maxIndex < n && w.range.value == w.maxIndex - w.minIndex + 1)
      && (w.range.None? ==> w.maxIndex == -1 && (w.minIndex == -1 || (0 <= w.minIndex < n && tmin <= tv[w.minIndex]))
                            && forall k | 0 <= k < n && (w.minIndex == -1 || k < w.minIndex) :: tv[k] < tmin)
      && (w.range.Some? && w.range.value < 0 <==>
            exists j :: 1 <= j < n - 1 && tmax < tv[j] < tmin && tv[0] <= tmax && tmin <= tv[n - 1])
  {
    var n := ValidSize(tv);
    var first, above := FirstNotBelow(tv, n, tmin), FirstAbove(tv, n, tmax);
    assert forall k | first <= k < n :: tv[k] >= tmin;
    assert forall k | above <= k < n :: tv[k] > tmax;
    if 0 < above < first < n {
      assert tmax < tv[above] < tmin;
    }
  }

  /** Asked backwards around a sample, the range is -1. */
  lemma {:induction false} BackwardsExample() returns (tv: seq<real>, tmin: real, tmax: real)
    ensures tv == [0.0, 1.0, 2.0] && tmin == 1.5 && tmax == 0.5
    ensures Timebase(tv) && PlainWindow(tmin, tmax, tv) == Window(2, 0, Some(-1))
  {
    tv, tmin, tmax := [0.0, 1.0, 2.0], 1.5, 0.5;
    ValidSizeIs(tv, 3);
  }
}
