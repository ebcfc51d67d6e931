/** The memory backend and the interpolation component select the same slice for a time. */
module SliceAgreement {
  import opened TimeSearch
  import opened Resampling

  /** The two slices the memory backend reads for a time; equal at and beyond the ends. */
  function Around(times: seq<real>, t: real): (r: (nat, nat))
    requires times != []
    ensures r.0 < |times| && r.1 < |times| && (r.0 == r.1 || r.1 == r.0 + 1)
    ensures t <= times[0] ==> r == (0, 0)
    ensures times[0] < t && t >= times[|times| - 1] ==> r == (|times| - 1, |times| - 1)
  {
    if t <= times[0] then (0, 0)
    else if t >= times[|times| - 1] then (|times| - 1, |times| - 1)
    else
      var k := FirstAbove(times, |times|, t);
      (k - 1, k)
  }

  /** The linear search of readTimeSlice. */
  method FindSlices(times: seq<real>, t: real) returns (sliceIdx1: int, sliceIdx2: int)
    requires times != []
    ensures (sliceIdx1, sliceIdx2) == Around(times, t)
  {
    sliceIdx2 := -1;
    if t <= times[0] {
      sliceIdx1, sliceIdx2 := 0, 0;
    } else if t >= times[|times| - 1] {
      sliceIdx1, sliceIdx2 := |times| - 1, |times| - 1;
    } else {
      sliceIdx1 := 0;
      while sliceIdx1 < |times| - 1
        invariant 0 <= sliceIdx1 <= |times| - 1
        invariant forall i | 0 <= i <= sliceIdx1 :: times[i] <= t
      {
        if t >= times[sliceIdx1] && t < times[sliceIdx1 + 1] {
          sliceIdx2 := sliceIdx1 + 1;
          break;
        }
        sliceIdx1 := sliceIdx1 + 1;
      }
      assert times[sliceIdx1] <= t;
    }
  }

  /** The slice the memory backend returns in PREVIOUS and CLOSEST mode. */
  function MemorySelected(times: seq<real>, t: real, interp: int): nat
    requires times != []
  {
    var (i, j) := Around(times, t);
    if i == j || interp == PREVIOUS_INTERP then i
    else if t - times[i] < times[j] - t then i else j
  }

  /** The row it returns in LINEAR mode for floating-point data. */
  function MemoryLinear(full: seq<seq<real>>, times: seq<real>, t: real): seq<real>
    requires times != [] && |full| == |times| && forall r | r in full :: |r| == |full[0]|
  {
    var (i, j) := Around(times, t);
    if i == j then full[i]
    else
      var delta := if times[j] == times[i] then 0.0 else (t - times[i]) / (times[j] - times[i]);
      seq(|full[i]|, k requires 0 <= k < |full[i]| => full[i][k] + delta * (full[j][k] - full[i][k]))
  }

  /** Where Around lies relative to the first sample that is not below t. */
  lemma {:induction false} AroundFirst(times: seq<real>, t: real)
    requires Clean(times)
    ensures var (i, j) := Around(times, t); var first := FirstNotBelow(times, |times|, t);
      if first == |times| then i == j == |times| - 1
      else if first == 0 then i == j == 0
      else if times[first] == t then i == first && (j == first || j == first + 1)
      else (i, j) == (first - 1, first)
  {
    var first := FirstNotBelow(times, |times|, t);
    if 0 < first < |times| && times[first] == t && first + 1 < |times| {
      assert times[first] < times[first + 1];
      assert FirstAbove(times, |times|, t) == first + 1;
    }
  }

  /** CLOSEST agrees for every time; on ties both take the later slice. */
  lemma {:induction false} ClosestAgrees(times: seq<real>, t: real)
    requires Clean(times)
    ensures MemorySelected(times, t, CLOSEST_INTERP) == Selected(t, times, CLOSEST_INTERP)
  {
    CleanIsTimebase(times);
    AroundFirst(times, t);
  }

  /** PREVIOUS agrees exactly when no sample is after t by less than the machine epsilon and next to be reached. */
  lemma {:induction false} PreviousAgrees(times: seq<real>, t: real)
    requires Clean(times)
    ensures MemorySelected(times, t, PREVIOUS_INTERP) == Selected(t, times, PREVIOUS_INTERP) <==>
      !JustBefore(times, |times|, t)
  {
    CleanIsTimebase(times);
    AroundFirst(times, t);
    if |times| >= 2 {
      JustBeforeSup(times, t);
    }
  }

  /**
   * Half the machine epsilon before a sample the memory backend returns the slice before it, the component its slice.
   */
  lemma {:induction false} DisagreementExample() returns (times: seq<real>, t: real)
    ensures times == [0.0, 1.0] && t == 1.0 - EPSILON / 2.0
    ensures MemorySelected(times, t, PREVIOUS_INTERP) == 0 && Selected(t, times, PREVIOUS_INTERP) == 1
  {
    times, t := JustBeforeExample();
  }

  /** LINEAR agrees on floating-point data for every time, including the clamping outside the range. */
  lemma {:induction false} LinearAgrees(full: seq<seq<real>>, times: seq<real>, t: real)
    requires Clean(times) && 2 <= |times| == |full| && forall r | r in full :: |r| == |full[0]|
    ensures MemoryLinear(full, times, t) == RowAt(full, times, t, LINEAR_INTERP, false)
  {
    hide ValidSize, RowAt, FirstAbove, FirstNotBelow;
    CleanIsTimebase(times);
    AroundFirst(times, t);
    var first := FirstNotBelow(times, |times|, t);
    if first == |times| {
      LinearClamps(full, times, t, false);
    } else if times[first] == t {
      LinearAtSample(full, times, first, false);
      assert full[first] in full;
      assert MemoryLinear(full, times, t) == full[first] by {
        EndQuotients(1.0);
        var (i, j) := Around(times, t);
        if i != j {
          EndQuotients(times[j] - times[i]);
          assert t - times[i] == 0.0;
        }
      }
    } else if first == 0 {
      LinearClamps(full, times, t, false);
    } else {
      InnerAgrees(full, times, t, first);
    }
  }

  lemma {:induction false} InnerAgrees(full: seq<seq<real>>, times: seq<real>, t: real, k: nat)
    requires Clean(times) && 2 <= |times| == |full| && forall r | r in full :: |r| == |full[0]|
    requires 0 < k < |times| && times[k - 1] < t < times[k]
    requires Around(times, t) == (k - 1, k) && FirstNotBelow(times, |times|, t) == k && ValidSize(times) == |times|
    ensures MemoryLinear(full, times, t) == RowAt(full, times, t, LINEAR_INTERP, false)
  {
    hide FirstNotBelow, Around, ValidSize;
    var f := Factor(times[k - 1], times[k], t);
    var a, b := full[k - 1], full[k];
    assert f == (t - times[k - 1]) / (times[k] - times[k - 1]);
    var m, r := MemoryLinear(full, times, t), RowAt(full, times, t, LINEAR_INTERP, false);
    assert r == MixRows(false, a, b, f);
    forall i | 0 <= i < |a|
      ensures m[i] == r[i]
    {
      assert m[i] == a[i] + f * (b[i] - a[i]);
      assert r[i] == Mix(false, a[i], b[i], f);
    }
  }
}
