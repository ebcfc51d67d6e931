/** Arrays of structures in the memory backend: deep copies, appended elements, selected elements. */
module MemoryStruct {
  import opened Chunks
  import opened DataTypes
  import opened MemoryData
  import opened Scalars
  import opened SliceAgreement
  import opened TimeSearch

  /** The value of a structure: its data fields and its arrays of structures. */
  datatype StructValue = StructValue(data: map<string, State>, aos: map<string, AosValue>)

  datatype AosValue = AosValue(timebase: string, elems: seq<StructValue>)

  class ALAoS {
    var timebase: string
    var aos: seq<ALStruct>
    ghost var Repr: set<object>

    ghost predicate Valid()
      reads this, Repr
      decreases Repr, 0
    {
      this in Repr &&
      forall s | s in aos :: s in Repr && s.Repr <= Repr && this !in s.Repr && s.Valid()
    }

    ghost function Value(): (v: AosValue)
      requires Valid()
      reads this, Repr
      ensures |v.elems| == |aos|
      decreases Repr, 0
    {
      AosValue(timebase, seq(|aos|, i requires 0 <= i < |aos| && Valid() reads this, Repr => aos[i].Value()))
    }

    constructor ()
      ensures Valid() && fresh(Repr) && aos == [] && timebase == ""
    {
      timebase, aos, Repr := "", [], {this};
    }

    /** Adds one element at the end. */
    method Push(s: ALStruct)
      requires Valid() && s.Valid() && this !in s.Repr
      modifies this
      ensures Valid() && aos == old(aos) + [s] && timebase == old(timebase) && Repr == old(Repr) + s.Repr
      ensures s.Valid() && Value().elems == old(Value().elems) + [old(s.Value())]
    {
      aos := aos + [s];
      Repr := Repr + s.Repr;
    }

    /** Adds a deep copy of an element at the end. */
    method PushCopy(s: ALStruct)
      requires Valid() && s.Valid() && this !in s.Repr
      modifies this
      ensures Valid() && fresh(Repr - old(Repr)) && |aos| == |old(aos)| + 1 && old(aos) <= aos
        && timebase == old(timebase)
      ensures s.Valid() && s.Value() == old(s.Value())
      ensures Value().elems == old(Value().elems) + [s.Value()]
      decreases s.Repr, 2
    {
      hide Value, ALStruct.Value, ALStruct.Valid;
      var copy := s.Clone();
      Push(copy);
    }

    /** A deep copy. */
    method Clone() returns (c: ALAoS)
      requires Valid()
      ensures c.Valid() && fresh(c.Repr) && c.Value() == Value()
      decreases Repr, 1
    {
      hide ALStruct.Valid, ALStruct.Value;
      c := new ALAoS();
      ghost var want := Value();
      for i := 0 to |aos|
        invariant c.Valid() && fresh(c.Repr) && |c.aos| == i && c !in Repr
        invariant Valid() && Value() == want
        invariant c.Value().elems == want.elems[..i]
      {
        assert aos[i].Value() == want.elems[i];
        c.PushCopy(aos[i]);
      }
      c.timebase := timebase;
    }

    /** Appends copies of the elements of a slice to an array that evolves with time, or to one without elements. */
    method AddSlice(slice: ALAoS)
      requires timebase != "" || aos == []
      requires Valid() && slice.Valid() && this !in slice.Repr
      modifies this
      ensures Valid() && fresh(Repr - old(Repr)) && timebase == old(timebase)
      ensures old(aos) <= aos && slice.Valid() && slice.Value() == old(slice.Value())
      ensures Value().elems == old(Value().elems) + slice.Value().elems
    {
      hide ALStruct.Valid, ALStruct.Value;
      ghost var was, added := Value().elems, slice.Value();
      for i := 0 to |slice.aos|
        invariant Valid() && fresh(Repr - old(Repr)) && timebase == old(timebase) && old(aos) <= aos
        invariant slice.Valid() && slice.Value() == added
        invariant Value().elems == was + added.elems[..i]
      {
        assert slice.aos[i].Value() == added.elems[i];
        PushCopy(slice.aos[i]);
      }
    }
  }

  class ALStruct {
    var dataFields: map<string, ALData>
    var aosFields: map<string, ALAoS>
    ghost var Repr: set<object>

    ghost predicate Valid()
      reads this, Repr
      decreases Repr, 0
    {
      this in Repr &&
      (forall k | k in dataFields :: dataFields[k] in Repr) &&
      (forall k | k in aosFields :: aosFields[k] in Repr && aosFields[k].Repr <= Repr && this !in aosFields[k].Repr
        && aosFields[k].Valid())
    }

    ghost function DataValues(): map<string, State>
      requires Valid()
      reads this, Repr
    {
      map k | k in dataFields :: dataFields[k].Value()
    }

    ghost function AosValues(): (v: map<string, AosValue>)
      requires Valid()
      reads this, Repr
      ensures v.Keys == aosFields.Keys
      decreases Repr, 0
    {
      map k | k in aosFields :: aosFields[k].Value()
    }

    ghost function Value(): StructValue
      requires Valid()
      reads this, Repr
      decreases Repr, 1
    {
      StructValue(DataValues(), AosValues())
    }

    constructor ()
      ensures Valid() && fresh(this) && Repr == {this} && dataFields == map[] && aosFields == map[]
    {
      dataFields, aosFields, Repr := map[], map[], {this};
    }

    method PutData(k: string, d: ALData)
      requires Valid() && d !in Repr
      modifies this
      ensures Valid() && Repr == old(Repr) + {d} && aosFields == old(aosFields) && dataFields == old(dataFields)[k := d]
      ensures AosValues() == old(AosValues())
    {
      dataFields := dataFields[k := d];
      Repr := Repr + {d};
    }

    method PutAos(k: string, a: ALAoS)
      requires Valid() && a.Valid() && this !in a.Repr
      modifies this
      ensures Valid() && Repr == old(Repr) + a.Repr && dataFields == old(dataFields)
      ensures DataValues() == old(DataValues())
      ensures AosValues() == old(AosValues())[k := old(a.Value())]
    {
      hide ALAoS.Value, ALData.Value;
      aosFields := aosFields[k := a];
      Repr := Repr + a.Repr;
    }

    /** A deep copy. */
    method Clone() returns (c: ALStruct)
      requires Valid()
      ensures c.Valid() && fresh(c.Repr) && c.Value() == Value()
      decreases Repr, 1
    {
      hide DataValues, AosValues, ALAoS.Value, ALAoS.Valid;
      c := new ALStruct();
      CopyData(c);
      CopyAos(c);
    }

    method CopyData(c: ALStruct)
      requires Valid() && c.Valid() && c.Repr == {c} && c !in Repr && c.dataFields == map[] && c.aosFields == map[]
      modifies c
      ensures c.Valid() && fresh(c.Repr - {c}) && c.aosFields == map[] && c.DataValues() == old(DataValues())
      ensures Valid() && AosValues() == old(AosValues())
    {
      hide AosValues, ALAoS.Valid, ALAoS.Value;
      var todo := dataFields.Keys;
      while todo != {}
        invariant Valid() && dataFields == old(dataFields) && todo <= dataFields.Keys
        invariant c.Valid() && fresh(c.Repr - {c}) && c.aosFields == map[]
        invariant c.dataFields.Keys == dataFields.Keys - todo
        invariant forall k | k in c.dataFields :: c.dataFields[k].Value() == old(dataFields[k].Value())
      {
        var k :| k in todo;
        todo := todo - {k};
        var d := dataFields[k].Clone();
        c.PutData(k, d);
      }
    }

    method CopyAos(c: ALStruct)
      requires Valid() && c.Valid() && c !in Repr && c.aosFields == map[]
      modifies c
      ensures c.Valid() && fresh(c.Repr - old(c.Repr))
      ensures c.DataValues() == old(c.DataValues()) && c.AosValues() == old(AosValues())
      decreases Repr, 0, 1
    {
      hide DataValues, AosValues;
      ghost var want := AosValues();
      var todo := aosFields.Keys;
      while todo != {}
        invariant Valid() && AosValues() == want && todo <= want.Keys
        invariant c.Valid() && fresh(c.Repr - old(c.Repr)) && c.DataValues() == old(c.DataValues())
        invariant c.AosValues().Keys == want.Keys - todo
        invariant forall k | k in c.AosValues() :: c.AosValues()[k] == want[k]
        decreases todo
      {
        var k :| k in todo;
        todo := todo - {k};
        CopyOneAos(c, k);
      }
      assert c.AosValues() == want;
    }

    method CopyOneAos(c: ALStruct, k: string)
      requires Valid() && c.Valid() && c !in Repr && k in aosFields
      modifies c
      ensures c.Valid() && fresh(c.Repr - old(c.Repr)) && Valid() && AosValues() == old(AosValues())
      ensures c.DataValues() == old(c.DataValues())
      ensures c.AosValues() == old(c.AosValues())[k := old(AosValues())[k]]
      decreases Repr, 0, 0
    {
      hide DataValues;
      var a := aosFields[k].Clone();
      assert a.Value() == AosValues()[k];
      c.PutAos(k, a);
    }
  }

  /** The memory backend selects a sample for its own time. */
  lemma {:induction false} SampleSelected(times: seq<real>, k: nat, interp: int)
    requires Clean(times) && k < |times| && (interp == PREVIOUS_INTERP || interp == CLOSEST_INTERP)
    ensures MemorySelected(times, times[k], interp) == k
  {
    if 0 < k < |times| - 1 {
      assert times[k] < times[k + 1];
      assert FirstAbove(times, |times|, times[k]) == k + 1;
    }
  }

  /** After any run of appends to a field, reading it at the time of a sample returns that slice. */
  lemma {:induction false} SampleRead(typ: int, lead: seq<nat>, n: nat, buf: seq<byte>, slices: seq<seq<byte>>,
      timebase: string, times: seq<real>, k: nat, interp: int)
    requires timebase != "" && Shaped(slices, DataBytes(typ, lead))
    requires |buf| == DataBytes(typ, lead + [n])
    requires Clean(times) && k < |times| == n + |slices| && (interp == PREVIOUS_INTERP || interp == CLOSEST_INTERP)
    ensures var size := DataBytes(typ, lead);
      var st := WithSlices(Written(typ, lead + [n], buf, timebase), typ, lead, slices);
      && Sliceable(st) && (k < n ==> k * size + size <= |buf|)
      && SliceAt(st, MemorySelected(times, times[k], interp))
         == Some((typ, lead + [1], if k < n then Piece(buf, size, k) else slices[k - n]))
  {
    hide DataBytes, SliceAt, Sliceable, Written, WithSlices, MemorySelected;
    SampleSelected(times, k, interp);
    SliceAfterAppends(typ, lead, n, buf, slices, timebase, k);
  }

  // ------------------------------------------------- times of the elements

  /** The element has a value in the field that holds its time. */
  predicate HasTime(e: StructValue, timeField: string) {
    timeField in e.data && e.data[timeField].bufs != []
  }

  predicate AllTimed(elems: seq<StructValue>, timeField: string) {
    forall i | 0 <= i < |elems| :: HasTime(elems[i], timeField)
  }

  function TimeOf(e: StructValue, timeField: string, asDouble: seq<byte> -> real): real
    requires HasTime(e, timeField)
  {
    asDouble(e.data[timeField].bufs[0])
  }

  predicate AllDoubles(elems: seq<StructValue>, timeField: string)
    requires AllTimed(elems, timeField)
  {
    forall i | 0 <= i < |elems| :: elems[i].data[timeField].typ == DOUBLE_DATA
  }

  /** The times of the elements, from the field of that name; asDouble is what bytes mean as a double. */
  function ElemTimes(elems: seq<StructValue>, timeField: string, asDouble: seq<byte> -> real): (r: Option<seq<real>>)
    requires AllTimed(elems, timeField)
    ensures r.Some? ==> |r.value| == |elems|
  {
    if AllDoubles(elems, timeField) then
      Some(seq(|elems|, i requires 0 <= i < |elems| && HasTime(elems[i], timeField) =>
        TimeOf(elems[i], timeField, asDouble)))
    else None
  }

  /** The time of an element is the scalar that was stored in its time field. */
  lemma {:induction false} TimeWritten(e: StructValue, timeField: string, asDouble: seq<byte> -> real, buf: seq<byte>)
    requires |buf| == DataBytes(DOUBLE_DATA, []) && timeField in e.data
    requires e.data[timeField] == Written(DOUBLE_DATA, [], buf, "")
    ensures |buf| == 8 && HasTime(e, timeField) && ElemTimes([e], timeField, asDouble) == Some([asDouble(buf)])
  {
    assert AllDoubles([e], timeField);
    assert ElemTimes([e], timeField, asDouble).value == [TimeOf(e, timeField, asDouble)];
  }

  /** Appending elements appends their times. */
  lemma {:induction false} TimesAppend(a: seq<StructValue>, b: seq<StructValue>, timeField: string,
      asDouble: seq<byte> -> real)
    requires AllTimed(a, timeField) && AllTimed(b, timeField)
    ensures AllTimed(a + b, timeField)
    ensures ElemTimes(a + b, timeField, asDouble) ==
      var x, y := ElemTimes(a, timeField, asDouble), ElemTimes(b, timeField, asDouble);
      if x.Some? && y.Some? then Some(x.value + y.value) else None
  {
    var all := a + b;
    assert forall i | 0 <= i < |a| :: all[i] == a[i];
    assert forall i | 0 <= i < |b| :: all[|a| + i] == b[i];
    assert AllDoubles(all, timeField) <==> AllDoubles(a, timeField) && AllDoubles(b, timeField);
    if AllDoubles(all, timeField) {
      assert ElemTimes(all, timeField, asDouble).value
          == ElemTimes(a, timeField, asDouble).value + ElemTimes(b, timeField, asDouble).value;
    }
  }

  /** The loop that collects the times of an array. */
  method TimebaseVect(top: ALAoS, timeField: string, asDouble: seq<byte> -> real) returns (times: Option<seq<real>>)
    requires top.Valid() && AllTimed(top.Value().elems, timeField)
    ensures times == ElemTimes(top.Value().elems, timeField, asDouble)
  {
    ghost var elems := top.Value().elems;
    var retTime: seq<real> := [];
    for i := 0 to |top.aos|
      invariant |retTime| == i
      invariant forall j | 0 <= j < i ::
        elems[j].data[timeField].typ == DOUBLE_DATA && retTime[j] == TimeOf(elems[j], timeField, asDouble)
    {
      assert elems[i] == top.aos[i].Value() && HasTime(elems[i], timeField);
      var d := top.aos[i].dataFields[timeField];
      if d.typ != DOUBLE_DATA {
        return None;
      }
      retTime := retTime + [asDouble(d.bufV[0])];
    }
    assert ElemTimes(elems, timeField, asDouble).value == retTime;
    return Some(retTime);
  }

  /** The slice of a timed array for a time: a copy of one element, or nothing when a time is not a double. */
  method PrepareSlice(top: ALAoS, timeField: string, asDouble: seq<byte> -> real, t: real, interp: int)
    returns (current: ALAoS, ok: bool)
    requires top.Valid() && top.timebase != "" && AllTimed(top.Value().elems, timeField)
    requires interp == PREVIOUS_INTERP || interp == CLOSEST_INTERP
    ensures current.Valid() && fresh(current.Repr)
    ensures top.aos == [] ==> ok && current.Value() == AosValue("", [])
    ensures top.aos != [] ==>
      var elems, times := top.Value().elems, ElemTimes(top.Value().elems, timeField, asDouble);
      && (ok <==> times.Some?)
      && current.Value() == AosValue(top.timebase, if ok then [elems[MemorySelected(times.value, t, interp)]] else [])
  {
    hide ALStruct.Valid, ALStruct.Value, ElemTimes;
    current := new ALAoS();
    ok := true;
    if |top.aos| > 0 {
      current.timebase := top.timebase;
      var times := TimebaseVect(top, timeField, asDouble);
      if times.None? {
        return current, false;
      }
      var sliceIdx1, sliceIdx2 := FindSlices(times.value, t);
      if interp == PREVIOUS_INTERP || sliceIdx1 == sliceIdx2
        || t - times.value[sliceIdx1] < times.value[sliceIdx2] - t {
        current.PushCopy(top.aos[sliceIdx1]);
      } else {
        current.PushCopy(top.aos[sliceIdx2]);
      }
    }
  }

  /** The elements of all slices, in order. */
  ghost function AllElems(slices: seq<AosValue>): seq<StructValue> {
    if slices == [] then [] else AllElems(slices[..|slices| - 1]) + slices[|slices| - 1].elems
  }

  ghost predicate AllValid(slices: seq<ALAoS>, top: ALAoS)
    reads slices, set s, o | s in slices && o in s.Repr :: o
  {
    forall s | s in slices :: s.Valid() && top !in s.Repr
  }

  ghost function Values(slices: seq<ALAoS>, top: ALAoS): (v: seq<AosValue>)
    requires AllValid(slices, top)
    reads slices, set s, o | s in slices && o in s.Repr :: o
    ensures |v| == |slices|
  {
    seq(|slices|, i requires 0 <= i < |slices| && AllValid(slices, top)
      reads slices, set s, o | s in slices && o in s.Repr :: o => slices[i].Value())
  }

  /** A run of appends: the stored elements stay what they were, the new ones follow. */
  method AppendAll(top: ALAoS, slices: seq<ALAoS>)
    requires top.timebase != "" && top.Valid() && AllValid(slices, top)
    modifies top
    ensures top.Valid() && old(top.aos) <= top.aos && top.timebase == old(top.timebase)
    ensures AllValid(slices, top) && Values(slices, top) == old(Values(slices, top))
    ensures top.Value().elems == old(top.Value().elems) + AllElems(Values(slices, top))
  {
    hide ALStruct.Valid, ALStruct.Value, ALAoS.Value;
    ghost var was, added := top.Value().elems, Values(slices, top);
    for i := 0 to |slices|
      invariant top.Valid() && old(top.aos) <= top.aos && top.timebase == old(top.timebase)
      invariant fresh(top.Repr - old(top.Repr))
      invariant AllValid(slices, top) && Values(slices, top) == added
      invariant top.Value().elems == was + AllElems(added[..i])
    {
      assert slices[i].Value() == added[i];
      assert added[..i + 1][..i] == added[..i];
      top.AddSlice(slices[i]);
    }
    assert added[..|slices|] == added;
  }

  /**
   * After any run of appends, asking for the time of an element, stored or appended, returns a copy of that
   * element. The times are the ones the elements themselves hold.
   */
  method AppendThenGet(
      top: ALAoS, slices: seq<ALAoS>, timeField: string, asDouble: seq<byte> -> real, t: real, interp: int,
      ghost k: nat)
    returns (current: ALAoS)
    requires top.timebase != "" && top.Valid() && AllValid(slices, top)
    requires interp == PREVIOUS_INTERP || interp == CLOSEST_INTERP
    requires var all := top.Value().elems + AllElems(Values(slices, top));
      AllTimed(all, timeField) && k < |all| && ElemTimes(all, timeField, asDouble).Some?
      && Clean(ElemTimes(all, timeField, asDouble).value) && t == ElemTimes(all, timeField, asDouble).value[k]
    modifies top
    ensures current.Valid() && fresh(current.Repr)
    ensures current.Value().elems == [(old(top.Value().elems) + old(AllElems(Values(slices, top))))[k]]
  {
    hide ALStruct.Valid, ALStruct.Value, ALAoS.Value, ElemTimes;
    ghost var all := top.Value().elems + AllElems(Values(slices, top));
    AppendAll(top, slices);
    SampleSelected(ElemTimes(all, timeField, asDouble).value, k, interp);
    var ok;
    current, ok := PrepareSlice(top, timeField, asDouble, t, interp);
  }
}
