/** The stacks of the serializer backend stay in step over every legal sequence of calls. */
module Discipline {
  import Shapes
  import opened Scalars
  import opened BuilderModel
  import opened SerializerModel

  /** Arrays that are open and not empty; an empty one is marked by the index -1. */
  function OpenArrays(aosIndex: seq<int>): nat {
    if aosIndex == [] then 0 else OpenArrays(Pop(aosIndex)) + if Top(aosIndex) >= 0 then 1 else 0
  }

  lemma {:induction false} OpenArraysPush(s: seq<int>, i: int)
    ensures OpenArrays(s + [i]) == OpenArrays(s) + if i >= 0 then 1 else 0
  {
    assert Pop(s + [i]) == s;
  }

  // -------------------------------------------------------------- writing

  /** Two vectors per open array, and the one of the IDS itself, which starts at the bottom of the value stack. */
  predicate WInStep(st: WState) {
    StartsOk(st) && |st.starts| == 1 + 2 * OpenArrays(st.aosIndex) && st.starts[0] == 0
  }

  datatype Call =
    | WriteCall(ctx: Context, name: Name, value: FieldValue)
    | BeginCall(ctx: Context, size: int)
    | EndCall(ctx: Context)

  predicate InsideElement(aosIndex: seq<int>, ctx: Context) {
    ctx.Arraystruct? ==> aosIndex != [] && Top(aosIndex) >= 0
  }

  /** What the caller must respect; ending the wrong context is legal, the backend refuses it. */
  predicate WLegal(st: WState, c: Call) {
    match c
    case WriteCall(ctx, _, v) => InsideElement(st.aosIndex, ctx) && WellSized(v.datatype_, v.dims, v.bytes)
    case BeginCall(ctx, _) => ctx.Arraystruct? && (ctx.parent.Some? ==> InsideElement(st.aosIndex, ctx.parent.value))
    case EndCall(ctx) => ctx.Arraystruct? && st.aosIndex != [] && st.ctxids != []
  }

  lemma {:induction false} EnoughStarts(st: WState)
    requires WInStep(st)
    ensures st.aosIndex != [] && Top(st.aosIndex) >= 0 ==> |st.starts| >= 3
  {
  }

  function WApply(st: WState, c: Call): WState
    requires WInStep(st) && WLegal(st, c)
  {
    EnoughStarts(st);
    match c
    case WriteCall(ctx, name, v) => WWriteData(st, ctx, name, v.datatype_, v.dims, v.bytes).st
    case BeginCall(ctx, size) => WBeginArraystruct(st, ctx, size)
    case EndCall(ctx) => WEndAction(st, ctx).st
  }

  lemma {:induction false} AdvanceInStep(st: WState, index: int)
    requires WInStep(st) && st.aosIndex != [] && Top(st.aosIndex) >= 0
    ensures WInStep(AdvanceTo(st, index)) && Top(AdvanceTo(st, index).aosIndex) >= 0
    decreases index - Top(st.aosIndex)
  {
    hide EndVector, OpenArrays;
    EnoughStarts(st);
    if Top(st.aosIndex) < index {
      NextInStep(st);
      AdvanceInStep(OpenVector(CloseVector(st)).(aosIndex := Pop(st.aosIndex) + [Top(st.aosIndex) + 1]), index);
    }
  }

  lemma {:induction false} NextInStep(st: WState)
    requires WInStep(st) && st.aosIndex != [] && Top(st.aosIndex) >= 0
    ensures |st.starts| >= 3
    ensures WInStep(OpenVector(CloseVector(st)).(aosIndex := Pop(st.aosIndex) + [Top(st.aosIndex) + 1]))
  {
    hide EndVector;
    EnoughStarts(st);
    OpenArraysPush(Pop(st.aosIndex), Top(st.aosIndex) + 1);
    assert st.aosIndex == Pop(st.aosIndex) + [Top(st.aosIndex)];
  }

  lemma {:induction false} WApplyInStep(st: WState, c: Call)
    requires WInStep(st) && WLegal(st, c)
    ensures WInStep(WApply(st, c))
  {
    match c
    case WriteCall(ctx, name, v) => WriteInStep(st, ctx, name, v);
    case BeginCall(ctx, size) => BeginInStep(st, ctx, size);
    case EndCall(ctx) => EndInStep(st, ctx);
  }

  lemma {:induction false} WriteInStep(st: WState, ctx: Context, name: Name, v: FieldValue)
    requires WInStep(st) && InsideElement(st.aosIndex, ctx) && WellSized(v.datatype_, v.dims, v.bytes)
    ensures WInStep(WWriteData(st, ctx, name, v.datatype_, v.dims, v.bytes).st)
  {
    hide AddKey, AddInt, AddIntVec, AddBlob, AdvanceTo, Shapes.Product;
    if ctx.Arraystruct? {
      AdvanceInStep(st, ctx.index);
    }
    Int64FromInt32(v.datatype_);
    AddsGrow(WCheckAosIndex(st, ctx).b, name, v);
  }

  lemma {:induction false} BeginInStep(st: WState, ctx: Context, size: int)
    requires WInStep(st) && ctx.Arraystruct? && (ctx.parent.Some? ==> InsideElement(st.aosIndex, ctx.parent.value))
    ensures WInStep(WBeginArraystruct(st, ctx, size))
  {
    hide AdvanceTo, OpenArrays;
    var s1 := st.(ctxids := st.ctxids + [ctx.uid]);
    if ctx.parent.Some? && ctx.parent.value.Arraystruct? {
      AdvanceInStep(s1, ctx.parent.value.index);
    }
    var s2 := if ctx.parent.Some? then WCheckAosIndex(s1, ctx.parent.value) else s1;
    OpenArraysPush(s2.aosIndex, if size <= 0 then -1 else 0);
  }

  lemma {:induction false} EndInStep(st: WState, ctx: Context)
    requires WInStep(st) && ctx.Arraystruct? && st.aosIndex != [] && st.ctxids != []
    ensures Top(st.aosIndex) >= 0 ==> |st.starts| >= 3
    ensures WInStep(WEndAction(st, ctx).st)
  {
    hide EndVector;
    EnoughStarts(st);
  }

  lemma {:induction false} AddsGrow(b: BState, name: Name, v: FieldValue)
    requires IsInt64(v.datatype_)
    ensures var b1 := AddIntVec(AddInt(AddKey(b, name), v.datatype_), 2, v.dims);
      |b.stack| <= |b1.stack| <= |AddBlob(b1, v.bytes).stack|
  {
  }

  predicate WLegalRun(st: WState, calls: seq<Call>)
    requires WInStep(st)
    decreases |calls|
  {
    calls != [] ==> WLegal(st, calls[0]) && (WApplyInStep(st, calls[0]); WLegalRun(WApply(st, calls[0]), calls[1..]))
  }

  function WRun(st: WState, calls: seq<Call>): (r: WState)
    requires WInStep(st) && WLegalRun(st, calls)
    ensures WInStep(r)
    decreases |calls|
  {
    if calls == [] then st
    else
      WApplyInStep(st, calls[0]);
      WRun(WApply(st, calls[0]), calls[1..])
  }

  /**
   * Whatever calls come between beginAction and endAction, once every array has been ended the operation
   * leaves exactly one value for Finish and no open vector.
   */
  lemma {:induction false} OperationLeavesOneValue(st: WState, ctx: Context, calls: seq<Call>)
    requires ctx.Operation? && !ctx.sliceMode && st.starts == [] && st.aosIndex == []
    ensures WInStep(WBeginAction(st, ctx).st)
    ensures WLegalRun(WBeginAction(st, ctx).st, calls) ==>
      var r := WRun(WBeginAction(st, ctx).st, calls);
      r.aosIndex == [] && r.ctxids != [] && Top(r.ctxids) == ctx.uid ==>
        var e := WEndAction(r, ctx); e.Done? && |e.st.b.stack| == 1 && e.st.starts == []
  {
  }

  // -------------------------------------------------------------- reading

  /** One map and two vectors per open array, and one of each for the IDS itself. */
  ghost predicate RInStep(st: RState) {
    RValid(st) && |st.maps| == 1 + OpenArrays(st.aosIndex) && |st.vecs| == 1 + 2 * OpenArrays(st.aosIndex)
  }

  datatype ReadCall =
    | ReadDataCall(ctx: Context, name: Name)
    | EnterCall(ctx: Context)
    | LeaveCall(ctx: Context)

  predicate InsideIndex(aosIndex: seq<int>, ctx: Context) {
    ctx.Arraystruct? ==> aosIndex != [] && Top(aosIndex) >= 0 && ctx.index >= 0
  }

  predicate RLegal(st: RState, c: ReadCall) {
    match c
    case ReadDataCall(ctx, _) => InsideIndex(st.aosIndex, ctx)
    case EnterCall(ctx) => ctx.Arraystruct? && (ctx.parent.Some? ==> InsideIndex(st.aosIndex, ctx.parent.value))
    case LeaveCall(ctx) => ctx.Arraystruct? && st.aosIndex != [] && st.ctxids != []
  }

  lemma {:induction false} EnoughVectors(st: RState)
    requires RInStep(st)
    ensures st.aosIndex != [] && Top(st.aosIndex) >= 0 ==> InArray(st) && |st.vecs| >= 3
  {
  }

  ghost function RApply(st: RState, c: ReadCall): RState
    requires RInStep(st) && RLegal(st, c)
  {
    EnoughVectors(st);
    match c
    case ReadDataCall(ctx, name) => RReadData(st, ctx, name).0
    case EnterCall(ctx) => RBeginArraystruct(st, ctx).0
    case LeaveCall(ctx) => REndAction(st, ctx).st
  }

  lemma {:induction false} CheckInStep(st: RState, ctx: Context)
    requires RInStep(st) && InsideIndex(st.aosIndex, ctx)
    ensures ctx.Arraystruct? ==> InArray(st)
    ensures RInStep(RCheckAosIndex(st, ctx))
  {
    hide Decodable, SubVector, ElementMap;
    EnoughVectors(st);
    if ctx.Arraystruct? {
      OpenArraysPush(Pop(st.aosIndex), ctx.index);
    }
  }

  lemma {:induction false} RApplyInStep(st: RState, c: ReadCall)
    requires RInStep(st) && RLegal(st, c)
    ensures RInStep(RApply(st, c))
  {
    hide Decodable, SubVector, ElementMap, ReadField, PushElementMap, RCheckAosIndex, RBeginArraystruct;
    EnoughVectors(st);
    match c
    case ReadDataCall(ctx, name) => CheckInStep(st, ctx);
    case EnterCall(ctx) => EnterInStep(st, ctx);
    case LeaveCall(ctx) =>
  }

  lemma {:induction false} EnterInStep(st: RState, ctx: Context)
    requires RInStep(st) && ctx.Arraystruct? && (ctx.parent.Some? ==> InsideIndex(st.aosIndex, ctx.parent.value))
    ensures st.vecs != [] && st.maps != [] && (ctx.parent.Some? && ctx.parent.value.Arraystruct? ==> InArray(st))
    ensures RInStep(RBeginArraystruct(st, ctx).0)
  {
    hide Decodable, SubVector, ElementMap, PushElementMap, RCheckAosIndex, OpenArrays;
    EnoughVectors(st);
    var s1 := st.(ctxids := st.ctxids + [ctx.uid]);
    if ctx.parent.Some? {
      CheckInStep(s1, ctx.parent.value);
    }
    var s2 := if ctx.parent.Some? then RCheckAosIndex(s1, ctx.parent.value) else s1;
    OpenArraysPush(s2.aosIndex, -1);
    OpenArraysPush(s2.aosIndex, 0);
  }
}
