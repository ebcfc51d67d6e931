/** Putting a whole IDS through the serializer, call by call, and what ends up in the Builder. */
module WriteSession {
  import opened DataTypes
  import opened Scalars
  import opened Wire
  import opened BuilderModel
  import opened RoundTrip
  import opened SerializerModel

  // ------------------------------------------------------------- IDS trees

  /** A field is a data node or an array of structures; a structure is a list of named fields. */
  datatype Node = Data(value: FieldValue) | AoS(elems: seq<Struct>)

  datatype Field = Field(name: Name, node: Node)

  datatype Struct = Struct(fields: seq<Field>)

  predicate Storable(f: Field)
    decreases f
  {
    && 0 !in f.name
    && match f.node
       case Data(v) =>
         && WellSized(v.datatype_, v.dims, v.bytes)
         && CHAR_DATA <= v.datatype_ <= COMPLEX_DATA
       case AoS(elems) => forall e | e in elems :: StorableStruct(e)
  }

  predicate StorableStruct(s: Struct)
    decreases s
  {
    forall f | f in s.fields :: Storable(f)
  }

  // --------------------------------------------------------- the put calls

  /** The context of an array opened inside ctx. */
  function Child(ctx: Context, uid: nat, path: Name): Context {
    Arraystruct(uid, path, 0, if ctx.Operation? then None else Some(ctx))
  }

  predicate InContext(st: WState, ctx: Context) {
    StartsOk(st) && (ctx.Arraystruct? ==> |st.starts| >= 2 && st.aosIndex != [] && 0 <= Top(st.aosIndex))
  }

  /** The same contexts and vectors are open; at most the innermost array index has moved on. */
  predicate SameShape(st: WState, r: WState) {
    && r.ctxids == st.ctxids && |r.starts| == |st.starts| && |r.aosIndex| == |st.aosIndex|
    && (st.aosIndex != [] ==> Pop(r.aosIndex) == Pop(st.aosIndex) && Top(r.aosIndex) >= Top(st.aosIndex))
  }

  /** Writes the first n fields of s in context ctx. */
  function PutFields(st: WState, ctx: Context, s: Struct, n: nat): (r: WState)
    requires n <= |s.fields| && StorableStruct(s) && InContext(st, ctx)
    ensures InContext(r, ctx) && SameShape(st, r)
    decreases s, 1, n
  {
    if n == 0 then st else PutField(PutFields(st, ctx, s, n - 1), ctx, s.fields[n - 1])
  }

  /** One writeData call, or an array: begin, its elements in order, end. */
  function PutField(st: WState, ctx: Context, f: Field): (r: WState)
    requires Storable(f) && InContext(st, ctx)
    ensures InContext(r, ctx) && SameShape(st, r)
    decreases f, 0, 0
  {
    match f.node
    case Data(v) =>
      AdvanceKeeps(st, ctx);
      WWriteData(st, ctx, f.name, v.datatype_, v.dims, v.bytes).st
    case AoS(elems) =>
      PutArray(st, ctx, f.name, elems)
  }

  function PutArray(st: WState, ctx: Context, name: Name, elems: seq<Struct>): (r: WState)
    requires (forall e | e in elems :: StorableStruct(e)) && InContext(st, ctx)
    ensures InContext(r, ctx) && SameShape(st, r)
    decreases elems, 3, 0
  {
    var c := Child(ctx, |st.ctxids|, name);
    var begun := WBeginArraystruct(st, c, |elems|);
    BeginKeeps(st, ctx, c, |elems|);
    var filled := PutElements(begun, c, elems, |elems|);
    var r := EndPut(filled, c);
    EndKeeps(st, begun, filled, r);
    r
  }

  lemma {:induction false} EndKeeps(st: WState, begun: WState, filled: WState, r: WState)
    requires SameShape(begun, filled) && |begun.aosIndex| == |st.aosIndex| + 1 && begun.ctxids != []
      && Pop(begun.ctxids) == st.ctxids
    requires st.aosIndex != []
      ==> Pop(Pop(begun.aosIndex)) == Pop(st.aosIndex) && Top(Pop(begun.aosIndex)) >= Top(st.aosIndex)
    requires |begun.starts| == |st.starts| + (if Top(begun.aosIndex) >= 0 then 2 else 0)
    requires Top(begun.aosIndex) < 0 ==> begun == filled
    requires r.ctxids == Pop(filled.ctxids) && r.aosIndex == Pop(filled.aosIndex)
    requires |r.starts| == |filled.starts| - (if Top(filled.aosIndex) >= 0 then 2 else 0)
    ensures SameShape(st, r)
  {
  }

  /** The first n elements of an open array. */
  function PutElements(st: WState, c: Context, elems: seq<Struct>, n: nat): (r: WState)
    requires n <= |elems| && (forall e | e in elems :: StorableStruct(e))
    requires c.Arraystruct? && StartsOk(st) && (elems != [] ==> InContext(st, c))
    ensures StartsOk(r) && SameShape(st, r) && (elems == [] ==> r == st) && (elems != [] ==> InContext(r, c))
    decreases elems, 2, n
  {
    if n == 0 then st
    else PutFields(PutElements(st, c, elems, n - 1), c.(index := n - 1), elems[n - 1], |elems[n - 1].fields|)
  }

  lemma {:induction false} AdvanceKeepsShape(st: WState, index: int)
    requires StartsOk(st) && st.starts != [] && st.aosIndex != []
    ensures SameShape(st, AdvanceTo(st, index))
    decreases index - Top(st.aosIndex)
  {
    if Top(st.aosIndex) < index {
      AdvanceKeepsShape(OpenVector(CloseVector(st)).(aosIndex := Pop(st.aosIndex) + [Top(st.aosIndex) + 1]), index);
    }
  }

  lemma {:induction false} AdvanceKeeps(st: WState, ctx: Context)
    requires InContext(st, ctx)
    ensures SameShape(st, WCheckAosIndex(st, ctx)) && InContext(WCheckAosIndex(st, ctx), ctx)
  {
    if ctx.Arraystruct? {
      AdvanceKeepsShape(st, ctx.index);
    }
  }

  function EndPut(st: WState, c: Context): (r: WState)
    requires StartsOk(st) && c.Arraystruct? && st.ctxids != [] && c.uid == Top(st.ctxids)
    requires st.aosIndex != [] && (Top(st.aosIndex) >= 0 ==> |st.starts| >= 2)
    ensures StartsOk(r) && r.ctxids == Pop(st.ctxids) && r.aosIndex == Pop(st.aosIndex)
    ensures r.starts == if Top(st.aosIndex) >= 0 then Pop(Pop(st.starts)) else st.starts
  {
    WEndAction(st, c).st
  }

  lemma {:induction false} BeginKeeps(st: WState, ctx: Context, c: Context, size: nat)
    requires InContext(st, ctx) && c.Arraystruct? && c == Child(ctx, c.uid, c.path)
    ensures var r := WBeginArraystruct(st, c, size);
      && StartsOk(r) && r.ctxids == st.ctxids + [c.uid] && (size > 0 ==> InContext(r, c))
      && |r.starts| == |st.starts| + (if size > 0 then 2 else 0)
      && |r.aosIndex| == |st.aosIndex| + 1 && Top(r.aosIndex) == (if size > 0 then 0 else -1)
      && (st.aosIndex != [] ==> Pop(r.aosIndex) != [] && Pop(Pop(r.aosIndex)) == Pop(st.aosIndex)
                                && Top(Pop(r.aosIndex)) >= Top(st.aosIndex))
  {
    AdvanceKeeps(st.(ctxids := st.ctxids + [c.uid]), ctx);
  }

  // ------------------------------------------------------- what is written

  /** The last of the first n elements in which some call was made, or 0 if there is none. */
  function LastTouched(elems: seq<Struct>, n: nat): (t: nat)
    requires n <= |elems|
    ensures n > 0 ==> t < n
    ensures n == 0 ==> t == 0
    ensures forall k | t < k < n :: elems[k].fields == []
    ensures n > 0 && t > 0 ==> elems[t].fields != []
  {
    if n == 0 then 0 else if elems[n - 1].fields != [] then n - 1 else LastTouched(elems, n - 1)
  }

  /** How many elements of an array reach the buffer: trailing untouched ones do not. */
  function WrittenSize(elems: seq<Struct>): (n: nat)
    ensures n <= |elems|
  {
    if elems == [] then 0 else LastTouched(elems, |elems|) + 1
  }

  /** The size of an array survives exactly when its last element was touched or it has at most one. */
  lemma {:induction false} WrittenSizeExact(elems: seq<Struct>)
    ensures WrittenSize(elems) == |elems| <==> |elems| <= 1 || elems[|elems| - 1].fields != []
  {
  }

  /** Of two elements of which only the first has a field, one reaches the buffer. */
  lemma {:induction false} WrittenSizeExample(f: Field) returns (elems: seq<Struct>)
    ensures elems == [Struct([f]), Struct([])] && WrittenSize(elems) == 1 < |elems|
  {
    elems := [Struct([f]), Struct([])];
  }

  function EncodeField(f: Field): seq<Item>
    decreases f, 0, 0
  {
    match f.node
    case Data(v) => [Key(f.name), Int(v.datatype_), IntVec(2, v.dims), Blob(v.bytes)]
    case AoS(elems) => if elems == [] then [] else [Key(f.name), Vec(EncodeElements(elems, WrittenSize(elems)))]
  }

  function EncodeFields(s: Struct, n: nat): seq<Item>
    requires n <= |s.fields|
    decreases s, 1, n
  {
    if n == 0 then [] else EncodeFields(s, n - 1) + EncodeField(s.fields[n - 1])
  }

  function Encode(s: Struct): seq<Item>
    decreases s, 2, 0
  {
    EncodeFields(s, |s.fields|)
  }

  function EncodeElements(elems: seq<Struct>, n: nat): (r: seq<Item>)
    requires n <= |elems|
    ensures |r| == n
    decreases elems, 3, n
  {
    if n == 0 then [] else EncodeElements(elems, n - 1) + [Vec(Encode(elems[n - 1]))]
  }

  lemma {:induction false} EncodeElementsAt(elems: seq<Struct>, n: nat, k: nat)
    requires k < n <= |elems|
    ensures EncodeElements(elems, n)[k] == Vec(Encode(elems[k]))
  {
    if k < n - 1 {
      EncodeElementsAt(elems, n - 1, k);
    }
  }

  predicate AllEncodable(items: seq<Item>) {
    forall x | x in items :: Encodable(x)
  }

  lemma {:induction false} FieldEncodable(f: Field)
    requires Storable(f)
    ensures AllEncodable(EncodeField(f))
    decreases f, 0, 0
  {
    match f.node
    case Data(v) => Int64FromInt32(v.datatype_);
    case AoS(elems) => ElementsEncodable(elems, WrittenSize(elems));
  }

  lemma {:induction false} FieldsEncodable(s: Struct, n: nat)
    requires n <= |s.fields| && StorableStruct(s)
    ensures AllEncodable(EncodeFields(s, n))
    decreases s, 1, n
  {
    if n > 0 {
      FieldsEncodable(s, n - 1);
      FieldEncodable(s.fields[n - 1]);
    }
  }

  lemma {:induction false} ElementsEncodable(elems: seq<Struct>, n: nat)
    requires n <= |elems| && forall e | e in elems :: StorableStruct(e)
    ensures AllEncodable(EncodeElements(elems, n))
    decreases elems, 3, n
  {
    if n > 0 {
      ElementsEncodable(elems, n - 1);
      FieldsEncodable(elems[n - 1], |elems[n - 1].fields|);
    }
  }

  // ------------------------------------------------------ pushing sequences

  function PushSeq(b: BState, items: seq<Item>): (r: BState)
    requires AllEncodable(items)
    ensures |r.stack| == |b.stack| + |items| && b.stack <= r.stack
  {
    PushAll(b, items, |items|)
  }

  lemma {:induction false} PushAllPrefix(b: BState, x: seq<Item>, y: seq<Item>, n: nat)
    requires AllEncodable(x) && AllEncodable(y) && n <= |x|
    ensures PushAll(b, x + y, n) == PushAll(b, x, n)
  {
    if n > 0 {
      PushAllPrefix(b, x, y, n - 1);
    }
  }

  lemma {:induction false} PushSeqConcat(b: BState, x: seq<Item>, y: seq<Item>)
    requires AllEncodable(x) && AllEncodable(y)
    ensures AllEncodable(x + y) && PushSeq(b, x + y) == PushSeq(PushSeq(b, x), y)
  {
    hide Push, Encodable;
    if y == [] {
      assert x + y == x;
    } else {
      var front, last := y[..|y| - 1], y[|y| - 1];
      PushSeqConcat(b, x, front);
      assert x + y == (x + front) + [last] && y == front + [last];
      PushAllPrefix(b, x + front, [last], |x + front|);
      PushAllPrefix(PushSeq(b, x), front, [last], |front|);
    }
  }

  lemma {:induction false} PushOne(b: BState, x: Item)
    requires Encodable(x)
    ensures PushSeq(b, [x]) == Push(b, x)
  {
    assert PushAll(b, [x], 0) == b;
  }

  lemma {:induction false} PushVec(b: BState, items: seq<Item>)
    requires AllEncodable(items)
    ensures Encodable(Vec(items)) && Push(b, Vec(items)) == EndVector(PushSeq(b, items), |b.stack|)
  {
    hide EndVector;
  }

  // ------------------------------------------------- what the calls achieve

  /** The state after items were added to the innermost open vector. */
  function Added(st: WState, items: seq<Item>): WState
    requires AllEncodable(items)
  {
    st.(b := PushSeq(st.b, items))
  }

  lemma {:induction false} FieldsWritten(st: WState, ctx: Context, s: Struct, n: nat)
    requires n <= |s.fields| && StorableStruct(s) && InContext(st, ctx)
    ensures AllEncodable(EncodeFields(s, n))
    ensures PutFields(st, ctx, s, n) == if n == 0 then st else Added(WCheckAosIndex(st, ctx), EncodeFields(s, n))
    decreases s, 1, n
  {
    hide PushAll, Encodable, PutField, AdvanceTo;
    FieldsEncodable(s, n);
    PushNothing(WCheckAosIndex(st, ctx).b);
    if n > 0 {
      var at := WCheckAosIndex(st, ctx);
      var before := PutFields(st, ctx, s, n - 1);
      var f := s.fields[n - 1];
      FieldsWritten(st, ctx, s, n - 1);
      FieldWritten(before, ctx, f);
      CheckedOnce(st, ctx, EncodeFields(s, n - 1));
      PushSeqConcat(at.b, EncodeFields(s, n - 1), EncodeField(f));
    }
  }

  /** After the check the innermost index is at least the context's, so a second check has nothing to do. */
  lemma {:induction false} CheckedOnce(st: WState, ctx: Context, items: seq<Item>)
    requires InContext(st, ctx) && AllEncodable(items)
    ensures InContext(WCheckAosIndex(st, ctx), ctx)
    ensures var at := Added(WCheckAosIndex(st, ctx), items); StartsOk(at) && WCheckAosIndex(at, ctx) == at
  {
    AdvanceKeeps(st, ctx);
    if ctx.Arraystruct? {
      AdvanceTop(st, ctx.index);
    }
  }

  lemma {:induction false} AdvanceTop(st: WState, index: int)
    requires StartsOk(st) && st.starts != [] && st.aosIndex != []
    ensures Top(AdvanceTo(st, index).aosIndex) == Max(Top(st.aosIndex), index)
    decreases index - Top(st.aosIndex)
  {
    hide EndVector;
    if Top(st.aosIndex) < index {
      AdvanceTop(OpenVector(CloseVector(st)).(aosIndex := Pop(st.aosIndex) + [Top(st.aosIndex) + 1]), index);
    }
  }

  lemma {:induction false} FieldWritten(st: WState, ctx: Context, f: Field)
    requires Storable(f) && InContext(st, ctx)
    ensures AllEncodable(EncodeField(f))
    ensures PutField(st, ctx, f) == Added(WCheckAosIndex(st, ctx), EncodeField(f))
    decreases f, 0, 0
  {
    FieldEncodable(f);
    match f.node
    case Data(v) => DataWritten(WCheckAosIndex(st, ctx).b, f.name, v);
    case AoS(elems) => ArrayWritten(st, ctx, f.name, elems);
  }

  lemma {:induction false} DataWritten(b: BState, name: Name, v: FieldValue)
    requires Storable(Field(name, Data(v))) && IsInt64(v.datatype_)
    ensures AllEncodable(EncodeField(Field(name, Data(v))))
    ensures PushSeq(b, EncodeField(Field(name, Data(v))))
         == AddBlob(AddIntVec(AddInt(AddKey(b, name), v.datatype_), 2, v.dims), v.bytes)
  {
    hide AddKey, AddInt, AddIntVec, AddBlob, EndVector;
    FieldEncodable(Field(name, Data(v)));
    var items: seq<Item> := [Key(name), Int(v.datatype_), IntVec(2, v.dims), Blob(v.bytes)];
    assert EncodeField(Field(name, Data(v))) == items;
    assert PushAll(b, items, 0) == b;
    assert PushAll(b, items, 1) == Push(b, items[0]);
    assert PushAll(b, items, 2) == Push(PushAll(b, items, 1), items[1]);
    assert PushAll(b, items, 3) == Push(PushAll(b, items, 2), items[2]);
    assert PushAll(b, items, 4) == Push(PushAll(b, items, 3), items[3]);
  }

  // -------------------------------------------------------------- one array

  /**
   * A non-empty array is open: base is the builder right after its name, t the current element, whose
   * items so far are cur; the elements before it are complete.
   */
  ghost predicate ArrayOpen(st: WState, outer: WState, base: BState, elems: seq<Struct>, t: nat, cur: seq<Item>) {
    && t < |elems| && (forall e | e in elems :: StorableStruct(e)) && AllEncodable(cur)
    && AllEncodable(EncodeElements(elems, t))
    && st.ctxids == outer.ctxids && st.aosIndex == outer.aosIndex + [t]
    && st.starts == outer.starts + [|base.stack|, |base.stack| + t]
    && st.b == PushSeq(PushSeq(base, EncodeElements(elems, t)), cur)
  }

  /** Closing the current element adds it to the complete ones. */
  lemma {:induction false} ElementClosed(st: WState, outer: WState, base: BState, elems: seq<Struct>, t: nat)
    requires t < |elems| && ArrayOpen(st, outer, base, elems, t, Encode(elems[t])) && StartsOk(st)
    ensures AllEncodable(EncodeElements(elems, t + 1))
    ensures CloseVector(st).b == PushSeq(base, EncodeElements(elems, t + 1))
    ensures CloseVector(st).starts == outer.starts + [|base.stack|]
  {
    hide EndVector, Encode, StorableStruct, PushSeq, Encodable;
    var done := PushSeq(base, EncodeElements(elems, t));
    var v := Vec(Encode(elems[t]));
    ElementsEncodable(elems, t + 1);
    PushVec(done, Encode(elems[t]));
    assert CloseVector(st).b == Push(done, v);
    PushOne(done, v);
    PushSeqConcat(base, EncodeElements(elems, t), [v]);
  }

  /** Moving on to element index completes the current one and writes the skipped ones as empty vectors. */
  lemma {:induction false} AdvanceWrites(st: WState, outer: WState, base: BState, elems: seq<Struct>, t: nat,
      index: nat)
    requires t < |elems| && ArrayOpen(st, outer, base, elems, t, Encode(elems[t])) && StartsOk(st)
    requires t < index < |elems| && forall k | t < k < index :: elems[k].fields == []
    ensures AllEncodable([]) && ArrayOpen(AdvanceTo(st, index), outer, base, elems, index, [])
    decreases index - t
  {
    hide PushAll, Encodable, EndVector;
    ElementClosed(st, outer, base, elems, t);
    var next := OpenVector(CloseVector(st)).(aosIndex := Pop(st.aosIndex) + [t + 1]);
    PushNothing(PushSeq(base, EncodeElements(elems, t + 1)));
    assert ArrayOpen(next, outer, base, elems, t + 1, []);
    if t + 1 < index {
      assert Encode(elems[t + 1]) == [];
      AdvanceWrites(next, outer, base, elems, t + 1, index);
    }
  }

  /** Adding items to element i, after moving on to it from element t. */
  lemma {:induction false} ElementWritten(st: WState, outer: WState, base: BState, elems: seq<Struct>, t: nat, i: nat,
      cur: seq<Item>)
    requires StartsOk(st) && AllEncodable([]) && t <= i < |elems| && StorableStruct(elems[i])
    requires cur == if t == i then [] else Encode(elems[t])
    requires ArrayOpen(st, outer, base, elems, t, cur)
    requires forall k | t < k < i :: elems[k].fields == []
    ensures AllEncodable(Encode(elems[i]))
    ensures ArrayOpen(Added(AdvanceTo(st, i), Encode(elems[i])), outer, base, elems, i, Encode(elems[i]))
  {
    hide PushAll, Encodable, EncodeFields, EncodeField;
    FieldsEncodable(elems[i], |elems[i].fields|);
    if t < i {
      AdvanceWrites(st, outer, base, elems, t, i);
    }
    var at := AdvanceTo(st, i);
    assert ArrayOpen(at, outer, base, elems, i, []);
    PushNothing(PushSeq(base, EncodeElements(elems, i)));
  }

  lemma {:induction false} PushNothing(b: BState)
    ensures AllEncodable([]) && PushSeq(b, []) == b
  {
  }

  lemma {:induction false} ElementsWritten(st: WState, outer: WState, base: BState, c: Context, elems: seq<Struct>,
      n: nat)
    requires n <= |elems| && c.Arraystruct? && InContext(st, c) && AllEncodable([])
    requires elems != [] && (forall e | e in elems :: StorableStruct(e)) && ArrayOpen(st, outer, base, elems, 0, [])
    ensures var t := LastTouched(elems, n);
      ArrayOpen(PutElements(st, c, elems, n), outer, base, elems, t, if n == 0 then [] else Encode(elems[t]))
    decreases elems, 2, n
  {
    hide PushSeq, PutFields, Encodable, Storable, StorableStruct, EncodeElements, EncodeField, ArrayOpen, AdvanceTo,
      StartsOk, Push;
    if n > 0 {
      ElementsWritten(st, outer, base, c, elems, n - 1);
      NextElementWritten(PutElements(st, c, elems, n - 1), outer, base, c, elems, n);
    }
  }

  lemma {:induction false} NextElementWritten(st: WState, outer: WState, base: BState, c: Context, elems: seq<Struct>,
      n: nat)
    requires 0 < n <= |elems| && c.Arraystruct? && StartsOk(st) && InContext(st, c) && AllEncodable([])
    requires forall e | e in elems :: StorableStruct(e)
    requires var t := LastTouched(elems, n - 1);
      ArrayOpen(st, outer, base, elems, t, if n == 1 then [] else Encode(elems[t]))
    ensures var t, e := LastTouched(elems, n), elems[n - 1];
      ArrayOpen(PutFields(st, c.(index := n - 1), e, |e.fields|), outer, base, elems, t, Encode(elems[t]))
    decreases elems, 1, n
  {
    hide PushSeq, PutFields, Encodable, Storable, StorableStruct, EncodeElements, EncodeField, ArrayOpen, AdvanceTo,
      StartsOk, Push;
    var t := LastTouched(elems, n - 1);
    var e := elems[n - 1];
    FieldsWritten(st, c.(index := n - 1), e, |e.fields|);
    if e.fields != [] {
      ElementWritten(st, outer, base, elems, t, n - 1, if n == 1 then [] else Encode(elems[t]));
    } else if n == 1 {
      assert Encode(e) == [];
    }
  }

  lemma {:induction false} AdvanceIgnoresContexts(st: WState, index: int, ids: seq<nat>)
    requires StartsOk(st) && st.starts != [] && st.aosIndex != []
    ensures AdvanceTo(st.(ctxids := ids), index) == AdvanceTo(st, index).(ctxids := ids)
    decreases index - Top(st.aosIndex)
  {
    hide CloseVector, OpenVector;
    if Top(st.aosIndex) < index {
      NextIgnoresContexts(st, ids);
      AdvanceIgnoresContexts(OpenVector(CloseVector(st)).(aosIndex := Pop(st.aosIndex) + [Top(st.aosIndex) + 1]),
        index, ids);
    }
  }

  lemma {:induction false} NextIgnoresContexts(st: WState, ids: seq<nat>)
    requires StartsOk(st) && st.starts != []
    ensures StartsOk(st.(ctxids := ids)) && StartsOk(CloseVector(st)) && StartsOk(CloseVector(st.(ctxids := ids)))
    ensures OpenVector(CloseVector(st.(ctxids := ids))) == OpenVector(CloseVector(st)).(ctxids := ids)
    ensures OpenVector(CloseVector(st)).starts != []
  {
    hide EndVector;
  }

  lemma {:induction false} AddKeyGrows(b: BState, name: Name)
    ensures |AddKey(b, name).stack| == |b.stack| + 1
  {
  }

  lemma {:induction false} ArrayBegun(st: WState, outer: WState, base: BState, elems: seq<Struct>)
    requires elems != [] && (forall e | e in elems :: StorableStruct(e))
    requires StartsOk(outer) && |outer.b.stack| <= |base.stack|
    requires st == OpenVector(OpenVector(outer.(aosIndex := outer.aosIndex + [0], b := base)))
    ensures ArrayOpen(st, outer, base, elems, 0, [])
  {
    hide StorableStruct, Encodable;
    PushNothing(base);
  }

  /** What beginning an array does, once its context has moved on to its element. */
  lemma {:induction false} ArrayStarts(st: WState, ctx: Context, name: Name, size: nat)
    requires InContext(st, ctx)
    ensures var at := WCheckAosIndex(st, ctx); var outer := at.(ctxids := st.ctxids + [|st.ctxids|]);
      at.ctxids == st.ctxids && |at.b.stack| <= |AddKey(at.b, name).stack| && StartsOk(outer)
      && WBeginArraystruct(st, Child(ctx, |st.ctxids|, name), size) ==
           if size == 0 then outer.(aosIndex := outer.aosIndex + [-1])
           else OpenVector(OpenVector(outer.(aosIndex := outer.aosIndex + [0], b := AddKey(at.b, name))))
  {
    hide AdvanceTo, AddKey;
    if ctx.Arraystruct? {
      AdvanceIgnoresContexts(st, ctx.index, st.ctxids + [|st.ctxids|]);
    }
    AdvanceKeeps(st, ctx);
    AddKeyGrows(WCheckAosIndex(st, ctx).b, name);
  }

  lemma {:induction false} ArrayWritten(st: WState, ctx: Context, name: Name, elems: seq<Struct>)
    requires Storable(Field(name, AoS(elems))) && InContext(st, ctx)
    ensures AllEncodable(EncodeField(Field(name, AoS(elems))))
    ensures PutArray(st, ctx, name, elems) == Added(WCheckAosIndex(st, ctx), EncodeField(Field(name, AoS(elems))))
    decreases elems, 3, 0
  {
    hide *;
    FieldEncodable(Field(name, AoS(elems)));
    StorableArray(name, elems);
    if elems == [] {
      EmptyArrayWritten(st, ctx, name, elems);
    } else {
      FilledArrayWritten(st, ctx, name, elems);
    }
  }

  lemma {:induction false} StorableArray(name: Name, elems: seq<Struct>)
    requires Storable(Field(name, AoS(elems)))
    ensures 0 !in name && forall e | e in elems :: StorableStruct(e)
  {
  }

  /** An empty array leaves nothing behind. */
  lemma {:induction false} EmptyArrayWritten(st: WState, ctx: Context, name: Name, elems: seq<Struct>)
    requires elems == [] && InContext(st, ctx) && AllEncodable(EncodeField(Field(name, AoS(elems))))
    ensures PutArray(st, ctx, name, elems) == Added(WCheckAosIndex(st, ctx), EncodeField(Field(name, AoS(elems))))
  {
    hide AdvanceTo, AddKey, WBeginArraystruct, WCheckAosIndex, PushSeq, StartsOk;
    ArrayStarts(st, ctx, name, 0);
    PushNothing(WCheckAosIndex(st, ctx).b);
  }

  lemma {:induction false} FilledArrayWritten(st: WState, ctx: Context, name: Name, elems: seq<Struct>)
    requires elems != [] && 0 !in name && InContext(st, ctx) && (forall e | e in elems :: StorableStruct(e))
    requires AllEncodable(EncodeField(Field(name, AoS(elems))))
    ensures PutArray(st, ctx, name, elems) == Added(WCheckAosIndex(st, ctx), EncodeField(Field(name, AoS(elems))))
    decreases elems, 2, |elems| + 1
  {
    hide AllEncodable, EncodeField, EncodeElements, EndPut, Added, AdvanceTo, AddKey, WBeginArraystruct,
      WCheckAosIndex, WEndAction, ArrayOpen, PushSeq, PutElements, Storable, StorableStruct, Encode,
      LastTouched, OpenVector, SameShape;
    var at := WCheckAosIndex(st, ctx);
    var c := Child(ctx, |st.ctxids|, name);
    var outer, base := at.(ctxids := st.ctxids + [|st.ctxids|]), AddKey(at.b, name);
    var begun := WBeginArraystruct(st, c, |elems|);
    ArrayStarts(st, ctx, name, |elems|);
    BeginKeeps(st, ctx, c, |elems|);
    PushNothing(base);
    ArrayBegun(begun, outer, base, elems);
    ElementsWritten(begun, outer, base, c, elems, |elems|);
    ArrayClosed(PutElements(begun, c, elems, |elems|), outer, at, c, name, elems);
  }

  /** Ending an array closes its current element and the array, and leaves its name and one vector behind. */
  lemma {:induction false} ArrayClosed(st: WState, outer: WState, at: WState, c: Context, name: Name,
      elems: seq<Struct>)
    requires elems != [] && 0 !in name && StartsOk(st)
    requires ArrayOpen(st, outer, AddKey(at.b, name), elems, LastTouched(elems, |elems|),
      Encode(elems[LastTouched(elems, |elems|)]))
    requires c.Arraystruct? && outer == at.(ctxids := at.ctxids + [c.uid])
    ensures AllEncodable(EncodeField(Field(name, AoS(elems))))
    ensures EndPut(st, c) == Added(at, EncodeField(Field(name, AoS(elems))))
  {
    hide EndVector, AddKey, EncodeElements, PushAll, Encodable, Push, Storable, StorableStruct, EncodeFields,
      EncodeField, LastTouched;
    var base := AddKey(at.b, name);
    var t := LastTouched(elems, |elems|);
    var items := EncodeElements(elems, t + 1);
    var s1 := st.(ctxids := Pop(st.ctxids));
    assert ArrayOpen(s1, at, base, elems, t, Encode(elems[t]));
    ElementClosed(s1, at, base, elems, t);
    var closed := CloseVector(s1);
    assert closed.starts == at.starts + [|base.stack|];
    OuterClosed(closed, base, items);
    assert 0 !in name && AllEncodable(items);
    PushKeyAndVector(at.b, name, items);
    ArrayEncoded(name, elems);
    assert CloseVector(closed).(aosIndex := Pop(s1.aosIndex)) == Added(at, EncodeField(Field(name, AoS(elems))));
  }

  lemma {:induction false} ArrayEncoded(name: Name, elems: seq<Struct>)
    requires elems != []
    ensures EncodeField(Field(name, AoS(elems)))
      == [Key(name), Vec(EncodeElements(elems, LastTouched(elems, |elems|) + 1))]
  {
  }

  lemma {:induction false} OuterClosed(st: WState, base: BState, items: seq<Item>)
    requires StartsOk(st) && st.starts != [] && Top(st.starts) == |base.stack|
    requires AllEncodable(items) && st.b == PushSeq(base, items)
    ensures CloseVector(st).b == Push(base, Vec(items))
  {
  }

  lemma {:induction false} PushKeyAndVector(b: BState, name: Name, items: seq<Item>)
    requires 0 !in name && AllEncodable(items)
    ensures AllEncodable([Key(name), Vec(items)])
    ensures PushSeq(b, [Key(name), Vec(items)]) == Push(AddKey(b, name), Vec(items))
  {
    assert PushAll(b, [Key(name), Vec(items)], 0) == b;
    assert PushAll(b, [Key(name), Vec(items)], 1) == Push(b, Key(name));
  }

  // ------------------------------------------------------------ a whole put

  /** The IDS as it lies in the buffer: the endian marker, then the fields. */
  function RootItem(s: Struct): Item {
    Vec([Blob(ENDIAN_MARKER)] + Encode(s))
  }

  /** beginAction, every field of the IDS, endAction. */
  function PutIds(st: WState, uid: nat, s: Struct): WState
    requires st.starts == [] && StorableStruct(s)
  {
    var ctx := Operation(uid, false);
    WEndAction(PutFields(WBeginAction(st, ctx).st, ctx, s, |s.fields|), ctx).st
  }

  /**
   * Whatever the Builder held before, a put leaves exactly one value on its stack, the one that stands for
   * the IDS, and every other stack as it was.
   */
  lemma {:induction false} PutIdsBuilds(st: WState, uid: nat, s: Struct)
    requires st.starts == [] && StorableStruct(s)
    ensures Encodable(RootItem(s)) && PutIds(st, uid, s) == st.(b := Push(EMPTY, RootItem(s)))
  {
    var ctx := Operation(uid, false);
    var begun := WBeginAction(st, ctx).st;
    FieldsWritten(begun, ctx, s, |s.fields|);
    FieldsEncodable(s, |s.fields|);
    PushNothing(begun.b);
    PushOne(EMPTY, Blob(ENDIAN_MARKER));
    PushSeqConcat(EMPTY, [Blob(ENDIAN_MARKER)], Encode(s));
  }
}
