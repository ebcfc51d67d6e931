/** The serializer backend as a stack machine: what each call does to its stacks. */
module SerializerModel {
  import opened DataTypes
  import opened Shapes
  import opened Scalars
  import opened Wire
  import opened BuilderModel
  import opened RoundTrip

  type Name = seq<byte>

  /** A context handle as the caller passes it; index is the element an array context currently points at. */
  datatype Context =
    | Operation(uid: nat, sliceMode: bool)
    | Arraystruct(uid: nat, path: Name, index: int, parent: Option<Context>)

  datatype Error =
    | SliceUnsupported | UnexpectedNesting | UnsupportedDatatype | EndianMismatch
    | NoBuilder | IsSerializing | IncompleteVectors | UnknownProtocol

  datatype Outcome<S> = Done(st: S) | Thrown(st: S, error: Error)
  {
    function Refusal(): Option<Error> {
      if Thrown? then Some(error) else None
    }
  }

  /** The integer 0x01020304 in memory. */
  const ENDIAN_MARKER: seq<byte> := [4, 3, 2, 1]

  function Top<T>(s: seq<T>): T
    requires s != []
  {
    s[|s| - 1]
  }

  function Pop<T>(s: seq<T>): seq<T>
    requires s != []
  {
    s[..|s| - 1]
  }

  // -------------------------------------------------------------- writing

  datatype WState = WState(b: BState, starts: seq<nat>, ctxids: seq<nat>, aosIndex: seq<int>)

  /** Open vectors start inside the value stack, in order. */
  predicate StartsOk(st: WState) {
    && (forall i | 0 <= i < |st.starts| :: st.starts[i] <= |st.b.stack|)
    && (forall i, j | 0 <= i < j < |st.starts| :: st.starts[i] <= st.starts[j])
  }

  function OpenVector(st: WState): (r: WState)
    requires StartsOk(st)
    ensures StartsOk(r)
  {
    st.(starts := st.starts + [|st.b.stack|])
  }

  function CloseVector(st: WState): (r: WState)
    requires StartsOk(st) && st.starts != []
    ensures StartsOk(r)
  {
    st.(b := EndVector(st.b, Top(st.starts)), starts := Pop(st.starts))
  }

  /** Moves on to element index of the innermost array: each skipped element becomes an empty vector. */
  function AdvanceTo(st: WState, index: int): (r: WState)
    requires StartsOk(st) && st.starts != [] && st.aosIndex != []
    ensures StartsOk(r) && r.starts != [] && r.aosIndex != []
    decreases index - Top(st.aosIndex)
  {
    if Top(st.aosIndex) >= index then st
    else
      var closed := CloseVector(st);
      AdvanceTo(OpenVector(closed).(aosIndex := Pop(st.aosIndex) + [Top(st.aosIndex) + 1]), index)
  }

  function WCheckAosIndex(st: WState, ctx: Context): (r: WState)
    requires StartsOk(st) && (ctx.Arraystruct? ==> st.starts != [] && st.aosIndex != [])
    ensures StartsOk(r)
  {
    if ctx.Arraystruct? then AdvanceTo(st, ctx.index) else st
  }

  function WBeginAction(st: WState, ctx: Context): Outcome<WState>
    requires ctx.Operation? && StartsOk(st)
  {
    if ctx.sliceMode then Thrown(st, SliceUnsupported)
    else
      var cleared := st.(ctxids := st.ctxids + [ctx.uid], b := EMPTY);
      Done(cleared.(starts := st.starts + [0], b := AddBlob(EMPTY, ENDIAN_MARKER)))
  }

  function WBeginArraystruct(st: WState, ctx: Context, size: int): (r: WState)
    requires ctx.Arraystruct? && StartsOk(st)
    requires ctx.parent.Some? && ctx.parent.value.Arraystruct? ==> st.starts != [] && st.aosIndex != []
    ensures StartsOk(r)
  {
    var s1 := st.(ctxids := st.ctxids + [ctx.uid]);
    var s2 := if ctx.parent.Some? then WCheckAosIndex(s1, ctx.parent.value) else s1;
    if size <= 0 then s2.(aosIndex := s2.aosIndex + [-1])
    else OpenVector(OpenVector(s2.(aosIndex := s2.aosIndex + [0], b := AddKey(s2.b, ctx.path))))
  }

  function WEndAction(st: WState, ctx: Context): Outcome<WState>
    requires StartsOk(st) && st.ctxids != []
    requires ctx.Operation? ==> st.starts != []
    requires ctx.Arraystruct? ==> st.aosIndex != [] && (Top(st.aosIndex) >= 0 ==> |st.starts| >= 2)
  {
    if ctx.uid != Top(st.ctxids) then Thrown(st, UnexpectedNesting)
    else
      var s1 := st.(ctxids := Pop(st.ctxids));
      if ctx.Operation? then Done(CloseVector(s1))
      else
        var s2 := if Top(s1.aosIndex) >= 0 then CloseVector(CloseVector(s1)) else s1;
        Done(s2.(aosIndex := Pop(s2.aosIndex)))
  }

  /** What writeData needs from its caller: sizes that are C ints, and as much data as they announce. */
  predicate WellSized(datatype_: int, dims: seq<int>, data: seq<byte>) {
    && WidthU(|dims|) <= 2
    && (forall i | 0 <= i < |dims| :: 0 <= dims[i] && FitsSigned(dims[i], 4))
    && FitsSigned(datatype_, 4)
    && (CHAR_DATA <= datatype_ <= COMPLEX_DATA ==> |data| == ItemSize(datatype_) * Product(dims))
  }

  /** Sizes as they stand in the description of the format: 3 doubles, 29 characters, one integer. */
  lemma {:induction false} DocumentedSizes(data: seq<byte>)
    ensures WellSized(DOUBLE_DATA, [3], data) <==> |data| == 24
    ensures WellSized(CHAR_DATA, [29], data) <==> |data| == 29
    ensures WellSized(INTEGER_DATA, [], data) <==> |data| == 4
    ensures WellSized(COMPLEX_DATA, [], data) <==> |data| == 16
  {
    Pow256Values();
    forall n: nat
      ensures Product([n]) == n
    {
      assert [n][..0] == [] && Product([]) == 1;
    }
    assert Product([]) == 1;
  }

  function WWriteData(st: WState, ctx: Context, name: Name, datatype_: int, dims: seq<int>,
      data: seq<byte>): Outcome<WState>
    requires StartsOk(st) && (ctx.Arraystruct? ==> st.starts != [] && st.aosIndex != [])
    requires WellSized(datatype_, dims, data)
  {
    Int64FromInt32(datatype_);
    var s1 := WCheckAosIndex(st, ctx);
    var b1 := AddIntVec(AddInt(AddKey(s1.b, name), datatype_), 2, dims);
    if datatype_ < CHAR_DATA || COMPLEX_DATA < datatype_ then Thrown(s1.(b := b1), UnsupportedDatatype)
    else Done(s1.(b := AddBlob(b1, data)))
  }

  lemma {:induction false} Int64FromInt32(x: int)
    requires FitsSigned(x, 4)
    ensures IsInt64(x)
  {
    Pow256Values();
  }

  // -------------------------------------------------------------- reading

  ghost predicate VectorReads(buf: seq<byte>, v: Sized, items: seq<Item>) {
    && v.size == |items| && InBuffer(buf, v.data, Times(v.size, v.width) + v.size)
    && forall j | 0 <= j < |items| :: ElementReads(buf, v, j, items[j])
  }

  /** The vector holds nothing but items a Builder can have written. */
  ghost predicate Decodable(buf: seq<byte>, v: Sized) {
    exists items :: VectorReads(buf, v, items)
  }

  /** Every accessor may be applied to the reference. */
  ghost predicate Accessible(buf: seq<byte>, e: Reference) {
    && e.typ != FBT_MAP
    && (e.typ == FBT_KEY ==> Readable(buf, e.data, e.parentWidth) && 0 <= Indirect(buf, e))
    && (e.typ == FBT_INT ==> Readable(buf, e.data, e.parentWidth))
    && (e.typ == FBT_VECTOR ==> PointsToSized(buf, e) && Decodable(buf, AsVector(buf, e)))
    && (e.typ == FBT_BLOB ==> PointsToSized(buf, e) && InBuffer(buf, AsBlob(buf, e).data, AsBlob(buf, e).size))
    && (e.typ == FBT_VECTOR_INT ==> PointsToSized(buf, e) && forall j: nat | j < AsTypedVector(buf, e).size ::
          TypedElementReadable(buf, AsTypedVector(buf, e), j))
  }

  ghost predicate TypedElementReadable(buf: seq<byte>, v: Sized, j: nat) {
    j < v.size ==> Readable(buf, TypedElement(v, j).data, TypedElement(v, j).parentWidth)
  }

  lemma {:induction false} ReadsAccessible(buf: seq<byte>, e: Reference, x: Item)
    requires Reads(buf, e, x)
    ensures Accessible(buf, e)
  {
    if x.Vec? {
      assert VectorReads(buf, AsVector(buf, e), x.items);
    } else if x.IntVec? {
      forall j: nat | j < AsTypedVector(buf, e).size
        ensures TypedElementReadable(buf, AsTypedVector(buf, e), j)
      {
        assert TypedElementReads(buf, AsTypedVector(buf, e), j, x.xs[j]);
      }
    }
  }

  lemma {:induction false} DecodableElement(buf: seq<byte>, v: Sized, i: nat)
    requires Decodable(buf, v)
    ensures i < v.size ==> InBuffer(buf, v.data + Times(v.size, v.width) + i, 1)
    ensures Accessible(buf, Element(buf, v, i))
  {
    var items: seq<Item> :| VectorReads(buf, v, items);
    if i < v.size {
      assert ElementReads(buf, v, i, items[i]);
      ReadsAccessible(buf, Element(buf, v, i), items[i]);
    }
  }

  lemma {:induction false} EmptyDecodable(buf: seq<byte>)
    ensures Decodable(buf, EMPTY_SIZED)
  {
    assert VectorReads(buf, EMPTY_SIZED, []);
  }

  /** elementMap and curVector grow and shrink together, apart from the vectors of whole arrays. */
  datatype RState = RState(buf: seq<byte>, ctxids: seq<nat>, aosIndex: seq<int>, maps: seq<map<Name, nat>>,
      vecs: seq<Sized>)

  ghost predicate RValid(st: RState) {
    forall v | v in st.vecs :: Decodable(st.buf, v)
  }

  /** Field names of the first n elements of v, with their positions; a later one replaces an earlier one. */
  ghost function ElementMap(buf: seq<byte>, v: Sized, n: nat): map<Name, nat>
    requires Decodable(buf, v) && n <= v.size
  {
    if n == 0 then map[]
    else
      DecodableElement(buf, v, n - 1);
      var e := Element(buf, v, n - 1);
      var m := ElementMap(buf, v, n - 1);
      if e.typ == FBT_KEY then m[AsKey(buf, e) := n - 1] else m
  }

  ghost function PushElementMap(st: RState, v: Sized): (r: RState)
    requires RValid(st) && Decodable(st.buf, v)
    ensures RValid(r) && |r.vecs| == |st.vecs| + 1 && |r.maps| == |st.maps| + 1 && r.aosIndex == st.aosIndex
  {
    st.(vecs := st.vecs + [v], maps := st.maps + [ElementMap(st.buf, v, v.size)])
  }

  /** Element i of v, taken as a vector; not a vector gives the empty one. */
  ghost function SubVector(buf: seq<byte>, v: Sized, i: nat): (r: Sized)
    requires Decodable(buf, v)
    ensures Decodable(buf, r)
  {
    DecodableElement(buf, v, i);
    EmptyDecodable(buf);
    AsVector(buf, Element(buf, v, i))
  }

  ghost predicate InArray(st: RState) {
    st.aosIndex != [] && |st.vecs| >= 2 && st.maps != []
  }

  ghost function RCheckAosIndex(st: RState, ctx: Context): (r: RState)
    requires RValid(st) && (ctx.Arraystruct? ==> InArray(st) && 0 <= ctx.index)
    ensures RValid(r) && |r.vecs| == |st.vecs| && |r.maps| == |st.maps| && |r.aosIndex| == |st.aosIndex|
      && r.ctxids == st.ctxids && r.buf == st.buf
  {
    if ctx.Arraystruct? && Top(st.aosIndex) != ctx.index then
      var s1 := st.(aosIndex := Pop(st.aosIndex) + [ctx.index], maps := Pop(st.maps), vecs := Pop(st.vecs));
      PushElementMap(s1, SubVector(st.buf, Top(s1.vecs), ctx.index))
    else st
  }

  ghost predicate RootDecodable(buf: seq<byte>) {
    && |buf| >= 2
    && Accessible(buf, GetRoot(buf))
    && (GetRoot(buf).typ == FBT_VECTOR ==>
          Accessible(buf, Element0(buf)) && Element0(buf).typ == FBT_BLOB && AsBlob(buf, Element0(buf)).size >= 4)
    && GetRoot(buf).typ == FBT_VECTOR
  }

  ghost function Element0(buf: seq<byte>): Reference
    requires |buf| >= 2 && Accessible(buf, GetRoot(buf)) && GetRoot(buf).typ == FBT_VECTOR
  {
    DecodableElement(buf, AsVector(buf, GetRoot(buf)), 0);
    Element(buf, AsVector(buf, GetRoot(buf)), 0)
  }

  ghost function RBeginAction(st: RState, ctx: Context): Outcome<RState>
    requires ctx.Operation? && RValid(st) && RootDecodable(st.buf)
  {
    if ctx.sliceMode then Thrown(st, SliceUnsupported)
    else
      var s1 := PushElementMap(st.(ctxids := st.ctxids + [ctx.uid]), AsVector(st.buf, GetRoot(st.buf)));
      var blob := AsBlob(st.buf, Element0(st.buf));
      if st.buf[blob.data..blob.data + 4] == ENDIAN_MARKER then Done(s1)
      else Thrown(s1.(ctxids := Pop(s1.ctxids)), EndianMismatch)
  }

  ghost function RBeginArraystruct(st: RState, ctx: Context): (r: (RState, nat))
    requires ctx.Arraystruct? && RValid(st) && st.vecs != [] && st.maps != []
    requires ctx.parent.Some? && ctx.parent.value.Arraystruct? ==> InArray(st) && 0 <= ctx.parent.value.index
    ensures RValid(r.0)
  {
    var s1 := st.(ctxids := st.ctxids + [ctx.uid]);
    var s2 := if ctx.parent.Some? then RCheckAosIndex(s1, ctx.parent.value) else s1;
    if ctx.path !in Top(s2.maps) then (s2.(aosIndex := s2.aosIndex + [-1]), 0)
    else
      var vector := SubVector(st.buf, Top(s2.vecs), Top(s2.maps)[ctx.path] + 1);
      var s3 := s2.(aosIndex := s2.aosIndex + [0], vecs := s2.vecs + [vector]);
      (PushElementMap(s3, SubVector(st.buf, vector, 0)), vector.size)
  }

  ghost function REndAction(st: RState, ctx: Context): (r: Outcome<RState>)
    requires RValid(st) && st.ctxids != []
    requires ctx.Operation? ==> st.maps != [] && st.vecs != []
    requires ctx.Arraystruct? ==> st.aosIndex != [] && (Top(st.aosIndex) >= 0 ==> InArray(st))
    ensures RValid(r.st)
  {
    if ctx.uid != Top(st.ctxids) then Thrown(st, UnexpectedNesting)
    else
      var s1 := st.(ctxids := Pop(st.ctxids));
      if ctx.Operation? then Done(s1.(maps := Pop(s1.maps), vecs := Pop(s1.vecs)))
      else if Top(s1.aosIndex) >= 0 then
        Done(s1.(maps := Pop(s1.maps), vecs := Pop(Pop(s1.vecs)), aosIndex := Pop(s1.aosIndex)))
      else Done(s1.(aosIndex := Pop(s1.aosIndex)))
  }

  /** What readData hands back for a field that exists. */
  datatype FieldValue = FieldValue(datatype_: int, dims: seq<int>, bytes: seq<byte>)

  function AsInt32(x: int): int {
    Signed(x % 0x1_0000_0000, 4)
  }

  /** The first n elements of a typed vector, as C ints. */
  ghost function SizesAt(buf: seq<byte>, v: Sized, n: nat): (r: seq<int>)
    requires n <= v.size && forall j: nat | j < v.size :: TypedElementReadable(buf, v, j)
    ensures |r| == n
  {
    if n == 0 then []
    else
      assert TypedElementReadable(buf, v, n - 1);
      SizesAt(buf, v, n - 1) + [AsInt32(AsInt64(buf, TypedElement(v, n - 1)))]
  }

  /** The three items after the name at position i of v. */
  ghost function ReadField(buf: seq<byte>, v: Sized, i: nat): FieldValue
    requires Decodable(buf, v)
  {
    DecodableElement(buf, v, i + 1);
    DecodableElement(buf, v, i + 2);
    DecodableElement(buf, v, i + 3);
    var sizes := AsTypedVector(buf, Element(buf, v, i + 2));
    var blob := AsBlob(buf, Element(buf, v, i + 3));
    FieldValue(
      AsInt32(AsInt64(buf, Element(buf, v, i + 1))),
      SizesAt(buf, sizes, sizes.size),
      buf[blob.data..blob.data + blob.size])
  }

  ghost function RReadData(st: RState, ctx: Context, name: Name): (r: (RState, Option<FieldValue>))
    requires RValid(st) && st.vecs != [] && st.maps != []
    requires ctx.Arraystruct? ==> InArray(st) && 0 <= ctx.index
    ensures RValid(r.0)
  {
    var s1 := RCheckAosIndex(st, ctx);
    if name !in Top(s1.maps) then (s1, None)
    else (s1, Some(ReadField(st.buf, Top(s1.vecs), Top(s1.maps)[name])))
  }
}
