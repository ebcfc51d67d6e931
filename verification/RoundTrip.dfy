/** Reading a finished buffer gives back exactly the item the Builder was fed. */
module RoundTrip {
  import opened Chunks
  import opened Scalars
  import opened Wire
  import opened BuilderModel

  // ------------------------------------------------------------- alignment

  /** Everything reachable from r starts at a multiple of its own byte width. */
  ghost predicate AlignedRef(buf: seq<byte>, r: Reference, item: Item)
    requires Reads(buf, r, item)
    decreases item, 1
  {
    item.Int? || AlignedAt(buf, Indirect(buf, r), r.width, r.typ, item)
  }

  ghost predicate AlignedAt(buf: seq<byte>, p: int, w: BitWidth, t: int, item: Item)
    requires ObjectAt(buf, p, w, t, item)
    decreases item, 0
  {
    && p % Bytes(w) == 0
    && (item.Vec? ==> forall j | 0 <= j < |item.items| :: AlignedElement(buf, SizedAt(buf, p, w), j, item.items[j]))
  }

  ghost predicate AlignedElement(buf: seq<byte>, v: Sized, j: nat, x: Item)
    requires j < v.size && InBuffer(buf, v.data, Times(v.size, v.width) + v.size)
    requires ElementReads(buf, v, j, x)
    decreases x, 2
  {
    AlignedRef(buf, Element(buf, v, j), x)
  }

  lemma {:induction false} AlignedRefFrame(buf: seq<byte>, big: seq<byte>, r: Reference, item: Item)
    requires buf <= big && Reads(buf, r, item) && AlignedRef(buf, r, item)
    ensures Reads(big, r, item) && AlignedRef(big, r, item)
    decreases item, 1
  {
    assert Embeds(big, 0, buf);
    ReadsFrame(big, 0, buf, r, item);
    if !item.Int? {
      SliceOfEmbedded(big, 0, buf, r.data, ScalarSize(r.parentWidth));
      AlignedAtFrame(buf, big, Indirect(buf, r), r.width, r.typ, item);
    }
  }

  lemma {:induction false} AlignedAtFrame(buf: seq<byte>, big: seq<byte>, p: int, w: BitWidth, t: int, item: Item)
    requires buf <= big && ObjectAt(buf, p, w, t, item) && AlignedAt(buf, p, w, t, item)
    ensures ObjectAt(big, p, w, t, item) && AlignedAt(big, p, w, t, item)
    decreases item, 0
  {
    assert Embeds(big, 0, buf);
    ObjectFrame(big, 0, buf, p, w, t, item);
    if item.Vec? {
      SizeFrame(big, 0, buf, p, w);
      var v := SizedAt(buf, p, w);
      forall j | 0 <= j < |item.items|
        ensures AlignedElement(big, v, j, item.items[j])
      {
        assert ElementReads(buf, v, j, item.items[j]) && AlignedElement(buf, v, j, item.items[j]);
        ElementFrame(big, 0, buf, v, j);
        AlignedRefFrame(buf, big, Element(buf, v, j), item.items[j]);
      }
    }
  }

  // ---------------------------------------------------------- stack values

  /** The stack value v stands for item, whose bytes, if any, are already in buf and aligned. */
  ghost predicate Denotes(buf: seq<byte>, v: Value, item: Item) {
    match item
    case Int(i) => IsInt64(i) && v == Value(i, FBT_INT, WidthI(i))
    case _ =>
      && !IsInline(v.typ) && 0 <= v.num <= |buf|
      && ObjectAt(buf, v.num, v.minWidth, v.typ, item) && AlignedAt(buf, v.num, v.minWidth, v.typ, item)
  }

  lemma {:induction false} DenotesFrame(buf: seq<byte>, big: seq<byte>, v: Value, item: Item)
    requires buf <= big && Denotes(buf, v, item)
    ensures Denotes(big, v, item)
  {
    if !item.Int? {
      AlignedAtFrame(buf, big, v.num, v.minWidth, v.typ, item);
    }
  }

  // --------------------------------------------- one element of a vector

  /** A scalar or relative offset written at position q reads back as what it stands for. */
  lemma {:induction false} AnyBytesRead(big: seq<byte>, v: Value, q: nat, w: BitWidth, item: Item)
    requires q + Bytes(w) <= |big| && big[q..q + Bytes(w)] == AnyBytes(v, q, w)
    requires Denotes(big, v, item)
    requires IsInline(v.typ) ==> v.minWidth <= w
    requires !IsInline(v.typ) ==> v.num <= q && q - v.num < Pow256(Bytes(w))
    ensures var r := PackedReference(q, Bytes(w), StoredPackedType(v, w));
      Reads(big, r, item) && AlignedRef(big, r, item)
  {
    hide FromLE, ToLE, Pow256, Flat;
    var r := PackedReference(q, Bytes(w), StoredPackedType(v, w));
    if item.Int? {
      FitsWider(item.i, v.minWidth, w);
      SignedRoundTrip(item.i, Bytes(w));
      assert AsInt64(big, r) == item.i;
    } else {
      UnsignedRoundTrip(q - v.num, Bytes(w));
      assert Indirect(big, r) == v.num;
    }
  }

  /** Where things are in head + elements + trailer. */
  lemma {:induction false} LayoutAt(head: seq<byte>, cs: seq<seq<byte>>, types: seq<byte>, w: BitWidth, j: nat,
      big: seq<byte>)
    requires Shaped(cs, Bytes(w)) && j < |cs| == |types| && big == head + Flat(cs) + types
    ensures |big| == |head| + Times(|cs|, w) + |types|
    ensures |head| + Times(j, w) + Bytes(w) <= |head| + Times(|cs|, w)
    ensures big[|head| + Times(j, w)..|head| + Times(j, w) + Bytes(w)] == cs[j]
    ensures big[|head| + Times(|cs|, w) + j] == types[j]
  {
    FlatChunk(cs, w, j);
    assert big[|head|..|head| + |Flat(cs)|] == Flat(cs);
    SliceOfSlice(big, |head|, |head| + |Flat(cs)|, Flat(cs), Times(j, w), Times(j, w) + Bytes(w));
  }

  lemma {:induction false} VectorElementBytes(buf: seq<byte>, vals: seq<Value>, j: nat)
    requires j < |vals|
    ensures var (big, vec) := CreateVector(buf, vals);
      var w := vec.minWidth;
      var q := vec.num + Times(j, w);
      && q + Bytes(w) <= vec.num + Times(|vals|, w) <= vec.num + Times(|vals|, w) + j < |big|
      && big[q..q + Bytes(w)] == AnyBytes(vals[j], q, w)
      && big[vec.num + Times(|vals|, w) + j] == StoredPackedType(vals[j], w)
  {
    hide ToLE, Flat, ElemWidth, WidthUpTo, Padding;
    var w := VectorWidth(vals, |buf|);
    var head := Prefixed(buf, w, |vals|);
    LayoutAt(head, ElemChunks(vals, |head|, w), TypeBytes(vals, w), w, j, CreateVector(buf, vals).0);
  }

  lemma {:induction false} VectorElementReads(buf: seq<byte>, vals: seq<Value>, j: nat, item: Item)
    requires j < |vals| && Denotes(buf, vals[j], item)
    requires |CreateVector(buf, vals).0| < TWO64
    ensures var (big, vec) := CreateVector(buf, vals);
      && HasSize(big, vec.num, vec.minWidth)
      && SizedAt(big, vec.num, vec.minWidth).size == |vals|
      && InBuffer(big, vec.num, Times(|vals|, vec.minWidth) + |vals|)
      && ElementReads(big, SizedAt(big, vec.num, vec.minWidth), j, item)
      && AlignedElement(big, SizedAt(big, vec.num, vec.minWidth), j, item)
  {
    hide CreateVector, ElemWidth, Padding, ToLE, FromLE, Pow256, Reads, ObjectAt, AlignedAt, AlignedRef;
    var (big, vec) := CreateVector(buf, vals);
    var w := vec.minWidth;
    VectorHeader(buf, vals);
    VectorElementBytes(buf, vals, j);
    DenotesFrame(buf, big, vals[j], item);
    assert OffsetLoc(|buf|, j + 1, w) == vec.num + Times(j, w);
    if !item.Int? {
      ElementOffsetFits(vals[j], |buf|, j, w);
    }
    AnyBytesRead(big, vals[j], vec.num + Times(j, w), w, item);
  }

  /** Every offset still fits once the widest element has fixed the width w of the whole vector. */
  lemma {:induction false} ElementOffsetFits(v: Value, bufSize: nat, j: nat, w: BitWidth)
    requires !IsInline(v.typ) && 0 <= v.num <= bufSize
    requires ElemWidth(v, bufSize, j + 1) <= w && OffsetLoc(bufSize, j + 1, w) < TWO64
    ensures OffsetLoc(bufSize, j + 1, w) - v.num < Pow256(Bytes(w))
  {
    var e := ElemWidth(v, bufSize, j + 1);
    if e < 3 {
      OffsetFitsWider(v.num, bufSize, j + 1, e, w);
    } else {
      Pow256Values();
    }
  }

  /** The length prefix of a vector reads back, and the data follows at the place the widths were measured for. */
  lemma {:induction false} VectorHeader(buf: seq<byte>, vals: seq<Value>)
    requires |CreateVector(buf, vals).0| < TWO64
    ensures var (big, vec) := CreateVector(buf, vals);
      && HasSize(big, vec.num, vec.minWidth)
      && SizedAt(big, vec.num, vec.minWidth) == Sized(vec.num, vec.minWidth, |vals|)
      && InBuffer(big, vec.num, Times(|vals|, vec.minWidth) + |vals|)
      && vec.num % Bytes(vec.minWidth) == 0
      && vec.num == |buf| + Padding(|buf|, Bytes(vec.minWidth)) + Bytes(vec.minWidth)
      && (forall j | 0 <= j < |vals| :: ElemWidth(vals[j], |buf|, j + 1) <= vec.minWidth)
  {
    var (big, vec) := CreateVector(buf, vals);
    var w := vec.minWidth;
    FlatLength(ElemChunks(vals, vec.num, w), w);
    PrefixReads(buf, w, |vals|, big);
  }

  lemma {:induction false} PrefixReads(buf: seq<byte>, w: BitWidth, len: nat, big: seq<byte>)
    requires Prefixed(buf, w, len) <= big && WidthU(len) <= w && len < TWO64
    ensures HasSize(big, |Prefixed(buf, w, len)|, w)
    ensures SizedAt(big, |Prefixed(buf, w, len)|, w).size == len
    ensures |Prefixed(buf, w, len)| % Bytes(w) == 0
  {
    var p := |Prefixed(buf, w, len)|;
    var head := Prefixed(buf, w, len);
    assert head[p - Bytes(w)..] == ToLE(len, Bytes(w));
    assert big[..p] == head;
    assert big[p - Bytes(w)..p] == head[p - Bytes(w)..];
    PowWider(WidthU(len), w);
    UnsignedRoundTrip(len, Bytes(w));
  }

  lemma {:induction false} VectorDenotes(buf: seq<byte>, vals: seq<Value>, items: seq<Item>)
    requires |vals| == |items| && forall j | 0 <= j < |items| :: Denotes(buf, vals[j], items[j])
    requires |CreateVector(buf, vals).0| < TWO64
    ensures var (big, vec) := CreateVector(buf, vals); Denotes(big, vec, Vec(items))
  {
    VectorHeader(buf, vals);
    var (big, vec) := CreateVector(buf, vals);
    forall j | 0 <= j < |items|
      ensures ElementReads(big, SizedAt(big, vec.num, vec.minWidth), j, items[j])
      ensures AlignedElement(big, SizedAt(big, vec.num, vec.minWidth), j, items[j])
    {
      VectorElementReads(buf, vals, j, items[j]);
    }
  }

  // ----------------------------------------------------------- leaf items

  lemma {:induction false} BlobDenotes(st: BState, b: seq<byte>)
    requires |AddBlob(st, b).buf| < TWO64
    ensures var r := AddBlob(st, b); Denotes(r.buf, r.stack[|st.stack|], Blob(b))
  {
    PrefixReads(st.buf, WidthU(|b|), |b|, AddBlob(st, b).buf);
  }

  lemma {:induction false} IntVecElementReads(st: BState, w: BitWidth, xs: seq<int>, j: nat)
    requires j < |xs| && FitsSigned(xs[j], Bytes(w))
    requires HasSize(AddIntVec(st, w, xs).buf, |Prefixed(st.buf, w, |xs|)|, w)
    ensures TypedElementReads(AddIntVec(st, w, xs).buf, Sized(|Prefixed(st.buf, w, |xs|)|, w, |xs|), j, xs[j])
  {
    hide ToLE, FromLE, Pow256, Padding, Flat;
    var big := AddIntVec(st, w, xs).buf;
    var p := |Prefixed(st.buf, w, |xs|)|;
    var all := Flat(ScalarChunks(xs, w));
    FlatChunk(ScalarChunks(xs, w), w, j);
    assert big[p..p + |all|] == all;
    SliceOfSlice(big, p, p + |all|, all, Times(j, w), Times(j, w) + Bytes(w));
    SignedRoundTrip(xs[j], Bytes(w));
  }

  lemma {:induction false} IntVecDenotes(st: BState, w: BitWidth, xs: seq<int>)
    requires Encodable(IntVec(w, xs)) && |AddIntVec(st, w, xs).buf| < TWO64
    ensures var r := AddIntVec(st, w, xs); Denotes(r.buf, r.stack[|st.stack|], IntVec(w, xs))
  {
    hide ToLE, FromLE, Pow256, Padding, Flat;
    FlatLength(ScalarChunks(xs, w), w);
    PrefixReads(st.buf, w, |xs|, AddIntVec(st, w, xs).buf);
    forall j | 0 <= j < |xs|
      ensures TypedElementReads(AddIntVec(st, w, xs).buf, Sized(|Prefixed(st.buf, w, |xs|)|, w, |xs|), j, xs[j])
    {
      IntVecElementReads(st, w, xs, j);
    }
  }

  // ------------------------------------------------------- the round trip

  lemma {:induction false} PushDenotes(st: BState, item: Item)
    requires Encodable(item) && |Push(st, item).buf| < TWO64
    ensures Denotes(Push(st, item).buf, Push(st, item).stack[|st.stack|], item)
    decreases item, 0
  {
    match item
    case Int(_) =>
    case Key(s) =>
    case Blob(b) => BlobDenotes(st, b);
    case IntVec(w, xs) => IntVecDenotes(st, w, xs);
    case Vec(items) =>
      var all := PushAll(st, items, |items|);
      PushAllDenotes(st, items, |items|);
      VectorDenotes(all.buf, all.stack[|st.stack|..], items);
  }

  lemma {:induction false} PushAllDenotes(st: BState, items: seq<Item>, n: nat)
    requires n <= |items| && (forall x | x in items :: Encodable(x)) && |PushAll(st, items, n).buf| < TWO64
    ensures forall j | 0 <= j < n ::
      Denotes(PushAll(st, items, n).buf, PushAll(st, items, n).stack[|st.stack| + j], items[j])
    decreases items, 1, n
  {
    hide Push, Denotes, Encodable;
    if n > 0 {
      var before := PushAll(st, items, n - 1);
      var after := PushAll(st, items, n);
      PushAllDenotes(st, items, n - 1);
      PushDenotes(before, items[n - 1]);
      forall j | 0 <= j < n
        ensures Denotes(after.buf, after.stack[|st.stack| + j], items[j])
      {
        if j < n - 1 {
          DenotesFrame(before.buf, after.buf, before.stack[|st.stack| + j], items[j]);
        }
      }
    }
  }

  /** Finishing a stack that holds one value gives a buffer whose root reads as that value. */
  lemma {:induction false} FinishReads(st: BState, item: Item)
    requires |st.stack| == 1 && Denotes(st.buf, st.stack[0], item) && |Finish(st)| < TWO64
    ensures |Finish(st)| >= 2 && Reads(Finish(st), GetRoot(Finish(st)), item)
    ensures AlignedRef(Finish(st), GetRoot(Finish(st)), item)
  {
    var big := Finish(st);
    var v := st.stack[0];
    var w := ElemWidth(v, |st.buf|, 0);
    var q := |Align(st.buf, w)|;
    assert big[q..q + Bytes(w)] == AnyBytes(v, q, w);
    DenotesFrame(st.buf, big, v, item);
    if !IsInline(v.typ) {
      Pow256Values();
      assert q == OffsetLoc(|st.buf|, 0, w);
    }
    AnyBytesRead(big, v, q, w, item);
    assert GetRoot(big) == PackedReference(q, Bytes(w), StoredPackedType(v, 0));
    assert IsInline(v.typ) ==> StoredPackedType(v, 0) == StoredPackedType(v, w);
  }

  const EMPTY := BState([], [])

  function Serialize(item: Item): seq<byte>
    requires Encodable(item)
  {
    Finish(Push(EMPTY, item))
  }

  /** Building an item, finishing, and reading from the root, with any bytes in front, gives the item and no other. */
  lemma {:induction false} SerializeRoundTrip(item: Item, pre: seq<byte>)
    requires Encodable(item) && |Serialize(item)| < TWO64
    ensures var buf := pre + Serialize(item);
      && |buf| >= 2
      && Reads(buf, GetRoot(buf), item)
      && forall other | Reads(buf, GetRoot(buf), other) :: other == item
  {
    PushDenotes(EMPTY, item);
    FinishReads(Push(EMPTY, item), item);
    RootIgnoresPrefix(pre, Serialize(item), item);
    var buf := pre + Serialize(item);
    forall other | Reads(buf, GetRoot(buf), other)
      ensures other == item
    {
      ReadsUnique(buf, GetRoot(buf), item, other);
    }
  }

  // ------------------------------------------------------ the bytes themselves

  /** The integer 1: its byte, its type (1 << 2) and the width of the root. */
  lemma {:induction false} IntBytes() returns (buf: seq<byte>)
    ensures buf == Serialize(Int(1)) == [1, 4, 1]
  {
    buf := Serialize(Int(1));
  }

  /** The key "a": the character, the terminator, the offset back to it, its type (4 << 2), the width. */
  lemma {:induction false} KeyBytes() returns (buf: seq<byte>)
    ensures buf == Serialize(Key([97])) == [97, 0, 2, 16, 1]
  {
    buf := Serialize(Key([97]));
  }

  /** A blob of one byte: its length, the byte, the offset back to it, its type (25 << 2), the width. */
  lemma {:induction false} BlobBytes() returns (buf: seq<byte>)
    ensures buf == Serialize(Blob([7])) == [1, 7, 1, 100, 1]
  {
    buf := Serialize(Blob([7]));
    assert Align([], 0) == [];
    assert ToLE(1, 1) == [1] + ToLE(0, 0);
  }

  /** Four-byte integers, low byte first: the length, 258, the offset, the type (11 << 2 | 2), the width. */
  lemma {:induction false} IntVecBytes() returns (buf: seq<byte>)
    ensures buf == Serialize(IntVec(2, [258])) == [1, 0, 0, 0, 2, 1, 0, 0, 4, 46, 1]
  {
    hide Push, Finish, Encodable, AddIntVec;
    IntVecEncodable([258]);
    IntVecPushed([258]);
    ShortFinish(Push(EMPTY, IntVec(2, [258])), 4, FBT_VECTOR_INT, 2);
    buf := Serialize(IntVec(2, [258]));
  }

  /** 1 and "a" in a vector: the key, the length, the elements, their types, then the root. */
  lemma {:induction false} VectorBytes() returns (buf: seq<byte>)
    ensures buf == Serialize(Vec([Int(1), Key([97])])) == [97, 0, 2, 1, 4, 4, 16, 4, 40, 1]
  {
    hide Finish, CreateVector, ToLE;
    var items := [Int(1), Key([97])];
    var one, key := Value(1, FBT_INT, 0), Value(0, FBT_KEY, 0);
    assert items[0] == Int(1) && items[1] == Key([97]);
    assert PushAll(EMPTY, items, 0) == EMPTY;
    assert PushAll(EMPTY, items, 1) == BState([], [one]);
    assert PushAll(EMPTY, items, 2) == BState([97, 0], [one, key]);
    VectorMade(one, key);
    assert Push(EMPTY, Vec(items)) == BState([97, 0, 2, 1, 4, 4, 16], [Value(3, FBT_VECTOR, 0)]);
    ShortFinish(Push(EMPTY, Vec(items)), 3, FBT_VECTOR, 0);
    buf := Serialize(Vec(items));
  }

  lemma {:induction false} VectorMade(one: Value, key: Value)
    requires one == Value(1, FBT_INT, 0) && key == Value(0, FBT_KEY, 0)
    ensures CreateVector([97, 0], [one, key]) == ([97, 0, 2, 1, 4, 4, 16], Value(3, FBT_VECTOR, 0))
  {
    hide ToLE;
    var vals, buf: seq<byte> := [one, key], [97, 0];
    Pow256Values();
    assert WidthUpTo(vals, 2, 0) == 0 && WidthUpTo(vals, 2, 1) == 0;
    assert VectorWidth(vals, 2) == 0;
    OneByteLE(1);
    OneByteLE(2);
    OneByteLE(4);
    assert Align(buf, 0) == buf;
    var cs := ElemChunks(vals, 3, 0);
    var front := cs[..1];
    assert cs == [[1], [4]] && front == [cs[0]] && front[..0] == [];
    assert Flat(cs) == Flat(front) + cs[1] && Flat(front) == Flat<byte>([]) + cs[0];
    assert TypeBytes(vals, 0) == [4, 16];
    assert Prefixed(buf, 0, 2) == [97, 0, 2];
    assert [97, 0, 2] + Flat(cs) + [4, 16] == [97, 0, 2, 1, 4, 4, 16];
  }

  lemma {:induction false} OneByteLE(n: byte)
    ensures ToLE(n, 1) == [n]
  {
    assert ToLE(n, 1) == [n % 256] + ToLE(n / 256, 0);
  }

  lemma {:induction false} IntVecEncodable(xs: seq<int>)
    requires xs == [258]
    ensures Encodable(IntVec(2, xs))
  {
    Pow256Values();
  }

  lemma {:induction false} IntVecPushed(xs: seq<int>)
    requires xs == [258] && Encodable(IntVec(2, xs))
    ensures Push(EMPTY, IntVec(2, xs)) == BState([1, 0, 0, 0, 2, 1, 0, 0], [Value(4, FBT_VECTOR_INT, 2)])
  {
    hide ToLE;
    FourBytes(1, 0);
    FourBytes(2, 1);
    var cs := ScalarChunks(xs, 2);
    assert cs == [ToLE(258, 4)] && cs[..0] == [];
    assert Flat(cs) == Flat<byte>([]) + cs[0];
    assert Align([], 2) == [];
  }

  /** A buffer with one value close to its end is finished by an offset of one byte. */
  lemma {:induction false} ShortFinish(st: BState, num: nat, typ: FbType, w: BitWidth)
    requires st.stack == [Value(num, typ, w)] && !IsInline(typ) && num <= |st.buf| < num + 256
    ensures Finish(st) == st.buf + [|st.buf| - num, PackedType(w, typ), 1]
  {
    var n := |st.buf| - num;
    assert Align(st.buf, 0) == st.buf;
    assert ToLE(n, 1) == [n % 256] + ToLE(n / 256, 0);
    Pow256Values();
  }

  lemma {:induction false} FourBytes(a: byte, b: byte)
    ensures ToLE(a + 256 * b, 4) == [a, b, 0, 0]
  {
    assert ToLE(0, 2) == [0, 0];
    assert ToLE(b, 3) == [b] + ToLE(0, 2);
  }
}
