/** What the flexbuffers Builder computes, as functions of its buffer and its value stack. */
module BuilderModel {
  import opened Chunks
  import opened Scalars
  import opened Wire

  /** num is the value itself when the type is inline, else a position in the buffer. */
  datatype Value = Value(num: int, typ: FbType, minWidth: BitWidth)

  datatype BState = BState(buf: seq<byte>, stack: seq<Value>)

  // ------------------------------------------------------- element widths

  /** Where element index of a vector started after bufSize bytes goes, if its width is w. */
  function OffsetLoc(bufSize: nat, index: nat, w: BitWidth): (p: nat)
    ensures p >= bufSize
  {
    bufSize + Padding(bufSize, Bytes(w)) + Times(index, w)
  }

  predicate OffsetFits(num: int, bufSize: nat, index: nat, w: BitWidth) {
    OffsetLoc(bufSize, index, w) - num < Pow256(Bytes(w))
  }

  /** Least width that holds the value; for an offset that depends on the width itself. */
  function ElemWidth(v: Value, bufSize: nat, index: nat): (w: BitWidth)
    ensures IsInline(v.typ) ==> w == v.minWidth
    ensures !IsInline(v.typ) ==> forall k: BitWidth | k < w :: !OffsetFits(v.num, bufSize, index, k)
    ensures !IsInline(v.typ) && (w < 3 || OffsetLoc(bufSize, index, 3) - v.num < TWO64)
      ==> OffsetFits(v.num, bufSize, index, w)
  {
    Pow256Values();
    if IsInline(v.typ) then v.minWidth
    else if OffsetFits(v.num, bufSize, index, 0) then 0
    else if OffsetFits(v.num, bufSize, index, 1) then 1
    else if OffsetFits(v.num, bufSize, index, 2) then 2
    else 3
  }

  /** Positions grow with the width they are computed for. */
  lemma {:induction false} OffsetLocGrows(bufSize: nat, index: nat, a: BitWidth, b: BitWidth)
    requires a <= b
    ensures OffsetLoc(bufSize, index, a) <= OffsetLoc(bufSize, index, b)
  {
    PaddingGrows(bufSize, a, b);
  }

  lemma {:induction false} PaddingGrows(n: nat, a: BitWidth, b: BitWidth)
    requires a <= b
    ensures Padding(n, Bytes(a)) <= Padding(n, Bytes(b))
  {
    var x := TWO64 - n;
    var q, r := x / 8, x % 8;
    ModUnique(x, 4, 2 * q + r / 4, r % 4);
    ModUnique(x, 2, 4 * q + r / 2, r % 2);
  }

  /**
   * Once an offset fits the width it was measured at, it still fits every larger width,
   * although a larger width moves the offset further from its target.
   */
  lemma {:induction false} OffsetFitsWider(num: nat, bufSize: nat, index: nat, a: BitWidth, b: BitWidth)
    requires num <= bufSize && a <= b
    requires OffsetFits(num, bufSize, index, a)
    ensures OffsetFits(num, bufSize, index, b)
  {
    Pow256Values();
    if a == 0 {
      assert index + (bufSize - num) < 0x100;
    } else if a == 1 {
      assert 2 * index + (bufSize - num) < 0x1_0000;
    } else if a == 2 {
      assert 4 * index + (bufSize - num) < 0x1_0000_0000;
    }
  }

  // -------------------------------------------------------- bytes appended

  function Zeros(n: nat): (s: seq<byte>)
    ensures |s| == n
  {
    seq(n, _ => 0)
  }

  function Align(buf: seq<byte>, w: BitWidth): (r: seq<byte>)
    ensures buf <= r && |r| == |buf| + Padding(|buf|, Bytes(w)) && |r| % Bytes(w) == 0
  {
    buf + Zeros(Padding(|buf|, Bytes(w)))
  }

  /** A stack value as it is written at position at, in 1 << w bytes. */
  function AnyBytes(v: Value, at: nat, w: BitWidth): (s: seq<byte>)
    ensures |s| == Bytes(w)
  {
    if IsInline(v.typ) then ToLE(v.num, Bytes(w)) else ToLE(at - v.num, Bytes(w))
  }

  /** The elements of a vector whose data starts at position at. */
  function ElemChunks(vals: seq<Value>, at: nat, w: BitWidth): (cs: seq<seq<byte>>)
    ensures |cs| == |vals| && Shaped(cs, Bytes(w))
  {
    seq(|vals|, i requires 0 <= i < |vals| => AnyBytes(vals[i], at + Times(i, w), w))
  }

  function StoredPackedType(v: Value, parent: BitWidth): byte {
    PackedType(if IsInline(v.typ) then Max(v.minWidth, parent) else v.minWidth, v.typ)
  }

  function TypeBytes(vals: seq<Value>, parent: BitWidth): (s: seq<byte>)
    ensures |s| == |vals|
  {
    seq(|vals|, i requires 0 <= i < |vals| => StoredPackedType(vals[i], parent))
  }

  /** Width of a vector of vals, looking at its length and its first n elements. */
  function WidthUpTo(vals: seq<Value>, bufSize: nat, n: nat): (w: BitWidth)
    requires n <= |vals|
    ensures WidthU(|vals|) <= w
    ensures forall i | 0 <= i < n :: ElemWidth(vals[i], bufSize, i + 1) <= w
  {
    if n == 0 then WidthU(|vals|)
    else Max(WidthUpTo(vals, bufSize, n - 1), ElemWidth(vals[n - 1], bufSize, n))
  }

  function VectorWidth(vals: seq<Value>, bufSize: nat): BitWidth {
    WidthUpTo(vals, bufSize, |vals|)
  }

  /** Length prefix of an aligned object of width w. */
  function Prefixed(buf: seq<byte>, w: BitWidth, len: nat): (r: seq<byte>)
    ensures buf <= r && |r| % Bytes(w) == 0
    ensures |r| == |buf| + Padding(|buf|, Bytes(w)) + Bytes(w)
  {
    Align(buf, w) + ToLE(len, Bytes(w))
  }

  // ------------------------------------------------------ builder operations

  function AddInt(st: BState, i: int): BState
    requires IsInt64(i)
  {
    st.(stack := st.stack + [Value(i, FBT_INT, WidthI(i))])
  }

  function AddKey(st: BState, s: seq<byte>): BState {
    BState(st.buf + s + [0], st.stack + [Value(|st.buf|, FBT_KEY, 0)])
  }

  function AddBlob(st: BState, b: seq<byte>): BState {
    var w := WidthU(|b|);
    var head := Prefixed(st.buf, w, |b|);
    BState(head + b, st.stack + [Value(|head|, FBT_BLOB, w)])
  }

  function ScalarChunks(xs: seq<int>, w: BitWidth): (cs: seq<seq<byte>>)
    ensures |cs| == |xs| && Shaped(cs, Bytes(w))
  {
    seq(|xs|, i requires 0 <= i < |xs| => ToLE(xs[i], Bytes(w)))
  }

  function AddIntVec(st: BState, w: BitWidth, xs: seq<int>): BState {
    var head := Prefixed(st.buf, w, |xs|);
    BState(head + Flat(ScalarChunks(xs, w)), st.stack + [Value(|head|, FBT_VECTOR_INT, w)])
  }

  function CreateVector(buf: seq<byte>, vals: seq<Value>): (r: (seq<byte>, Value))
    ensures buf <= r.0
  {
    var w := VectorWidth(vals, |buf|);
    var head := Prefixed(buf, w, |vals|);
    (head + Flat(ElemChunks(vals, |head|, w)) + TypeBytes(vals, w), Value(|head|, FBT_VECTOR, w))
  }

  function EndVector(st: BState, start: nat): BState
    requires start <= |st.stack|
  {
    var (buf, vec) := CreateVector(st.buf, st.stack[start..]);
    BState(buf, st.stack[..start] + [vec])
  }

  function Finish(st: BState): (r: seq<byte>)
    requires |st.stack| == 1
  {
    var v := st.stack[0];
    var w := ElemWidth(v, |st.buf|, 0);
    var body := Align(st.buf, w);
    body + AnyBytes(v, |body|, w) + [StoredPackedType(v, 0), Bytes(w)]
  }

  // ------------------------------------------------- building a whole item

  predicate Encodable(item: Item) {
    match item
    case Int(i) => IsInt64(i)
    case Key(s) => 0 !in s
    case Blob(_) => true
    case IntVec(w, xs) => WidthU(|xs|) <= w && forall x | x in xs :: FitsSigned(x, Bytes(w))
    case Vec(items) => forall x | x in items :: Encodable(x)
  }

  /** The calls that build item on top of the stack, children first. */
  function Push(st: BState, item: Item): (r: BState)
    requires Encodable(item)
    ensures |r.stack| == |st.stack| + 1 && st.stack <= r.stack && st.buf <= r.buf
    decreases item, 0
  {
    match item
    case Int(i) => AddInt(st, i)
    case Key(s) => AddKey(st, s)
    case Blob(b) => AddBlob(st, b)
    case IntVec(w, xs) => AddIntVec(st, w, xs)
    case Vec(items) => EndVector(PushAll(st, items, |items|), |st.stack|)
  }

  /** The first n of items, one after the other. */
  function PushAll(st: BState, items: seq<Item>, n: nat): (r: BState)
    requires n <= |items| && forall x | x in items :: Encodable(x)
    ensures |r.stack| == |st.stack| + n && st.stack <= r.stack && st.buf <= r.buf
    decreases items, 1, n
  {
    if n == 0 then st else Push(PushAll(st, items, n - 1), items[n - 1])
  }
}
