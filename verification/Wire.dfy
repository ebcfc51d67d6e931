/** The flexbuffers wire format as its reader sees it: references into a byte buffer. */
module Wire {
  import opened Scalars

  // The type codes this model uses (upper 6 bits of a packed type).
  const FBT_NULL := 0
  const FBT_INT := 1
  const FBT_FLOAT := 3
  const FBT_KEY := 4
  const FBT_MAP := 9
  const FBT_VECTOR := 10
  const FBT_VECTOR_INT := 11
  const FBT_BLOB := 25
  const FBT_BOOL := 26
  const FBT_MAX_TYPE := 37

  type FbType = t: int | 0 <= t < FBT_MAX_TYPE

  predicate IsInline(t: int) {
    t <= FBT_FLOAT || t == FBT_BOOL
  }

  function PackedType(w: BitWidth, t: int): (b: byte)
    requires 0 <= t < 64
    ensures b % 4 == w && b / 4 == t
  {
    w + 4 * t
  }

  // --------------------------------------------------------- sized scalars

  predicate InBuffer(buf: seq<byte>, p: int, n: int) {
    0 <= p && 0 <= n && p + n <= |buf|
  }

  /** How many bytes a sized read touches for a byte width. */
  function ScalarSize(byteWidth: nat): (n: nat)
    ensures ValidWidth(n)
    ensures ValidWidth(byteWidth) ==> n == byteWidth
  {
    if byteWidth < 4 then if byteWidth < 2 then 1 else 2
    else if byteWidth < 8 then 4 else 8
  }

  predicate Readable(buf: seq<byte>, p: int, byteWidth: nat) {
    InBuffer(buf, p, ScalarSize(byteWidth))
  }

  function ReadUInt64(buf: seq<byte>, p: int, byteWidth: nat): nat
    requires Readable(buf, p, byteWidth)
  {
    FromLE(buf[p..p + ScalarSize(byteWidth)])
  }

  function ReadInt64(buf: seq<byte>, p: int, byteWidth: nat): int
    requires Readable(buf, p, byteWidth)
  {
    Signed(ReadUInt64(buf, p, byteWidth), ScalarSize(byteWidth))
  }

  // ------------------------------------------------------------- accessors

  /** data is the position of the item, counted from the start of the buffer; its byte width is 1 << width. */
  datatype Reference = Reference(data: int, parentWidth: nat, width: BitWidth, typ: int)

  /** What indexing past the end of a vector gives. */
  const NULL_REFERENCE := Reference(-1, 1, 0, FBT_NULL)

  function PackedReference(data: int, parentWidth: nat, packed: byte): Reference {
    Reference(data, parentWidth, packed % 4, packed / 4)
  }

  function Indirect(buf: seq<byte>, r: Reference): int
    requires Readable(buf, r.data, r.parentWidth)
  {
    r.data - ReadUInt64(buf, r.data, r.parentWidth)
  }

  /** A vector, typed vector or blob: its size is stored in the 1 << width bytes before its data. */
  datatype Sized = Sized(data: int, width: BitWidth, size: nat)

  /** The static empty vector and empty blob; no byte of them is ever read. */
  const EMPTY_SIZED := Sized(0, 0, 0)

  predicate HasSize(buf: seq<byte>, p: int, w: BitWidth) {
    Readable(buf, p - Bytes(w), Bytes(w))
  }

  function SizedAt(buf: seq<byte>, p: int, w: BitWidth): Sized
    requires HasSize(buf, p, w)
  {
    Sized(p, w, ReadUInt64(buf, p - Bytes(w), Bytes(w)))
  }

  predicate PointsToSized(buf: seq<byte>, r: Reference) {
    Readable(buf, r.data, r.parentWidth) && HasSize(buf, Indirect(buf, r), r.width)
  }

  function AsVector(buf: seq<byte>, r: Reference): Sized
    requires r.typ == FBT_VECTOR || r.typ == FBT_MAP ==> PointsToSized(buf, r)
  {
    if r.typ == FBT_VECTOR || r.typ == FBT_MAP then SizedAt(buf, Indirect(buf, r), r.width) else EMPTY_SIZED
  }

  function AsBlob(buf: seq<byte>, r: Reference): Sized
    requires r.typ == FBT_BLOB ==> PointsToSized(buf, r)
  {
    if r.typ == FBT_BLOB then SizedAt(buf, Indirect(buf, r), r.width) else EMPTY_SIZED
  }

  function AsTypedVector(buf: seq<byte>, r: Reference): Sized
    requires r.typ == FBT_VECTOR_INT ==> PointsToSized(buf, r)
  {
    if r.typ == FBT_VECTOR_INT then SizedAt(buf, Indirect(buf, r), r.width) else EMPTY_SIZED
  }

  function AsInt64(buf: seq<byte>, r: Reference): int
    requires r.typ == FBT_INT ==> Readable(buf, r.data, r.parentWidth)
    requires r.typ == FBT_VECTOR ==> PointsToSized(buf, r)
  {
    if r.typ == FBT_INT then ReadInt64(buf, r.data, r.parentWidth)
    else if r.typ == FBT_VECTOR then AsVector(buf, r).size
    else 0
  }

  /** Bytes from p up to the first zero byte. */
  function CString(buf: seq<byte>, p: int): (s: seq<byte>)
    requires 0 <= p
    decreases |buf| - p
  {
    if p >= |buf| || buf[p] == 0 then [] else [buf[p]] + CString(buf, p + 1)
  }

  function AsKey(buf: seq<byte>, r: Reference): seq<byte>
    requires r.typ == FBT_KEY ==> Readable(buf, r.data, r.parentWidth) && 0 <= Indirect(buf, r)
  {
    if r.typ == FBT_KEY then CString(buf, Indirect(buf, r)) else []
  }

  /** Element i of an untyped vector: its type byte follows the elements. */
  function Element(buf: seq<byte>, v: Sized, i: nat): Reference
    requires i < v.size ==> InBuffer(buf, v.data + Times(v.size, v.width) + i, 1)
  {
    if i >= v.size then NULL_REFERENCE
    else PackedReference(v.data + Times(i, v.width), Bytes(v.width), buf[v.data + Times(v.size, v.width) + i])
  }

  /** Element i of a typed vector of integers. */
  function TypedElement(v: Sized, i: nat): Reference {
    if i >= v.size then NULL_REFERENCE
    else Reference(v.data + Times(i, v.width), Bytes(v.width), 0, FBT_INT)
  }

  /** The root is found from the last two bytes: its byte width and its packed type. */
  function GetRoot(buf: seq<byte>): Reference
    requires |buf| >= 2
  {
    var byteWidth := buf[|buf| - 1];
    PackedReference(|buf| - 2 - byteWidth, byteWidth, buf[|buf| - 2])
  }

  // -------------------------------------------------------- what is stored

  /** The values the serializer stores. IntVec keeps the bit width of its elements. */
  datatype Item =
    | Int(i: int)
    | Key(s: seq<byte>)
    | Blob(b: seq<byte>)
    | IntVec(width: BitWidth, xs: seq<int>)
    | Vec(items: seq<Item>)

  ghost predicate CStringAt(buf: seq<byte>, p: int, s: seq<byte>) {
    && InBuffer(buf, p, |s| + 1)
    && buf[p..p + |s|] == s
    && 0 !in s
    && buf[p + |s|] == 0
  }

  ghost predicate TypedElementReads(buf: seq<byte>, v: Sized, j: nat, x: int) {
    var e := TypedElement(v, j);
    Readable(buf, e.data, e.parentWidth) && e.typ == FBT_INT && AsInt64(buf, e) == x
  }

  /** Every accessor applied to r answers with the contents of item. */
  ghost predicate Reads(buf: seq<byte>, r: Reference, item: Item)
    decreases item, 1
  {
    && Readable(buf, r.data, r.parentWidth)
    && match item
       case Int(i) => r.typ == FBT_INT && AsInt64(buf, r) == i
       case _ => ObjectAt(buf, Indirect(buf, r), r.width, r.typ, item)
  }

  /** The same for the object an offset leads to: position p, bit width w, type t. */
  ghost predicate ObjectAt(buf: seq<byte>, p: int, w: BitWidth, t: int, item: Item)
    decreases item, 0
  {
    match item
    case Int(_) => false
    case Key(s) => t == FBT_KEY && CStringAt(buf, p, s)
    case Blob(b) =>
      && t == FBT_BLOB && HasSize(buf, p, w) && SizedAt(buf, p, w).size == |b|
      && InBuffer(buf, p, |b|) && buf[p..p + |b|] == b
    case IntVec(xw, xs) =>
      && t == FBT_VECTOR_INT && w == xw
      && HasSize(buf, p, w) && SizedAt(buf, p, w).size == |xs|
      && InBuffer(buf, p, Times(|xs|, w))
      && forall j | 0 <= j < |xs| :: TypedElementReads(buf, SizedAt(buf, p, w), j, xs[j])
    case Vec(items) =>
      && t == FBT_VECTOR
      && HasSize(buf, p, w) && SizedAt(buf, p, w).size == |items|
      && InBuffer(buf, p, Times(|items|, w) + |items|)
      && forall j | 0 <= j < |items| :: ElementReads(buf, SizedAt(buf, p, w), j, items[j])
  }

  ghost predicate ElementReads(buf: seq<byte>, v: Sized, j: nat, x: Item)
    requires j < v.size && InBuffer(buf, v.data, Times(v.size, v.width) + v.size)
    decreases x, 2
  {
    Reads(buf, Element(buf, v, j), x)
  }

  // --------------------------------------- a reference has one meaning only

  lemma {:induction false} ReadsUnique(buf: seq<byte>, r: Reference, a: Item, b: Item)
    requires Reads(buf, r, a) && Reads(buf, r, b)
    ensures a == b
    decreases a
  {
    if a.Key? && b.Key? {
      CStringOf(buf, Indirect(buf, r), a.s);
      CStringOf(buf, Indirect(buf, r), b.s);
    } else if a.IntVec? && b.IntVec? {
      IntVecUnique(buf, Indirect(buf, r), r.width, a, b);
    } else if a.Vec? && b.Vec? {
      var v := SizedAt(buf, Indirect(buf, r), r.width);
      forall j | 0 <= j < |a.items|
        ensures a.items[j] == b.items[j]
      {
        assert ElementReads(buf, v, j, a.items[j]) && ElementReads(buf, v, j, b.items[j]);
        ReadsUnique(buf, Element(buf, v, j), a.items[j], b.items[j]);
      }
      assert a.items == b.items;
    }
  }

  lemma {:induction false} IntVecUnique(buf: seq<byte>, p: int, w: BitWidth, a: Item, b: Item)
    requires a.IntVec? && b.IntVec?
    requires ObjectAt(buf, p, w, FBT_VECTOR_INT, a) && ObjectAt(buf, p, w, FBT_VECTOR_INT, b)
    ensures a == b
  {
    var v := SizedAt(buf, p, w);
    forall j | 0 <= j < |a.xs|
      ensures a.xs[j] == b.xs[j]
    {
      assert TypedElementReads(buf, v, j, a.xs[j]) && TypedElementReads(buf, v, j, b.xs[j]);
    }
    assert a.xs == b.xs;
  }

  lemma {:induction false} CStringOf(buf: seq<byte>, p: int, s: seq<byte>)
    requires CStringAt(buf, p, s)
    ensures CString(buf, p) == s
    decreases |s|
  {
    if s != [] {
      assert buf[p..p + |s|][0] == s[0] != 0;
      assert buf[p + 1..p + 1 + |s[1..]|] == buf[p..p + |s|][1..];
      CStringOf(buf, p + 1, s[1..]);
    }
  }

  // ------------------------------------- bytes before and after are ignored

  function Shift(r: Reference, k: int): Reference {
    r.(data := r.data + k)
  }

  /** buf occurs in big, starting at position k. */
  ghost predicate Embeds(big: seq<byte>, k: nat, buf: seq<byte>) {
    k + |buf| <= |big| && big[k..k + |buf|] == buf
  }

  lemma {:induction false} SliceOfEmbedded(big: seq<byte>, k: nat, buf: seq<byte>, p: nat, n: nat)
    requires Embeds(big, k, buf) && p + n <= |buf|
    ensures big[k + p..k + p + n] == buf[p..p + n]
  {
    SliceOfSlice(big, k, k + |buf|, buf, p, p + n);
  }

  lemma {:induction false} SizeFrame(big: seq<byte>, k: nat, buf: seq<byte>, p: int, w: BitWidth)
    requires Embeds(big, k, buf) && HasSize(buf, p, w)
    ensures HasSize(big, k + p, w)
    ensures SizedAt(big, k + p, w) == SizedAt(buf, p, w).(data := k + p)
  {
    SliceOfEmbedded(big, k, buf, p - Bytes(w), Bytes(w));
  }

  lemma {:induction false} TypedElementFrame(big: seq<byte>, k: nat, buf: seq<byte>, v: Sized, j: nat, x: int)
    requires Embeds(big, k, buf) && TypedElementReads(buf, v, j, x)
    ensures TypedElementReads(big, v.(data := k + v.data), j, x)
  {
    var e := TypedElement(v, j);
    assert TypedElement(v.(data := k + v.data), j) == if j < v.size then Shift(e, k) else e;
    SliceOfEmbedded(big, k, buf, e.data, ScalarSize(e.parentWidth));
  }

  lemma {:induction false} ElementFrame(big: seq<byte>, k: nat, buf: seq<byte>, v: Sized, j: nat)
    requires Embeds(big, k, buf)
    requires j < v.size && InBuffer(buf, v.data, Times(v.size, v.width) + v.size)
    ensures InBuffer(big, k + v.data + Times(v.size, v.width) + j, 1)
    ensures Element(big, v.(data := k + v.data), j) == Shift(Element(buf, v, j), k)
  {
    var q := v.data + Times(v.size, v.width) + j;
    SliceOfEmbedded(big, k, buf, q, 1);
    assert big[k + q] == big[k + q..k + q + 1][0] == buf[q];
  }

  lemma {:induction false} ReadsFrame(big: seq<byte>, k: nat, buf: seq<byte>, r: Reference, item: Item)
    requires Embeds(big, k, buf) && Reads(buf, r, item)
    ensures Reads(big, Shift(r, k), item)
    decreases item, 2
  {
    hide ObjectAt, FromLE;
    SliceOfEmbedded(big, k, buf, r.data, ScalarSize(r.parentWidth));
    if !item.Int? {
      ObjectFrame(big, k, buf, Indirect(buf, r), r.width, r.typ, item);
    }
  }

  lemma {:induction false} ObjectFrame(big: seq<byte>, k: nat, buf: seq<byte>, p: int, w: BitWidth, t: int, item: Item)
    requires Embeds(big, k, buf) && ObjectAt(buf, p, w, t, item)
    ensures ObjectAt(big, k + p, w, t, item)
    decreases item, 1
  {
    if item.Vec? {
      VecFrame(big, k, buf, p, w, t, item.items);
    } else {
      LeafFrame(big, k, buf, p, w, t, item);
    }
  }

  lemma {:induction false} LeafFrame(big: seq<byte>, k: nat, buf: seq<byte>, p: int, w: BitWidth, t: int, item: Item)
    requires Embeds(big, k, buf) && ObjectAt(buf, p, w, t, item) && !item.Vec?
    ensures ObjectAt(big, k + p, w, t, item)
  {
    if item.Key? {
      SliceOfEmbedded(big, k, buf, p, |item.s|);
      SliceOfEmbedded(big, k, buf, p + |item.s|, 1);
      assert big[k + p + |item.s|..k + p + |item.s| + 1][0] == 0;
    } else {
      SizeFrame(big, k, buf, p, w);
      if item.Blob? {
        SliceOfEmbedded(big, k, buf, p, |item.b|);
      } else {
        forall j | 0 <= j < |item.xs|
          ensures TypedElementReads(big, SizedAt(big, k + p, w), j, item.xs[j])
        {
          TypedElementFrame(big, k, buf, SizedAt(buf, p, w), j, item.xs[j]);
        }
      }
    }
  }

  lemma {:induction false} VecFrame(big: seq<byte>, k: nat, buf: seq<byte>, p: int, w: BitWidth, t: int,
      items: seq<Item>)
    requires Embeds(big, k, buf) && ObjectAt(buf, p, w, t, Vec(items))
    ensures ObjectAt(big, k + p, w, t, Vec(items))
    decreases Vec(items), 0
  {
    SizeFrame(big, k, buf, p, w);
    var v := SizedAt(buf, p, w);
    forall j | 0 <= j < |items|
      ensures ElementReads(big, SizedAt(big, k + p, w), j, items[j])
    {
      ElementReadsFrame(big, k, buf, v, j, items[j]);
    }
  }

  lemma {:induction false} ElementReadsFrame(big: seq<byte>, k: nat, buf: seq<byte>, v: Sized, j: nat, x: Item)
    requires j < v.size && InBuffer(buf, v.data, Times(v.size, v.width) + v.size)
    requires Embeds(big, k, buf) && ElementReads(buf, v, j, x)
    ensures ElementReads(big, v.(data := k + v.data), j, x)
    decreases x, 3
  {
    ElementFrame(big, k, buf, v, j);
    ReadsFrame(big, k, buf, Element(buf, v, j), x);
  }

  /** Decoding is position independent: bytes in front of a buffer do not change what its root means. */
  lemma {:induction false} RootIgnoresPrefix(pre: seq<byte>, buf: seq<byte>, item: Item)
    requires |buf| >= 2 && Reads(buf, GetRoot(buf), item)
    ensures Reads(pre + buf, GetRoot(pre + buf), item)
  {
    hide Reads, GetRoot, Embeds;
    RootShifts(pre, buf);
    ReadsFrame(pre + buf, |pre|, buf, GetRoot(buf), item);
  }

  lemma {:induction false} RootShifts(pre: seq<byte>, buf: seq<byte>)
    requires |buf| >= 2
    ensures Embeds(pre + buf, |pre|, buf) && GetRoot(pre + buf) == Shift(GetRoot(buf), |pre|)
  {
  }
}
