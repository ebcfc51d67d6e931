/** The Verifier accepts exactly the finished buffers that are not nested too deeply. */
module VerifierAccepts {
  import opened Scalars
  import opened Wire
  import opened BuilderModel
  import opened RoundTrip
  import opened VerifierModel

  // ------------------------------------------------- depth and node count

  /** How many vectors, typed vectors and blobs lie on the longest path into the item. */
  function Depth(item: Item): nat
    decreases item, 0
  {
    match item
    case Int(_) => 0
    case Key(_) => 0
    case Blob(_) => 1
    case IntVec(_, _) => 1
    case Vec(items) => 1 + DepthFrom(items, 0)
  }

  function DepthFrom(items: seq<Item>, i: nat): nat
    requires i <= |items|
    decreases items, 1, |items| - i
  {
    if i == |items| then 0 else Max(Depth(items[i]), DepthFrom(items, i + 1))
  }

  function Count(item: Item): nat
    decreases item, 0
  {
    match item
    case Int(_) => 0
    case Key(_) => 0
    case Blob(_) => 1
    case IntVec(_, _) => 1
    case Vec(items) => 1 + CountUpTo(items, |items|)
  }

  /** Vectors in the first n items. */
  function CountUpTo(items: seq<Item>, n: nat): nat
    requires n <= |items|
    decreases items, 1, n
  {
    if n == 0 then 0 else CountUpTo(items, n - 1) + Count(items[n - 1])
  }

  lemma {:induction false} CountMonotone(items: seq<Item>, i: nat, n: nat)
    requires i <= n <= |items|
    ensures CountUpTo(items, i) <= CountUpTo(items, n)
    decreases n
  {
    if i < n {
      CountMonotone(items, i, n - 1);
    }
  }

  /** Each vector or blob costs at least its length field, so there are fewer of them than bytes. */
  lemma {:induction false} CountFits(st: BState, item: Item)
    requires Encodable(item)
    ensures |st.buf| + Count(item) <= |Push(st, item).buf|
    decreases item, 0
  {
    if item.Vec? {
      CountAllFits(st, item.items, |item.items|);
    }
  }

  lemma {:induction false} CountAllFits(st: BState, items: seq<Item>, n: nat)
    requires n <= |items| && forall x | x in items :: Encodable(x)
    ensures |st.buf| + CountUpTo(items, n) <= |PushAll(st, items, n).buf|
    decreases items, 1, n
  {
    if n > 0 {
      CountAllFits(st, items, n - 1);
      CountFits(PushAll(st, items, n - 1), items[n - 1]);
    }
  }

  // ------------------------------------------------------------ acceptance

  /** What the Verifier should answer for a subtree with the given depth and node count. */
  function Expected(maxDepth: nat, st: VState, depth: nat, count: nat): Verdict {
    if st.depth + depth <= maxDepth then Accepted(st.(numVectors := st.numVectors + count)) else Rejected
  }

  lemma {:induction false} KeyVerified(buf: seq<byte>, p: nat)
    requires p < |buf| && buf[|buf| - 1] != 0
    ensures VerifyKey(buf, p)
    decreases |buf| - p
  {
    if buf[p] == 0 {
      KeyVerified(buf, p + 1);
    }
  }

  lemma {:induction false} RefVerified(buf: seq<byte>, maxDepth: nat, st: VState, r: Reference, item: Item)
    requires 0 < |buf| < TWO64 && buf[|buf| - 1] != 0
    requires ValidWidth(r.parentWidth) && Reads(buf, r, item) && AlignedRef(buf, r, item)
    requires st.depth <= maxDepth && st.numVectors + Count(item) <= |buf|
    ensures VerifyRef(buf, maxDepth, st, r) == Expected(maxDepth, st, Depth(item), Count(item))
    decreases item, 2
  {
    if !item.Int? {
      var p := Indirect(buf, r);
      if item.Key? {
        KeyVerified(buf, p);
      } else if item.Vec? {
        VecVerified(buf, maxDepth, st, r, p, item.items);
      } else {
        ScalarsVerified(buf, maxDepth, st, r, p, item);
      }
    }
  }

  lemma {:induction false} ScalarsVerified(buf: seq<byte>, maxDepth: nat, st: VState, r: Reference, p: int, item: Item)
    requires item.Blob? || item.IntVec?
    requires |buf| < TWO64 && ObjectAt(buf, p, r.width, r.typ, item)
    requires st.numVectors + 1 <= |buf|
    ensures VerifyVector(buf, maxDepth, st, r, p, Scalar) == Expected(maxDepth, st, 1, 1)
  {
  }

  lemma {:induction false} AddressableSize(n: nat, w: BitWidth)
    ensures Times(n, w) < TWO64 && n > 0 ==> n < SizeLimit(w) || Times(n, w) + n >= TWO64
    ensures 0 < SizeLimit(w)
  {
  }

  /** What the checks of a vector come to when it lies in the buffer. */
  lemma {:induction false} VectorChecks(buf: seq<byte>, maxDepth: nat, st: VState, r: Reference, p: int)
    requires 0 < |buf| < TWO64 && r.typ == FBT_VECTOR && HasSize(buf, p, r.width) && st.numVectors + 1 <= |buf|
    requires var v := SizedAt(buf, p, r.width); InBuffer(buf, v.data, Times(v.size, v.width) + v.size)
    ensures var v := SizedAt(buf, p, r.width);
      VerifyVector(buf, maxDepth, st, r, p, Untyped) ==
        if st.depth + 1 > maxDepth then Rejected
        else
          var e := VerifyElements(buf, maxDepth, VState(st.depth + 1, st.numVectors + 1), v, Untyped, 0);
          if e.Accepted? then Accepted(e.st.(depth := st.depth)) else Rejected
  {
    hide VerifyElements, FromLE, SizeLimit;
    AddressableSize(SizedAt(buf, p, r.width).size, r.width);
  }

  lemma {:induction false} VecParts(buf: seq<byte>, p: int, w: BitWidth, t: int, items: seq<Item>)
    requires ObjectAt(buf, p, w, t, Vec(items)) && AlignedAt(buf, p, w, t, Vec(items))
    ensures HasSize(buf, p, w)
    ensures var v := SizedAt(buf, p, w);
      && v.size == |items| && v.width == w && InBuffer(buf, v.data, Times(v.size, v.width) + v.size)
      && forall j | 0 <= j < |items| :: ElementReads(buf, v, j, items[j]) && AlignedElement(buf, v, j, items[j])
  {
    hide Reads, AlignedRef, FromLE;
  }

  lemma {:induction false} VecVerified(buf: seq<byte>, maxDepth: nat, st: VState, r: Reference, p: int,
      items: seq<Item>)
    requires 0 < |buf| < TWO64 && buf[|buf| - 1] != 0 && r.typ == FBT_VECTOR
    requires ObjectAt(buf, p, r.width, r.typ, Vec(items)) && AlignedAt(buf, p, r.width, r.typ, Vec(items))
    requires st.numVectors + 1 + CountUpTo(items, |items|) <= |buf|
    ensures VerifyVector(buf, maxDepth, st, r, p, Untyped)
      == Expected(maxDepth, st, 1 + DepthFrom(items, 0), 1 + CountUpTo(items, |items|))
    decreases Vec(items), 1
  {
    hide VerifyVector, VerifyElements, VerifyRef, Reads, AlignedRef, FromLE, ObjectAt, AlignedAt, ElementReads,
      AlignedElement;
    VecParts(buf, p, r.width, r.typ, items);
    VectorChecks(buf, maxDepth, st, r, p);
    if st.depth + 1 <= maxDepth {
      var s1 := VState(st.depth + 1, st.numVectors + 1);
      ElementsVerified(buf, maxDepth, s1, SizedAt(buf, p, r.width), items, 0);
    }
  }

  lemma {:induction false} ElementsVerified(buf: seq<byte>, maxDepth: nat, st: VState, v: Sized, items: seq<Item>,
      i: nat)
    requires 0 < |buf| < TWO64 && buf[|buf| - 1] != 0
    requires i <= |items| == v.size && InBuffer(buf, v.data, Times(v.size, v.width) + v.size)
    requires forall j | 0 <= j < |items| :: ElementReads(buf, v, j, items[j]) && AlignedElement(buf, v, j, items[j])
    requires st.depth <= maxDepth
    requires st.numVectors + CountUpTo(items, |items|) - CountUpTo(items, i) <= |buf|
    ensures CountUpTo(items, i) <= CountUpTo(items, |items|)
    ensures VerifyElements(buf, maxDepth, st, v, Untyped, i)
         == Expected(maxDepth, st, DepthFrom(items, i), CountUpTo(items, |items|) - CountUpTo(items, i))
    decreases Vec(items), 0, |items| - i
  {
    hide VerifyRef, Reads, AlignedRef, FromLE, ObjectAt;
    CountMonotone(items, i, |items|);
    if i < |items| {
      CountMonotone(items, i + 1, |items|);
      assert ElementReads(buf, v, i, items[i]) && AlignedElement(buf, v, i, items[i]);
      RefVerified(buf, maxDepth, st, Element(buf, v, i), items[i]);
      if st.depth + Depth(items[i]) <= maxDepth {
        ElementsVerified(buf, maxDepth, st.(numVectors := st.numVectors + Count(items[i])), v, items, i + 1);
      }
    }
  }

  /** A finished buffer is accepted exactly when its vectors and blobs are nested at most maxDepth deep. */
  lemma {:induction false} FinishedBufferVerified(item: Item, maxDepth: nat)
    requires Encodable(item) && |Serialize(item)| < TWO64
    ensures VerifyBuffer(Serialize(item), maxDepth) <==> Depth(item) <= maxDepth
  {
    hide Push, Denotes, Reads, AlignedRef, Encodable, VerifyRef, Depth, Count;
    var st := Push(EMPTY, item);
    var buf := Serialize(item);
    PushDenotes(EMPTY, item);
    FinishReads(st, item);
    CountFits(EMPTY, item);
    RefVerified(buf, maxDepth, VState(0, 0), GetRoot(buf), item);
  }
}
