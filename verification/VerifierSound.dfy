/** What acceptance by the flexbuffers Verifier guarantees about bytes of any origin. */
module VerifierSound {
  import opened Scalars
  import opened Wire
  import opened VerifierModel

  // ---------------------------------------------------------------- safety

  /** The vector, string or blob at p: its size field and its elements lie inside the buffer. */
  predicate SafeExtent(buf: seq<byte>, p: int, w: BitWidth, elementWidth: BitWidth) {
    HasSize(buf, p, w) && InBuffer(buf, p, Times(SizedAt(buf, p, w).size, elementWidth))
  }

  /** Inside the buffer, but not all of it. */
  predicate InPart(buf: seq<byte>, p: int, len: nat) {
    InBuffer(buf, p, len) && len < |buf|
  }

  /** Element i of a vector of keys. */
  function KeyElement(v: Sized, i: nat): Reference {
    Reference(v.data + Times(i, v.width), Bytes(v.width), 0, FBT_KEY)
  }

  /**
   * A vector of references, for an untyped vector with the type bytes behind it, whose elements are safe one level
   * deeper.
   */
  ghost predicate SafeVector(buf: seq<byte>, p: int, w: BitWidth, kind: Elements, d: nat)
    decreases d, 0
  {
    && d > 0 && SafeExtent(buf, p, w, w)
    && var v := SizedAt(buf, p, w);
      && (kind == Untyped ==> InBuffer(buf, p, Times(v.size, w) + v.size))
      && forall i | 0 <= i < v.size ::
        Safe(buf, if kind == Untyped then Element(buf, v, i) else KeyElement(v, i), d - 1)
  }

  /** The keys of a map: an offset and a width in the fields before the size of its values. */
  ghost predicate SafeKeys(buf: seq<byte>, p: int, w: BitWidth, d: nat)
    decreases d, 1
  {
    && InBuffer(buf, p - Times(3, w), Times(3, w))
    && var q := p - Times(3, w);
      var keyWidth := ReadUInt64(buf, q + Bytes(w), Bytes(w)) % 256;
      ValidWidth(keyWidth) && SafeVector(buf, q - ReadUInt64(buf, q, Bytes(w)), WidthB(keyWidth), Keys, d)
  }

  /**
   * The reference and every object and element reached from it lie inside the buffer, at most d vectors deep,
   * and objects are aligned to their width. A key starts inside; whether it also ends inside is another matter.
   */
  ghost predicate Safe(buf: seq<byte>, r: Reference, d: nat)
    decreases d, 2
  {
    && Readable(buf, r.data, r.parentWidth) && 0 <= r.typ < FBT_MAX_TYPE
    && (!IsInline(r.typ) ==>
          var p, w := Indirect(buf, r), r.width;
          && 0 <= p && p % Bytes(w) == 0
          && if FBT_STRING < r.typ <= FBT_INDIRECT_FLOAT then InPart(buf, p, Bytes(w))
             else if r.typ == FBT_KEY then p < |buf|
             else if r.typ == FBT_MAP then SafeVector(buf, p, w, Untyped, d) && SafeKeys(buf, p, w, d)
             else if r.typ == FBT_STRING then
               d > 0 && SafeExtent(buf, p, w, 0) && InBuffer(buf, p, SizedAt(buf, p, w).size + 1)
             else if FBT_VECTOR_INT2 <= r.typ <= FBT_VECTOR_FLOAT4 then
               InPart(buf, p, Times((r.typ - FBT_VECTOR_INT2) / 3 + 2, w))
             else if r.typ == FBT_VECTOR then SafeVector(buf, p, w, Untyped, d)
             else if r.typ == FBT_VECTOR_KEY || r.typ == FBT_VECTOR_STRING_DEPRECATED
               then SafeVector(buf, p, w, Keys, d)
             else
               && (FBT_VECTOR_INT <= r.typ < FBT_VECTOR_KEY || r.typ == FBT_BLOB || r.typ == FBT_VECTOR_BOOL)
               && d > 0 && SafeExtent(buf, p, w, if r.typ == FBT_BLOB then 0 else w))
  }

  // ------------------------------------------------------------- soundness

  lemma {:induction false} RefSound(buf: seq<byte>, maxDepth: nat, st: VState, r: Reference)
    requires Readable(buf, r.data, r.parentWidth) && ValidRef(buf, r) && st.numVectors <= |buf| && st.depth <= maxDepth
    requires 0 <= r.typ && VerifyRef(buf, maxDepth, st, r).Accepted?
    ensures Safe(buf, r, maxDepth - st.depth)
    decreases |buf| - st.numVectors, 2, 0
  {
    hide VerifyVector, VerifyKeys, VerifyElements, FromLE, SafeVector, SafeKeys;
    if !IsInline(r.typ) {
      var p := Indirect(buf, r);
      if r.typ == FBT_MAP {
        VectorSound(buf, maxDepth, st, r, p, Untyped);
        KeysSound(buf, maxDepth, VerifyVector(buf, maxDepth, st, r, p, Untyped).st, p, r.width);
      } else if r.typ == FBT_VECTOR {
        VectorSound(buf, maxDepth, st, r, p, Untyped);
      } else if r.typ == FBT_VECTOR_KEY || r.typ == FBT_VECTOR_STRING_DEPRECATED {
        VectorSound(buf, maxDepth, st, r, p, Keys);
      } else if r.typ == FBT_STRING || FBT_VECTOR_INT <= r.typ < FBT_VECTOR_KEY || r.typ == FBT_BLOB
        || r.typ == FBT_VECTOR_BOOL {
        ScalarsSound(buf, maxDepth, st, r, p);
      }
    }
  }

  lemma {:induction false} ScalarsSound(buf: seq<byte>, maxDepth: nat, st: VState, r: Reference, p: int)
    requires 0 <= p <= |buf| && st.numVectors <= |buf| && VerifyVector(buf, maxDepth, st, r, p, Scalar).Accepted?
    ensures st.depth < maxDepth
      && SafeExtent(buf, p, r.width, if r.typ == FBT_STRING || r.typ == FBT_BLOB then 0 else r.width)
  {
    hide VerifyElements, FromLE, SizeLimit;
  }

  lemma {:induction false} VectorSound(buf: seq<byte>, maxDepth: nat, st: VState, r: Reference, p: int, kind: Elements)
    requires 0 <= p <= |buf| && st.numVectors <= |buf| && kind != Scalar && r.typ != FBT_STRING && r.typ != FBT_BLOB
    requires VerifyVector(buf, maxDepth, st, r, p, kind).Accepted?
    ensures st.depth < maxDepth && SafeVector(buf, p, r.width, kind, maxDepth - st.depth)
    decreases |buf| - st.numVectors, 1, 0
  {
    hide VerifyElements, FromLE, SizeLimit, Safe;
    var v := SizedAt(buf, p, r.width);
    ElementsSound(buf, maxDepth, VState(st.depth + 1, st.numVectors + 1), v, kind, 0);
  }

  lemma {:induction false} ElementsSound(buf: seq<byte>, maxDepth: nat, st: VState, v: Sized, kind: Elements, i: nat)
    requires st.numVectors <= |buf| && st.depth <= maxDepth && kind != Scalar
    requires i <= v.size && InBuffer(buf, v.data, Times(v.size, v.width))
    requires kind == Untyped ==> InBuffer(buf, v.data, Times(v.size, v.width) + v.size)
    requires VerifyElements(buf, maxDepth, st, v, kind, i).Accepted?
    ensures forall j | i <= j < v.size ::
      Safe(buf, if kind == Untyped then Element(buf, v, j) else KeyElement(v, j), maxDepth - st.depth)
    decreases |buf| - st.numVectors, 3, v.size - i
  {
    hide VerifyRef, FromLE, Safe;
    if i < v.size {
      var e := if kind == Untyped then Element(buf, v, i) else KeyElement(v, i);
      RefSound(buf, maxDepth, st, e);
      ElementsSound(buf, maxDepth, VerifyRef(buf, maxDepth, st, e).st, v, kind, i + 1);
    }
  }

  lemma {:induction false} KeysSound(buf: seq<byte>, maxDepth: nat, st: VState, p: int, w: BitWidth)
    requires 0 <= p <= |buf| && st.numVectors <= |buf| && VerifyKeys(buf, maxDepth, st, p, w).Accepted?
    ensures st.depth < maxDepth && SafeKeys(buf, p, w, maxDepth - st.depth)
    decreases |buf| - st.numVectors, 2, 0
  {
    hide VerifyVector, FromLE, SafeVector;
    var q := p - Times(3, w);
    var keyWidth := ReadUInt64(buf, q + Bytes(w), Bytes(w)) % 256;
    VectorSound(buf, maxDepth, st, Reference(q, Bytes(w), WidthB(keyWidth), FBT_VECTOR_KEY),
      q - ReadUInt64(buf, q, Bytes(w)), Keys);
  }

  /**
   * Whatever the bytes are, once the buffer is accepted no walk from its root leaves it or nests deeper than maxDepth.
   */
  lemma {:induction false} AcceptedIsSafe(buf: seq<byte>, maxDepth: nat)
    requires VerifyBuffer(buf, maxDepth)
    ensures Safe(buf, GetRoot(buf), maxDepth)
  {
    hide VerifyRef, Safe;
    RefSound(buf, maxDepth, VState(0, 0), GetRoot(buf));
  }

  // ---------------------------------------------------------- completeness

  /** How many vectors, strings and blobs a walk from a safe reference meets. */
  ghost function Vectors(buf: seq<byte>, r: Reference, d: nat): nat
    requires Safe(buf, r, d)
    decreases d, 2, 0
  {
    if IsInline(r.typ) then 0
    else
      var p := Indirect(buf, r);
      if r.typ == FBT_MAP then VectorsIn(buf, p, r.width, Untyped, d) + 1
      else if r.typ == FBT_VECTOR then VectorsIn(buf, p, r.width, Untyped, d)
      else if r.typ == FBT_VECTOR_KEY || r.typ == FBT_VECTOR_STRING_DEPRECATED then 1
      else if r.typ == FBT_KEY || FBT_STRING < r.typ <= FBT_INDIRECT_FLOAT
        || FBT_VECTOR_INT2 <= r.typ <= FBT_VECTOR_FLOAT4 then 0
      else 1
  }

  ghost function VectorsIn(buf: seq<byte>, p: int, w: BitWidth, kind: Elements, d: nat): nat
    requires SafeVector(buf, p, w, kind, d)
    decreases d, 0, 0
  {
    1 + if kind == Untyped then VectorsFrom(buf, SizedAt(buf, p, w), 0, d - 1) else 0
  }

  /** In the elements of an untyped vector from index i on. */
  ghost function VectorsFrom(buf: seq<byte>, v: Sized, i: nat, d: nat): nat
    requires i <= v.size && AllSafe(buf, v, Untyped, d)
    decreases d, 3, v.size - i
  {
    if i == v.size then 0 else Vectors(buf, Element(buf, v, i), d) + VectorsFrom(buf, v, i + 1, d)
  }

  ghost predicate AllSafe(buf: seq<byte>, v: Sized, kind: Elements, d: nat) {
    && InBuffer(buf, v.data, Times(v.size, v.width) + if kind == Untyped then v.size else 0)
    && forall i | 0 <= i < v.size ::
      Safe(buf, if kind == Untyped then Element(buf, v, i) else KeyElement(v, i), d)
  }

  /** The verdict on what holds count vectors: there may not be more vectors than bytes. */
  function Counted(buf: seq<byte>, st: VState, count: nat): Verdict {
    if st.numVectors + count <= |buf| then Accepted(st.(numVectors := st.numVectors + count)) else Rejected
  }

  ghost predicate Walkable(buf: seq<byte>, maxDepth: nat, st: VState) {
    0 < |buf| < TWO64 && buf[|buf| - 1] != 0 && st.depth <= maxDepth && st.numVectors <= |buf|
  }

  lemma {:induction false} RefComplete(buf: seq<byte>, maxDepth: nat, st: VState, r: Reference)
    requires Walkable(buf, maxDepth, st) && ValidRef(buf, r) && Safe(buf, r, maxDepth - st.depth)
    ensures VerifyRef(buf, maxDepth, st, r) == Counted(buf, st, Vectors(buf, r, maxDepth - st.depth))
    decreases maxDepth - st.depth, 2, 0
  {
    hide VerifyVector, VerifyKeys, VerifyElements, FromLE, SafeVector, SafeKeys, VectorsIn, SizeLimit;
    var d := maxDepth - st.depth;
    if !IsInline(r.typ) {
      var p := Indirect(buf, r);
      if r.typ == FBT_KEY {
        NonZeroAfter(buf, p);
      } else if r.typ == FBT_MAP {
        VectorComplete(buf, maxDepth, st, r, p, Untyped);
        var v := VerifyVector(buf, maxDepth, st, r, p, Untyped);
        if v.Accepted? {
          KeysComplete(buf, maxDepth, v.st, p, r.width);
        }
      } else if r.typ == FBT_VECTOR {
        VectorComplete(buf, maxDepth, st, r, p, Untyped);
      } else if r.typ == FBT_VECTOR_KEY || r.typ == FBT_VECTOR_STRING_DEPRECATED {
        VectorComplete(buf, maxDepth, st, r, p, Keys);
        KeysCountOne(buf, p, r.width, d);
      } else if r.typ == FBT_STRING || FBT_VECTOR_INT <= r.typ < FBT_VECTOR_KEY || r.typ == FBT_BLOB
        || r.typ == FBT_VECTOR_BOOL {
        ScalarsComplete(buf, maxDepth, st, r, p);
      }
    }
  }

  lemma {:induction false} NonZeroAfter(buf: seq<byte>, p: nat)
    requires p < |buf| && buf[|buf| - 1] != 0
    ensures VerifyKey(buf, p)
  {
    VerifyKeyExact(buf, p);
  }

  lemma {:induction false} KeysCountOne(buf: seq<byte>, p: int, w: BitWidth, d: nat)
    requires SafeVector(buf, p, w, Keys, d)
    ensures VectorsIn(buf, p, w, Keys, d) == 1
  {
    hide SafeVector;
  }

  lemma {:induction false} ScalarsComplete(buf: seq<byte>, maxDepth: nat, st: VState, r: Reference, p: int)
    requires Walkable(buf, maxDepth, st) && st.depth < maxDepth && p <= |buf|
    requires SafeExtent(buf, p, r.width, if r.typ == FBT_STRING || r.typ == FBT_BLOB then 0 else r.width)
    ensures VerifyVector(buf, maxDepth, st, r, p, Scalar) == Counted(buf, st, 1)
  {
    hide VerifyElements, FromLE;
    Addressable(buf, p, r.width, if r.typ == FBT_STRING || r.typ == FBT_BLOB then 0 else r.width);
  }

  /** A size of elements that lie in the buffer passes the overflow check. */
  lemma {:induction false} Addressable(buf: seq<byte>, p: int, w: BitWidth, elementWidth: BitWidth)
    requires |buf| < TWO64 && SafeExtent(buf, p, w, elementWidth) && elementWidth <= w
    ensures SizedAt(buf, p, w).size < SizeLimit(elementWidth)
  {
    hide FromLE;
  }

  lemma {:induction false} VectorComplete(buf: seq<byte>, maxDepth: nat, st: VState, r: Reference, p: int,
      kind: Elements)
    requires Walkable(buf, maxDepth, st) && p <= |buf| && kind != Scalar && r.typ != FBT_STRING && r.typ != FBT_BLOB
    requires SafeVector(buf, p, r.width, kind, maxDepth - st.depth)
    ensures VerifyVector(buf, maxDepth, st, r, p, kind)
         == Counted(buf, st, VectorsIn(buf, p, r.width, kind, maxDepth - st.depth))
    decreases maxDepth - st.depth, 1, 0
  {
    hide VerifyElements, FromLE, SizeLimit, Safe, VectorsFrom;
    var v := SizedAt(buf, p, r.width);
    Addressable(buf, p, r.width, r.width);
    if st.numVectors < |buf| {
      ElementsComplete(buf, maxDepth, VState(st.depth + 1, st.numVectors + 1), v, kind, 0);
    }
  }

  lemma {:induction false} ElementsComplete(buf: seq<byte>, maxDepth: nat, st: VState, v: Sized, kind: Elements, i: nat)
    requires Walkable(buf, maxDepth, st) && kind != Scalar && i <= v.size && AllSafe(buf, v, kind, maxDepth - st.depth)
    ensures VerifyElements(buf, maxDepth, st, v, kind, i)
         == Counted(buf, st, if kind == Untyped then VectorsFrom(buf, v, i, maxDepth - st.depth) else 0)
    decreases maxDepth - st.depth, 3, v.size - i
  {
    hide VerifyRef, FromLE, Safe, Vectors;
    if i < v.size {
      var d := maxDepth - st.depth;
      var e := if kind == Untyped then Element(buf, v, i) else KeyElement(v, i);
      RefComplete(buf, maxDepth, st, e);
      if kind == Keys {
        KeyCountsNothing(buf, e, d);
      }
      var first := VerifyRef(buf, maxDepth, st, e);
      if first.Accepted? {
        ElementsComplete(buf, maxDepth, first.st, v, kind, i + 1);
      }
    }
  }

  lemma {:induction false} KeyCountsNothing(buf: seq<byte>, r: Reference, d: nat)
    requires Safe(buf, r, d) && r.typ == FBT_KEY
    ensures Vectors(buf, r, d) == 0
  {
    hide Safe;
  }

  lemma {:induction false} KeysComplete(buf: seq<byte>, maxDepth: nat, st: VState, p: int, w: BitWidth)
    requires Walkable(buf, maxDepth, st) && p <= |buf| && SafeKeys(buf, p, w, maxDepth - st.depth)
    ensures VerifyKeys(buf, maxDepth, st, p, w) == Counted(buf, st, 1)
    decreases maxDepth - st.depth, 1, 1
  {
    hide VerifyVector, FromLE, SafeVector;
    var q := p - Times(3, w);
    var keyWidth := ReadUInt64(buf, q + Bytes(w), Bytes(w)) % 256;
    var at := q - ReadUInt64(buf, q, Bytes(w));
    SafeStart(buf, at, WidthB(keyWidth), Keys, maxDepth - st.depth);
    VectorComplete(buf, maxDepth, st, Reference(q, Bytes(w), WidthB(keyWidth), FBT_VECTOR_KEY), at, Keys);
    KeysCountOne(buf, at, WidthB(keyWidth), maxDepth - st.depth);
  }

  lemma {:induction false} SafeStart(buf: seq<byte>, p: int, w: BitWidth, kind: Elements, d: nat)
    requires SafeVector(buf, p, w, kind, d)
    ensures 0 <= p <= |buf|
  {
    hide FromLE, Safe;
  }

  /**
   * Exactly which buffers are accepted: a trailer that can be read, a root that is safe to walk, and no more vectors
   * than there are bytes.
   */
  lemma {:induction false} VerifyBufferExact(buf: seq<byte>, maxDepth: nat)
    requires |buf| < TWO64
    ensures VerifyBuffer(buf, maxDepth) <==>
      && |buf| >= 3 && ValidWidth(buf[|buf| - 1]) && |buf| - 2 >= buf[|buf| - 1]
      && Safe(buf, GetRoot(buf), maxDepth) && Vectors(buf, GetRoot(buf), maxDepth) <= |buf|
  {
    hide VerifyRef, Safe, Vectors;
    if |buf| >= 3 && ValidWidth(buf[|buf| - 1]) && |buf| - 2 >= buf[|buf| - 1] {
      if VerifyBuffer(buf, maxDepth) {
        AcceptedIsSafe(buf, maxDepth);
      }
      if Safe(buf, GetRoot(buf), maxDepth) {
        RefComplete(buf, maxDepth, VState(0, 0), GetRoot(buf));
      }
    }
  }

  /** What the accessors need holds for a safe reference, and elements are safe in turn. */
  lemma {:induction false} AccessorsStayInside(buf: seq<byte>, r: Reference, d: nat)
    requires Safe(buf, r, d)
    ensures r.typ == FBT_VECTOR || r.typ == FBT_MAP ==>
      && d > 0 && PointsToSized(buf, r)
      && var v := AsVector(buf, r);
        && InBuffer(buf, v.data, Times(v.size, v.width) + v.size)
        && forall i | 0 <= i < v.size :: Safe(buf, Element(buf, v, i), d - 1)
    ensures r.typ == FBT_BLOB ==> PointsToSized(buf, r) && var v := AsBlob(buf, r); InBuffer(buf, v.data, v.size)
    ensures r.typ == FBT_VECTOR_INT ==>
      && PointsToSized(buf, r)
      && var v := AsTypedVector(buf, r);
        forall i | 0 <= i < v.size :: Readable(buf, TypedElement(v, i).data, TypedElement(v, i).parentWidth)
  {
    hide FromLE, SafeKeys;
    if r.typ == FBT_VECTOR_INT {
      var v := AsTypedVector(buf, r);
      forall i | 0 <= i < v.size
        ensures Readable(buf, TypedElement(v, i).data, TypedElement(v, i).parentWidth)
      {
        assert Times(i, v.width) + Bytes(v.width) <= Times(v.size, v.width);
      }
    }
  }

  // ------------------------------------------------------------------ keys

  /** The loop over a key accepts it exactly when some byte from its start on is not zero. */
  lemma {:induction false} VerifyKeyExact(buf: seq<byte>, p: nat)
    ensures VerifyKey(buf, p) <==> exists q :: p <= q < |buf| && buf[q] != 0
    decreases |buf| - p
  {
    if p < |buf| {
      VerifyKeyExact(buf, p + 1);
    }
  }

  /** Reading a key meets its terminator inside the buffer exactly when there is a zero byte from its start on. */
  lemma {:induction false} KeyEndsInside(buf: seq<byte>, p: nat)
    requires p <= |buf|
    ensures p + |CString(buf, p)| < |buf| <==> 0 in buf[p..]
    decreases |buf| - p
  {
    if p < |buf| {
      KeyEndsInside(buf, p + 1);
      assert buf[p..] == [buf[p]] + buf[p + 1..];
    }
  }

  /** For a key reached in an accepted buffer that is the whole condition; acceptance does not imply it. */
  lemma {:induction false} ReachedKeyReadsInside(buf: seq<byte>, r: Reference, d: nat)
    requires Safe(buf, r, d) && r.typ == FBT_KEY
    ensures var p := Indirect(buf, r);
      0 <= p < |buf| && (p + |AsKey(buf, r)| < |buf| <==> 0 in buf[p..])
  {
    hide FromLE, SafeVector, SafeKeys;
    KeyEndsInside(buf, Indirect(buf, r));
  }

  /** An accepted buffer whose root is a key without a terminator. */
  lemma {:induction false} UnterminatedKeyAccepted() returns (buf: seq<byte>)
    ensures buf == [97, 1, 16, 1] && 0 !in buf
    ensures VerifyBuffer(buf, 64) && GetRoot(buf).typ == FBT_KEY
    ensures Indirect(buf, GetRoot(buf)) + |AsKey(buf, GetRoot(buf))| == |buf|
  {
    hide FromLE, CString, VerifyVector, VerifyKeys;
    buf := [97, 1, 16, 1];
    OneByte(buf, 1);
    assert GetRoot(buf) == Reference(1, 1, 0, FBT_KEY);
    assert Indirect(buf, GetRoot(buf)) == 0;
    KeyEndsInside(buf, 0);
    KeyWithin(buf, 0);
  }

  lemma {:induction false} OneByte(buf: seq<byte>, p: nat)
    requires p < |buf|
    ensures ReadUInt64(buf, p, 1) == buf[p]
  {
    assert buf[p..p + 1] == [buf[p]];
    assert FromLE([buf[p]][1..]) == 0;
  }

  lemma {:induction false} KeyWithin(buf: seq<byte>, p: nat)
    requires p <= |buf|
    ensures p + |CString(buf, p)| <= |buf|
    decreases |buf| - p
  {
    if p < |buf| {
      KeyWithin(buf, p + 1);
    }
  }
}
