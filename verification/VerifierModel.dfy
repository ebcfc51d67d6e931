/** What the flexbuffers Verifier decides about an arbitrary buffer. */
module VerifierModel {
  import opened Scalars
  import opened Wire

  /** The fields the Verifier updates while it walks the buffer. */
  datatype VState = VState(depth: nat, numVectors: nat)

  datatype Verdict = Rejected | Accepted(st: VState)

  const FBT_STRING := 5
  const FBT_INDIRECT_FLOAT := 8
  const FBT_VECTOR_KEY := 14
  const FBT_VECTOR_STRING_DEPRECATED := 15
  const FBT_VECTOR_INT2 := 16
  const FBT_VECTOR_FLOAT4 := 24
  const FBT_VECTOR_BOOL := 36

  const SIZE_MAX := TWO64 - 1

  /** The element kinds VerifyVector distinguishes: untyped, keys, and scalars that need no check. */
  datatype Elements = Untyped | Keys | Scalar

  predicate VerifyFrom(buf: seq<byte>, elem: int, len: int) {
    len < |buf| && elem <= |buf| - len
  }

  predicate VerifyBefore(elem: int, len: int) {
    len <= elem
  }

  predicate VerifyOffset(buf: seq<byte>, off: nat, p: int) {
    off <= |buf| && off <= p
  }

  /** Looks for a byte that is not zero, from p to the end of the buffer. */
  predicate VerifyKey(buf: seq<byte>, p: nat)
    decreases |buf| - p
  {
    p < |buf| && (buf[p] != 0 || VerifyKey(buf, p + 1))
  }

  /** A position whose sized read stays inside the buffer. */
  predicate ValidRef(buf: seq<byte>, r: Reference) {
    ValidWidth(r.parentWidth) && (IsInline(r.typ) || Readable(buf, r.data, r.parentWidth))
  }

  function VerifyRef(buf: seq<byte>, maxDepth: nat, st: VState, r: Reference): (v: Verdict)
    requires ValidRef(buf, r) && st.numVectors <= |buf|
    ensures v.Accepted? ==> v.st.depth == st.depth && st.numVectors <= v.st.numVectors <= |buf|
    decreases |buf| - st.numVectors, 2, 0
  {
    if !(0 <= r.typ < FBT_MAX_TYPE) then Rejected
    else if IsInline(r.typ) then Accepted(st)
    else if !VerifyOffset(buf, ReadUInt64(buf, r.data, r.parentWidth), r.data) then Rejected
    else
      var p := Indirect(buf, r);
      if p % Bytes(r.width) != 0 then Rejected
      else if FBT_STRING < r.typ <= FBT_INDIRECT_FLOAT then
        if VerifyFrom(buf, p, Bytes(r.width)) then Accepted(st) else Rejected
      else if r.typ == FBT_KEY then
        if VerifyKey(buf, p) then Accepted(st) else Rejected
      else if r.typ == FBT_MAP then
        var v := VerifyVector(buf, maxDepth, st, r, p, Untyped);
        if v.Accepted? then VerifyKeys(buf, maxDepth, v.st, p, r.width) else Rejected
      else if r.typ == FBT_STRING then
        var v := VerifyVector(buf, maxDepth, st, r, p, Scalar);
        if v.Accepted? && VerifyFrom(buf, p, SizedAt(buf, p, r.width).size + 1) then v else Rejected
      else if FBT_VECTOR_INT2 <= r.typ <= FBT_VECTOR_FLOAT4 then
        if VerifyFrom(buf, p, Times((r.typ - FBT_VECTOR_INT2) / 3 + 2, r.width)) then Accepted(st) else Rejected
      else if r.typ == FBT_VECTOR then VerifyVector(buf, maxDepth, st, r, p, Untyped)
      else if r.typ == FBT_VECTOR_KEY || r.typ == FBT_VECTOR_STRING_DEPRECATED then
        VerifyVector(buf, maxDepth, st, r, p, Keys)
      else if FBT_VECTOR_INT <= r.typ < FBT_VECTOR_KEY || r.typ == FBT_BLOB || r.typ == FBT_VECTOR_BOOL then
        VerifyVector(buf, maxDepth, st, r, p, Scalar)
      else Rejected
  }

  /** More elements of this width would not be addressable. */
  function SizeLimit(w: BitWidth): int {
    SIZE_MAX / Bytes(w)
  }

  function VerifyVector(buf: seq<byte>, maxDepth: nat, st: VState, r: Reference, p: int, kind: Elements): (v: Verdict)
    requires p <= |buf| && st.numVectors <= |buf|
    requires kind != Scalar ==> r.typ != FBT_STRING && r.typ != FBT_BLOB
    ensures v.Accepted? ==> v.st.depth == st.depth && st.numVectors < v.st.numVectors <= |buf|
    ensures v.Accepted? ==> HasSize(buf, p, r.width)
    decreases |buf| - st.numVectors, 1, 0
  {
    var s1 := VState(st.depth + 1, st.numVectors + 1);
    if !(s1.depth <= maxDepth && s1.numVectors <= |buf|) then Rejected
    else if !VerifyBefore(p, Bytes(r.width)) then Rejected
    else
      var n := SizedAt(buf, p, r.width).size;
      var w := if r.typ == FBT_STRING || r.typ == FBT_BLOB then 0 else r.width;
      if !(n < SizeLimit(w)) then Rejected
      else if !VerifyFrom(buf, p, Times(n, w)) then Rejected
      else if kind == Scalar then Accepted(s1.(depth := st.depth))
      else if kind == Untyped && !VerifyFrom(buf, p + Times(n, w), n) then Rejected
      else
        var v := VerifyElements(buf, maxDepth, s1, Sized(p, r.width, n), kind, 0);
        if v.Accepted? then Accepted(v.st.(depth := st.depth)) else Rejected
  }

  /** The elements of v from index i on. */
  function VerifyElements(buf: seq<byte>, maxDepth: nat, st: VState, v: Sized, kind: Elements, i: nat): (r: Verdict)
    requires st.numVectors <= |buf| && i <= v.size && 0 <= v.data && v.data + Times(v.size, v.width) <= |buf|
    requires kind == Untyped ==> v.data + Times(v.size, v.width) + v.size <= |buf|
    ensures r.Accepted? ==> r.st.depth == st.depth && st.numVectors <= r.st.numVectors <= |buf|
    decreases |buf| - st.numVectors, 3, v.size - i
  {
    if i == v.size then Accepted(st)
    else
      var e := if kind == Untyped then Element(buf, v, i)
        else Reference(v.data + Times(i, v.width), Bytes(v.width), 0, FBT_KEY);
      var first := VerifyRef(buf, maxDepth, st, e);
      if first.Accepted? then VerifyElements(buf, maxDepth, first.st, v, kind, i + 1) else Rejected
  }

  function VerifyKeys(buf: seq<byte>, maxDepth: nat, st: VState, p: int, w: BitWidth): (v: Verdict)
    requires p <= |buf| && st.numVectors <= |buf|
    ensures v.Accepted? ==> v.st.depth == st.depth && st.numVectors <= v.st.numVectors <= |buf|
    decreases |buf| - st.numVectors, 2, 0
  {
    if !VerifyBefore(p, Times(3, w)) then Rejected
    else
      var q := p - Times(3, w);
      var off := ReadUInt64(buf, q, Bytes(w));
      if !VerifyOffset(buf, off, q) then Rejected
      else
        var keyWidth := ReadUInt64(buf, q + Bytes(w), Bytes(w)) % 256;
        if !ValidWidth(keyWidth) then Rejected
        else VerifyVector(buf, maxDepth, st, Reference(q, Bytes(w), WidthB(keyWidth), FBT_VECTOR_KEY), q - off, Keys)
  }

  /** The bit width of a byte width. */
  function WidthB(n: nat): (w: BitWidth)
    requires ValidWidth(n)
    ensures Bytes(w) == n
  {
    if n == 1 then 0 else if n == 2 then 1 else if n == 4 then 2 else 3
  }

  predicate VerifyBuffer(buf: seq<byte>, maxDepth: nat) {
    && |buf| >= 3
    && ValidWidth(buf[|buf| - 1])
    && |buf| - 2 >= buf[|buf| - 1]
    && VerifyRef(buf, maxDepth, VState(0, 0), GetRoot(buf)).Accepted?
  }
}
