/** The flexbuffers Verifier: a walk over a buffer that may hold anything; no step reads outside it. */
module FlexVerifier {
  import opened Scalars
  import opened Wire
  import M = VerifierModel
  import VerifierSound

  class Verifier {
    const buf: seq<byte>
    const maxDepth: nat
    var depth: nat
    var numVectors: nat

    constructor (buf: seq<byte>, maxDepth: nat)
      ensures this.buf == buf && this.maxDepth == maxDepth && State() == M.VState(0, 0)
    {
      this.buf, this.maxDepth, depth, numVectors := buf, maxDepth, 0, 0;
    }

    ghost function State(): M.VState
      reads this
    {
      M.VState(depth, numVectors)
    }

    /** The walk agrees with the verdict v; the fields are only meaningful after success. */
    ghost predicate Agrees(ok: bool, v: M.Verdict)
      reads this
    {
      ok == v.Accepted? && (ok ==> State() == v.st)
    }

    method VerifyBuffer() returns (ok: bool)
      requires State() == M.VState(0, 0)
      modifies this
      ensures ok == M.VerifyBuffer(buf, maxDepth)
      ensures ok ==> VerifierSound.Safe(buf, GetRoot(buf), maxDepth)
    {
      hide M.VerifyRef, VerifierSound.Safe;
      if |buf| < 3 {
        return false;
      }
      var byteWidth := buf[|buf| - 1];
      if !ValidWidth(byteWidth) || |buf| - 2 < byteWidth {
        return false;
      }
      ok := VerifyRef(GetRoot(buf));
      if ok {
        VerifierSound.AcceptedIsSafe(buf, maxDepth);
      }
    }

    method VerifyRef(r: Reference) returns (ok: bool)
      requires M.ValidRef(buf, r) && numVectors <= |buf|
      modifies this
      ensures Agrees(ok, M.VerifyRef(buf, maxDepth, old(State()), r))
      decreases |buf| - numVectors, 2, 0
    {
      hide M.VerifyVector, M.VerifyKeys, M.VerifyKey, FromLE;
      if !(0 <= r.typ < FBT_MAX_TYPE) {
        return false;
      }
      if IsInline(r.typ) {
        return true;
      }
      var off := ReadUInt64(buf, r.data, r.parentWidth);
      if !M.VerifyOffset(buf, off, r.data) {
        return false;
      }
      var p := Indirect(buf, r);
      if p % Bytes(r.width) != 0 {
        return false;
      }
      if M.FBT_STRING < r.typ <= M.FBT_INDIRECT_FLOAT {
        ok := M.VerifyFrom(buf, p, Bytes(r.width));
      } else if r.typ == FBT_KEY {
        ok := VerifyKey(p);
      } else if r.typ == FBT_MAP {
        ok := VerifyVector(r, p, M.Untyped);
        if ok {
          ok := VerifyKeys(p, r.width);
        }
      } else if r.typ == M.FBT_STRING {
        ok := VerifyVector(r, p, M.Scalar);
        if ok {
          ok := M.VerifyFrom(buf, p, SizedAt(buf, p, r.width).size + 1);
        }
      } else if M.FBT_VECTOR_INT2 <= r.typ <= M.FBT_VECTOR_FLOAT4 {
        ok := M.VerifyFrom(buf, p, Times((r.typ - M.FBT_VECTOR_INT2) / 3 + 2, r.width));
      } else if r.typ == FBT_VECTOR {
        ok := VerifyVector(r, p, M.Untyped);
      } else if r.typ == M.FBT_VECTOR_KEY || r.typ == M.FBT_VECTOR_STRING_DEPRECATED {
        ok := VerifyVector(r, p, M.Keys);
      } else if FBT_VECTOR_INT <= r.typ < M.FBT_VECTOR_KEY || r.typ == FBT_BLOB || r.typ == M.FBT_VECTOR_BOOL {
        ok := VerifyVector(r, p, M.Scalar);
      } else {
        ok := false;
      }
    }

    method VerifyKey(start: nat) returns (ok: bool)
      ensures ok == M.VerifyKey(buf, start)
    {
      var p := start;
      while p < |buf|
        invariant start <= p && M.VerifyKey(buf, start) == M.VerifyKey(buf, p)
      {
        if buf[p] != 0 {
          return true;
        }
        p := p + 1;
      }
      return false;
    }

    method VerifyVector(r: Reference, p: int, kind: M.Elements) returns (ok: bool)
      requires p <= |buf| && numVectors <= |buf|
      requires kind != M.Scalar ==> r.typ != M.FBT_STRING && r.typ != FBT_BLOB
      modifies this
      ensures Agrees(ok, M.VerifyVector(buf, maxDepth, old(State()), r, p, kind))
      decreases |buf| - numVectors, 1, 0
    {
      hide M.VerifyElements, FromLE;
      depth := depth + 1;
      numVectors := numVectors + 1;
      if !(depth <= maxDepth && numVectors <= |buf|) || !M.VerifyBefore(p, Bytes(r.width)) {
        return false;
      }
      var n := SizedAt(buf, p, r.width).size;
      var w: BitWidth := if r.typ == M.FBT_STRING || r.typ == FBT_BLOB then 0 else r.width;
      if !(n < M.SIZE_MAX / Bytes(w)) || !M.VerifyFrom(buf, p, Times(n, w)) {
        return false;
      }
      if kind != M.Scalar {
        if kind == M.Untyped && !M.VerifyFrom(buf, p + Times(n, w), n) {
          return false;
        }
        ok := VerifyElements(Sized(p, r.width, n), kind);
        if !ok {
          return false;
        }
      }
      depth := depth - 1;
      return true;
    }

    method VerifyElements(v: Sized, kind: M.Elements) returns (ok: bool)
      requires numVectors <= |buf| && 0 <= v.data && v.data + Times(v.size, v.width) <= |buf|
      requires kind == M.Untyped ==> v.data + Times(v.size, v.width) + v.size <= |buf|
      modifies this
      ensures Agrees(ok, M.VerifyElements(buf, maxDepth, old(State()), v, kind, 0))
      decreases |buf| - numVectors, 3, v.size
    {
      hide M.VerifyRef, FromLE;
      ghost var all := M.VerifyElements(buf, maxDepth, State(), v, kind, 0);
      for i := 0 to v.size
        invariant old(numVectors) <= numVectors <= |buf|
        invariant M.VerifyElements(buf, maxDepth, State(), v, kind, i) == all
      {
        var e := if kind == M.Untyped then Element(buf, v, i)
                 else Reference(v.data + Times(i, v.width), Bytes(v.width), 0, FBT_KEY);
        ok := VerifyRef(e);
        if !ok {
          return false;
        }
      }
      return true;
    }

    method VerifyKeys(p: int, w: BitWidth) returns (ok: bool)
      requires p <= |buf| && numVectors <= |buf|
      modifies this
      ensures Agrees(ok, M.VerifyKeys(buf, maxDepth, old(State()), p, w))
      decreases |buf| - numVectors, 2, 0
    {
      hide M.VerifyVector, FromLE;
      if !M.VerifyBefore(p, Times(3, w)) {
        return false;
      }
      var q := p - Times(3, w);
      var off := ReadUInt64(buf, q, Bytes(w));
      if !M.VerifyOffset(buf, off, q) {
        return false;
      }
      var keyWidth := ReadUInt64(buf, q + Bytes(w), Bytes(w)) % 256;
      if !ValidWidth(keyWidth) {
        return false;
      }
      ok := VerifyVector(Reference(q, Bytes(w), M.WidthB(keyWidth), M.FBT_VECTOR_KEY), q - off, M.Keys);
    }
  }
}
