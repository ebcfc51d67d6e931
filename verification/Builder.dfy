/** The flexbuffers Builder: it appends to a byte buffer and keeps a stack of unwritten values. */
module FlexBuilder {
  import opened Chunks
  import opened Scalars
  import opened Wire
  import M = BuilderModel
  import opened RoundTrip

  type Value = M.Value

  /**
   * Tries each byte width in turn; the relative offset, and so the width it needs, depends on the width tried.
   * The search always ends inside the loop.
   */
  method ElemWidth(v: Value, bufSize: nat, index: nat) returns (w: BitWidth)
    requires !IsInline(v.typ) ==> 0 <= v.num <= bufSize
    ensures w == M.ElemWidth(v, bufSize, index)
  {
    if IsInline(v.typ) {
      return v.minWidth;
    }
    var tried: BitWidth := 0;
    while true
      invariant forall k: BitWidth | k < tried :: !M.OffsetFits(v.num, bufSize, index, k)
      decreases 3 - tried
    {
      var byteWidth := Bytes(tried);
      var offsetLoc := bufSize + Padding(bufSize, byteWidth) + Times(index, tried);
      assert offsetLoc == M.OffsetLoc(bufSize, index, tried);
      WidthUAtMost(offsetLoc - v.num, tried);
      if tried > 0 {
        assert !M.OffsetFits(v.num, bufSize, index, tried - 1);
        M.OffsetLocGrows(bufSize, index, tried - 1, tried);
        PowWider(tried - 1, tried);
        WidthUAtMost(offsetLoc - v.num, tried - 1);
      }
      var bitWidth := WidthU(offsetLoc - v.num);
      if bitWidth == tried {
        return bitWidth;
      }
      assert tried < 3;
      tried := tried + 1;
    }
  }

  class Builder {
    var buf: seq<byte>
    var stack: seq<Value>
    var finished: bool

    ghost function State(): M.BState
      reads this
    {
      M.BState(buf, stack)
    }

    /** Offsets on the stack point into the part of the buffer already written. */
    ghost predicate Valid()
      reads this
    {
      forall i | 0 <= i < |stack| ::
        if IsInline(stack[i].typ) then IsInt64(stack[i].num) else 0 <= stack[i].num <= |buf|
    }

    constructor ()
      ensures Valid() && State() == EMPTY && !finished
    {
      buf, stack, finished := [], [], false;
    }

    method Clear()
      modifies this
      ensures Valid() && State() == EMPTY && !finished
    {
      buf, stack, finished := [], [], false;
    }

    method Int(i: int)
      requires Valid() && IsInt64(i)
      modifies this
      ensures Valid() && State() == M.AddInt(old(State()), i) && finished == old(finished)
    {
      stack := stack + [M.Value(i, FBT_INT, WidthI(i))];
    }

    method Key(s: seq<byte>)
      requires Valid()
      modifies this
      ensures Valid() && State() == M.AddKey(old(State()), s) && finished == old(finished)
    {
      var sloc := |buf|;
      buf := buf + s + [0];
      stack := stack + [M.Value(sloc, FBT_KEY, 0)];
    }

    method Blob(b: seq<byte>)
      requires Valid()
      modifies this
      ensures Valid() && State() == M.AddBlob(old(State()), b) && finished == old(finished)
    {
      var bitWidth := WidthU(|b|);
      Align(bitWidth);
      Write(|b|, bitWidth);
      var sloc := |buf|;
      buf := buf + b;
      stack := stack + [M.Value(sloc, FBT_BLOB, bitWidth)];
    }

    /** A typed vector of integers of 1 << w bytes each; its length field has the same width. */
    method ScalarVector(w: BitWidth, xs: seq<int>)
      requires Valid() && WidthU(|xs|) <= w
      modifies this
      ensures Valid() && State() == M.AddIntVec(old(State()), w, xs) && finished == old(finished)
    {
      Align(w);
      Write(|xs|, w);
      var vloc := |buf|;
      WriteScalars(w, xs);
      stack := stack + [M.Value(vloc, FBT_VECTOR_INT, w)];
    }

    method WriteScalars(w: BitWidth, xs: seq<int>)
      modifies this`buf
      ensures buf == old(buf) + Flat(M.ScalarChunks(xs, w))
    {
      hide ToLE, Bytes;
      for i := 0 to |xs|
        invariant buf == old(buf) + Flat(M.ScalarChunks(xs[..i], w))
      {
        ghost var chunks := M.ScalarChunks(xs[..i + 1], w);
        assert chunks[..i] == M.ScalarChunks(xs[..i], w);
        Write(xs[i], w);
      }
      assert xs[..|xs|] == xs;
    }

    function StartVector(): nat
      reads this
    {
      |stack|
    }

    method EndVector(start: nat)
      requires Valid() && start <= |stack| && |M.EndVector(State(), start).buf| < TWO64
      modifies this
      ensures Valid() && State() == M.EndVector(old(State()), start) && finished == old(finished)
    {
      var vec := CreateVector(start);
      stack := stack[..start] + [vec];
    }

    /** Writes the values from start on as one untyped vector, all in the width the widest of them needs. */
    method CreateVector(start: nat) returns (vec: Value)
      requires Valid() && start <= |stack| && |M.CreateVector(buf, stack[start..]).0| < TWO64
      modifies this`buf
      ensures (buf, vec) == M.CreateVector(old(buf), stack[start..])
    {
      hide ToLE, Bytes, Padding, M.WidthUpTo, M.ElemWidth, Flat;
      var bitWidth := MeasureWidth(start);
      Align(bitWidth);
      Write(|stack| - start, bitWidth);
      var vloc := |buf|;
      WriteElements(start, bitWidth, old(buf));
      WriteTypes(start, bitWidth);
      vec := M.Value(vloc, FBT_VECTOR, bitWidth);
    }

    method MeasureWidth(start: nat) returns (bitWidth: BitWidth)
      requires Valid() && start <= |stack|
      ensures bitWidth == M.VectorWidth(stack[start..], |buf|)
    {
      hide M.ElemWidth, M.OffsetFits, Padding, Pow256, Bytes, Times;
      ghost var vals := stack[start..];
      bitWidth := WidthU(|stack| - start);
      for i := start to |stack|
        invariant bitWidth == M.WidthUpTo(vals, |buf|, i - start)
      {
        var elemWidth := ElemWidth(stack[i], |buf|, i - start + 1);
        bitWidth := Max(bitWidth, elemWidth);
      }
    }

    method WriteElements(start: nat, w: BitWidth, ghost before: seq<byte>)
      requires start <= |stack| && |M.CreateVector(before, stack[start..]).0| < TWO64
      requires w == M.CreateVector(before, stack[start..]).1.minWidth
        && |buf| == M.CreateVector(before, stack[start..]).1.num
      requires forall i | start <= i < |stack| :: !IsInline(stack[i].typ) ==> 0 <= stack[i].num <= |before|
      modifies this`buf
      ensures buf == old(buf) + Flat(M.ElemChunks(stack[start..], |old(buf)|, w))
    {
      hide ToLE, Bytes, Padding, M.CreateVector, M.AnyBytes, M.ElemChunks, Flat, Times;
      ghost var vals := stack[start..];
      ghost var at := |buf|;
      NoChunks(at, w);
      assert vals[..0] == [];
      for i := start to |stack|
        invariant |buf| == at + Times(i - start, w)
        invariant buf == old(buf) + Flat(M.ElemChunks(vals[..i - start], at, w))
      {
        VectorElementFits(before, vals, i - start);
        NextChunk(vals, at, w, i - start);
        WriteAny(stack[i], w);
      }
      assert vals[..|stack| - start] == vals;
    }

    method WriteTypes(start: nat, w: BitWidth)
      requires start <= |stack|
      modifies this`buf
      ensures buf == old(buf) + M.TypeBytes(stack[start..], w)
    {
      ghost var vals := stack[start..];
      for i := start to |stack|
        invariant buf == old(buf) + M.TypeBytes(vals, w)[..i - start]
      {
        buf := buf + [M.StoredPackedType(stack[i], w)];
      }
    }

    method Finish()
      requires Valid() && |stack| == 1 && |M.Finish(State())| < TWO64
      modifies this
      ensures buf == M.Finish(old(State())) && stack == old(stack) && finished
    {
      var bitWidth := ElemWidth(stack[0], |buf|, 0);
      Align(bitWidth);
      RootFits(old(State()));
      WriteAny(stack[0], bitWidth);
      buf := buf + [M.StoredPackedType(stack[0], 0)];
      buf := buf + [Bytes(bitWidth)];
      finished := true;
    }

    // ------------------------------------------------------------ writing

    method Align(w: BitWidth)
      modifies this`buf
      ensures buf == M.Align(old(buf), w)
    {
      buf := buf + Zeros(Padding(|buf|, Bytes(w)));
    }

    function Zeros(n: nat): seq<byte> {
      M.Zeros(n)
    }

    method Write(x: int, w: BitWidth)
      modifies this`buf
      ensures buf == old(buf) + ToLE(x, Bytes(w))
    {
      buf := buf + ToLE(x, Bytes(w));
    }

    /** The precondition on the distance is the assertion the source makes here. */
    method WriteOffset(o: nat, w: BitWidth)
      requires o <= |buf| && (w == 3 || |buf| - o < Pow256(Bytes(w)))
      modifies this`buf
      ensures buf == old(buf) + ToLE(|old(buf)| - o, Bytes(w))
    {
      var reloff := |buf| - o;
      Write(reloff, w);
    }

    method WriteAny(v: Value, w: BitWidth)
      requires !IsInline(v.typ) ==> 0 <= v.num <= |buf| && (w == 3 || |buf| - v.num < Pow256(Bytes(w)))
      modifies this`buf
      ensures buf == old(buf) + M.AnyBytes(v, |old(buf)|, w)
    {
      if IsInline(v.typ) {
        Write(v.num, w);
      } else {
        WriteOffset(v.num, w);
      }
    }
  }

  /** No offset written by CreateVector trips the assertion in WriteOffset. */
  lemma {:induction false} VectorElementFits(buf: seq<byte>, vals: seq<Value>, j: nat)
    requires j < |vals| && (!IsInline(vals[j].typ) ==> 0 <= vals[j].num <= |buf|)
    requires |M.CreateVector(buf, vals).0| < TWO64
    ensures var (big, vec) := M.CreateVector(buf, vals);
      !IsInline(vals[j].typ) ==>
        vals[j].num <= vec.num + Times(j, vec.minWidth)
        && vec.num + Times(j, vec.minWidth) - vals[j].num < Pow256(Bytes(vec.minWidth))
  {
    if !IsInline(vals[j].typ) {
      VectorHeader(buf, vals);
      VectorElementBytes(buf, vals, j);
      var w := M.CreateVector(buf, vals).1.minWidth;
      ElementOffsetFits(vals[j], |buf|, j, w);
    }
  }

  lemma {:induction false} NoChunks(at: nat, w: BitWidth)
    ensures M.ElemChunks([], at, w) == [] && Flat<byte>([]) == [] && Times(0, w) == 0
  {
  }

  lemma {:induction false} NextChunk(vals: seq<Value>, at: nat, w: BitWidth, j: nat)
    requires j < |vals|
    ensures Flat(M.ElemChunks(vals[..j + 1], at, w))
         == Flat(M.ElemChunks(vals[..j], at, w)) + M.AnyBytes(vals[j], at + Times(j, w), w)
    ensures Times(j + 1, w) == Times(j, w) + Bytes(w)
  {
    hide M.AnyBytes;
    var chunks := M.ElemChunks(vals[..j + 1], at, w);
    assert chunks[..j] == M.ElemChunks(vals[..j], at, w);
    assert chunks[j] == M.AnyBytes(vals[j], at + Times(j, w), w);
  }

  lemma {:induction false} RootFits(st: M.BState)
    requires |st.stack| == 1 && |M.Finish(st)| < TWO64
    requires !IsInline(st.stack[0].typ) ==> 0 <= st.stack[0].num <= |st.buf|
    ensures var v := st.stack[0]; var w := M.ElemWidth(v, |st.buf|, 0);
      !IsInline(v.typ) ==> |M.Align(st.buf, w)| - v.num < Pow256(Bytes(w))
  {
    var w := M.ElemWidth(st.stack[0], |st.buf|, 0);
    Pow256Values();
    assert |M.Align(st.buf, w)| == M.OffsetLoc(|st.buf|, 0, w);
  }
}
