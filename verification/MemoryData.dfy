/** A data field of the memory backend: one buffer per time slice, or a single buffer. */
module MemoryData {
  import opened Chunks
  import opened DataTypes
  import opened Scalars
  import opened Shapes

  const UNMAPPED := 1
  const MAPPED := 2
  const SLICE_MAPPED := 3

  /** All dimensions but the last, which is time. */
  function Lead(dims: seq<nat>): seq<nat> {
    if dims == [] then [] else dims[..|dims| - 1]
  }

  /** Bytes of an array. */
  function DataBytes(typ: int, dims: seq<nat>): nat {
    Product(dims) * ItemSize(typ)
  }

  /** Bytes of one slice. */
  function SliceBytes(typ: int, dims: seq<nat>): nat {
    DataBytes(typ, Lead(dims))
  }

  datatype State = State(timed: bool, typ: int, mapState: int, dims: seq<nat>, bufs: seq<seq<byte>>, timebase: string)

  // ------------------------------------------------------------- operations

  lemma {:induction false} TotalBytes(typ: int, dims: seq<nat>)
    requires dims != []
    ensures DataBytes(typ, dims) == dims[|dims| - 1] * SliceBytes(typ, dims)
  {
    var p, n, z := Product(dims[..|dims| - 1]), dims[|dims| - 1], ItemSize(typ);
    assert p * n * z == n * (p * z);
  }

  /** The state after data of the given shape is stored; a time base makes it sliced. */
  function Written(typ: int, dims: seq<nat>, buf: seq<byte>, timebase: string): State
    requires |buf| == DataBytes(typ, dims)
  {
    if timebase == "" then State(false, typ, MAPPED, dims, [buf], timebase)
    else if dims == [] then State(true, typ, MAPPED, [1], [buf], timebase)
    else
      TotalBytes(typ, dims);
      State(true, typ, MAPPED, dims, Split(buf, SliceBytes(typ, dims), dims[|dims| - 1]), timebase)
  }

  /** The shape a further slice makes the field take. */
  function Reshaped(st: State, typ: int, dims: seq<nat>): (r: State)
    ensures (st.bufs != [] ==> st.dims != []) ==> r.dims != []
  {
    var s1 := st.(timed := true, mapState := if st.mapState == UNMAPPED then SLICE_MAPPED else st.mapState);
    if st.bufs == [] then s1.(typ := typ, dims := Lead(dims) + [0]) else s1
  }

  /** One more slice; dims is its shape, its last dimension is not looked at. */
  function WithSlice(st: State, typ: int, dims: seq<nat>, slice: seq<byte>): State
    requires st.bufs != [] ==> st.dims != []
  {
    var s1 := Reshaped(st, typ, dims);
    var last := |s1.dims| - 1;
    s1.(dims := s1.dims[..last] + [s1.dims[last] + 1], bufs := s1.bufs + [slice])
  }

  /** What readData returns: the type, the shape and the bytes. */
  function ReadBack(st: State): Option<(int, seq<nat>, seq<byte>)> {
    if st.mapState != MAPPED || st.bufs == [] then None
    else if st.timed then Some((st.typ, st.dims, Flat(st.bufs)))
    else Some((st.typ, st.dims, st.bufs[0]))
  }

  /** Every buffer is long enough to copy a slice from. */
  predicate Sliceable(st: State) {
    forall i | 0 <= i < |st.bufs| :: SliceBytes(st.typ, st.dims) <= |st.bufs[i]|
  }

  /** What readSlice returns; past the last slice it returns the last. */
  function SliceAt(st: State, i: nat): Option<(int, seq<nat>, seq<byte>)>
    requires Sliceable(st)
  {
    if st.mapState != MAPPED || st.bufs == [] then None
    else
      var k := if i >= |st.bufs| then |st.bufs| - 1 else i;
      Some((st.typ, if st.dims == [] then [] else Lead(st.dims) + [1], st.bufs[k][..SliceBytes(st.typ, st.dims)]))
  }

  /**
   * How the fields fit together: one buffer per index of the last dimension, each as long as a slice;
   * without time a single buffer for all the data.
   */
  ghost predicate Consistent(st: State) {
    st.bufs != [] ==>
      if st.timed then
        st.dims != [] && |st.bufs| == st.dims[|st.dims| - 1] && Shaped(st.bufs, SliceBytes(st.typ, st.dims))
      else
        |st.bufs| == 1 && |st.bufs[0]| == DataBytes(st.typ, st.dims)
  }

  // ---------------------------------------------------------------- results

  /** Reading after a write gives back what was written, unless a sliced field was given no slices. */
  lemma {:induction false} WriteThenRead(typ: int, dims: seq<nat>, buf: seq<byte>, timebase: string)
    requires |buf| == DataBytes(typ, dims)
    ensures Consistent(Written(typ, dims, buf, timebase))
    ensures ReadBack(Written(typ, dims, buf, timebase)) ==
      if timebase != "" && dims != [] && dims[|dims| - 1] == 0 then None
      else Some((typ, if timebase != "" && dims == [] then [1] else dims, buf))
  {
    if timebase != "" {
      if dims == [] {
        assert Flat([buf]) == buf;
        assert Product([]) == 1;
        assert [1][..0] == [];
      } else {
        TotalBytes(typ, dims);
        FlatSplit(buf, SliceBytes(typ, dims), dims[|dims| - 1]);
      }
    }
  }

  /** A slice appended to a stored field is the same as storing the longer field at once. */
  lemma {:induction false} AppendIsWrite(typ: int, lead: seq<nat>, n: nat, buf: seq<byte>, slice: seq<byte>,
      timebase: string)
    requires timebase != "" && |slice| == DataBytes(typ, lead)
    requires |buf| == DataBytes(typ, lead + [n])
    ensures |buf + slice| == DataBytes(typ, lead + [n + 1])
    ensures WithSlice(Written(typ, lead + [n], buf, timebase), typ, lead + [1], slice)
         == Written(typ, lead + [n + 1], buf + slice, timebase)
  {
    var a, b := lead + [n], lead + [n + 1];
    assert a[..|a| - 1] == lead && b[..|b| - 1] == lead;
    TotalBytes(typ, a);
    TotalBytes(typ, b);
    SplitAppend(buf, slice, n);
    assert (lead + [1])[..|lead|] == lead;
  }

  /** Appends one slice after the other. */
  function WithSlices(st: State, typ: int, lead: seq<nat>, slices: seq<seq<byte>>): (r: State)
    requires st.bufs != [] ==> st.dims != []
    ensures r.bufs != [] ==> r.dims != []
    ensures slices != [] ==> r.bufs != []
  {
    if slices == [] then st
    else WithSlice(WithSlices(st, typ, lead, slices[..|slices| - 1]), typ, lead + [1], slices[|slices| - 1])
  }

  /** Any run of appends equals one write of the concatenation along the last axis. */
  lemma {:induction false} AppendsAreOneWrite(typ: int, lead: seq<nat>, n: nat, buf: seq<byte>, slices: seq<seq<byte>>,
      timebase: string)
    requires timebase != "" && Shaped(slices, DataBytes(typ, lead))
    requires |buf| == DataBytes(typ, lead + [n])
    ensures |buf + Flat(slices)| == DataBytes(typ, lead + [n + |slices|])
    ensures WithSlices(Written(typ, lead + [n], buf, timebase), typ, lead, slices)
         == Written(typ, lead + [n + |slices|], buf + Flat(slices), timebase)
    decreases |slices|
  {
    hide DataBytes, Split, WithSlice, Written;
    if slices == [] {
      assert buf + Flat(slices) == buf;
    } else {
      var front, last := slices[..|slices| - 1], slices[|slices| - 1];
      AppendsAreOneWrite(typ, lead, n, buf, front, timebase);
      AppendIsWrite(typ, lead, n + |front|, buf + Flat(front), last, timebase);
      assert buf + Flat(slices) == (buf + Flat(front)) + last;
    }
  }

  /** Slices appended to a field nothing was stored in: they are held in order, but a read does not return them. */
  lemma {:induction false} FreshAppends(typ: int, lead: seq<nat>, slices: seq<seq<byte>>)
    requires slices != []
    ensures var st := WithSlices(State(false, 0, UNMAPPED, [], [], ""), typ, lead, slices);
      st == State(true, typ, SLICE_MAPPED, lead + [|slices|], slices, "") && ReadBack(st) == None
  {
    hide WithSlice, Lead;
    var front, last := slices[..|slices| - 1], slices[|slices| - 1];
    if front == [] {
      FirstSlice(typ, lead, last);
      assert slices == [last];
    } else {
      FreshAppends(typ, lead, front);
      LaterSlice(typ, lead, front, last);
      assert slices == front + [last];
    }
  }

  lemma {:induction false} FirstSlice(typ: int, lead: seq<nat>, slice: seq<byte>)
    ensures WithSlice(State(false, 0, UNMAPPED, [], [], ""), typ, lead + [1], slice)
         == State(true, typ, SLICE_MAPPED, lead + [1], [slice], "")
  {
    assert Lead(lead + [1]) == lead;
    assert (lead + [0])[..|lead|] == lead;
  }

  lemma {:induction false} LaterSlice(typ: int, lead: seq<nat>, front: seq<seq<byte>>, slice: seq<byte>)
    requires front != []
    ensures WithSlice(State(true, typ, SLICE_MAPPED, lead + [|front|], front, ""), typ, lead + [1], slice)
         == State(true, typ, SLICE_MAPPED, lead + [|front| + 1], front + [slice], "")
  {
    assert (lead + [|front|])[..|lead|] == lead;
  }

  /** Slice k of data stored back to back. */
  function Piece(buf: seq<byte>, size: nat, k: nat): (r: seq<byte>)
    requires k * size + size <= |buf|
    ensures |r| == size
  {
    buf[k * size..k * size + size]
  }

  lemma {:induction false} PieceInside(n: nat, size: nat, k: nat)
    requires k < n
    ensures 0 <= k * size <= k * size + size <= n * size
  {
    MultipleAtLeast(n - k, size);
    assert n * size == k * size + (n - k) * size;
  }

  lemma {:induction false} SplitPiece(buf: seq<byte>, size: nat, n: nat, k: nat)
    requires |buf| == n * size && k < n
    ensures k * size + size <= |buf| && Split(buf, size, n)[k] == Piece(buf, size, k)
  {
    FlatSplit(buf, size, n);
    FlatAt(Split(buf, size, n), size, k);
  }

  lemma {:induction false} WrittenTimed(typ: int, lead: seq<nat>, n: nat, buf: seq<byte>, timebase: string)
    requires timebase != "" && |buf| == DataBytes(typ, lead + [n])
    ensures var size := DataBytes(typ, lead);
      && |buf| == n * size && SliceBytes(typ, lead + [n]) == size
      && Written(typ, lead + [n], buf, timebase) == State(true, typ, MAPPED, lead + [n], Split(buf, size, n), timebase)
  {
    hide DataBytes, Split;
    assert Lead(lead + [n]) == lead;
    TotalBytes(typ, lead + [n]);
  }

  /** After a write, slice i is the i-th stretch of the data, and past the end the last; an empty field has none. */
  lemma {:induction false} SliceAfterWrite(typ: int, lead: seq<nat>, n: nat, buf: seq<byte>, timebase: string, i: nat)
    requires timebase != "" && |buf| == DataBytes(typ, lead + [n])
    ensures var st, size := Written(typ, lead + [n], buf, timebase), DataBytes(typ, lead);
      var k := if i < n then i else n - 1;
      && Sliceable(st) && |buf| == n * size
      && (n == 0 ==> SliceAt(st, i) == None)
      && (n > 0 ==> k * size + size <= |buf| && SliceAt(st, i) == Some((typ, lead + [1], Piece(buf, size, k))))
  {
    hide DataBytes, Split, SliceBytes, Written, Piece;
    WrittenTimed(typ, lead, n, buf, timebase);
    assert Lead(lead + [n]) == lead;
    if n > 0 {
      var size, k := DataBytes(typ, lead), if i < n then i else n - 1;
      SplitPiece(buf, size, n, k);
      assert Piece(buf, size, k)[..size] == Piece(buf, size, k);
    }
  }

  /** After any run of appends, the written slices keep their places and the appended ones follow. */
  lemma {:induction false} SliceAfterAppends(typ: int, lead: seq<nat>, n: nat, buf: seq<byte>, slices: seq<seq<byte>>,
      timebase: string, i: nat)
    requires timebase != "" && Shaped(slices, DataBytes(typ, lead))
    requires |buf| == DataBytes(typ, lead + [n]) && n + |slices| > 0
    ensures var size := DataBytes(typ, lead);
      var st := WithSlices(Written(typ, lead + [n], buf, timebase), typ, lead, slices);
      var k := if i < n + |slices| then i else n + |slices| - 1;
      && Sliceable(st) && |buf| == n * size && (k < n ==> k * size + size <= |buf|)
      && SliceAt(st, i) == Some((typ, lead + [1], if k < n then Piece(buf, size, k) else slices[k - n]))
  {
    hide DataBytes, SliceAt, Sliceable, Written, WithSlices, Flat, Piece, SliceBytes;
    var size, m := DataBytes(typ, lead), n + |slices|;
    var k := if i < m then i else m - 1;
    AppendsAreOneWrite(typ, lead, n, buf, slices, timebase);
    SliceAfterWrite(typ, lead, m, buf + Flat(slices), timebase, i);
    WrittenTimed(typ, lead, n, buf, timebase);
    PieceOfBoth(buf, slices, size, n, k);
  }

  /** A piece of data and appended slices is a piece of the data or a slice. */
  lemma {:induction false} PieceOfBoth(buf: seq<byte>, slices: seq<seq<byte>>, size: nat, n: nat, k: nat)
    requires |buf| == n * size && Shaped(slices, size) && k < n + |slices| && k * size + size <= |buf + Flat(slices)|
    ensures k < n ==> k * size + size <= |buf|
    ensures Piece(buf + Flat(slices), size, k) == if k < n then Piece(buf, size, k) else slices[k - n]
  {
    hide Flat, Piece;
    if k < n {
      PieceInside(n, size, k);
      FrontPiece(buf, Flat(slices), size, k);
    } else {
      FlatAt(slices, size, k - n);
      Distribute(n, k - n, size);
      BackPiece(buf, Flat(slices), (k - n) * size, size, k);
    }
  }

  lemma {:induction false} FrontPiece(a: seq<byte>, b: seq<byte>, size: nat, k: nat)
    requires k * size + size <= |a|
    ensures Piece(a + b, size, k) == Piece(a, size, k)
  {
  }

  lemma {:induction false} BackPiece(a: seq<byte>, b: seq<byte>, at: nat, size: nat, k: nat)
    requires k * size == |a| + at && at + size <= |b|
    ensures Piece(a + b, size, k) == b[at..at + size]
  {
  }

  lemma {:induction false} Distribute(a: nat, b: nat, size: nat)
    ensures (a + b) * size == a * size + b * size
  {
  }

  lemma {:induction false} SliceOfWhole(typ: int, dims: seq<nat>)
    requires dims != [] ==> dims[|dims| - 1] > 0
    ensures SliceBytes(typ, dims) <= DataBytes(typ, dims)
  {
    hide DataBytes, SliceBytes;
    if dims == [] {
      SliceOfScalar(typ);
    } else {
      TotalBytes(typ, dims);
      MultipleAtLeast(dims[|dims| - 1], SliceBytes(typ, dims));
    }
  }

  lemma {:induction false} SliceOfScalar(typ: int)
    ensures SliceBytes(typ, []) == DataBytes(typ, [])
  {
  }

  /** A stored field without time answers every index with its first slice. */
  lemma {:induction false} SliceOfUntimed(st: State, i: nat)
    requires Consistent(st) && !st.timed && st.mapState == MAPPED && st.bufs != []
    requires st.dims != [] ==> st.dims[|st.dims| - 1] > 0
    ensures Sliceable(st)
    ensures SliceAt(st, i) == Some((st.typ, if st.dims == [] then [] else Lead(st.dims) + [1],
                                    st.bufs[0][..SliceBytes(st.typ, st.dims)]))
  {
    hide DataBytes, SliceBytes;
    SliceOfWhole(st.typ, st.dims);
  }

  /**
   * Appending a slice of the right length keeps the fields consistent, except that a field stored without
   * a time base is corrupted unless its last dimension was 1.
   */
  lemma {:induction false} AppendKeepsConsistency(st: State, slice: seq<byte>)
    requires Consistent(st) && st.bufs != [] && st.dims != []
    requires |slice| == SliceBytes(st.typ, st.dims)
    ensures Consistent(WithSlice(st, st.typ, st.dims, slice)) <==> st.timed || st.dims[|st.dims| - 1] == 1
  {
    hide DataBytes;
    var r := WithSlice(st, st.typ, st.dims, slice);
    var last := |st.dims| - 1;
    assert r.dims[..last] == st.dims[..last];
    TotalBytes(st.typ, st.dims);
    if !st.timed {
      assert r.bufs == [st.bufs[0], slice];
      assert Consistent(r) <==> 2 == st.dims[last] + 1 && Shaped(r.bufs, |slice|);
    }
  }

  /** Two characters stored without a time base and one appended: three slices are announced, two are held. */
  lemma {:induction false} CorruptedExample() returns (st: State)
    ensures st == Written(CHAR_DATA, [2], [65, 66], "") && Consistent(st)
    ensures var r := WithSlice(st, CHAR_DATA, [1], [67]); r.dims == [3] && r.bufs == [[65, 66], [67]] && !Consistent(r)
  {
    var dims: seq<nat> := [2];
    assert dims[..0] == [] && Product(dims) == Product(dims[..0]) * 2;
    st := Written(CHAR_DATA, dims, [65, 66], "");
  }

  // ------------------------------------------------------------- the object

  class ALData {
    var timed: bool
    var typ: int
    var mapState: int
    var dimensionV: seq<nat>
    var bufV: seq<seq<byte>>
    var timebase: string

    ghost function Value(): State
      reads this
    {
      State(timed, typ, mapState, dimensionV, bufV, timebase)
    }

    constructor ()
      ensures Value() == State(false, 0, UNMAPPED, [], [], "")
    {
      timed, typ, mapState, dimensionV, bufV, timebase := false, 0, UNMAPPED, [], [], "";
    }

    method WriteData(typ: int, dims: seq<nat>, buf: seq<byte>, timebase: string)
      requires |buf| == DataBytes(typ, dims)
      modifies this
      ensures Value() == Written(typ, dims, buf, timebase)
    {
      bufV := [];
      mapState := MAPPED;
      this.typ := typ;
      this.timebase := timebase;
      timed := timebase != "";
      dimensionV := dims;
      if timed {
        if |dims| == 0 {
          bufV := bufV + [buf];
          dimensionV := dimensionV + [1];
        } else {
          TotalBytes(typ, dims);
          var sliceSize := SliceBytes(typ, dims);
          CutSlices(buf, sliceSize, dims[|dims| - 1]);
        }
      } else {
        bufV := bufV + [buf];
      }
    }

    method CutSlices(buf: seq<byte>, size: nat, n: nat)
      requires |buf| == n * size && bufV == []
      modifies this`bufV
      ensures bufV == Split(buf, size, n)
    {
      FlatSplit(buf, size, n);
      ghost var all := Split(buf, size, n);
      for i := 0 to n
        invariant bufV == all[..i]
      {
        FlatAt(all, size, i);
        bufV := bufV + [buf[i * size..i * size + size]];
      }
    }

    method AddSlice(typ: int, dims: seq<nat>, slice: seq<byte>)
      requires bufV != [] ==> dimensionV != []
      requires |slice| == SliceBytes(typ, Reshaped(Value(), typ, dims).dims)
      modifies this
      ensures Value() == WithSlice(old(Value()), typ, dims, slice)
    {
      hide DataBytes;
      ghost var reshaped := Reshaped(Value(), typ, dims);
      if mapState == UNMAPPED {
        mapState := SLICE_MAPPED;
      }
      timed := true;
      if |bufV| == 0 {
        this.typ := typ;
        dimensionV := Lead(dims);
        dimensionV := dimensionV + [0];
      }
      assert Value() == reshaped;
      var last := |dimensionV| - 1;
      dimensionV := dimensionV[..last] + [dimensionV[last] + 1];
      bufV := bufV + [slice];
    }

    /** A copy with its own fields. */
    method Clone() returns (c: ALData)
      ensures fresh(c) && c.Value() == Value()
    {
      c := new ALData();
      c.timed, c.typ, c.mapState := timed, typ, mapState;
      c.dimensionV, c.bufV, c.timebase := dimensionV, bufV, timebase;
    }

    method ReadData() returns (r: Option<(int, seq<nat>, seq<byte>)>)
      requires Consistent(Value())
      ensures r == ReadBack(Value())
    {
      if mapState != MAPPED || |bufV| == 0 {
        return None;
      }
      if timed {
        var out: seq<byte> := [];
        for i := 0 to |bufV|
          invariant out == Flat(bufV[..i])
        {
          assert bufV[..i + 1][..i] == bufV[..i];
          out := out + bufV[i];
        }
        assert bufV[..|bufV|] == bufV;
        return Some((typ, dimensionV, out));
      }
      return Some((typ, dimensionV, bufV[0]));
    }

    method ReadSlice(sliceIdx: nat) returns (r: Option<(int, seq<nat>, seq<byte>)>)
      requires Sliceable(Value())
      ensures r == SliceAt(Value(), sliceIdx)
    {
      hide ItemSize;
      if mapState != MAPPED || |bufV| == 0 {
        return None;
      }
      var idx := sliceIdx;
      if idx >= |bufV| {
        idx := |bufV| - 1;
      }
      var sliceSize := 1;
      var last := if |dimensionV| == 0 then 0 else |dimensionV| - 1;
      for i := 0 to last
        invariant sliceSize == Product(dimensionV[..i])
      {
        assert dimensionV[..i + 1][..i] == dimensionV[..i];
        sliceSize := sliceSize * dimensionV[i];
      }
      assert dimensionV[..last] == Lead(dimensionV);
      var currBuf := bufV[idx][..sliceSize * ItemSize(typ)];
      return Some((typ, if |dimensionV| == 0 then [] else dimensionV[..|dimensionV| - 1] + [1], currBuf));
    }

    /** What the backend does with data of several slices in slice mode: one append per slice. */
    method AddSlices(typ: int, lead: seq<nat>, n: nat, data: seq<byte>)
      requires bufV != [] ==> dimensionV != [] && Lead(dimensionV) == lead
      requires |data| == n * DataBytes(typ, lead)
      modifies this
      ensures Value() == WithSlices(old(Value()), typ, lead, Split(data, DataBytes(typ, lead), n))
    {
      hide DataBytes, Split, WithSlice, Flat;
      var size := DataBytes(typ, lead);
      ghost var slices := Split(data, size, n);
      FlatSplit(data, size, n);
      for i := 0 to n
        invariant bufV != [] ==> dimensionV != [] && Lead(dimensionV) == lead
        invariant Value() == WithSlices(old(Value()), typ, lead, slices[..i])
      {
        FlatAt(slices, size, i);
        assert slices[..i + 1][..i] == slices[..i];
        AddSliceOf(typ, lead, data[i * size..i * size + size]);
      }
      assert slices[..n] == slices;
    }

    method AddSliceOf(typ: int, lead: seq<nat>, slice: seq<byte>)
      requires bufV != [] ==> dimensionV != [] && Lead(dimensionV) == lead
      requires |slice| == DataBytes(typ, lead)
      modifies this
      ensures Value() == WithSlice(old(Value()), typ, lead + [1], slice)
      ensures dimensionV != [] && Lead(dimensionV) == lead && bufV != []
    {
      hide DataBytes;
      assert Lead(lead + [1]) == lead && Lead(lead + [0]) == lead;
      AddSlice(typ, lead + [1], slice);
    }
  }
}
