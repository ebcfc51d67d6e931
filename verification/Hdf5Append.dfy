/** Slices appended to a dataset along an array axis or along a dynamic array of structures. */
module Hdf5Append {
  import opened Shapes
  import opened Hdf5Dataset
  import opened Hdf5Flush

  const NOT_TIMED := -1

  /**
   * The extents a dataset handler tracks. The first aosRank axes are structure arrays; timed is the one
   * that evolves with time, if any.
   */
  datatype Handler = Handler(aosRank: nat, timed: int, sliceMode: bool, slicesExtension: nat,
    dims: Index, largest: Index, initial: Index, timeWriteOffset: nat)
  {
    ghost predicate Valid() {
      && |dims| == |largest| == |initial| && aosRank <= |dims| && NOT_TIMED <= timed < aosRank
      && (!sliceMode ==> timed == NOT_TIMED)
    }

    function TimeAxis(): int {
      if timed == NOT_TIMED then aosRank else timed
    }
  }

  /** The sizes of a request are given innermost first. */
  function OutermostFirst(size: Index): (r: Index)
    ensures |r| == |size|
  {
    seq(|size|, i requires 0 <= i < |size| => size[|size| - 1 - i])
  }

  lemma {:induction false} InnermostLast(inner: nat, rest: Index)
    ensures OutermostFirst([inner] + rest) == OutermostFirst(rest) + [inner]
  {
  }

  /** The extent of axis i for a request. */
  function RequestedDim(h: Handler, size: Index, aosShapes: Index, i: nat): nat
    requires h.Valid() && h.aosRank + |size| == |h.dims| && i < |h.dims|
  {
    if i < h.aosRank then
      if (h.sliceMode && i == h.timed) || i >= |aosShapes| then h.dims[i] else aosShapes[i]
    else if h.sliceMode && h.timed == NOT_TIMED && i == h.aosRank then h.dims[i]
    else size[|h.dims| - 1 - i]
  }

  function CurrentShapes(h: Handler, size: Index, aosShapes: Index): (r: Handler)
    requires h.Valid() && h.aosRank + |size| == |h.dims|
    ensures r.Valid()
  {
    var dims := seq(|h.dims|, i requires 0 <= i < |h.dims| => RequestedDim(h, size, aosShapes, i));
    h.(dims := dims, largest := MaxDims(h.largest, dims))
  }

  function ExtendedForSlices(h: Handler, size: Index, aosShapes: Index, ext: nat): (r: Handler)
    requires h.Valid() && h.aosRank + |size| == |h.dims|
    ensures r.Valid()
  {
    var c := CurrentShapes(h, size, aosShapes);
    if h.aosRank < |h.dims| && h.timed == NOT_TIMED then
      c.(largest := c.largest[h.aosRank := c.dims[h.aosRank] + h.slicesExtension])
    else if h.timed != NOT_TIMED then
      c.(largest := c.largest[h.timed := c.dims[h.timed] + ext])
    else c
  }

  function TimeAxisUpdated(h: Handler, indices: Index): (r: Handler)
    requires h.Valid() && |indices| == h.aosRank
    ensures r.Valid()
  {
    if h.timed == NOT_TIMED then h
    else h.(dims := h.dims[h.timed := h.initial[h.timed] + indices[h.timed] + 1])
  }

  function TimeAxisOffset(h: Handler, indices: Index, ext: nat): (r: Handler)
    requires h.Valid() && |indices| == h.aosRank
    ensures r.Valid()
  {
    if h.timed != NOT_TIMED then TimeAxisUpdated(h, indices)
    else if h.aosRank < |h.dims| then
      h.(timeWriteOffset := h.initial[h.aosRank],
        dims := h.dims[h.aosRank := if ext == 0 then h.slicesExtension else ext])
    else h
  }

  /** The hyperslab the writer selects for an element. */
  function FileSlab(h: Handler, indices: Index): (s: Slab)
    requires h.Valid() && |indices| == h.aosRank
    requires h.timed != NOT_TIMED ==> h.dims[h.timed] > 0
    ensures |s.offset| == |s.count| == |h.dims|
  {
    Slab(seq(|h.dims|, i requires 0 <= i < |h.dims| =>
           if i < h.aosRank then (if h.sliceMode && i == h.timed then h.dims[i] - 1 else indices[i])
           else if h.sliceMode && h.timed == NOT_TIMED && i == h.aosRank then h.timeWriteOffset else 0),
         seq(|h.dims|, i requires 0 <= i < |h.dims| => if i < h.aosRank then 1 else h.dims[i]))
  }

  /** Outside slice mode this is the hyperslab of a queued request. */
  lemma {:induction false} GlobalSlab<T>(h: Handler, indices: Index, data: seq<T>)
    requires h.Valid() && !h.sliceMode && |indices| == h.aosRank
    ensures FileSlab(h, indices) == Selection(Request(indices, h.dims, data))
  {
    var s := Selection(Request(indices, h.dims, data));
    assert FileSlab(h, indices).offset == s.offset;
    assert FileSlab(h, indices).count == s.count;
  }

  // ---------------------------------------------------------------- session

  /** One write of a put_slice: where, the array sizes, the structure array sizes, the values. */
  datatype SliceWrite<T> = SliceWrite(indices: Index, size: Index, aosShapes: Index, data: seq<T>)

  /** The handler of a dataset opened with the given extents. */
  function Opened(aosRank: nat, timed: int, slicesExtension: nat, dims: Index): Handler {
    Handler(aosRank, timed, true, slicesExtension, dims, dims, dims, 0)
  }

  /** What the first write of a put_slice does to the extents, and what every later one does. */
  function AfterFirst<T>(h: Handler, w: SliceWrite<T>, ext: nat): (r: Handler)
    requires h.Valid() && h.aosRank + |w.size| == |h.dims| && |w.indices| == h.aosRank
    ensures r.Valid()
  {
    TimeAxisOffset(ExtendedForSlices(h, w.size, w.aosShapes, ext), w.indices, ext)
  }

  function AfterNext<T>(h: Handler, w: SliceWrite<T>): (r: Handler)
    requires h.Valid() && h.aosRank + |w.size| == |h.dims| && |w.indices| == h.aosRank
    ensures r.Valid()
  {
    CurrentShapes(TimeAxisUpdated(h, w.indices), w.size, w.aosShapes)
  }

  /** The element exists in every structure array but the timed one, whose index counts new slices. */
  ghost predicate InShapes<T>(w: SliceWrite<T>, aosRank: nat, timed: int) {
    |w.indices| == |w.aosShapes| == aosRank
    && forall i | 0 <= i < aosRank :: i != timed ==> w.indices[i] < w.aosShapes[i]
  }

  /** The first slab is inside the extents exactly when the announced extension covers it. */
  lemma {:induction false} FirstSlabFits<T>(h: Handler, w: SliceWrite<T>, ext: nat)
    requires h.Valid() && h.sliceMode && h.dims == h.largest == h.initial && h.aosRank + |w.size| == |h.dims|
    requires InShapes(w, h.aosRank, h.timed) && h.TimeAxis() < |h.dims|
    ensures var r := AfterFirst(h, w, ext);
      SlabFits(FileSlab(r, w.indices), r.largest) <==>
        if h.timed == NOT_TIMED then ext <= h.slicesExtension else w.indices[h.timed] < ext
    ensures var s, t := FileSlab(AfterFirst(h, w, ext), w.indices), h.TimeAxis();
      if h.timed != NOT_TIMED then s.offset[t] == h.dims[t] + w.indices[t] && s.count[t] == 1
      else s.offset[t] == h.dims[t] && s.count[t] == if ext == 0 then h.slicesExtension else ext
  {
    hide MaxDims;
    var r, t := AfterFirst(h, w, ext), h.TimeAxis();
    var c := CurrentShapes(h, w.size, w.aosShapes);
    var s := FileSlab(r, w.indices);
    assert forall i | 0 <= i < |h.dims| && i != t :: r.dims[i] == c.dims[i] && r.largest[i] == c.largest[i];
    assert c.dims[t] == h.dims[t];
    forall i | 0 <= i < |h.dims| && i != t
      ensures s.offset[i] + s.count[i] <= r.largest[i]
    {
      assert c.dims[i] <= c.largest[i];
    }
    assert SlabFits(s, r.largest) <==> s.offset[t] + s.count[t] <= r.largest[t];
    if h.timed == NOT_TIMED {
      assert s.offset[t] + s.count[t] == h.dims[t] + if ext == 0 then h.slicesExtension else ext;
      assert r.largest[t] == h.dims[t] + h.slicesExtension;
    } else {
      assert s.offset[t] + s.count[t] == h.dims[t] + w.indices[t] + 1;
      assert r.largest[t] == h.dims[t] + ext;
    }
  }

  /** A dataset created by the put_slice itself announces no slices: its first slab lies outside. */
  lemma {:induction false} CreatedInSliceExample<T>(x: T) returns (h: Handler, w: SliceWrite<T>)
    ensures h == Opened(0, NOT_TIMED, 0, [5]) && w == SliceWrite([], [1], [], [x]) && h.Valid()
    ensures var r := AfterFirst(h, w, 1); !SlabFits(FileSlab(r, w.indices), r.largest)
  {
    h, w := Opened(0, NOT_TIMED, 0, [5]), SliceWrite([], [1], [], [x]);
    FirstSlabFits(h, w, 1);
  }

  /** With time in the structure array, a first write to the second of one announced slices lies outside. */
  lemma {:induction false} SecondSliceFirstExample<T>(x: T) returns (h: Handler, w: SliceWrite<T>)
    ensures h == Opened(1, 0, 1, [5]) && w == SliceWrite([1], [], [1], [x]) && h.Valid()
    ensures var r := AfterFirst(h, w, 1); !SlabFits(FileSlab(r, w.indices), r.largest)
  {
    h, w := Opened(1, 0, 1, [5]), SliceWrite([1], [], [1], [x]);
    FirstSlabFits(h, w, 1);
  }

  /** What holds after every write of a put_slice on a dataset whose extents were start. */
  ghost predicate InSession(h: Handler, aosRank: nat, timed: int, start: Index, n: nat) {
    && h.Valid() && h.sliceMode && h.aosRank == aosRank && h.timed == timed && h.TimeAxis() < |h.dims| == |start|
    && h.initial == start && Extends(start, h.largest)
    && (timed == NOT_TIMED ==>
        h.timeWriteOffset == start[aosRank] && h.dims[aosRank] == n && h.largest[aosRank] == start[aosRank] + n)
    && (timed != NOT_TIMED ==> h.dims[timed] > start[timed])
  }

  /** The slab of a write in this state: inside the extents, after everything stored before the put_slice. */
  ghost predicate Appends(s: Slab, h: Handler, start: Index, indices: Index)
    requires h.Valid() && |indices| == h.aosRank
  {
    && SlabFits(s, h.largest) && |start| == |h.largest| && h.TimeAxis() < |start|
    && s.offset[h.TimeAxis()] == start[h.TimeAxis()] + if h.timed == NOT_TIMED then 0 else indices[h.timed]
  }

  lemma {:induction false} FirstAppends<T>(aosRank: nat, timed: int, slicesExtension: nat, start: Index,
      w: SliceWrite<T>, ext: nat)
    requires var h := Opened(aosRank, timed, slicesExtension, start);
      h.Valid() && aosRank + |w.size| == |start| && InShapes(w, aosRank, timed) && h.TimeAxis() < |start|
    requires if timed == NOT_TIMED then ext == slicesExtension else w.indices[timed] < ext
    ensures var r := AfterFirst(Opened(aosRank, timed, slicesExtension, start), w, ext);
      InSession(r, aosRank, timed, start, slicesExtension) && Appends(FileSlab(r, w.indices), r, start, w.indices)
      && r.largest[r.TimeAxis()] == start[r.TimeAxis()] + ext
  {
    hide FileSlab;
    var h := Opened(aosRank, timed, slicesExtension, start);
    var r, t := AfterFirst(h, w, ext), h.TimeAxis();
    FirstSlabFits(h, w, ext);
    var c := CurrentShapes(h, w.size, w.aosShapes);
    assert c.dims[t] == start[t];
    FirstOffset(r, w.indices, start);
  }

  lemma {:induction false} FirstOffset(r: Handler, indices: Index, start: Index)
    requires r.Valid() && r.sliceMode && |indices| == r.aosRank && r.TimeAxis() < |r.dims| == |start|
    requires if r.timed == NOT_TIMED then r.timeWriteOffset == start[r.aosRank]
      else r.dims[r.timed] == start[r.timed] + indices[r.timed] + 1
    ensures FileSlab(r, indices).offset[r.TimeAxis()]
         == start[r.TimeAxis()] + if r.timed == NOT_TIMED then 0 else indices[r.timed]
  {
  }

  lemma {:induction false} NextAppends<T>(h: Handler, aosRank: nat, timed: int, start: Index, n: nat, w: SliceWrite<T>)
    requires InSession(h, aosRank, timed, start, n) && aosRank + |w.size| == |start| && InShapes(w, aosRank, timed)
    ensures var r := AfterNext(h, w);
      InSession(r, aosRank, timed, start, n) && Extends(h.largest, r.largest)
        && Appends(FileSlab(r, w.indices), r, start, w.indices)
  {
    var r, t := AfterNext(h, w), h.TimeAxis();
    var s := FileSlab(r, w.indices);
    assert r.dims[t] == if timed == NOT_TIMED then n else start[t] + w.indices[t] + 1;
    assert Extends(start, r.largest) by {
      assert Extends(h.largest, r.largest);
    }
    forall i | 0 <= i < |h.dims|
      ensures s.offset[i] + s.count[i] <= r.largest[i]
    {
      assert r.dims[i] <= r.largest[i];
    }
  }

  // --------------------------------------------------------------- whole run

  /** The shape of the values of a write; n is the number of slices along an array axis. */
  function ValueDims<T>(w: SliceWrite<T>, timed: int, n: nat): (d: Index) {
    seq(|w.size|, i requires 0 <= i < |w.size| => if timed == NOT_TIMED && i == 0 then n else w.size[|w.size| - 1 - i])
  }

  ghost predicate ProperWrite<T>(w: SliceWrite<T>, start: Index, aosRank: nat, timed: int, n: nat) {
    && aosRank + |w.size| == |start| && NOT_TIMED <= timed < aosRank
    && (if timed == NOT_TIMED then aosRank else timed) < |start|
    && InShapes(w, aosRank, timed) && |w.data| == Product(Ones(aosRank) + ValueDims(w, timed, n))
  }

  /**
   * A put_slice on one dataset: n slices, the writes in order. When time is a structure array the first write
   * must be to a slice that n covers.
   */
  datatype PutSlice<T> = PutSlice(aosRank: nat, timed: int, n: nat, writes: seq<SliceWrite<T>>)

  ghost predicate Allowed<T>(p: PutSlice<T>, start: Index) {
    && p.writes != [] && (forall i | 0 <= i < |p.writes| :: ProperWrite(p.writes[i], start, p.aosRank, p.timed, p.n))
    && (p.timed != NOT_TIMED ==> p.writes[0].indices[p.timed] < p.n)
  }

  ghost function HandlerAfter<T>(p: PutSlice<T>, start: Index, k: nat): (h: Handler)
    requires Allowed(p, start) && k < |p.writes|
    ensures InSession(h, p.aosRank, p.timed, start, p.n)
    ensures Appends(FileSlab(h, p.writes[k].indices), h, start, p.writes[k].indices)
    ensures |p.writes[k].data| == Product(FileSlab(h, p.writes[k].indices).count)
  {
    hide FileSlab, CurrentShapes, ExtendedForSlices, TimeAxisOffset, TimeAxisUpdated, Product;
    var w := p.writes[k];
    if k == 0 then
      FirstAppends(p.aosRank, p.timed, p.n, start, w, p.n);
      var h := AfterFirst(Opened(p.aosRank, p.timed, p.n, start), w, p.n);
      FirstCount(p, start, h);
      h
    else
      var before := HandlerAfter(p, start, k - 1);
      NextAppends(before, p.aosRank, p.timed, start, p.n, w);
      NextCount(p, start, before, k);
      AfterNext(before, w)
  }

  lemma {:induction false} FirstCount<T>(p: PutSlice<T>, start: Index, h: Handler)
    requires Allowed(p, start) && h == AfterFirst(Opened(p.aosRank, p.timed, p.n, start), p.writes[0], p.n)
    requires InSession(h, p.aosRank, p.timed, start, p.n) && (p.timed != NOT_TIMED ==> h.dims[p.timed] > 0)
    ensures FileSlab(h, p.writes[0].indices).count == Ones(p.aosRank) + ValueDims(p.writes[0], p.timed, p.n)
  {
  }

  lemma {:induction false} NextCount<T>(p: PutSlice<T>, start: Index, h: Handler, k: nat)
    requires Allowed(p, start) && 0 < k < |p.writes| && InSession(h, p.aosRank, p.timed, start, p.n)
    ensures FileSlab(AfterNext(h, p.writes[k]), p.writes[k].indices).count
      == Ones(p.aosRank) + ValueDims(p.writes[k], p.timed, p.n)
  {
  }

  /** The dataset after the first k writes of a put_slice. */
  ghost function Written<T>(ds: Dataset<T>, p: PutSlice<T>, fill: T, k: nat): (r: Dataset<T>)
    requires Allowed(p, ds.dims) && k <= |p.writes|
    ensures k > 0 ==> r.dims == HandlerAfter(p, ds.dims, k - 1).largest
    ensures Extends(ds.dims, r.dims)
  {
    hide FileSlab, CurrentShapes, ExtendedForSlices, TimeAxisOffset, TimeAxisUpdated, Product;
    if k == 0 then ds
    else
      var h := HandlerAfter(p, ds.dims, k - 1);
      WriteSlab(SetExtent(Written(ds, p, fill, k - 1), h.largest, fill), FileSlab(h, p.writes[k - 1].indices),
        p.writes[k - 1].data)
  }

  /** The slab of write k. */
  ghost function SlabOf<T>(p: PutSlice<T>, start: Index, k: nat): (s: Slab)
    requires Allowed(p, start) && k < |p.writes|
    ensures |s.offset| == |s.count| == |start|
  {
    FileSlab(HandlerAfter(p, start, k), p.writes[k].indices)
  }

  /** Where write k goes: its own element, after the stored slices on the time axis, its array from 0. */
  function Corner<T>(p: PutSlice<T>, start: Index, k: nat): Index
    requires Allowed(p, start) && k < |p.writes|
  {
    var ix := p.writes[k].indices;
    seq(|start|, i requires 0 <= i < |start| =>
      if i == p.timed then start[i] + ix[i]
      else if i < p.aosRank then ix[i]
      else if p.timed == NOT_TIMED && i == p.aosRank then start[i]
      else 0)
  }

  lemma {:induction false} SlabExact<T>(p: PutSlice<T>, start: Index, k: nat)
    requires Allowed(p, start) && k < |p.writes|
    ensures SlabOf(p, start, k).offset == Corner(p, start, k)
    ensures SlabOf(p, start, k).count == Ones(p.aosRank) + ValueDims(p.writes[k], p.timed, p.n)
  {
    hide HandlerAfter, AfterFirst, AfterNext, Product, FileSlab, Corner, Allowed, Appends;
    var h := HandlerAfter(p, start, k);
    HandlerStep(p, start, k);
    OffsetExact(p, start, k, h);
    if k == 0 {
      FirstCount(p, start, h);
    } else {
      NextCount(p, start, HandlerAfter(p, start, k - 1), k);
    }
  }

  lemma {:induction false} OffsetExact<T>(p: PutSlice<T>, start: Index, k: nat, h: Handler)
    requires Allowed(p, start) && k < |p.writes| && InSession(h, p.aosRank, p.timed, start, p.n)
    requires Appends(FileSlab(h, p.writes[k].indices), h, start, p.writes[k].indices)
    ensures FileSlab(h, p.writes[k].indices).offset == Corner(p, start, k)
  {
    var s := FileSlab(h, p.writes[k].indices);
    forall i | 0 <= i < |start|
      ensures s.offset[i] == Corner(p, start, k)[i]
    {
      assert i == h.TimeAxis() ==> s.offset[i] == start[i] + if p.timed == NOT_TIMED then 0 else p.writes[k].indices[i];
    }
  }

  lemma {:induction false} HandlerStep<T>(p: PutSlice<T>, start: Index, k: nat)
    requires Allowed(p, start) && k < |p.writes|
    ensures HandlerAfter(p, start, k) ==
      if k == 0 then AfterFirst(Opened(p.aosRank, p.timed, p.n, start), p.writes[0], p.n)
      else AfterNext(HandlerAfter(p, start, k - 1), p.writes[k])
  {
    hide AfterFirst, AfterNext, FileSlab, Product;
  }

  /** The extents write k asks for; the first one asks for all announced slices. */
  function Asked<T>(p: PutSlice<T>, start: Index, k: nat): (d: Index)
    requires Allowed(p, start) && k < |p.writes|
    ensures |d| == |start|
  {
    var w := p.writes[k];
    seq(|start|, i requires 0 <= i < |start| =>
      if i == p.timed then start[i] + (if k == 0 then p.n else w.indices[i] + 1)
      else if i < p.aosRank then w.aosShapes[i]
      else if p.timed == NOT_TIMED && i == p.aosRank then start[i] + p.n
      else w.size[|start| - 1 - i])
  }

  function AllAsked<T>(p: PutSlice<T>, start: Index, k: nat): (d: seq<Index>)
    requires Allowed(p, start) && k <= |p.writes|
  {
    if k == 0 then [start] else AllAsked(p, start, k - 1) + [Asked(p, start, k - 1)]
  }

  lemma {:induction false} FirstGrowth<T>(p: PutSlice<T>, start: Index)
    requires Allowed(p, start)
    ensures AfterFirst(Opened(p.aosRank, p.timed, p.n, start), p.writes[0], p.n).largest
         == MaxDims(start, Asked(p, start, 0))
  {
  }

  lemma {:induction false} NextGrowth<T>(p: PutSlice<T>, start: Index, h: Handler, k: nat)
    requires Allowed(p, start) && 0 < k < |p.writes| && InSession(h, p.aosRank, p.timed, start, p.n)
    ensures AfterNext(h, p.writes[k]).largest == MaxDims(h.largest, Asked(p, start, k))
  {
  }

  /** A put_slice leaves the least extents that hold what was stored and what its writes ask for. */
  lemma {:induction false} AppendGrowthIsLeast<T>(ds: Dataset<T>, p: PutSlice<T>, fill: T, k: nat)
    requires Allowed(p, ds.dims) && k <= |p.writes|
    ensures LeastCovering(Written(ds, p, fill, k).dims, AllAsked(p, ds.dims, k))
  {
    hide HandlerAfter, AfterFirst, AfterNext, MaxDims, LeastCovering, FileSlab, Product, Asked, InSession,
      Appends, Allowed;
    if k == 0 {
      OneIsLeast(ds.dims);
    } else {
      AppendGrowthIsLeast(ds, p, fill, k - 1);
      HandlerStep(p, ds.dims, k - 1);
      if k == 1 {
        FirstGrowth(p, ds.dims);
      } else {
        NextGrowth(p, ds.dims, HandlerAfter(p, ds.dims, k - 2), k - 1);
      }
      LeastOfMore(Written(ds, p, fill, k - 1).dims, AllAsked(p, ds.dims, k - 1), Asked(p, ds.dims, k - 1));
    }
  }

  lemma {:induction false} WrittenNext<T>(ds: Dataset<T>, p: PutSlice<T>, fill: T, k: nat)
    requires Allowed(p, ds.dims) && k < |p.writes|
    ensures |p.writes[k].data| == Product(SlabOf(p, ds.dims, k).count)
    ensures Written(ds, p, fill, k + 1)
         == WriteSlab(SetExtent(Written(ds, p, fill, k), HandlerAfter(p, ds.dims, k).largest, fill),
           SlabOf(p, ds.dims, k), p.writes[k].data)
    ensures SlabFits(SlabOf(p, ds.dims, k), Written(ds, p, fill, k + 1).dims)
    ensures Extends(Written(ds, p, fill, k).dims, Written(ds, p, fill, k + 1).dims)
  {
    hide FileSlab, HandlerAfter, Product, DataAt, SetExtent, WriteSlab;
    if k > 0 {
      LargestGrows(p, ds.dims, k);
    }
  }

  lemma {:induction false} AfterStart<T>(p: PutSlice<T>, start: Index, k: nat, ix: Index)
    requires Allowed(p, start) && k < |p.writes| && InBox(ix, start)
    ensures !InSlab(SlabOf(p, start, k), ix)
  {
    hide FileSlab, HandlerAfter, Product;
    var h := HandlerAfter(p, start, k);
    assert SlabOf(p, start, k).offset[h.TimeAxis()] >= start[h.TimeAxis()];
  }

  /** No write of a put_slice touches a cell stored before it. */
  lemma {:induction false} EarlierCellsKept<T>(ds: Dataset<T>, p: PutSlice<T>, fill: T, k: nat, ix: Index)
    requires Allowed(p, ds.dims) && k <= |p.writes| && InBox(ix, ds.dims)
    ensures InBox(ix, Written(ds, p, fill, k).dims) && Written(ds, p, fill, k).cells(ix) == ds.cells(ix)
  {
    hide FileSlab, HandlerAfter, Product, DataAt, Allowed, SlabOf, InSlab, Appends, InSession, SlabFits;
    if k > 0 {
      EarlierCellsKept(ds, p, fill, k - 1, ix);
      AfterStart(p, ds.dims, k - 1, ix);
      WrittenNext(ds, p, fill, k - 1);
    }
  }

  /** Writes to different elements, or to different new slices, share no cell. */
  lemma {:induction false} WritesDisjoint<T>(p: PutSlice<T>, start: Index, j: nat, k: nat)
    requires Allowed(p, start) && j < |p.writes| && k < |p.writes| && p.writes[j].indices != p.writes[k].indices
    ensures Disjoint(SlabOf(p, start, j), SlabOf(p, start, k))
  {
    hide HandlerAfter;
    var a, b := SlabOf(p, start, j), SlabOf(p, start, k);
    var i :| 0 <= i < p.aosRank && p.writes[j].indices[i] != p.writes[k].indices[i];
    assert a.count[i] == 1 && b.count[i] == 1;
    ApartOnAxis(a, b, i);
  }

  /** Growing the dataset does not change what a stored slab holds. */
  lemma {:induction false} ReadGrown<T>(ds: Dataset<T>, s: Slab, dims: Index, fill: T)
    requires SlabFits(s, ds.dims)
    ensures ReadSlab(SetExtent(ds, dims, fill), s) == ReadSlab(ds, s)
  {
    forall p | 0 <= p < Product(s.count)
      ensures ReadSlab(SetExtent(ds, dims, fill), s)[p] == ReadSlab(ds, s)[p]
    {
      FlatOfUnflat(p, s.count);
      assert InBox(Shifted(s, Unflat(p, s.count)), ds.dims);
    }
  }

  /** Every slab holds its values until an element is written again. */
  lemma {:induction false} AppendedReadsBack<T>(ds: Dataset<T>, p: PutSlice<T>, fill: T, j: nat, k: nat)
    requires Allowed(p, ds.dims) && j < k <= |p.writes|
    requires forall i | j < i < k :: p.writes[i].indices != p.writes[j].indices
    ensures SlabFits(SlabOf(p, ds.dims, j), Written(ds, p, fill, k).dims)
    ensures ReadSlab(Written(ds, p, fill, k), SlabOf(p, ds.dims, j)) == p.writes[j].data
  {
    hide SlabOf, HandlerAfter, Product, DataAt, ReadSlab, SetExtent, WriteSlab, Written, Allowed, Disjoint, Appends,
      InSession, SlabFits, Extends, InSlab, FileSlab;
    WrittenNext(ds, p, fill, k - 1);
    var grown := SetExtent(Written(ds, p, fill, k - 1), HandlerAfter(p, ds.dims, k - 1).largest, fill);
    var s := SlabOf(p, ds.dims, k - 1);
    if j == k - 1 {
      ReadAfterWrite(grown, s, p.writes[j].data);
    } else {
      AppendedReadsBack(ds, p, fill, j, k - 1);
      WritesDisjoint(p, ds.dims, j, k - 1);
      ReadGrown(Written(ds, p, fill, k - 1), SlabOf(p, ds.dims, j), HandlerAfter(p, ds.dims, k - 1).largest, fill);
      ReadElsewhere(grown, SlabOf(p, ds.dims, j), s, p.writes[k - 1].data);
      FitsMore(SlabOf(p, ds.dims, j), Written(ds, p, fill, k - 1).dims, Written(ds, p, fill, k).dims);
    }
  }

  lemma {:induction false} FitsMore(s: Slab, dims: Index, more: Index)
    requires SlabFits(s, dims) && Extends(dims, more)
    ensures SlabFits(s, more)
  {
  }

  lemma {:induction false} LargestGrows<T>(p: PutSlice<T>, start: Index, k: nat)
    requires Allowed(p, start) && 0 < k < |p.writes|
    ensures Extends(HandlerAfter(p, start, k - 1).largest, HandlerAfter(p, start, k).largest)
  {
    hide FileSlab, CurrentShapes, TimeAxisUpdated, ExtendedForSlices, TimeAxisOffset, Product;
    NextAppends(HandlerAfter(p, start, k - 1), p.aosRank, p.timed, start, p.n, p.writes[k]);
  }

  // ------------------------------------------------------- run of put_slices

  ghost predicate AllAllowed<T>(ds: Dataset<T>, ps: seq<PutSlice<T>>, fill: T)
    decreases |ps|, 0
  {
    ps != [] ==>
      AllAllowed(ds, ps[..|ps| - 1], fill) && Allowed(ps[|ps| - 1], AfterAll(ds, ps[..|ps| - 1], fill).dims)
  }

  ghost function AfterAll<T>(ds: Dataset<T>, ps: seq<PutSlice<T>>, fill: T): (r: Dataset<T>)
    requires AllAllowed(ds, ps, fill)
    ensures Extends(ds.dims, r.dims)
    decreases |ps|, 1
  {
    if ps == [] then ds
    else Written(AfterAll(ds, ps[..|ps| - 1], fill), ps[|ps| - 1], fill, |ps[|ps| - 1].writes|)
  }

  /** Over any run of put_slices, every cell stored at some point keeps its value to the end. */
  lemma {:induction false} StoredStays<T>(ds: Dataset<T>, ps: seq<PutSlice<T>>, fill: T, m: nat, ix: Index)
    requires AllAllowed(ds, ps, fill) && m <= |ps|
    ensures AllAllowed(ds, ps[..m], fill)
    ensures InBox(ix, AfterAll(ds, ps[..m], fill).dims) ==>
      InBox(ix, AfterAll(ds, ps, fill).dims)
        && AfterAll(ds, ps, fill).cells(ix) == AfterAll(ds, ps[..m], fill).cells(ix)
    decreases |ps|
  {
    hide Written, Allowed;
    if m == |ps| {
      assert ps[..m] == ps;
    } else {
      var front := ps[..|ps| - 1];
      assert ps[..m] == front[..m];
      StoredStays(ds, front, fill, m, ix);
      if InBox(ix, AfterAll(ds, ps[..m], fill).dims) {
        EarlierCellsKept(AfterAll(ds, front, fill), ps[|ps| - 1], fill, |ps[|ps| - 1].writes|, ix);
      }
    }
  }
}
