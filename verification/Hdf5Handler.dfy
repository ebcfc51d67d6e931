/** The dataset handler: tracked extents, queued writes, and the writes it sends to the file. */
module Hdf5Handler {
  import opened Shapes
  import opened Hdf5Dataset
  import opened Hdf5Flush
  import opened Hdf5Append

  class DataSetHandler<T> {
    const aosRank: nat
    const requestDim: nat
    const fill: T
    const useBuffering: bool
    var timedAosIndex: int
    var sliceMode: bool
    var slicesExtension: nat
    var dims: Index
    var largestDims: Index
    var initialDims: Index
    var timeWriteOffset: nat
    var requestsArrctxIndices: seq<Index>
    var requestsShapes: seq<Index>
    var buffers: seq<seq<T>>
    var file: Dataset<T>

    /** The dataset when it was base and the writes made to it since. */
    ghost var base: Dataset<T>
    ghost var log: seq<Request<T>>

    ghost function State(): Handler
      reads this
    {
      Handler(aosRank, timedAosIndex, sliceMode, slicesExtension, dims, largestDims, initialDims, timeWriteOffset)
    }

    ghost predicate Valid()
      reads this
    {
      State().Valid() && |dims| == aosRank + requestDim && |file.dims| == |dims|
    }

    /** Outside slice mode: what the file holds, and what is still queued. */
    ghost predicate Session()
      reads this
    {
      && Valid() && !sliceMode && largestDims == file.dims && |base.dims| == |dims|
      && (forall ix | !InBox(ix, base.dims) :: base.cells(ix) == fill)
      && AllProper(log, |dims|, requestDim)
      && (if useBuffering then
            requestDim <= 1 && file == Grown(base, log, requestDim, fill) && Queued()
          else file == OneByOne(base, log, requestDim, fill))
    }

    ghost predicate Queued()
      reads this
    {
      && |requestsArrctxIndices| == |requestsShapes| == |buffers| == |log|
      && forall i | 0 <= i < |log| ::
        && requestsArrctxIndices[i] == log[i].indices && buffers[i] == log[i].data
        && requestsShapes[i] == if requestDim == 0 then [] else log[i].dims
    }

    constructor (aosRank: nat, requestDim: nat, fill: T, buffering: bool, slice: bool, timed: int,
        slicesExtension: nat, file: Dataset<T>)
      requires |file.dims| == aosRank + requestDim && NOT_TIMED <= timed < aosRank && (!slice ==> timed == NOT_TIMED)
      requires forall ix | !InBox(ix, file.dims) :: file.cells(ix) == fill
      ensures Valid() && this.file == file && this.aosRank == aosRank && this.requestDim == requestDim
        && this.fill == fill
      ensures slice ==> State() == Opened(aosRank, timed, slicesExtension, file.dims)
      ensures !slice ==> Session() && base == file && log == []
      ensures useBuffering <==> buffering && requestDim <= 1
    {
      this.aosRank, this.requestDim, this.fill := aosRank, requestDim, fill;
      useBuffering := buffering && requestDim <= 1;
      sliceMode, timedAosIndex, this.slicesExtension := slice, timed, slicesExtension;
      dims, largestDims, initialDims, timeWriteOffset := file.dims, file.dims, file.dims, 0;
      requestsArrctxIndices, requestsShapes, buffers := [], [], [];
      this.file, base, log := file, file, [];
    }

    method StoreInitialDims()
      requires Valid() && sliceMode
      modifies this`initialDims
      ensures Valid() && initialDims == dims
    {
      initialDims := dims;
    }

    method SetCurrentShapes(size: Index, aosShapes: Index)
      requires Valid() && |size| == requestDim
      modifies this`dims, this`largestDims
      ensures Valid() && State() == CurrentShapes(old(State()), size, aosShapes)
      ensures LeastCovering(largestDims, [old(largestDims), dims])
      ensures forall i | 0 <= i < aosRank ::
        dims[i] == if (sliceMode && i == timedAosIndex) || i >= |aosShapes| then old(dims[i]) else aosShapes[i]
      ensures forall i | aosRank <= i < |dims| ::
        dims[i] == if sliceMode && timedAosIndex == NOT_TIMED && i == aosRank then old(dims[i])
                   else OutermostFirst(size)[i - aosRank]
    {
      hide LeastCovering;
      ghost var was := State();
      ghost var now := CurrentShapes(was, size, aosShapes);
      for i := 0 to |dims|
        invariant |dims| == |largestDims| == |was.dims|
        invariant forall j | 0 <= j < i :: dims[j] == now.dims[j] && largestDims[j] == now.largest[j]
        invariant forall j | i <= j < |dims| :: dims[j] == was.dims[j] && largestDims[j] == was.largest[j]
      {
        if i < aosRank {
          if !(sliceMode && i == timedAosIndex) && |aosShapes| > i {
            dims := dims[i := aosShapes[i]];
          }
        } else if !(sliceMode && timedAosIndex == NOT_TIMED && i == aosRank) {
          dims := dims[i := size[requestDim - (i - aosRank) - 1]];
        }
        if dims[i] > largestDims[i] {
          largestDims := largestDims[i := dims[i]];
        }
      }
      assert dims == now.dims && largestDims == now.largest;
      MaxIsLeast(was.largest, dims);
    }

    method SetExtent()
      requires Valid()
      modifies this`file
      ensures Valid() && file == Hdf5Dataset.SetExtent(old(file), largestDims, fill)
    {
      file := Hdf5Dataset.SetExtent(file, largestDims, fill);
    }

    method SetCurrentShapesAndExtend(size: Index, aosShapes: Index)
      requires Valid() && |size| == requestDim
      modifies this`dims, this`largestDims, this`file
      ensures Valid() && State() == CurrentShapes(old(State()), size, aosShapes)
      ensures !sliceMode && |aosShapes| == aosRank ==>
        dims == aosShapes + OutermostFirst(size) && largestDims == MaxDims(old(largestDims), dims)
      ensures file == Hdf5Dataset.SetExtent(old(file), largestDims, fill)
    {
      hide CurrentShapes, MaxDims, Hdf5Dataset.SetExtent;
      if !sliceMode && |aosShapes| == aosRank {
        GlobalShapes(State(), size, aosShapes);
      }
      SetCurrentShapes(size, aosShapes);
      SetExtent();
    }

    method ExtendDataSpaceForTimeSlices(size: Index, aosShapes: Index, extension: nat)
      requires Valid() && sliceMode && |size| == requestDim
      modifies this`dims, this`largestDims, this`file
      ensures Valid() && State() == ExtendedForSlices(old(State()), size, aosShapes, extension)
      ensures file == Hdf5Dataset.SetExtent(old(file), largestDims, fill)
    {
      SetCurrentShapes(size, aosShapes);
      if requestDim > 0 && timedAosIndex == NOT_TIMED {
        largestDims := largestDims[aosRank := dims[aosRank] + slicesExtension];
      } else if timedAosIndex != NOT_TIMED {
        largestDims := largestDims[timedAosIndex := dims[timedAosIndex] + extension];
      }
      SetExtent();
    }

    method SetTimeAxisOffset(indices: Index, extension: nat)
      requires Valid() && sliceMode && |indices| == aosRank
      modifies this`dims, this`timeWriteOffset
      ensures Valid() && State() == TimeAxisOffset(old(State()), indices, extension)
    {
      if extension == 0 && requestDim > 0 && timedAosIndex == NOT_TIMED {
        timeWriteOffset := initialDims[aosRank];
        dims := dims[aosRank := slicesExtension];
      } else if extension != 0 && requestDim > 0 && timedAosIndex == NOT_TIMED {
        timeWriteOffset := initialDims[aosRank];
        dims := dims[aosRank := extension];
      } else if timedAosIndex != NOT_TIMED {
        var sliceIndex := indices[timedAosIndex];
        dims := dims[timedAosIndex := initialDims[timedAosIndex] + sliceIndex + 1];
      }
    }

    method UpdateTimeAxisOffset(indices: Index)
      requires Valid() && sliceMode && |indices| == aosRank
      modifies this`dims
      ensures Valid() && State() == TimeAxisUpdated(old(State()), indices)
    {
      if timedAosIndex != NOT_TIMED {
        var sliceIndex := indices[timedAosIndex];
        dims := dims[timedAosIndex := initialDims[timedAosIndex] + sliceIndex + 1];
      }
    }

    /** The selection loops of the hyperslab writer. */
    method SetHyperSlabs(indices: Index) returns (s: Slab)
      requires Valid() && |indices| == aosRank && (timedAosIndex != NOT_TIMED ==> dims[timedAosIndex] > 0)
      ensures s == FileSlab(State(), indices)
    {
      var offset: Index, count: Index := [], [];
      ghost var want := FileSlab(State(), indices);
      for i := 0 to aosRank
        invariant offset == want.offset[..i] && count == want.count[..i]
      {
        if sliceMode && timedAosIndex == i {
          offset := offset + [dims[i] - 1];
        } else {
          offset := offset + [indices[i]];
        }
        count := count + [1];
      }
      for i := aosRank to |dims|
        invariant offset == want.offset[..i] && count == want.count[..i]
      {
        if sliceMode && timedAosIndex == NOT_TIMED && i == aosRank {
          offset := offset + [timeWriteOffset];
        } else {
          offset := offset + [0];
        }
        count := count + [dims[i]];
      }
      assert want.offset[..|dims|] == want.offset && want.count[..|dims|] == want.count;
      return Slab(offset, count);
    }

    method WriteUsingHyperslabs(indices: Index, data: seq<T>)
      requires Valid() && |indices| == aosRank && (timedAosIndex != NOT_TIMED ==> dims[timedAosIndex] > 0)
      requires |data| == Product(FileSlab(State(), indices).count)
      modifies this`file
      ensures Valid() && file == WriteSlab(old(file), FileSlab(State(), indices), data)
    {
      var s := SetHyperSlabs(indices);
      file := WriteSlab(file, s, data);
    }

    /** Queues a write, with the shapes as they are now. */
    method AppendToBuffer(indices: Index, data: seq<T>)
      requires Valid() && Queued()
      requires |indices| == aosRank
      modifies this`requestsArrctxIndices, this`buffers, this`requestsShapes, this`log
      ensures log == old(log) + [Request(indices, dims, data)] && Queued()
    {
      requestsArrctxIndices := requestsArrctxIndices + [indices];
      buffers := buffers + [data];
      requestsShapes := requestsShapes + [if requestDim == 0 then [] else dims];
      log := log + [Request(indices, dims, data)];
    }

    /** A write of a global put to a dataset that is already open. */
    method WriteData(size: Index, aosShapes: Index, indices: Index, data: seq<T>)
      requires Session() && |size| == requestDim && |aosShapes| == aosRank
      requires InBox(indices, aosShapes) && |data| == ArraySize(aosShapes + OutermostFirst(size), requestDim)
      modifies this`dims, this`largestDims, this`file, this`requestsArrctxIndices, this`requestsShapes,
        this`buffers, this`log
      ensures Session()
      ensures log == old(log) + [Request(indices, aosShapes + OutermostFirst(size), data)]
      ensures LeastCovering(file.dims, [old(file.dims), aosShapes + OutermostFirst(size)])
    {
      hide OneByOne, Grown, Product, FlatIndex, FileSlab, Selection, MaxDims, WriteSlab, Hdf5Dataset.SetExtent,
        ArraySize, OutermostFirst, AllProper, Proper, InBox, Extends, LeastCovering;
      ghost var r := Request(indices, aosShapes + OutermostFirst(size), data);
      RequestProper(size, aosShapes, indices, data);
      LogStep(base, log, r, requestDim, fill);
      SetCurrentShapesAndExtend(size, aosShapes);
      MaxIsLeast(old(largestDims), dims);
      if useBuffering {
        AppendToBuffer(indices, data);
      } else {
        GlobalSlab(State(), indices, data);
        WriteUsingHyperslabs(indices, data);
        log := log + [r];
      }
    }

    /** The first write of a put_slice to a dataset, which makes room for the new slices. */
    method WriteFirstSlice(size: Index, aosShapes: Index, indices: Index, extension: nat, data: seq<T>)
      requires Valid() && sliceMode && |size| == requestDim && |indices| == aosRank && dims == initialDims
      requires |data| ==
        Product(FileSlab(AfterFirst(State(), SliceWrite(indices, size, aosShapes, data), extension), indices).count)
      modifies this
      ensures Valid() && State() == AfterFirst(old(State()), SliceWrite(indices, size, aosShapes, data), extension)
      ensures file == WriteSlab(Hdf5Dataset.SetExtent(old(file), largestDims, fill), FileSlab(State(), indices), data)
    {
      hide ExtendedForSlices, FileSlab, Product, FlatIndex;
      StoreInitialDims();
      ExtendDataSpaceForTimeSlices(size, aosShapes, extension);
      SetTimeAxisOffset(indices, extension);
      WriteUsingHyperslabs(indices, data);
    }

    method WriteNextSlice(size: Index, aosShapes: Index, indices: Index, data: seq<T>)
      requires Valid() && sliceMode && |size| == requestDim && |indices| == aosRank
      requires |data| ==
        Product(FileSlab(AfterNext(State(), SliceWrite(indices, size, aosShapes, data)), indices).count)
      modifies this
      ensures Valid() && State() == AfterNext(old(State()), SliceWrite(indices, size, aosShapes, data))
      ensures file == WriteSlab(Hdf5Dataset.SetExtent(old(file), largestDims, fill), FileSlab(State(), indices), data)
    {
      hide MaxDims, FileSlab, Product, FlatIndex;
      UpdateTimeAxisOffset(indices);
      SetCurrentShapesAndExtend(size, aosShapes);
      WriteUsingHyperslabs(indices, data);
    }

    /** A whole put_slice on an open dataset: the first write makes room, the others follow. */
    method PutSlices(p: PutSlice<T>)
      requires Valid() && Allowed(p, file.dims) && State() == Opened(p.aosRank, p.timed, p.n, file.dims)
      modifies this
      ensures Valid() && file == Written(old(file), p, fill, |p.writes|)
      ensures State() == HandlerAfter(p, old(file.dims), |p.writes| - 1)
    {
      hide HandlerAfter, Written, FileSlab, AfterNext, AfterFirst, Product, Appends, InSession;
      ghost var was := file;
      RunStep(was, p, fill, 0);
      for k := 0 to |p.writes|
        invariant Valid() && sliceMode && file == Written(was, p, fill, k)
        invariant State() == if k == 0 then Opened(p.aosRank, p.timed, p.n, was.dims)
          else HandlerAfter(p, was.dims, k - 1)
      {
        var w := p.writes[k];
        RunStep(was, p, fill, k);
        if k == 0 {
          WriteFirstSlice(w.size, w.aosShapes, w.indices, p.n, w.data);
        } else {
          WriteNextSlice(w.size, w.aosShapes, w.indices, w.data);
        }
      }
    }

    /** Copies the queued requests, in order, into the whole dataset. */
    method FillFullBuffers() returns (v: array<T>)
      requires Session() && useBuffering
      ensures fresh(v) && v[..] == Scattered(Whole(file), log, largestDims, requestDim)
    {
      hide OneByOne, Grown, Product, FlatIndex, Unflat;
      ghost var whole := Whole(file);
      v := ReadAll();
      for request := 0 to |requestsArrctxIndices|
        invariant fresh(v) && v.Length == |whole|
        invariant v[..] == Scattered(whole, log[..request], largestDims, requestDim)
      {
        hide Scattered, Start, Placed;
        ScatterNext(whole, log, largestDims, requestDim, request);
        CopyRequest(v, request);
      }
      assert log[..|log|] == log;
    }

    method ReadAll() returns (v: array<T>)
      requires Valid() && largestDims == file.dims
      ensures fresh(v) && v[..] == Whole(file)
    {
      var whole := Whole(file);
      v := new T[|whole|](i requires 0 <= i < |whole| => whole[i]);
    }

    method CopyRequest(v: array<T>, request: nat)
      requires Valid() && Queued() && requestDim <= 1 && request < |log| && Proper(log[request], |dims|, requestDim)
      requires Start(log[request].indices, largestDims, requestDim) + |log[request].data| <= v.Length
      modifies v
      ensures v[..] == Placed(old(v[..]), Start(log[request].indices, largestDims, requestDim), log[request].data)
    {
      hide FlatIndex;
      var indices, buffer := requestsArrctxIndices[request], buffers[request];
      var shape := ShapeOf(requestsShapes[request]);
      assert shape == |buffer|;
      var index := 0;
      if |dims| != requestDim {
        if requestDim != 0 {
          index := IndicesToFlatIndex(indices + [0], largestDims);
        } else {
          index := IndicesToFlatIndex(indices, largestDims);
        }
        assert largestDims[..|dims|] == largestDims;
      }
      assert index == Start(log[request].indices, largestDims, requestDim);
      CopyAt(v, index, buffer);
    }

    method CopyAt(v: array<T>, index: nat, buffer: seq<T>)
      requires index + |buffer| <= v.Length
      modifies v
      ensures v[..] == Placed(old(v[..]), index, buffer)
    {
      for i := 0 to |buffer|
        invariant v[..] == Placed(old(v[..]), index, buffer[..i])
      {
        v[index + i] := buffer[i];
      }
      assert buffer[..|buffer|] == buffer;
    }

    /** The number of values of a request, from its recorded shape. */
    method ShapeOf(shape: Index) returns (n: nat)
      requires requestDim <= 1 && (requestDim != 0 ==> |shape| == |dims|) && |dims| == aosRank + requestDim
      ensures n == if requestDim == 0 then 1 else shape[|shape| - 1]
    {
      n := 1;
      for i := 0 to requestDim
        invariant n == if i == 0 then 1 else shape[|shape| - 1]
      {
        n := n * shape[|dims| - i - 1];
      }
    }

    /** Flushing leaves the file as writing every request at once would have left it. */
    method WriteBuffers()
      requires Session()
      modifies this`file
      ensures Same(file, OneByOne(base, log, requestDim, fill))
    {
      if !useBuffering {
        return;
      }
      var v := FillFullBuffers();
      FlushIsOneByOne(base, log, requestDim, fill);
      file := WriteWhole(file, v[..]);
    }
  }

  /** What one more write of a put_slice does to the tracked extents and to the file. */
  lemma {:induction false} RunStep<T>(ds: Dataset<T>, p: PutSlice<T>, fill: T, k: nat)
    requires Allowed(p, ds.dims) && k < |p.writes|
    ensures var w, h := p.writes[k], HandlerAfter(p, ds.dims, k);
      && h.Valid() && h.sliceMode && |w.data| == Product(FileSlab(h, w.indices).count)
      && p.aosRank + |w.size| == |ds.dims| && |w.indices| == p.aosRank
        && w == SliceWrite(w.indices, w.size, w.aosShapes, w.data)
      && h == (if k == 0 then AfterFirst(Opened(p.aosRank, p.timed, p.n, ds.dims), w, p.n)
        else AfterNext(HandlerAfter(p, ds.dims, k - 1), w))
      && Written(ds, p, fill, 0) == ds
      && Written(ds, p, fill, k + 1)
         == WriteSlab(Hdf5Dataset.SetExtent(Written(ds, p, fill, k), h.largest, fill), FileSlab(h, w.indices), w.data)
  {
    hide FileSlab, AfterNext, AfterFirst, Product;
  }

  /** Outside slice mode the handler takes over all shapes of a request. */
  lemma {:induction false} GlobalShapes(h: Handler, size: Index, aosShapes: Index)
    requires h.Valid() && !h.sliceMode && h.aosRank + |size| == |h.dims| && |aosShapes| == h.aosRank
    ensures var d := aosShapes + OutermostFirst(size);
      CurrentShapes(h, size, aosShapes) == h.(dims := d, largest := MaxDims(h.largest, d))
  {
    assert CurrentShapes(h, size, aosShapes).dims == aosShapes + OutermostFirst(size);
  }

  lemma {:induction false} RequestProper<T>(size: Index, aosShapes: Index, indices: Index, data: seq<T>)
    requires InBox(indices, aosShapes)
    requires |data| == ArraySize(aosShapes + OutermostFirst(size), |size|)
    ensures |indices| == |aosShapes|
    ensures Proper(Request(indices, aosShapes + OutermostFirst(size), data), |aosShapes| + |size|, |size|)
  {
    hide ArraySize;
    assert (aosShapes + OutermostFirst(size))[..|aosShapes|] == aosShapes;
  }

  lemma {:induction false} LogStep<T>(ds: Dataset<T>, log: seq<Request<T>>, r: Request<T>, dim: nat, fill: T)
    requires AllProper(log, |ds.dims|, dim) && Proper(r, |ds.dims|, dim)
    ensures AllProper(log + [r], |ds.dims|, dim) && |r.data| == Product(Selection(r).count)
    ensures var g := Grown(ds, log, dim, fill);
      Grown(ds, log + [r], dim, fill) == SetExtent(g, MaxDims(g.dims, r.dims), fill)
    ensures var o := OneByOne(ds, log, dim, fill);
      OneByOne(ds, log + [r], dim, fill) == WriteSlab(SetExtent(o, MaxDims(o.dims, r.dims), fill), Selection(r), r.data)
        && OneByOne(ds, log + [r], dim, fill).dims == MaxDims(o.dims, r.dims)
  {
    hide Product, Selection;
    SelectionSize(r, |ds.dims|, dim);
    assert (log + [r])[..|log|] == log;
  }
}
