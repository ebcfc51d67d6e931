/** An HDF5 dataset: an extensible array with a fill value, read and written whole or by hyperslab. */
module Hdf5Dataset {
  import opened Shapes

  /** The extents and the value of every cell; cells outside the extents are not stored. */
  datatype Dataset<T> = Dataset(dims: Index, cells: Index -> T)

  /** A hyperslab: a box of consecutive indices on every axis. */
  datatype Slab = Slab(offset: Index, count: Index)

  predicate InSlab(s: Slab, ix: Index)
    requires |s.offset| == |s.count|
  {
    |ix| == |s.offset| && forall i | 0 <= i < |ix| :: s.offset[i] <= ix[i] < s.offset[i] + s.count[i]
  }

  predicate SlabFits(s: Slab, dims: Index) {
    |s.offset| == |s.count| == |dims| && forall i | 0 <= i < |dims| :: s.offset[i] + s.count[i] <= dims[i]
  }

  /** The index vector relative to the corner of the slab. */
  function Within(s: Slab, ix: Index): (r: Index)
    requires |s.offset| == |s.count| && InSlab(s, ix)
    ensures InBox(r, s.count)
  {
    seq(|ix|, i requires 0 <= i < |ix| => ix[i] - s.offset[i])
  }

  function Shifted(s: Slab, ix: Index): (r: Index)
    requires |s.offset| == |ix|
    ensures |r| == |ix|
  {
    seq(|ix|, i requires 0 <= i < |ix| => ix[i] + s.offset[i])
  }

  /** Changes the extents: cells that were not stored hold the fill value. */
  function SetExtent<T>(ds: Dataset<T>, dims: Index, fill: T): Dataset<T> {
    Dataset(dims, ix => if InBox(ix, ds.dims) then ds.cells(ix) else fill)
  }

  /** Writes data, in row-major order, to the cells of a slab. */
  function WriteSlab<T>(ds: Dataset<T>, s: Slab, data: seq<T>): Dataset<T>
    requires |s.offset| == |s.count| && |data| == Product(s.count)
  {
    ds.(cells := ix => if InSlab(s, ix) then DataAt(s, data, ix) else ds.cells(ix))
  }

  function DataAt<T>(s: Slab, data: seq<T>, ix: Index): T
    requires |s.offset| == |s.count| && |data| == Product(s.count) && InSlab(s, ix)
  {
    FlatInRange(Within(s, ix), s.count);
    data[FlatIndex(Within(s, ix), s.count)]
  }

  /** The cells of a slab in row-major order. */
  function ReadSlab<T>(ds: Dataset<T>, s: Slab): (data: seq<T>)
    requires |s.offset| == |s.count|
    ensures |data| == Product(s.count)
  {
    seq(Product(s.count), p requires 0 <= p < Product(s.count) => ds.cells(Shifted(s, Unflat(p, s.count))))
  }

  /** All cells in row-major order. */
  function Whole<T>(ds: Dataset<T>): (v: seq<T>)
    ensures |v| == Product(ds.dims)
  {
    seq(Product(ds.dims), p requires 0 <= p < Product(ds.dims) => ds.cells(Unflat(p, ds.dims)))
  }

  function WriteWhole<T>(ds: Dataset<T>, v: seq<T>): Dataset<T>
    requires |v| == Product(ds.dims)
  {
    ds.(cells := ix => if InBox(ix, ds.dims) then (FlatInRange(ix, ds.dims); v[FlatIndex(ix, ds.dims)])
      else ds.cells(ix))
  }

  /** No stored cell tells the two datasets apart. */
  ghost predicate Same<T>(a: Dataset<T>, b: Dataset<T>) {
    a.dims == b.dims && forall ix | InBox(ix, a.dims) :: a.cells(ix) == b.cells(ix)
  }

  lemma {:induction false} WholeAt<T>(ds: Dataset<T>, ix: Index)
    requires InBox(ix, ds.dims)
    ensures FlatIndex(ix, ds.dims) < Product(ds.dims) && Whole(ds)[FlatIndex(ix, ds.dims)] == ds.cells(ix)
  {
    UnflatOfFlat(ix, ds.dims);
  }

  /** Reading a slab gives back what was last written to it. */
  lemma {:induction false} ReadAfterWrite<T>(ds: Dataset<T>, s: Slab, data: seq<T>)
    requires |s.offset| == |s.count| && |data| == Product(s.count)
    ensures ReadSlab(WriteSlab(ds, s, data), s) == data
  {
    hide FlatIndex, Unflat, Product;
    forall p | 0 <= p < |data|
      ensures ReadSlab(WriteSlab(ds, s, data), s)[p] == data[p]
    {
      var ix := Unflat(p, s.count);
      FlatOfUnflat(p, s.count);
      assert InSlab(s, Shifted(s, ix));
      assert Within(s, Shifted(s, ix)) == ix;
      assert DataAt(s, data, Shifted(s, ix)) == data[p];
    }
  }

  ghost predicate Disjoint(a: Slab, b: Slab)
    requires |a.offset| == |a.count| && |b.offset| == |b.count|
  {
    forall ix: Index :: !(InSlab(a, ix) && InSlab(b, ix))
  }

  /** Slabs that are apart on one axis share no cell. */
  lemma {:induction false} ApartOnAxis(a: Slab, b: Slab, k: nat)
    requires |a.offset| == |a.count| && |b.offset| == |b.count|
    requires k < |a.offset| && k < |b.offset|
    requires a.offset[k] + a.count[k] <= b.offset[k] || b.offset[k] + b.count[k] <= a.offset[k]
    ensures Disjoint(a, b)
  {
    forall ix: Index | InSlab(a, ix)
      ensures !InSlab(b, ix)
    {
      assert a.offset[k] <= ix[k] < a.offset[k] + a.count[k];
    }
  }

  lemma {:induction false} ReadElsewhere<T>(ds: Dataset<T>, a: Slab, b: Slab, data: seq<T>)
    requires |a.offset| == |a.count| && |b.offset| == |b.count| && |data| == Product(b.count)
    requires Disjoint(a, b)
    ensures ReadSlab(WriteSlab(ds, b, data), a) == ReadSlab(ds, a)
  {
    forall p | 0 <= p < Product(a.count)
      ensures ReadSlab(WriteSlab(ds, b, data), a)[p] == ReadSlab(ds, a)[p]
    {
      var ix := Unflat(p, a.count);
      FlatOfUnflat(p, a.count);
      assert InSlab(a, Shifted(a, ix));
    }
  }
}
