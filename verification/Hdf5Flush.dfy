/** Queued writes of scalars and vectors, merged into the whole dataset when the operation ends. */
module Hdf5Flush {
  import opened Shapes
  import opened Hdf5Dataset

  function Zeros(n: nat): Index { seq(n, i => 0) }

  function Ones(n: nat): Index { seq(n, i => 1) }

  /** A write: the indices of the enclosing structures, the shapes when it was asked for, the values. */
  datatype Request<T> = Request(indices: Index, dims: Index, data: seq<T>)

  /** How many values an array holds that spans the last dim axes. */
  function ArraySize(dims: Index, dim: nat): (n: nat)
    requires dim <= |dims|
    ensures dim == 0 ==> n == 1
    ensures dim == 1 ==> n == dims[|dims| - 1]
  {
    var tail := dims[|dims| - dim..];
    assert dim == 1 ==> tail[..0] == [] && Product(tail) == Product(tail[..0]) * tail[0];
    Product(tail)
  }

  /** The element exists in the structures as they are then, and the values fill its array. */
  ghost predicate Proper<T>(r: Request<T>, rank: nat, dim: nat) {
    && dim <= rank == |r.dims|
    && InBox(r.indices, r.dims[..rank - dim])
    && |r.data| == ArraySize(r.dims, dim)
  }

  ghost predicate AllProper<T>(reqs: seq<Request<T>>, rank: nat, dim: nat) {
    forall i | 0 <= i < |reqs| :: Proper(reqs[i], rank, dim)
  }

  function MaxDims(a: Index, b: Index): (m: Index)
    requires |a| == |b|
    ensures Extends(a, m) && Extends(b, m)
  {
    seq(|a|, i requires 0 <= i < |a| => if b[i] > a[i] then b[i] else a[i])
  }

  /** The extents that are needed to hold arrays of all these extents, and no more. */
  ghost predicate LeastCovering(least: Index, all: seq<Index>) {
    && Covers(least, all)
    && forall m | Covers(m, all) :: Extends(least, m)
  }

  ghost predicate Covers(m: Index, all: seq<Index>) {
    forall i | 0 <= i < |all| :: Extends(all[i], m)
  }

  lemma {:induction false} MaxIsLeast(a: Index, b: Index)
    requires |a| == |b|
    ensures LeastCovering(MaxDims(a, b), [a, b])
  {
    forall m | Covers(m, [a, b])
      ensures Extends(MaxDims(a, b), m)
    {
      assert Extends([a, b][0], m) && Extends([a, b][1], m);
    }
  }

  lemma {:induction false} OneIsLeast(a: Index)
    ensures LeastCovering(a, [a])
  {
    forall m | Covers(m, [a])
      ensures Extends(a, m)
    {
      assert Extends([a][0], m);
    }
  }

  lemma {:induction false} LeastOfMore(least: Index, all: seq<Index>, d: Index)
    requires LeastCovering(least, all) && |d| == |least|
    ensures LeastCovering(MaxDims(least, d), all + [d])
  {
    hide MaxDims, Extends;
    MaxIsLeast(least, d);
    var r, more := MaxDims(least, d), all + [d];
    assert more[|all|] == d && [least, d][0] == least && [least, d][1] == d;
    forall i | 0 <= i < |more|
      ensures Extends(more[i], r)
    {
      if i < |all| {
        assert Extends(all[i], least);
        ExtendsTransitive(all[i], least, r);
      }
    }
    forall m | Covers(m, more)
      ensures Extends(r, m)
    {
      assert Covers(m, all) by {
        assert forall i | 0 <= i < |all| :: more[i] == all[i];
      }
      assert Covers(m, [least, d]);
    }
  }

  lemma {:induction false} ExtendsTransitive(a: Index, b: Index, c: Index)
    requires Extends(a, b) && Extends(b, c)
    ensures Extends(a, c)
  {
  }

  /** The hyperslab of a write outside slice mode: one element of every structure array, the array from 0. */
  function Selection<T>(r: Request<T>): (s: Slab)
    requires |r.indices| <= |r.dims|
    ensures |s.offset| == |s.count| == |r.dims|
  {
    var dim := |r.dims| - |r.indices|;
    Slab(r.indices + Zeros(dim), Ones(|r.indices|) + r.dims[|r.indices|..])
  }

  lemma {:induction false} OnesProduct(n: nat)
    ensures Product(Ones(n)) == 1 && FlatIndex(Zeros(n), Ones(n)) == 0
  {
    if n > 0 {
      assert Ones(n)[..n - 1] == Ones(n - 1) && Zeros(n)[..n - 1] == Zeros(n - 1);
      OnesProduct(n - 1);
    }
  }

  lemma {:induction false} SelectionSize<T>(r: Request<T>, rank: nat, dim: nat)
    requires Proper(r, rank, dim)
    ensures |r.data| == Product(Selection(r).count)
  {
    OnesTimes(rank - dim, r.dims[rank - dim..]);
  }

  lemma {:induction false} OnesTimes(n: nat, dims: Index)
    ensures Product(Ones(n) + dims) == Product(dims)
  {
    var c := Ones(n) + dims;
    if dims == [] {
      assert c == Ones(n);
      OnesProduct(n);
    } else {
      OnesTimes(n, dims[..|dims| - 1]);
      assert c[..|c| - 1] == Ones(n) + dims[..|dims| - 1];
    }
  }

  lemma {:induction false} ExtendsMax(a: Index, b: Index, c: Index)
    requires Extends(a, b) && |b| == |c|
    ensures Extends(a, MaxDims(b, c))
  {
  }

  // ------------------------------------------------------------ one by one

  /** Writes the requests as they come, each after growing the dataset as far as it asks. */
  ghost function OneByOne<T>(ds: Dataset<T>, reqs: seq<Request<T>>, dim: nat, fill: T): (r: Dataset<T>)
    requires AllProper(reqs, |ds.dims|, dim)
    ensures |r.dims| == |ds.dims| && Extends(ds.dims, r.dims)
    ensures forall i | 0 <= i < |reqs| :: Extends(reqs[i].dims, r.dims)
  {
    if reqs == [] then ds
    else
      hide FlatIndex, Product, Selection, InBox;
      var last := reqs[|reqs| - 1];
      var before := OneByOne(ds, reqs[..|reqs| - 1], dim, fill);
      ExtendsMax(ds.dims, before.dims, last.dims);
      forall i | 0 <= i < |reqs| - 1
        ensures Extends(reqs[i].dims, MaxDims(before.dims, last.dims))
      {
        ExtendsMax(reqs[i].dims, before.dims, last.dims);
      }
      SelectionSize(last, |ds.dims|, dim);
      WriteSlab(SetExtent(before, MaxDims(before.dims, last.dims), fill), Selection(last), last.data)
  }

  function AskedDims<T>(reqs: seq<Request<T>>): (d: seq<Index>)
    ensures |d| == |reqs|
  {
    seq(|reqs|, i requires 0 <= i < |reqs| => reqs[i].dims)
  }

  /** Any run of writes leaves the least extents that hold what was stored and what was asked for. */
  lemma {:induction false} GrowthIsLeast<T>(ds: Dataset<T>, reqs: seq<Request<T>>, dim: nat, fill: T)
    requires AllProper(reqs, |ds.dims|, dim)
    ensures LeastCovering(OneByOne(ds, reqs, dim, fill).dims, [ds.dims] + AskedDims(reqs))
  {
    hide MaxDims, LeastCovering, Product, Selection;
    if reqs == [] {
      OneIsLeast(ds.dims);
      assert [ds.dims] + AskedDims(reqs) == [ds.dims];
    } else {
      var front, last := reqs[..|reqs| - 1], reqs[|reqs| - 1];
      GrowthIsLeast(ds, front, dim, fill);
      LeastOfMore(OneByOne(ds, front, dim, fill).dims, [ds.dims] + AskedDims(front), last.dims);
      assert [ds.dims] + AskedDims(reqs) == [ds.dims] + AskedDims(front) + [last.dims];
    }
  }

  /** The same growth without writing anything. */
  ghost function Grown<T>(ds: Dataset<T>, reqs: seq<Request<T>>, dim: nat, fill: T): (r: Dataset<T>)
    requires AllProper(reqs, |ds.dims|, dim)
    ensures r.dims == OneByOne(ds, reqs, dim, fill).dims
  {
    if reqs == [] then ds
    else
      var before := Grown(ds, reqs[..|reqs| - 1], dim, fill);
      SetExtent(before, MaxDims(before.dims, reqs[|reqs| - 1].dims), fill)
  }

  // ----------------------------------------------------------------- flush

  /** Where the values of a request start in the whole dataset, as the flush computes it. */
  function Start(indices: Index, largest: Index, dim: nat): nat
    requires dim <= 1 && |indices| + dim == |largest|
  {
    if |largest| == dim then 0
    else if dim != 0 then FlatIndex(indices + [0], largest)
    else FlatIndex(indices, largest)
  }

  function Placed<T>(v: seq<T>, at: nat, data: seq<T>): (r: seq<T>)
    requires at + |data| <= |v|
    ensures |r| == |v|
  {
    v[..at] + data + v[at + |data|..]
  }

  /** The whole dataset with the requests copied into it in queue order. */
  ghost function Scattered<T>(v: seq<T>, reqs: seq<Request<T>>, largest: Index, dim: nat): (r: seq<T>)
    requires dim <= 1 && |v| == Product(largest) && AllProper(reqs, |largest|, dim)
    requires forall i | 0 <= i < |reqs| :: Extends(reqs[i].dims, largest)
    ensures |r| == |v|
  {
    if reqs == [] then v
    else
      var last := reqs[|reqs| - 1];
      StartFits(last, largest, dim);
      Placed(Scattered(v, reqs[..|reqs| - 1], largest, dim), Start(last.indices, largest, dim), last.data)
  }

  lemma {:induction false} ScatterNext<T>(v: seq<T>, reqs: seq<Request<T>>, largest: Index, dim: nat, k: nat)
    requires dim <= 1 && |v| == Product(largest) && AllProper(reqs, |largest|, dim) && k < |reqs|
    requires forall i | 0 <= i < |reqs| :: Extends(reqs[i].dims, largest)
    ensures Start(reqs[k].indices, largest, dim) + |reqs[k].data| <= |v|
    ensures Scattered(v, reqs[..k + 1], largest, dim)
         == Placed(Scattered(v, reqs[..k], largest, dim), Start(reqs[k].indices, largest, dim), reqs[k].data)
  {
    hide FlatIndex, Product, Start, Placed;
    StartFits(reqs[k], largest, dim);
    assert reqs[..k + 1][..k] == reqs[..k];
  }

  /** The start of a vector: a whole number of rows of the innermost axis. */
  lemma {:induction false} RowStart(indices: Index, largest: Index)
    requires |indices| + 1 == |largest|
    ensures Start(indices, largest, 1) == FlatIndex(indices, largest[..|indices|]) * largest[|indices|]
  {
    assert (indices + [0])[..|indices|] == indices;
    if |largest| == 1 {
      assert indices == [];
    }
  }

  lemma {:induction false} StartFits<T>(r: Request<T>, largest: Index, dim: nat)
    requires dim <= 1 && Proper(r, |largest|, dim) && Extends(r.dims, largest)
    ensures Start(r.indices, largest, dim) + |r.data| <= Product(largest)
  {
    hide FlatIndex, Product, Start;
    assert InBox(r.indices, largest[..|largest| - dim]);
    StretchFits(r.indices, largest, dim);
  }

  lemma {:induction false} StretchFits(indices: Index, largest: Index, dim: nat)
    requires dim <= 1 && |indices| + dim == |largest| && InBox(indices, largest[..|indices|])
    ensures Start(indices, largest, dim) + (if dim == 0 then 1 else largest[|largest| - 1]) <= Product(largest)
  {
    hide FlatIndex, Product;
    var n := |indices|;
    FlatInRange(indices, largest[..n]);
    if dim == 0 {
      assert largest[..n] == largest;
      if n == 0 {
        EmptyFlat(indices, largest);
      }
    } else {
      RowStart(indices, largest);
      RowFits(FlatIndex(indices, largest[..n]), largest);
    }
  }

  lemma {:induction false} EmptyFlat(ix: Index, dims: Index)
    requires |ix| == |dims| == 0
    ensures FlatIndex(ix, dims) == 0
  {
  }

  lemma {:induction false} RowFits(q: nat, dims: Index)
    requires dims != [] && q < Product(dims[..|dims| - 1])
    ensures q * dims[|dims| - 1] + dims[|dims| - 1] <= Product(dims)
  {
    var n, d := Product(dims[..|dims| - 1]), dims[|dims| - 1];
    MultipleAtLeast(n - q, d);
    assert n * d == q * d + (n - q) * d;
  }

  /** The stretch of a request in the whole dataset is the hyperslab it selects. */
  lemma {:induction false} StretchIsSlab<T>(r: Request<T>, largest: Index, dim: nat, ix: Index)
    requires dim <= 1 && Proper(r, |largest|, dim) && Extends(r.dims, largest) && InBox(ix, largest)
    ensures |r.data| == Product(Selection(r).count)
    ensures var p := FlatIndex(ix, largest) - Start(r.indices, largest, dim);
      (0 <= p < |r.data| <==> InSlab(Selection(r), ix)) &&
      (InSlab(Selection(r), ix) ==> DataAt(Selection(r), r.data, ix) == r.data[p])
  {
    hide FlatIndex, Product, Start, Selection, DataAt, InSlab, InBox, Extends;
    SelectionSize(r, |largest|, dim);
    if dim == 0 {
      ScalarStretch(r, largest, ix);
    } else {
      VectorStretch(r, largest, ix);
    }
  }

  lemma {:induction false} ScalarStretch<T>(r: Request<T>, largest: Index, ix: Index)
    requires Proper(r, |largest|, 0) && Extends(r.dims, largest) && InBox(ix, largest)
    requires |r.data| == Product(Selection(r).count)
    ensures var p := FlatIndex(ix, largest) - Start(r.indices, largest, 0);
      (0 <= p < |r.data| <==> InSlab(Selection(r), ix)) &&
      (InSlab(Selection(r), ix) ==> DataAt(Selection(r), r.data, ix) == r.data[p])
  {
    hide FlatIndex, Product;
    var s, n := Selection(r), |largest|;
    assert r.dims[..n] == r.dims;
    assert InBox(r.indices, largest);
    assert s.offset == r.indices && s.count == Ones(n);
    assert InSlab(s, ix) <==> ix == r.indices;
    OnesProduct(n);
    if n == 0 {
      EmptyFlat(ix, largest);
    }
    if FlatIndex(ix, largest) == FlatIndex(r.indices, largest) {
      FlatInjective(ix, r.indices, largest);
      assert Within(s, ix) == Zeros(n);
    }
  }

  lemma {:induction false} VectorStretch<T>(r: Request<T>, largest: Index, ix: Index)
    requires Proper(r, |largest|, 1) && Extends(r.dims, largest) && InBox(ix, largest)
    requires |r.data| == Product(Selection(r).count)
    ensures var p := FlatIndex(ix, largest) - Start(r.indices, largest, 1);
      (0 <= p < |r.data| <==> InSlab(Selection(r), ix)) &&
      (InSlab(Selection(r), ix) ==> DataAt(Selection(r), r.data, ix) == r.data[p])
  {
    hide Product, Start, FlatIndex;
    var s, n := Selection(r), |largest| - 1;
    var outer := largest[..n];
    RowStart(r.indices, largest);
    FlatUnfold(ix, largest);
    var q, q0 := FlatIndex(ix[..n], outer), FlatIndex(r.indices, outer);
    assert s.offset == r.indices + [0] && s.count == Ones(n) + [r.dims[n]];
    if ix[..n] == r.indices {
      InRow(s, r.indices, r.dims[n], ix);
    } else {
      if q == q0 {
        FlatInjective(ix[..n], r.indices, outer);
      }
      OtherRow(q, q0, largest[n], ix[n], r.dims[n]);
      assert !InSlab(s, ix) by {
        var k :| 0 <= k < n && ix[k] != r.indices[k];
      }
    }
  }

  lemma {:induction false} FlatUnfold(ix: Index, dims: Index)
    requires |ix| == |dims| > 0
    ensures FlatIndex(ix, dims) == FlatIndex(ix[..|ix| - 1], dims[..|dims| - 1]) * dims[|dims| - 1] + ix[|ix| - 1]
  {
  }

  lemma {:induction false} OtherRow(q: nat, q0: nat, w: nat, x: nat, n: nat)
    requires q != q0 && x < w && n <= w
    ensures !(q0 * w <= q * w + x < q0 * w + n)
  {
    MultipleAtLeast(q - q0, w);
    assert q * w - q0 * w == (q - q0) * w;
  }

  lemma {:induction false} InRow(s: Slab, indices: Index, len: nat, ix: Index)
    requires s == Slab(indices + [0], Ones(|indices|) + [len]) && |ix| == |indices| + 1 && ix[..|indices|] == indices
    ensures InSlab(s, ix) <==> ix[|indices|] < len
    ensures InSlab(s, ix) ==> FlatIndex(Within(s, ix), s.count) == ix[|indices|]
  {
    hide FlatIndex;
    var n := |indices|;
    assert forall i | 0 <= i < n :: ix[i] == ix[..n][i];
    if ix[n] < len {
      OnesProduct(n);
      var at := Within(s, ix);
      assert at[..n] == Zeros(n) && at[n] == ix[n];
      assert s.count[..n] == Ones(n);
      LastFlat(at, s.count);
    }
  }

  lemma {:induction false} LastFlat(ix: Index, dims: Index)
    requires |ix| == |dims| > 0 && FlatIndex(ix[..|ix| - 1], dims[..|dims| - 1]) == 0
    ensures FlatIndex(ix, dims) == ix[|ix| - 1]
  {
  }

  /** The flushed image holds, at the final extents, what one-by-one writing leaves in each cell. */
  lemma {:induction false} ScatterMatches<T>(ds: Dataset<T>, v: seq<T>, reqs: seq<Request<T>>, largest: Index,
      dim: nat, fill: T)
    requires dim <= 1 && AllProper(reqs, |ds.dims|, dim) && Extends(OneByOne(ds, reqs, dim, fill).dims, largest)
    requires |v| == Product(largest)
    requires forall ix | !InBox(ix, ds.dims) :: ds.cells(ix) == fill
    requires forall ix | InBox(ix, largest) :: FlatIndex(ix, largest) < |v| && v[FlatIndex(ix, largest)] == ds.cells(ix)
    ensures forall ix | !InBox(ix, OneByOne(ds, reqs, dim, fill).dims) ::
      OneByOne(ds, reqs, dim, fill).cells(ix) == fill
    ensures forall i | 0 <= i < |reqs| :: Extends(reqs[i].dims, largest)
    ensures forall ix | InBox(ix, largest) ::
      Scattered(v, reqs, largest, dim)[FlatIndex(ix, largest)] == OneByOne(ds, reqs, dim, fill).cells(ix)
  {
    hide FlatIndex, Product, Start, Selection, DataAt;
    if reqs != [] {
      var front, last := reqs[..|reqs| - 1], reqs[|reqs| - 1];
      var before := OneByOne(ds, front, dim, fill);
      ScatterMatches(ds, v, front, largest, dim, fill);
      SelectionSize(last, |ds.dims|, dim);
      StartFits(last, largest, dim);
      SelectionInside(last, |ds.dims|, dim);
      ScatterStep(before, Scattered(v, front, largest, dim), last, largest, dim, fill);
    }
  }

  lemma {:induction false} ScatterStep<T>(ds: Dataset<T>, v: seq<T>, r: Request<T>, largest: Index, dim: nat, fill: T)
    requires dim <= 1 && Proper(r, |largest|, dim) && |ds.dims| == |largest| && |v| == Product(largest)
      && |r.data| == Product(Selection(r).count)
    requires Extends(r.dims, largest) && Start(r.indices, largest, dim) + |r.data| <= |v|
    requires forall ix | !InBox(ix, ds.dims) :: ds.cells(ix) == fill
    requires forall ix | InBox(ix, largest) :: FlatIndex(ix, largest) < |v| && v[FlatIndex(ix, largest)] == ds.cells(ix)
    ensures forall ix | InBox(ix, largest) ::
      Placed(v, Start(r.indices, largest, dim), r.data)[FlatIndex(ix, largest)]
      == WriteSlab(SetExtent(ds, MaxDims(ds.dims, r.dims), fill), Selection(r), r.data).cells(ix)
  {
    hide FlatIndex, Product, Start, Selection, DataAt, InSlab;
    var at := Start(r.indices, largest, dim);
    forall ix | InBox(ix, largest)
      ensures Placed(v, at, r.data)[FlatIndex(ix, largest)]
        == WriteSlab(SetExtent(ds, MaxDims(ds.dims, r.dims), fill), Selection(r), r.data).cells(ix)
    {
      StretchIsSlab(r, largest, dim, ix);
      var p := FlatIndex(ix, largest);
      assert Placed(v, at, r.data)[p] == if at <= p < at + |r.data| then r.data[p - at] else v[p];
    }
  }

  lemma {:induction false} SelectionInside<T>(r: Request<T>, rank: nat, dim: nat)
    requires Proper(r, rank, dim)
    ensures SlabFits(Selection(r), r.dims)
    ensures forall ix | InSlab(Selection(r), ix) :: InBox(ix, r.dims)
  {
    var s := Selection(r);
    forall i | 0 <= i < rank
      ensures s.offset[i] + s.count[i] <= r.dims[i]
    {
      if i < rank - dim {
        assert r.indices[i] < r.dims[..rank - dim][i];
      }
    }
  }

  lemma {:induction false} GrownCells<T>(ds: Dataset<T>, reqs: seq<Request<T>>, dim: nat, fill: T)
    requires AllProper(reqs, |ds.dims|, dim)
    requires forall ix | !InBox(ix, ds.dims) :: ds.cells(ix) == fill
    ensures forall ix :: Grown(ds, reqs, dim, fill).cells(ix) == ds.cells(ix)
  {
    if reqs != [] {
      var front := reqs[..|reqs| - 1];
      GrownCells(ds, front, dim, fill);
      var before := Grown(ds, front, dim, fill);
      assert Extends(ds.dims, before.dims);
    }
  }

  /**
   * The flush leaves the dataset that writing the requests one by one would leave, even though each
   * request was made when the dataset was smaller.
   */
  lemma {:induction false} FlushIsOneByOne<T>(ds: Dataset<T>, reqs: seq<Request<T>>, dim: nat, fill: T)
    requires dim <= 1 && AllProper(reqs, |ds.dims|, dim)
    requires forall ix | !InBox(ix, ds.dims) :: ds.cells(ix) == fill
    ensures var g := Grown(ds, reqs, dim, fill);
      Same(WriteWhole(g, Scattered(Whole(g), reqs, g.dims, dim)), OneByOne(ds, reqs, dim, fill))
  {
    hide FlatIndex, Product, Start, Selection, OneByOne, Grown, Unflat;
    var g := Grown(ds, reqs, dim, fill);
    GrownCells(ds, reqs, dim, fill);
    forall ix | InBox(ix, g.dims)
      ensures FlatIndex(ix, g.dims) < |Whole(g)| && Whole(g)[FlatIndex(ix, g.dims)] == ds.cells(ix)
    {
      WholeAt(g, ix);
    }
    ScatterMatches(ds, Whole(g), reqs, g.dims, dim, fill);
  }

  // ------------------------------------------------------------ cached read

  /** What a read takes from the cached copy of a whole dataset. */
  function CachedRead<T>(v: seq<T>, indices: Index, dims: Index, dim: nat): (r: seq<T>)
    requires dim <= 1 && |indices| + dim == |dims| && InBox(indices, dims[..|indices|]) && |v| == Product(dims)
    ensures |r| == if dim == 0 then 1 else dims[|dims| - 1]
  {
    StretchFits(indices, dims, dim);
    var at := Start(indices, dims, dim);
    v[at..at + if dim == 0 then 1 else dims[|dims| - 1]]
  }

  /** Reading from the cache is reading the hyperslab of the element. */
  lemma {:induction false} CacheIsSlab<T>(ds: Dataset<T>, indices: Index, dim: nat)
    requires dim <= 1 && |indices| + dim == |ds.dims| && InBox(indices, ds.dims[..|indices|])
    ensures CachedRead(Whole(ds), indices, ds.dims, dim)
      == ReadSlab(ds, Selection(Request(indices, ds.dims, Whole(ds))))
  {
    hide FlatIndex, Product, Start, Unflat, DataAt, CachedRead;
    var r := Request(indices, ds.dims, CachedRead(Whole(ds), indices, ds.dims, dim));
    SelectionSize(r, |ds.dims|, dim);
    forall p | 0 <= p < |r.data|
      ensures r.data[p] == ReadSlab(ds, Selection(r))[p]
    {
      CachedCell(ds, r, dim, p);
    }
  }

  lemma {:induction false} CachedCell<T>(ds: Dataset<T>, r: Request<T>, dim: nat, p: nat)
    requires dim <= 1 && |r.indices| + dim == |ds.dims| && InBox(r.indices, ds.dims[..|r.indices|]) && r.dims == ds.dims
    requires r.data == CachedRead(Whole(ds), r.indices, ds.dims, dim) && p < |r.data| == Product(Selection(r).count)
    ensures r.data[p] == ds.cells(Shifted(Selection(r), Unflat(p, Selection(r).count)))
  {
    hide FlatIndex, Product, Start, Unflat, Whole;
    var s := Selection(r);
    SelectionInside(r, |ds.dims|, dim);
    var at := Unflat(p, s.count);
    FlatOfUnflat(p, s.count);
    var ix := Shifted(s, at);
    assert InSlab(s, ix) && Within(s, ix) == at;
    StretchIsSlab(r, ds.dims, dim, ix);
    WholeAt(ds, ix);
    var q := FlatIndex(ix, ds.dims) - Start(r.indices, ds.dims, dim);
    assert r.data[p] == DataAt(s, r.data, ix) == r.data[q];
    var v, first := Whole(ds), Start(r.indices, ds.dims, dim);
    StretchFits(r.indices, ds.dims, dim);
    assert r.data == v[first..first + |r.data|];
    assert r.data[q] == v[first + q];
  }
}
