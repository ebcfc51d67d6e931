/** Shapes of multidimensional arrays and the row-major positions of their cells. */
module Shapes {
  /** An index vector or the extents of an array, outermost axis first. */
  type Index = seq<nat>

  function Product(dims: seq<nat>): (p: nat) {
    if dims == [] then 1 else Product(dims[..|dims| - 1]) * dims[|dims| - 1]
  }

  predicate InBox(ix: Index, dims: Index) {
    |ix| == |dims| && forall i | 0 <= i < |ix| :: ix[i] < dims[i]
  }

  /** Every axis is at least as long. */
  predicate Extends(dims: Index, more: Index) {
    |dims| == |more| && forall i | 0 <= i < |dims| :: dims[i] <= more[i]
  }

  /** The position of an index vector in row-major order. */
  function FlatIndex(ix: Index, dims: Index): (p: nat)
    requires |ix| == |dims|
  {
    if ix == [] then 0
    else FlatIndex(ix[..|ix| - 1], dims[..|dims| - 1]) * dims[|dims| - 1] + ix[|ix| - 1]
  }

  /** Quotient and remainder. */
  function DivMod(p: nat, d: nat): (r: (nat, nat))
    requires d > 0
    ensures r.1 < d && p == r.0 * d + r.1
  {
    (p / d, p % d)
  }

  lemma {:induction false} MultipleAtLeast(k: int, d: nat)
    ensures k >= 1 ==> k * d >= d
    ensures k <= -1 ==> k * d <= 0 - d
  {
    if k >= 1 {
      assert (k - 1) * d >= 0;
    } else if k <= -1 {
      assert (-1 - k) * d >= 0;
    }
  }

  lemma {:induction false} DivModUnique(q: nat, r: nat, d: nat)
    requires r < d
    ensures DivMod(q * d + r, d) == (q, r)
  {
    hide DivMod;
    var x := DivMod(q * d + r, d);
    assert (q - x.0) * d == x.1 - r;
    MultipleAtLeast(q - x.0, d);
  }

  lemma {:induction false} DivBelow(p: nat, n: nat, d: nat)
    requires p < n * d
    ensures d > 0 && DivMod(p, d).0 < n
  {
    hide DivMod;
    if d > 0 {
      var x := DivMod(p, d);
      assert (x.0 - n) * d < d;
      MultipleAtLeast(x.0 - n + 1, d);
    }
  }

  /** The index vector at a row-major position. */
  function Unflat(p: nat, dims: Index): (ix: Index)
    requires p < Product(dims)
    ensures |ix| == |dims|
  {
    hide DivMod;
    if dims == [] then []
    else
      DivBelow(p, Product(dims[..|dims| - 1]), dims[|dims| - 1]);
      var (q, r) := DivMod(p, dims[|dims| - 1]);
      Unflat(q, dims[..|dims| - 1]) + [r]
  }

  lemma {:induction false} FlatInRange(ix: Index, dims: Index)
    requires InBox(ix, dims)
    ensures FlatIndex(ix, dims) < Product(dims)
  {
    if ix != [] {
      var q, n, d, r := FlatIndex(ix[..|ix| - 1], dims[..|dims| - 1]), Product(dims[..|dims| - 1]), dims[|dims| - 1],
        ix[|ix| - 1];
      FlatInRange(ix[..|ix| - 1], dims[..|dims| - 1]);
      assert (n - 1 - q) * d >= 0;
      assert q * d + d <= n * d;
    }
  }

  /** Positions and index vectors correspond one to one. */
  lemma {:induction false} UnflatOfFlat(ix: Index, dims: Index)
    requires InBox(ix, dims)
    ensures FlatIndex(ix, dims) < Product(dims) && Unflat(FlatIndex(ix, dims), dims) == ix
  {
    hide DivMod, Product;
    FlatInRange(ix, dims);
    if ix != [] {
      UnflatOfFlat(ix[..|ix| - 1], dims[..|dims| - 1]);
      DivModUnique(FlatIndex(ix[..|ix| - 1], dims[..|dims| - 1]), ix[|ix| - 1], dims[|dims| - 1]);
    }
  }

  lemma {:induction false} FlatOfUnflat(p: nat, dims: Index)
    requires p < Product(dims)
    ensures InBox(Unflat(p, dims), dims) && FlatIndex(Unflat(p, dims), dims) == p
  {
    hide DivMod;
    if dims != [] {
      DivBelow(p, Product(dims[..|dims| - 1]), dims[|dims| - 1]);
      var (q, r) := DivMod(p, dims[|dims| - 1]);
      FlatOfUnflat(q, dims[..|dims| - 1]);
      var ix := Unflat(p, dims);
      assert ix == Unflat(q, dims[..|dims| - 1]) + [r];
      assert ix[..|ix| - 1] == Unflat(q, dims[..|dims| - 1]);
    }
  }

  /** Row-major order distinguishes all cells of an array. */
  lemma {:induction false} FlatInjective(a: Index, b: Index, dims: Index)
    requires InBox(a, dims) && InBox(b, dims) && FlatIndex(a, dims) == FlatIndex(b, dims)
    ensures a == b
  {
    UnflatOfFlat(a, dims);
    UnflatOfFlat(b, dims);
  }

  /** The loop of indices_to_flat_index. */
  method IndicesToFlatIndex(indices: Index, shapes: Index) returns (flatIndex: nat)
    requires |indices| <= |shapes|
    ensures flatIndex == FlatIndex(indices, shapes[..|indices|])
  {
    flatIndex := 0;
    for i := 0 to |indices|
      invariant flatIndex == FlatIndex(indices[..i], shapes[..i])
    {
      assert indices[..i + 1][..i] == indices[..i] && shapes[..i + 1][..i] == shapes[..i];
      flatIndex := flatIndex * shapes[i] + indices[i];
    }
    assert indices[..|indices|] == indices;
  }
}
