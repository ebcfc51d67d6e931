/** How a dataset's chunk shape is chosen when it is created. */
module ChunkSizing {
  import opened Shapes

  const TARGET_MAX := 2 * 1024 * 1024
  const TARGET_MIN := 10 * 1024

  function Pow(b: nat, e: nat): (p: nat)
    ensures b > 0 ==> p > 0
  {
    if e == 0 then 1 else Pow(b, e - 1) * b
  }

  lemma {:induction false} PowAtLeast(b: nat, e: nat)
    requires e > 0
    ensures Pow(b, e) >= b
  {
    if b > 0 {
      MultipleAtLeast(Pow(b, e - 1), b);
    }
  }

  /** The largest r with r to the k not above n. */
  function Root(n: nat, k: nat): (r: nat)
    requires k > 0
    ensures Pow(r, k) <= n < Pow(r + 1, k)
  {
    RootFrom(n, k, 0)
  }

  function RootFrom(n: nat, k: nat, r: nat): (s: nat)
    requires k > 0 && Pow(r, k) <= n
    ensures Pow(s, k) <= n < Pow(s + 1, k)
    decreases n - r
  {
    PowAtLeast(r, k);
    PowAtLeast(r + 1, k);
    if Pow(r + 1, k) <= n then RootFrom(n, k, r + 1) else r
  }

  predicate Positive(dims: Index) {
    forall i | 0 <= i < |dims| :: dims[i] >= 1
  }

  lemma {:induction false} PositiveProduct(dims: Index)
    ensures Product(dims) >= 1 <==> Positive(dims)
  {
    if dims != [] {
      var front, last := dims[..|dims| - 1], dims[|dims| - 1];
      PositiveProduct(front);
      MultipleAtLeast(Product(front), last);
      assert Positive(dims) <==> Positive(front) && last >= 1;
      if !Positive(front) {
        assert Product(front) * last == 0;
      }
    }
  }

  lemma {:induction false} ProductSplit(a: Index, b: Index)
    ensures Product(a + b) == Product(a) * Product(b)
  {
    if b == [] {
      assert a + b == a;
    } else {
      var front, last := b[..|b| - 1], b[|b| - 1];
      ProductSplit(a, front);
      assert (a + b)[..|a + b| - 1] == a + front;
      Associate(Product(a), Product(front), last);
    }
  }

  lemma {:induction false} Associate(a: nat, b: nat, c: nat)
    ensures a * b * c == a * (b * c)
  {
  }

  lemma {:induction false} ConstantProduct(r: nat, dims: Index)
    requires forall i | 0 <= i < |dims| :: dims[i] == r
    ensures Product(dims) == Pow(r, |dims|)
  {
    if dims != [] {
      ConstantProduct(r, dims[..|dims| - 1]);
    }
  }

  lemma {:induction false} ProductStep(dims: Index, lo: nat, i: nat)
    requires lo <= i < |dims|
    ensures Product(dims[lo..i + 1]) == Product(dims[lo..i]) * dims[i]
  {
    assert dims[lo..i + 1][..i - lo] == dims[lo..i];
  }

  /** One side after a shrinking step. */
  function Shrunk(side: nat, k: nat): (s: nat)
    ensures s >= 1
  {
    var c := DivMod(side, Pow(2, k)).0;
    if c < 1 then 1 else c
  }

  /** A side divided by 2 to the k and rounded down, but at least 1. */
  lemma {:induction false} ShrunkExact(side: nat, k: nat)
    ensures var s, d := Shrunk(side, k), Pow(2, k);
      if d <= side then s * d <= side < (s + 1) * d else s == 1
  {
    hide DivMod;
    var c := DivMod(side, Pow(2, k));
    MultipleAtLeast(c.0, Pow(2, k));
    assert (c.0 + 1) * Pow(2, k) == c.0 * Pow(2, k) + Pow(2, k);
    if c.0 == 0 {
      assert c.0 * Pow(2, k) == 0;
    }
  }

  lemma {:induction false} ShrunkLess(side: nat, k: nat)
    requires side >= 1 && k > 0
    ensures Shrunk(side, k) <= side && (side > 1 ==> Shrunk(side, k) < side)
  {
    hide DivMod;
    var c := DivMod(side, Pow(2, k));
    PowAtLeast(2, k);
    MultipleAtLeast(c.0, Pow(2, k));
    TwiceAtMost(c.0, Pow(2, k));
  }

  lemma {:induction false} TwiceAtMost(c: nat, d: nat)
    requires d >= 2
    ensures c * d >= 2 * c
  {
    assert c * (d - 2) >= 0;
  }

  lemma {:induction false} ShrunkProduct(dims: Index, less: Index, k: nat)
    requires |dims| == |less| && k > 0 && Positive(dims)
    requires forall i | 0 <= i < |dims| :: less[i] == Shrunk(dims[i], k)
    ensures Product(less) <= Product(dims)
    ensures Product(dims) > 1 ==> Product(less) < Product(dims)
  {
    hide Shrunk;
    if dims != [] {
      var n := |dims| - 1;
      ShrunkProduct(dims[..n], less[..n], k);
      ShrunkLess(dims[n], k);
      PositiveProduct(dims[..n]);
      PositiveProduct(less[..n]);
      TimesMonotone(Product(less[..n]), Product(dims[..n]), less[n], dims[n]);
    }
  }

  lemma {:induction false} TimesMonotone(a: nat, b: nat, c: nat, d: nat)
    requires 1 <= a <= b && 1 <= c <= d
    ensures a * c <= b * d
    ensures a < b || c < d ==> a * c < b * d
  {
    assert (b - a) * c >= 0 && b * (d - c) >= 0;
    assert b * d == a * c + (b - a) * c + b * (d - c);
    if a < b {
      MultipleAtLeast(b - a, c);
    }
    if c < d {
      MultipleAtLeast(d - c, b);
    }
  }

  lemma {:induction false} TimesAtMost(a: nat, b: nat, c: nat, d: nat)
    requires a <= b && c <= d
    ensures a * c <= b * d
  {
    assert (b - a) * c >= 0 && b * (d - c) >= 0;
    assert b * d == a * c + (b - a) * c + b * (d - c);
  }

  // ------------------------------------------------ which chunk is chosen

  /** The sides after one pass over the axes from lo to hi. */
  function Pass(dims: Index, lo: nat, hi: nat): (r: Index)
    requires lo <= hi
    ensures |r| == |dims|
  {
    seq(|dims|, i requires 0 <= i < |dims| => if lo <= i < hi then Shrunk(dims[i], hi - lo) else dims[i])
  }

  function Passed(dims: Index, lo: nat, hi: nat, j: nat): (r: Index)
    requires lo <= hi
    ensures |r| == |dims|
  {
    if j == 0 then dims else Pass(Passed(dims, lo, hi, j - 1), lo, hi)
  }

  function Stretch(dims: Index, lo: nat, hi: nat): nat
    requires lo <= hi <= |dims|
  {
    Product(dims[lo..hi])
  }

  /** After j passes the axes from lo to hi hold at most limit elements, for the first time. */
  ghost predicate FitsAfter(dims: Index, lo: nat, hi: nat, limit: nat, j: nat, chunk: Index)
    requires lo <= hi <= |dims|
  {
    && chunk == Passed(dims, lo, hi, j) && Stretch(chunk, lo, hi) <= limit
    && forall i | 0 <= i < j :: Stretch(Passed(dims, lo, hi, i), lo, hi) > limit
  }

  ghost predicate FirstFit(dims: Index, lo: nat, hi: nat, limit: nat, chunk: Index)
    requires lo <= hi <= |dims|
  {
    exists j: nat :: FitsAfter(dims, lo, hi, limit, j, chunk)
  }

  function Flattened(dims: Index, n: nat): (r: Index)
    ensures |r| == |dims|
  {
    seq(|dims|, i requires 0 <= i < |dims| => if i < n then 1 else dims[i])
  }

  /**
   * How a chunk is brought down to vmax: the structure axes shrink if the array axes are small enough, else the
   * array axes shrink and the structure axes go to 1. vp is the structure volume that is gone on with.
   */
  ghost predicate ShrunkTo(dims: Index, aosRank: nat, vmax: nat, chunk: Index, vp: nat)
    requires aosRank <= |dims|
  {
    var p, n := Product(dims[..aosRank]), Product(dims[aosRank..]);
    if p * n <= vmax then chunk == dims && vp == p
    else if 0 < n < vmax then
      FirstFit(dims, 0, aosRank, vmax / n, chunk) && |chunk| == |dims| && vp == Product(chunk[..aosRank])
    else FirstFit(Flattened(dims, aosRank), aosRank, |dims|, vmax, chunk) && vp == p
  }

  /** s is the largest side with which k equal array axes stay within vmin beside a structure volume of vp. */
  predicate LargestSide(vp: nat, k: nat, vmin: nat, s: nat) {
    vp * Pow(s, k) <= vmin < vp * Pow(s + 1, k)
  }

  /** Structure sides are kept, every array side is the largest that stays within vmin. */
  ghost predicate GrownBack(shrunk: Index, aosRank: nat, vp: nat, vmin: nat, chunk: Index) {
    && aosRank <= |shrunk| == |chunk| && chunk[..aosRank] == shrunk[..aosRank]
    && forall i | aosRank <= i < |chunk| :: LargestSide(vp, |chunk| - aosRank, vmin, chunk[i])
  }

  /** The whole choice: shrunk to vmax, and grown back when that leaves less than vmin. */
  ghost predicate Chosen(dims: Index, aosRank: nat, vmin: nat, vmax: nat, chunk: Index)
    requires aosRank <= |dims|
  {
    exists shrunk: Index, vp: nat :: ChosenFrom(dims, aosRank, vmin, vmax, shrunk, vp, chunk)
  }

  ghost predicate ChosenFrom(dims: Index, aosRank: nat, vmin: nat, vmax: nat, shrunk: Index, vp: nat, chunk: Index)
    requires aosRank <= |dims|
  {
    && ShrunkTo(dims, aosRank, vmax, shrunk, vp) && |shrunk| == |dims|
    && if vp * Product(shrunk[aosRank..]) >= vmin then chunk == shrunk
       else GrownBack(shrunk, aosRank, vp, vmin, chunk)
  }

  /** Everything about the chunk is determined. */
  lemma {:induction false} ChosenUnique(dims: Index, aosRank: nat, vmin: nat, vmax: nat, a: Index, b: Index)
    requires aosRank <= |dims| && Chosen(dims, aosRank, vmin, vmax, a) && Chosen(dims, aosRank, vmin, vmax, b)
    ensures a == b
  {
    hide ShrunkTo, GrownBack, Product;
    var s: Index, p: nat :| ChosenFrom(dims, aosRank, vmin, vmax, s, p, a);
    var t: Index, q: nat :| ChosenFrom(dims, aosRank, vmin, vmax, t, q, b);
    ShrunkUnique(dims, aosRank, vmax, s, p, t, q);
    if p * Product(s[aosRank..]) < vmin {
      GrownUnique(s, aosRank, p, vmin, a, b);
    }
  }

  lemma {:induction false} ShrunkUnique(dims: Index, aosRank: nat, vmax: nat, s: Index, p: nat, t: Index, q: nat)
    requires aosRank <= |dims| && ShrunkTo(dims, aosRank, vmax, s, p) && ShrunkTo(dims, aosRank, vmax, t, q)
    ensures s == t && p == q
  {
    hide Product, FirstFit;
    var n := Product(dims[aosRank..]);
    if Product(dims[..aosRank]) * n > vmax {
      if 0 < n < vmax {
        FirstFitUnique(dims, 0, aosRank, vmax / n, s, t);
      } else {
        FirstFitUnique(Flattened(dims, aosRank), aosRank, |dims|, vmax, s, t);
      }
    }
  }

  lemma {:induction false} FirstFitUnique(dims: Index, lo: nat, hi: nat, limit: nat, s: Index, t: Index)
    requires lo <= hi <= |dims| && FirstFit(dims, lo, hi, limit, s) && FirstFit(dims, lo, hi, limit, t)
    ensures s == t
  {
    hide Passed, Stretch;
    var i: nat :| FitsAfter(dims, lo, hi, limit, i, s);
    var j: nat :| FitsAfter(dims, lo, hi, limit, j, t);
    assert !(i < j) && !(j < i);
  }

  lemma {:induction false} GrownUnique(shrunk: Index, aosRank: nat, vp: nat, vmin: nat, a: Index, b: Index)
    requires GrownBack(shrunk, aosRank, vp, vmin, a) && GrownBack(shrunk, aosRank, vp, vmin, b)
    ensures a == b
  {
    hide LargestSide;
    forall i | 0 <= i < |a|
      ensures a[i] == b[i]
    {
      if i < aosRank {
        assert a[i] == a[..aosRank][i] && b[i] == b[..aosRank][i];
      } else {
        SideUnique(vp, |a| - aosRank, vmin, a[i], b[i]);
        SideUnique(vp, |a| - aosRank, vmin, b[i], a[i]);
      }
    }
  }

  lemma {:induction false} SideUnique(vp: nat, k: nat, vmin: nat, s: nat, t: nat)
    requires LargestSide(vp, k, vmin, s) && LargestSide(vp, k, vmin, t)
    ensures s <= t
  {
    hide Pow;
    if s > t {
      PowMonotone(t + 1, s, k);
      TimesAtMost(vp, vp, Pow(t + 1, k), Pow(s, k));
    }
  }

  lemma {:induction false} PowMonotone(a: nat, b: nat, k: nat)
    requires a <= b
    ensures Pow(a, k) <= Pow(b, k)
  {
    if k > 0 {
      PowMonotone(a, b, k - 1);
      TimesAtMost(Pow(a, k - 1), Pow(b, k - 1), a, b);
    }
  }

  /** The root of the share is the largest side. */
  lemma {:induction false} RootIsLargest(vp: nat, k: nat, vmin: nat)
    requires vp > 0 && k > 0
    ensures LargestSide(vp, k, vmin, Root(vmin / vp, k))
  {
    hide Root, Pow;
    var s := Root(vmin / vp, k);
    QuotientBound(Pow(s, k), vp, vmin);
    QuotientBound(Pow(s + 1, k), vp, vmin);
    Commute(vp, Pow(s, k));
    Commute(vp, Pow(s + 1, k));
  }

  /** A small dataset: nothing shrinks, the structure axes are kept, the array axes grow. */
  lemma {:induction false} SmallGrown(dims: Index, aosRank: nat, vmin: nat, vmax: nat, chunk: Index)
    requires aosRank <= |dims| && Product(dims) < vmin <= vmax && Chosen(dims, aosRank, vmin, vmax, chunk)
    ensures GrownBack(dims, aosRank, Product(dims[..aosRank]), vmin, chunk)
  {
    hide Product, GrownBack;
    var shrunk: Index, vp: nat :| ChosenFrom(dims, aosRank, vmin, vmax, shrunk, vp, chunk);
    ProductSplit(dims[..aosRank], dims[aosRank..]);
    assert dims == dims[..aosRank] + dims[aosRank..];
  }

  // ------------------------------------------------------------ the method

  /** One pass over the axes from lo to hi: divides every side by 2 to the number of axes. */
  method ShrinkAxes(dims: Index, lo: nat, hi: nat) returns (chunk: Index, v: nat)
    requires lo < hi <= |dims| && Positive(dims[lo..hi])
    ensures |chunk| == |dims|
    ensures forall i | 0 <= i < |dims| :: chunk[i] == if lo <= i < hi then Shrunk(dims[i], hi - lo) else dims[i]
    ensures chunk == Pass(dims, lo, hi)
    ensures v == Product(chunk[lo..hi]) <= Product(dims[lo..hi])
    ensures Product(dims[lo..hi]) > 1 ==> v < Product(dims[lo..hi])
  {
    hide DivMod, Product, Pow;
    EmptyProduct(dims[lo..lo]);
    chunk := dims;
    v := 1;
    for i := lo to hi
      invariant |chunk| == |dims|
      invariant forall j | 0 <= j < |dims| :: chunk[j] == if lo <= j < i then Shrunk(dims[j], hi - lo) else dims[j]
      invariant v == Product(chunk[lo..i])
    {
      var cs := DivMod(chunk[i], Pow(2, hi - lo)).0;
      ghost var was := chunk;
      chunk := chunk[i := cs];
      if chunk[i] < 1 {
        chunk := chunk[i := 1];
      }
      v := v * chunk[i];
      assert chunk[lo..i] == was[lo..i];
      ProductStep(chunk, lo, i);
    }
    ShrunkProduct(dims[lo..hi], chunk[lo..hi], hi - lo);
  }

  /** The product of a stretch of axes, as the loops over them compute it. */
  method Volume(dims: Index, lo: nat, hi: nat) returns (v: nat)
    requires lo <= hi <= |dims|
    ensures v == Product(dims[lo..hi])
  {
    assert Product(dims[lo..lo]) == 1;
    v := 1;
    for i := lo to hi
      invariant v == Product(dims[lo..i])
    {
      ProductStep(dims, lo, i);
      v := v * dims[i];
    }
  }

  /** What shrinking guarantees; vp is not brought up to date when the structure axes are cut to 1. */
  ghost predicate ShrinkResult(dims: Index, aosRank: nat, vmax: nat, chunk: Index, vp: nat, vn: nat) {
    && aosRank <= |dims| == |chunk|
    && (forall i | 0 <= i < aosRank :: 1 <= chunk[i] <= dims[i])
    && 1 <= Product(chunk[..aosRank]) <= vp
    && vn == Product(chunk[aosRank..])
    && Product(chunk[..aosRank]) * vn <= vmax
    && (Positive(chunk[aosRank..]) <==> Positive(dims[aosRank..]))
    && (!Positive(dims[aosRank..]) || Product(dims[..aosRank]) * Product(dims[aosRank..]) <= vmax ==>
          chunk == dims && vp == Product(dims[..aosRank]))
  }

  method ShrinkStructureAxes(dims: Index, aosRank: nat, vmax: nat, vn: nat) returns (chunk: Index, vp: nat)
    requires aosRank <= |dims| && Positive(dims)
    requires vn == Product(dims[aosRank..]) && 1 <= vn < vmax && Product(dims[..aosRank]) * vn > vmax
    ensures ShrinkResult(dims, aosRank, vmax, chunk, vp, vn)
    ensures FirstFit(dims, 0, aosRank, vmax / vn, chunk) && vp == Product(chunk[..aosRank])
  {
    hide Product, Shrunk, Pass, ShrinkResult;
    chunk := dims;
    vp := Volume(dims, 0, aosRank);
    assert chunk[0..aosRank] == chunk[..aosRank];
    ghost var j: nat := 0;
    QuotientBound(vp, vn, vmax);
    while vp > vmax / vn
      invariant |chunk| == |dims| && chunk[aosRank..] == dims[aosRank..]
      invariant forall i | 0 <= i < aosRank :: 1 <= chunk[i] <= dims[i]
      invariant vp == Product(chunk[..aosRank]) && chunk[0..aosRank] == chunk[..aosRank]
      invariant chunk == Passed(dims, 0, aosRank, j)
      invariant forall i | 0 <= i < j :: Stretch(Passed(dims, 0, aosRank, i), 0, aosRank) > vmax / vn
      decreases vp
    {
      assert vmax / vn >= 1 by { QuotientBound(1, vn, vmax); }
      EmptyUnlessRank(chunk, aosRank);
      ghost var was := chunk;
      assert Positive(chunk[0..aosRank]);
      chunk, vp := ShrinkAxes(chunk, 0, aosRank);
      j := j + 1;
      forall i | 0 <= i < aosRank
        ensures 1 <= chunk[i] <= dims[i]
      {
        ShrunkLess(was[i], aosRank);
      }
      assert chunk[0..aosRank] == chunk[..aosRank] && was[0..aosRank] == was[..aosRank];
    }
    assert FitsAfter(dims, 0, aosRank, vmax / vn, j, chunk);
    StructureShrunk(dims, aosRank, vmax, chunk, vp, vn);
  }

  lemma {:induction false} StructureShrunk(dims: Index, aosRank: nat, vmax: nat, chunk: Index, vp: nat, vn: nat)
    requires aosRank <= |dims| == |chunk| && Positive(dims) && chunk[aosRank..] == dims[aosRank..]
    requires forall i | 0 <= i < aosRank :: 1 <= chunk[i] <= dims[i]
    requires vn == Product(dims[aosRank..]) && vn >= 1 && Product(dims[..aosRank]) * vn > vmax
    requires vp == Product(chunk[..aosRank]) <= vmax / vn
    ensures ShrinkResult(dims, aosRank, vmax, chunk, vp, vn)
  {
    hide Product;
    PositiveProduct(chunk[..aosRank]);
    QuotientBound(vp, vn, vmax);
    assert dims == dims[..aosRank] + dims[aosRank..];
  }

  lemma {:induction false} EmptyUnlessRank(dims: Index, n: nat)
    requires n <= |dims| && Product(dims[..n]) > 1
    ensures n > 0
  {
    assert Product(dims[..0]) == 1;
  }

  lemma {:induction false} QuotientBound(p: nat, n: nat, max: nat)
    requires n > 0
    ensures p <= max / n <==> p * n <= max
  {
    var q, r := max / n, max % n;
    assert max == q * n + r && 0 <= r < n;
    MultipleAtLeast(p - q, n);
    MultipleAtLeast(q - p + 1, n);
    assert (p - q) * n == p * n - q * n;
    assert (q - p + 1) * n == q * n - p * n + n;
  }

  method FlattenAxes(dims: Index, aosRank: nat) returns (chunk: Index)
    requires aosRank <= |dims|
    ensures chunk == Flattened(dims, aosRank)
  {
    chunk := dims;
    for i := 0 to aosRank
      invariant |chunk| == |dims|
      invariant forall j | 0 <= j < |dims| :: chunk[j] == if j < i then 1 else dims[j]
    {
      chunk := chunk[i := 1];
    }
  }

  lemma {:induction false} FlattenedVolume(dims: Index, aosRank: nat)
    requires aosRank <= |dims| && Positive(dims)
    ensures var flat := Flattened(dims, aosRank);
      Positive(flat) && flat[aosRank..] == dims[aosRank..] && Product(flat[..aosRank]) == 1
  {
    hide Product;
    ConstantProduct(1, Flattened(dims, aosRank)[..aosRank]);
    OnePow(aosRank);
  }

  method ShrinkDataAxes(dims: Index, aosRank: nat, vmax: nat, vn0: nat) returns (chunk: Index, vn: nat)
    requires aosRank <= |dims| && Positive(dims) && vmax >= 1
    requires vn0 == Product(dims[aosRank..]) >= vmax
    ensures |chunk| == |dims| && Positive(chunk) && Product(chunk[..aosRank]) == 1
    ensures forall i | 0 <= i < aosRank :: chunk[i] == 1
    ensures vn == Product(chunk[aosRank..]) <= vmax
    ensures FirstFit(Flattened(dims, aosRank), aosRank, |dims|, vmax, chunk)
  {
    hide Product, Shrunk, Pass, Flattened, Positive;
    vn := vn0;
    chunk := FlattenAxes(dims, aosRank);
    FlattenedVolume(dims, aosRank);
    ghost var j: nat := 0;
    ghost var flat := chunk;
    assert chunk[aosRank..|chunk|] == chunk[aosRank..];
    if |dims| > aosRank {
      while vn > vmax
        invariant |chunk| == |dims| && chunk[..aosRank] == flat[..aosRank] && Positive(chunk)
        invariant vn == Product(chunk[aosRank..|chunk|])
        invariant chunk == Passed(flat, aosRank, |dims|, j)
        invariant forall i | 0 <= i < j :: Stretch(Passed(flat, aosRank, |dims|, i), aosRank, |dims|) > vmax
        decreases vn
      {
        PositiveHalves(chunk, aosRank);
        ghost var was := chunk;
        assert was[aosRank..|was|] == was[aosRank..];
        chunk, vn := ShrinkAxes(chunk, aosRank, |chunk|);
        j := j + 1;
        StillPositive(was, chunk, aosRank);
      }
      assert chunk[aosRank..|chunk|] == chunk[aosRank..];
    } else {
      assert dims[aosRank..] == [];
      EmptyProduct(dims[aosRank..]);
    }
    assert FitsAfter(flat, aosRank, |dims|, vmax, j, chunk);
    OnesKept(dims, aosRank, chunk);
  }

  lemma {:induction false} StillPositive(was: Index, chunk: Index, lo: nat)
    requires lo < |was| == |chunk| && Positive(was) && chunk == Pass(was, lo, |was|)
    ensures Positive(chunk) && chunk[..lo] == was[..lo]
  {
    hide Shrunk;
  }

  lemma {:induction false} OnesKept(dims: Index, n: nat, chunk: Index)
    requires n <= |dims| == |chunk| && chunk[..n] == Flattened(dims, n)[..n]
    ensures forall i | 0 <= i < n :: chunk[i] == 1
  {
    assert forall i | 0 <= i < n :: chunk[i] == chunk[..n][i];
  }

  lemma {:induction false} EmptyProduct(dims: Index)
    requires dims == []
    ensures Product(dims) == 1
  {
  }

  lemma {:induction false} OnePow(n: nat)
    ensures Pow(1, n) == 1
  {
    if n > 0 {
      OnePow(n - 1);
    }
  }

  /** The chunk shape, or the division by zero that a structure array of size 0 leads to. */
  datatype ChunkResult = Chunk(dims: Index) | DivisionByZero

  /** The number of elements of the targets for an element size. */
  function Least(typeSize: nat): nat
    requires typeSize > 0
  {
    TARGET_MIN / typeSize
  }

  function Most(typeSize: nat): nat
    requires typeSize > 0
  {
    TARGET_MAX / typeSize
  }

  /** What is promised of a chunk that is chosen. */
  ghost predicate GoodChunk(dims: Index, aosRank: nat, vmin: nat, vmax: nat, chunk: Index) {
    && aosRank <= |dims| == |chunk| && Product(chunk) <= vmax
    && (Positive(chunk) <==> NoZeroSide(dims, aosRank, vmin))
    && (forall i | 0 <= i < aosRank :: chunk[i] <= dims[i] && (dims[i] >= 1 ==> chunk[i] >= 1))
    && (vmin <= Product(dims) <= vmax ==> chunk == dims)
  }

  /**
   * The division fails exactly when a structure extent is 0 and the lower target is not. Otherwise the chunk
   * never exceeds vmax, and has no side of length 0 unless an extent is 0 and either that is a structure extent
   * or the structure axes alone exceed vmin; extents already between the two targets are kept.
   */
  method ChunkDims(dims: Index, aosRank: nat, typeSize: nat) returns (r: ChunkResult)
    requires aosRank <= |dims| && 1 <= typeSize <= TARGET_MAX
    ensures r == DivisionByZero <==> !Positive(dims[..aosRank]) && Least(typeSize) > 0
    ensures r.Chunk? ==> GoodChunk(dims, aosRank, Least(typeSize), Most(typeSize), r.dims)
    ensures r.Chunk? ==> Chosen(dims, aosRank, Least(typeSize), Most(typeSize), r.dims)
    ensures r.Chunk? && Product(dims) < Least(typeSize) ==>
      GrownBack(dims, aosRank, Product(dims[..aosRank]), Least(typeSize), r.dims)
  {
    hide Product, Positive, Least, Most, GoodChunk, ShrinkResult, ShrunkTo, GrownBack;
    ghost var shrunk, share;
    var vmin, vmax := Least(typeSize), Most(typeSize);
    Targets(typeSize);
    var chunk, vp, vn := ShrinkToMax(dims, aosRank, vmax);
    StructureVolume(dims, aosRank, vmax, chunk, vp, vn);
    shrunk, share := chunk, vp;
    if vp * vn < vmin {
      if vp == 0 {
        return DivisionByZero;
      }
      chunk := GrowDataAxes(dims, aosRank, vmin, vmax, chunk, vp, vn);
    } else {
      NotGrown(dims, aosRank, vmin, vmax, chunk, vp, vn);
    }
    assert ChosenFrom(dims, aosRank, vmin, vmax, shrunk, share, chunk);
    if Product(dims) < vmin {
      SmallGrown(dims, aosRank, vmin, vmax, chunk);
    }
    return Chunk(chunk);
  }

  ghost predicate AfterShrinking(dims: Index, aosRank: nat, vmax: nat, chunk: Index, vp: nat, vn: nat) {
    && aosRank <= |dims|
    && if Positive(dims[..aosRank]) then ShrinkResult(dims, aosRank, vmax, chunk, vp, vn) else chunk == dims && vp == 0
  }

  lemma {:induction false} StructureVolume(dims: Index, aosRank: nat, vmax: nat, chunk: Index, vp: nat, vn: nat)
    requires AfterShrinking(dims, aosRank, vmax, chunk, vp, vn)
    ensures vp == 0 <==> !Positive(dims[..aosRank])
    ensures vp == 0 ==> vp * vn == 0
  {
  }

  lemma {:induction false} NotGrown(dims: Index, aosRank: nat, vmin: nat, vmax: nat, chunk: Index, vp: nat, vn: nat)
    requires AfterShrinking(dims, aosRank, vmax, chunk, vp, vn) && vp * vn >= vmin
    ensures GoodChunk(dims, aosRank, vmin, vmax, chunk)
  {
    hide Product;
    if Positive(dims[..aosRank]) {
      Bounds(dims, aosRank, vmin, vmax, chunk, vp, vn);
      PositiveHalves(chunk, aosRank);
    } else {
      PositiveHalves(dims, aosRank);
      PositiveProduct(dims);
    }
  }

  /** When the chosen chunk has no side of length 0. */
  predicate NoZeroSide(dims: Index, aosRank: nat, vmin: nat)
    requires aosRank <= |dims|
  {
    Positive(dims[..aosRank]) && (Positive(dims[aosRank..]) || Product(dims[..aosRank]) <= vmin)
  }

  /** A single structure axis of 20000 and an empty array of 8-byte numbers: the chunk gets a side of length 0. */
  method ZeroSideExample() returns (r: ChunkResult)
    ensures r.Chunk? && |r.dims| == 2 && !Positive(r.dims)
  {
    var dims := [20000, 0];
    assert dims[..1] == [20000] && dims[..1][..0] == [] && dims[1..][0] == 0;
    assert Product(dims[..1]) == Product(dims[..1][..0]) * 20000;
    r := ChunkDims(dims, 1, 8);
  }

  /** A structure array that is still empty when its dataset is created. */
  method EmptyStructureExample() returns (r: ChunkResult)
    ensures r == DivisionByZero
  {
    var dims := [0, 3];
    assert dims[..1][0] == 0;
    r := ChunkDims(dims, 1, 8);
  }

  /** Nine numbers of 8 bytes: 35 squared is the largest square within 1280. */
  method GrownExample() returns (r: ChunkResult)
    ensures r == Chunk([35, 35])
  {
    var dims := [3, 3];
    SmallSquare(dims);
    r := ChunkDims(dims, 0, 8);
    Squares(r.dims[0]);
    Squares(r.dims[1]);
    assert r.dims == [35, 35];
  }

  lemma {:induction false} SmallSquare(dims: Index)
    requires dims == [3, 3]
    ensures Product(dims) == 9 && Product(dims[..0]) == 1 && Positive(dims[..0]) && Least(8) == 1280
  {
    assert dims[..1] == [3] && dims[..1][..0] == [];
    assert Product(dims[..1]) == Product(dims[..1][..0]) * 3;
  }

  lemma {:induction false} Squares(s: nat)
    ensures LargestSide(1, 2, 1280, s) ==> s == 35
  {
    hide Pow;
    Square(35);
    Square(36);
    if s >= 36 {
      PowMonotone(36, s, 2);
    } else if s <= 34 {
      PowMonotone(s + 1, 35, 2);
    }
  }

  lemma {:induction false} Square(s: nat)
    ensures Pow(s, 2) == s * s
  {
    assert Pow(s, 1) == Pow(s, 0) * s;
  }

  method ShrinkToMax(dims: Index, aosRank: nat, vmax: nat) returns (chunk: Index, vp: nat, vn: nat)
    requires aosRank <= |dims| && vmax >= 1
    ensures AfterShrinking(dims, aosRank, vmax, chunk, vp, vn)
    ensures ShrunkTo(dims, aosRank, vmax, chunk, vp) && |chunk| == |dims| && vn == Product(chunk[aosRank..])
  {
    hide Product, FirstFit;
    vp := Volume(dims, 0, aosRank);
    vn := Volume(dims, aosRank, |dims|);
    assert dims[0..aosRank] == dims[..aosRank] && dims[aosRank..|dims|] == dims[aosRank..];
    chunk := dims;
    PositiveProduct(dims[..aosRank]);
    PositiveProduct(dims[aosRank..]);
    PositiveHalves(dims, aosRank);
    if vp * vn > vmax {
      assert vn == 0 ==> vp * vn == 0;
      assert vp == 0 ==> vp * vn == 0;
      if vn < vmax {
        chunk, vp := ShrinkStructureAxes(dims, aosRank, vmax, vn);
      } else {
        chunk, vn := ShrinkDataAxes(dims, aosRank, vmax, vn);
        PositiveHalves(chunk, aosRank);
      }
    } else if Positive(dims[..aosRank]) {
      HeadPositive(dims, aosRank);
    }
  }

  lemma {:induction false} HeadPositive(dims: Index, n: nat)
    requires n <= |dims| && Positive(dims[..n])
    ensures forall i | 0 <= i < n :: dims[i] >= 1
  {
    assert forall i | 0 <= i < n :: dims[i] == dims[..n][i];
  }

  lemma {:induction false} PositiveHalves(dims: Index, n: nat)
    requires n <= |dims|
    ensures Positive(dims) <==> Positive(dims[..n]) && Positive(dims[n..])
  {
    if Positive(dims[..n]) && Positive(dims[n..]) {
      forall i | 0 <= i < |dims|
        ensures dims[i] >= 1
      {
        assert dims[i] == if i < n then dims[..n][i] else dims[n..][i - n];
      }
    }
  }

  lemma {:induction false} Targets(typeSize: nat)
    requires 1 <= typeSize <= TARGET_MAX
    ensures Most(typeSize) >= 1 && Least(typeSize) <= Most(typeSize)
  {
    QuotientBound(1, typeSize, TARGET_MAX);
    var m := TARGET_MIN / typeSize;
    QuotientBound(m, typeSize, TARGET_MIN);
    QuotientBound(m, typeSize, TARGET_MAX);
  }

  method GrowDataAxes(ghost dims: Index, aosRank: nat, vmin: nat, vmax: nat, shrunk: Index, vp: nat, vn0: nat)
    returns (chunk: Index)
    requires AfterShrinking(dims, aosRank, vmax, shrunk, vp, vn0) && vp > 0 && vmin <= vmax && vp * vn0 < vmin
    ensures GoodChunk(dims, aosRank, vmin, vmax, chunk)
    ensures GrownBack(shrunk, aosRank, vp, vmin, chunk)
  {
    hide Product, Root, Pow, GoodChunk, GrownBack, Positive;
    chunk := RootAxes(shrunk, aosRank, vmin / vp);
    GrownIsGood(dims, aosRank, vmin, vmax, shrunk, vp, vn0, chunk);
    GrownIsLargest(shrunk, aosRank, vp, vmin, chunk);
  }

  /** Every array side is the root of the share that the structure axes leave. */
  ghost predicate Rooted(shrunk: Index, aosRank: nat, vn: nat, chunk: Index) {
    && aosRank <= |chunk| == |shrunk|
    && forall j | 0 <= j < |chunk| :: chunk[j] == if j < aosRank then shrunk[j] else Root(vn, |shrunk| - aosRank)
  }

  lemma {:induction false} GrownIsLargest(shrunk: Index, aosRank: nat, vp: nat, vmin: nat, chunk: Index)
    requires vp > 0 && Rooted(shrunk, aosRank, vmin / vp, chunk)
    ensures GrownBack(shrunk, aosRank, vp, vmin, chunk)
  {
    hide Root, LargestSide;
    assert chunk[..aosRank] == shrunk[..aosRank];
    if aosRank < |shrunk| {
      RootIsLargest(vp, |shrunk| - aosRank, vmin);
    }
  }

  lemma {:induction false} GrownIsGood(dims: Index, aosRank: nat, vmin: nat, vmax: nat, shrunk: Index, vp: nat,
      vn0: nat, chunk: Index)
    requires AfterShrinking(dims, aosRank, vmax, shrunk, vp, vn0) && vp > 0 && vmin <= vmax && vp * vn0 < vmin
    requires Rooted(shrunk, aosRank, vmin / vp, chunk)
    ensures GoodChunk(dims, aosRank, vmin, vmax, chunk)
  {
    Share(vp, vn0, vmin);
    GrownWithin(dims, aosRank, vmin, vmax, shrunk, vp, vn0, vmin / vp, chunk);
  }

  lemma {:induction false} GrownWithin(dims: Index, aosRank: nat, vmin: nat, vmax: nat, shrunk: Index, vp: nat,
      vn0: nat, vn: nat, chunk: Index)
    requires AfterShrinking(dims, aosRank, vmax, shrunk, vp, vn0) && vp > 0 && vmin <= vmax && vp * vn0 < vmin
    requires Rooted(shrunk, aosRank, vn, chunk)
    requires vn * vp <= vmin && (vn >= 1 <==> vp <= vmin) && (vn0 >= 1 ==> vp < vmin)
    ensures GoodChunk(dims, aosRank, vmin, vmax, chunk)
  {
    hide Product, Root, Pow;
    Bounds(dims, aosRank, vmin, vmax, shrunk, vp, vn0);
    PositiveHalves(shrunk, aosRank);
    PositiveProduct(shrunk[aosRank..]);
    assert chunk[..aosRank] == shrunk[..aosRank];
    if aosRank < |shrunk| {
      GrownVolume(chunk, aosRank, vp, vn, vmin);
    } else {
      assert chunk == shrunk;
    }
  }

  /** What is left for the array axes when the structure axes take vp of vmin. */
  lemma {:induction false} Share(vp: nat, vn: nat, vmin: nat)
    requires vp >= 1 && vp * vn < vmin
    ensures vmin / vp * vp <= vmin && (vmin / vp >= 1 <==> vp <= vmin)
    ensures vn >= 1 ==> vp < vmin
  {
    QuotientBound(1, vp, vmin);
    QuotientBound(vmin / vp, vp, vmin);
    if vn >= 1 {
      MultipleAtLeast(vn, vp);
    }
  }

  lemma {:induction false} Bounds(dims: Index, aosRank: nat, vmin: nat, vmax: nat, shrunk: Index, vp: nat, vn: nat)
    requires ShrinkResult(dims, aosRank, vmax, shrunk, vp, vn)
    ensures Product(shrunk) <= vmax && Positive(shrunk[..aosRank])
    ensures vmin <= Product(dims) <= vmax ==> shrunk == dims && vp * vn >= vmin
    ensures !Positive(dims[aosRank..]) ==> vp * vn == 0 && vp == Product(dims[..aosRank])
  {
    hide Product;
    assert shrunk == shrunk[..aosRank] + shrunk[aosRank..] && dims == dims[..aosRank] + dims[aosRank..];
    ProductSplit(shrunk[..aosRank], shrunk[aosRank..]);
    ProductSplit(dims[..aosRank], dims[aosRank..]);
    PositiveProduct(dims[aosRank..]);
    if !Positive(dims[aosRank..]) {
      assert vp * 0 == 0;
    }
  }

  method RootAxes(shrunk: Index, aosRank: nat, vn: nat) returns (chunk: Index)
    requires aosRank <= |shrunk|
    ensures Rooted(shrunk, aosRank, vn, chunk)
  {
    hide Root, Pow;
    chunk := shrunk;
    for i := aosRank to |shrunk|
      invariant |chunk| == |shrunk|
      invariant forall j | 0 <= j < |chunk| :: chunk[j] == if aosRank <= j < i then Root(vn, |shrunk| - aosRank)
        else shrunk[j]
    {
      var cs := Root(vn, |shrunk| - aosRank);
      chunk := chunk[i := cs];
    }
  }

  lemma {:induction false} Commute(a: nat, b: nat)
    ensures a * b == b * a
  {
  }

  lemma {:induction false} GrownVolume(chunk: Index, aosRank: nat, vp: nat, vn: nat, vmin: nat)
    requires aosRank < |chunk| && Product(chunk[..aosRank]) <= vp && vn * vp <= vmin && Positive(chunk[..aosRank])
    requires forall j | aosRank <= j < |chunk| :: chunk[j] == Root(vn, |chunk| - aosRank)
    ensures Product(chunk) <= vmin
    ensures Positive(chunk) <==> vn >= 1
  {
    hide Product;
    var k := |chunk| - aosRank;
    var r := Root(vn, k);
    assert chunk == chunk[..aosRank] + chunk[aosRank..];
    ProductSplit(chunk[..aosRank], chunk[aosRank..]);
    ConstantProduct(r, chunk[aosRank..]);
    TimesAtMost(Product(chunk[..aosRank]), vp, Pow(r, k), vn);
    Commute(vp, vn);
    PowAtLeast(r, k);
    PositiveHalves(chunk, aosRank);
    OnePow(k);
    assert chunk[aosRank] == r;
    assert Positive(chunk[aosRank..]) <==> r >= 1;
  }
}
