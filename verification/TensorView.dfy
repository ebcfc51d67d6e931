/** Strided views of a contiguous tensor, and slices of slices. */
module TensorView {
  import opened Shapes

  const NO_END := 0xFFFF_FFFF_FFFF_FFFF

  datatype Selection = At(index: nat) | Between(start: nat, end: nat) | All

  datatype SliceError = TooManySelectors | IndexOutOfRange | RangeOutOfRange | UnknownType

  datatype Result<+T> = Ok(value: T) | Err(error: SliceError)

  /** Where the elements of a view are in the buffer, in bytes. */
  datatype View = View(dims: Index, strides: Index, offset: nat)

  /** Strides of a contiguous block: the innermost axis steps by one element. */
  function Strides(dims: Index, size: nat): (s: Index)
    ensures |s| == |dims|
  {
    if dims == [] then [] else Strides(dims[..|dims| - 1], size * dims[|dims| - 1]) + [size]
  }

  function Contiguous(dims: Index, size: nat): View {
    View(dims, Strides(dims, size), 0)
  }

  function Distance(ix: Index, strides: Index): nat
    requires |ix| == |strides|
  {
    if ix == [] then 0
    else Distance(ix[..|ix| - 1], strides[..|ix| - 1]) + ix[|ix| - 1] * strides[|ix| - 1]
  }

  function Address(v: View, ix: Index): nat
    requires |ix| == |v.strides|
  {
    v.offset + Distance(ix, v.strides)
  }

  lemma {:induction false} StrideStep(dims: Index, size: nat, i: nat)
    requires i + 1 < |dims|
    ensures Strides(dims, size)[i] == Strides(dims, size)[i + 1] * dims[i + 1]
  {
    var n := |dims| - 1;
    if i + 1 < n {
      StrideStep(dims[..n], size * dims[n], i);
    } else {
      var front := Strides(dims[..n], size * dims[n]);
      assert front[n - 1] == size * dims[n];
    }
  }

  /** The constructor of a view of a whole block. */
  method MakeView(dims: Index, elementSize: nat) returns (r: Result<View>)
    ensures r == if dims != [] && elementSize == 0 then Err(UnknownType) else Ok(Contiguous(dims, elementSize))
  {
    hide Strides;
    var strides: Index := [];
    if |dims| > 0 {
      if elementSize == 0 {
        return Err(UnknownType);
      }
      LastStride(dims, elementSize);
      ghost var want := Strides(dims, elementSize);
      strides := seq(|dims|, i => 0);
      strides := strides[|dims| - 1 := elementSize];
      for i := |dims| - 1 downto 0
        invariant |strides| == |dims| && forall j | i <= j < |dims| :: strides[j] == want[j]
      {
        StrideStep(dims, elementSize, i);
        strides := strides[i := strides[i + 1] * dims[i + 1]];
      }
      assert strides == want;
    } else {
      assert Strides(dims, elementSize) == [];
    }
    return Ok(View(dims, strides, 0));
  }

  lemma {:induction false} LastStride(dims: Index, size: nat)
    requires dims != []
    ensures Strides(dims, size)[|dims| - 1] == size
  {
  }

  /** Addresses of a contiguous block follow row-major order. */
  lemma {:induction false} ContiguousAddress(ix: Index, dims: Index, size: nat)
    requires |ix| == |dims|
    ensures Distance(ix, Strides(dims, size)) == FlatIndex(ix, dims) * size
  {
    if ix != [] {
      var n := |ix| - 1;
      var s := Strides(dims, size);
      ContiguousAddress(ix[..n], dims[..n], size * dims[n]);
      assert s[..n] == Strides(dims[..n], size * dims[n]);
      Regroup(FlatIndex(ix[..n], dims[..n]), size, dims[n], ix[n]);
    }
  }

  lemma {:induction false} Regroup(q: nat, size: nat, d: nat, r: nat)
    ensures q * (size * d) + r * size == (q * d + r) * size
  {
  }

  // ---------------------------------------------------------------- slicing

  function SelectionOf(sel: seq<Selection>, i: nat): Selection {
    if i < |sel| then sel[i] else All
  }

  /** First and last-plus-one index a selection keeps of an axis. */
  function Kept(s: Selection, dim: nat): (nat, nat) {
    match s
    case At(k) => (k, k + 1)
    case Between(start, end) => (start, if end != NO_END then end else dim)
    case All => (0, dim)
  }

  /** A selector list entry is acceptable for an axis; a missing entry keeps any axis, even an empty one. */
  predicate Selectable(sel: seq<Selection>, i: nat, dim: nat) {
    i < |sel| ==> var (start, end) := Kept(sel[i], dim); start < end <= dim
  }

  /** One more axis: a selected index removes it, a range shortens it. */
  function SlicedAxis(w: View, sel: seq<Selection>, i: nat, dim: nat, stride: nat): (r: Result<View>)
    requires |w.dims| == |w.strides|
    ensures r.Ok? ==> |r.value.dims| == |r.value.strides|
  {
    if !Selectable(sel, i, dim) then Err(if sel[i].At? then IndexOutOfRange else RangeOutOfRange)
    else
      var (start, end) := Kept(SelectionOf(sel, i), dim);
      if SelectionOf(sel, i).At? then Ok(w.(offset := w.offset + start * stride))
      else Ok(View(w.dims + [end - start], w.strides + [stride], w.offset + start * stride))
  }

  /** The slice of the first n axes. */
  function SlicedTo(v: View, sel: seq<Selection>, n: nat): (r: Result<View>)
    requires n <= |v.dims| == |v.strides|
    ensures r.Ok? ==> |r.value.dims| == |r.value.strides|
  {
    if n == 0 then Ok(View([], [], v.offset))
    else
      var before := SlicedTo(v, sel, n - 1);
      if before.Err? then before else SlicedAxis(before.value, sel, n - 1, v.dims[n - 1], v.strides[n - 1])
  }

  function Sliced(v: View, sel: seq<Selection>): (r: Result<View>)
    requires |v.dims| == |v.strides|
    ensures r.Ok? ==> |r.value.dims| == |r.value.strides|
  {
    if |sel| > |v.dims| then Err(TooManySelectors) else SlicedTo(v, sel, |v.dims|)
  }

  /** The body of the loop of slice. */
  method SliceAxis(w: View, selections: seq<Selection>, i: nat, dim: nat, stride: nat) returns (r: Result<View>)
    requires |w.dims| == |w.strides|
    ensures r == SlicedAxis(w, selections, i, dim, stride)
  {
    if i < |selections| {
      var sel := selections[i];
      if sel.At? {
        if sel.index >= dim {
          return Err(IndexOutOfRange);
        }
        return Ok(View(w.dims, w.strides, w.offset + sel.index * stride));
      } else {
        var start, end := 0, dim;
        if sel.Between? {
          start := sel.start;
          if sel.end != NO_END {
            end := sel.end;
          }
        }
        if start >= end || end > dim {
          return Err(RangeOutOfRange);
        }
        return Ok(View(w.dims + [end - start], w.strides + [stride], w.offset + start * stride));
      }
    } else {
      return Ok(View(w.dims + [dim], w.strides + [stride], w.offset));
    }
  }

  method Slice(v: View, selections: seq<Selection>) returns (r: Result<View>)
    requires |v.dims| == |v.strides|
    ensures r == Sliced(v, selections)
  {
    hide SlicedAxis;
    if |selections| > |v.dims| {
      return Err(TooManySelectors);
    }
    var view := View([], [], v.offset);
    for i := 0 to |v.dims|
      invariant SlicedTo(v, selections, i) == Ok(view)
    {
      r := SliceAxis(view, selections, i, v.dims[i], v.strides[i]);
      if r.Err? {
        FailureStays(v, selections, i + 1);
        return r;
      }
      view := r.value;
    }
    return Ok(view);
  }

  lemma {:induction false} FailureStays(v: View, sel: seq<Selection>, n: nat)
    requires n <= |v.dims| == |v.strides| && SlicedTo(v, sel, n).Err?
    ensures SlicedTo(v, sel, |v.dims|) == SlicedTo(v, sel, n)
    decreases |v.dims| - n
  {
    if n < |v.dims| {
      FailureStays(v, sel, n + 1);
    }
  }

  /** Where a range ends; NO_END is the end of the axis. */
  function RangeEnd(s: Selection, dim: nat): nat
    requires s.Between?
  {
    if s.end == NO_END then dim else s.end
  }

  /** A selector names something on an axis of length dim. */
  predicate Inside(s: Selection, dim: nat) {
    match s
    case At(k) => k < dim
    case Between(start, _) => start < RangeEnd(s, dim) <= dim
    case All => dim > 0
  }

  /** Slicing succeeds exactly when every selector is inside its axis. */
  lemma {:induction false} SliceSucceeds(v: View, sel: seq<Selection>)
    requires |v.dims| == |v.strides|
    ensures Sliced(v, sel).Ok? <==> |sel| <= |v.dims| && forall i | 0 <= i < |sel| :: Inside(sel[i], v.dims[i])
  {
    if |sel| <= |v.dims| {
      PrefixSucceeds(v, sel, |v.dims|);
    }
  }

  /** The first selector that is not inside its axis decides the error. */
  lemma {:induction false} SliceFails(v: View, sel: seq<Selection>, k: nat)
    requires |v.dims| == |v.strides| && k < |sel|
    requires |sel| <= |v.dims| ==> !Inside(sel[k], v.dims[k]) && forall i | 0 <= i < k :: Inside(sel[i], v.dims[i])
    ensures Sliced(v, sel) == Err(if |sel| > |v.dims| then TooManySelectors
                                  else if sel[k].At? then IndexOutOfRange else RangeOutOfRange)
  {
    hide SlicedTo;
    if |sel| <= |v.dims| {
      PrefixSucceeds(v, sel, k);
      NextAxis(v, sel, k);
      FailureStays(v, sel, k + 1);
    }
  }

  lemma {:induction false} NextAxis(v: View, sel: seq<Selection>, n: nat)
    requires n < |v.dims| == |v.strides| && SlicedTo(v, sel, n).Ok?
    ensures SlicedTo(v, sel, n + 1) == SlicedAxis(SlicedTo(v, sel, n).value, sel, n, v.dims[n], v.strides[n])
  {
  }

  lemma {:induction false} PrefixSucceeds(v: View, sel: seq<Selection>, n: nat)
    requires n <= |v.dims| == |v.strides|
    ensures SlicedTo(v, sel, n).Ok? <==> forall i | 0 <= i < n :: Selectable(sel, i, v.dims[i])
  {
    if n > 0 {
      PrefixSucceeds(v, sel, n - 1);
    }
  }

  /** The index in the sliced tensor, over its first n axes, of an index of the slice. */
  function Composed(v: View, sel: seq<Selection>, n: nat, ix: Index): (c: Index)
    requires n <= |v.dims| == |v.strides| && SlicedTo(v, sel, n).Ok? && |ix| == |SlicedTo(v, sel, n).value.dims|
    ensures |c| == n
  {
    if n == 0 then []
    else
      var (start, end) := Kept(SelectionOf(sel, n - 1), v.dims[n - 1]);
      if SelectionOf(sel, n - 1).At? then Composed(v, sel, n - 1, ix) + [start]
      else Composed(v, sel, n - 1, ix[..|ix| - 1]) + [start + ix[|ix| - 1]]
  }

  /** How many of the first n axes a slice keeps: all but those a single index is chosen of. */
  function KeptAxes(sel: seq<Selection>, n: nat): nat {
    if n == 0 then 0 else KeptAxes(sel, n - 1) + if SelectionOf(sel, n - 1).At? then 0 else 1
  }

  /** What axis i contributes to a slice, in terms of its selector, and where coordinate i of the element comes from. */
  ghost predicate AxisSelected(v: View, s: Selection, i: nat, w: View, axis: nat, ix: Index, c: Index)
    requires i < |v.dims| == |v.strides| && i < |c| && |w.dims| == |w.strides| == |ix|
  {
    match s
    case At(k) => c[i] == k
    case Between(start, _) =>
      && axis < |ix| && c[i] == start + ix[axis]
      && w.dims[axis] == RangeEnd(s, v.dims[i]) - start && w.strides[axis] == v.strides[i]
    case All =>
      axis < |ix| && c[i] == ix[axis] && w.dims[axis] == v.dims[i] && w.strides[axis] == v.strides[i]
  }

  /** A slice keeps every axis no single index is chosen of, and an element is composed selector by selector. */
  lemma {:induction false} SelectedExact(v: View, sel: seq<Selection>, n: nat, ix: Index)
    requires n <= |v.dims| == |v.strides| && SlicedTo(v, sel, n).Ok? && |ix| == |SlicedTo(v, sel, n).value.dims|
    ensures |ix| == KeptAxes(sel, n)
    ensures forall i | 0 <= i < n ::
      AxisSelected(v, SelectionOf(sel, i), i, SlicedTo(v, sel, n).value, KeptAxes(sel, i), ix, Composed(v, sel, n, ix))
  {
    hide SlicedTo, SlicedAxis, Composed, KeptAxes, AxisSelected;
    if n == 0 {
      NoAxes(v, sel);
      NoneKept(sel);
    } else {
      AxisComposed(v, sel, n, ix);
      var s, rest := SelectionOf(sel, n - 1), if SelectionOf(sel, n - 1).At? then ix else ix[..|ix| - 1];
      SelectedExact(v, sel, n - 1, rest);
      LastSelected(v, sel, n, ix);
      forall i | 0 <= i < n - 1
        ensures AxisSelected(v, SelectionOf(sel, i), i, SlicedTo(v, sel, n).value, KeptAxes(sel, i), ix,
          Composed(v, sel, n, ix))
      {
        EarlierSelected(v, SelectionOf(sel, i), i, SlicedTo(v, sel, n - 1).value, SlicedTo(v, sel, n).value,
          KeptAxes(sel, i), rest, ix, Composed(v, sel, n - 1, rest), Composed(v, sel, n, ix));
      }
    }
  }

  lemma {:induction false} NoneKept(sel: seq<Selection>)
    ensures KeptAxes(sel, 0) == 0
  {
  }

  /** A further axis leaves what the earlier ones contribute. */
  lemma {:induction false} EarlierSelected(v: View, s: Selection, i: nat, w: View, more: View, axis: nat, ix: Index,
      longer: Index, c: Index, d: Index)
    requires i < |v.dims| == |v.strides| && |w.dims| == |w.strides| == |ix| && |more.dims| == |more.strides| == |longer|
    requires i < |c| && AxisSelected(v, s, i, w, axis, ix, c)
    requires ix <= longer && w.dims <= more.dims && w.strides <= more.strides && c <= d
    ensures AxisSelected(v, s, i, more, axis, longer, d)
  {
  }

  lemma {:induction false} LastSelected(v: View, sel: seq<Selection>, n: nat, ix: Index)
    requires 0 < n <= |v.dims| == |v.strides| && SlicedTo(v, sel, n).Ok? && |ix| == |SlicedTo(v, sel, n).value.dims|
    requires SlicedTo(v, sel, n - 1).Ok? && |SlicedTo(v, sel, n - 1).value.dims| == KeptAxes(sel, n - 1)
    ensures |ix| == KeptAxes(sel, n)
    ensures AxisSelected(v, SelectionOf(sel, n - 1), n - 1, SlicedTo(v, sel, n).value, KeptAxes(sel, n - 1), ix,
      Composed(v, sel, n, ix))
  {
    hide SlicedTo, Composed;
    AxisComposed(v, sel, n, ix);
  }

  /** An element of the slice is the element of the tensor at the composed index, which exists. */
  lemma {:induction false} SliceAddress(v: View, sel: seq<Selection>, n: nat, ix: Index)
    requires n <= |v.dims| == |v.strides| && SlicedTo(v, sel, n).Ok? && InBox(ix, SlicedTo(v, sel, n).value.dims)
    ensures InBox(Composed(v, sel, n, ix), v.dims[..n])
    ensures Address(SlicedTo(v, sel, n).value, ix) == v.offset + Distance(Composed(v, sel, n, ix), v.strides[..n])
  {
    hide Distance, InBox, SlicedTo, SlicedAxis, Composed, Kept;
    BoxSize(ix, SlicedTo(v, sel, n).value.dims);
    if n == 0 {
      NoAxes(v, sel);
      EmptyDistance(ix, []);
      EmptyBox();
    } else {
      AxisComposed(v, sel, n, ix);
      var before := SlicedTo(v, sel, n - 1).value;
      var s, stride := SelectionOf(sel, n - 1), v.strides[n - 1];
      var (start, end) := Kept(s, v.dims[n - 1]);
      TakeLast(v.strides, n);
      TakeLast(v.dims, n);
      if s.At? {
        SliceAddress(v, sel, n - 1, ix);
        var c := Composed(v, sel, n - 1, ix);
        BoxSnoc(c, v.dims[..n - 1], start, v.dims[n - 1]);
        ExtendDistance(c, v.strides[..n - 1], start, stride);
      } else {
        var rest, last := ix[..|ix| - 1], ix[|ix| - 1];
        assert ix == rest + [last];
        BoxSnoc(rest, before.dims, last, end - start);
        SliceAddress(v, sel, n - 1, rest);
        var c := Composed(v, sel, n - 1, rest);
        BoxSnoc(c, v.dims[..n - 1], start + last, v.dims[n - 1]);
        KeptAxis(c, v.strides[..n - 1], rest, before.strides, start, last, stride);
      }
    }
  }

  lemma {:induction false} BoxSize(ix: Index, dims: Index)
    requires InBox(ix, dims)
    ensures |ix| == |dims|
  {
  }

  lemma {:induction false} EmptyBox()
    ensures InBox([], [])
  {
  }

  lemma {:induction false} TakeLast(s: Index, n: nat)
    requires 0 < n <= |s|
    ensures s[..n] == s[..n - 1] + [s[n - 1]]
  {
  }

  lemma {:induction false} BoxSnoc(ix: Index, dims: Index, last: nat, dim: nat)
    ensures InBox(ix + [last], dims + [dim]) <==> InBox(ix, dims) && last < dim
  {
    if InBox(ix + [last], dims + [dim]) {
      assert (ix + [last])[|ix|] < (dims + [dim])[|ix|];
      forall i | 0 <= i < |ix|
        ensures ix[i] < dims[i]
      {
        assert (ix + [last])[i] < (dims + [dim])[i];
      }
    }
  }

  lemma {:induction false} KeptAxis(c: Index, cs: Index, ix: Index, strides: Index, start: nat, last: nat, stride: nat)
    requires |c| == |cs| && |ix| == |strides|
    ensures Distance(c + [start + last], cs + [stride]) == Distance(c, cs) + start * stride + last * stride
    ensures Distance(ix + [last], strides + [stride]) == Distance(ix, strides) + last * stride
  {
    ExtendDistance(c, cs, start + last, stride);
    ExtendDistance(ix, strides, last, stride);
    Distribute(start, last, stride);
  }

  lemma {:induction false} EmptyDistance(ix: Index, strides: Index)
    requires |ix| == |strides| == 0
    ensures Distance(ix, strides) == 0
  {
  }

  lemma {:induction false} ExtendDistance(ix: Index, strides: Index, last: nat, stride: nat)
    requires |ix| == |strides|
    ensures Distance(ix + [last], strides + [stride]) == Distance(ix, strides) + last * stride
  {
    assert (ix + [last])[..|ix|] == ix && (strides + [stride])[..|ix|] == strides;
  }

  lemma {:induction false} Distribute(a: nat, b: nat, c: nat)
    ensures (a + b) * c == a * c + b * c
  {
  }

  lemma {:induction false} ComposedInjective(v: View, sel: seq<Selection>, n: nat, a: Index, b: Index)
    requires n <= |v.dims| == |v.strides| && SlicedTo(v, sel, n).Ok? && |a| == |b| == |SlicedTo(v, sel, n).value.dims|
    requires Composed(v, sel, n, a) == Composed(v, sel, n, b)
    ensures a == b
  {
    hide SlicedTo, SlicedAxis, Composed;
    if n == 0 {
      NoAxes(v, sel);
    } else {
      AxisComposed(v, sel, n, a);
      AxisComposed(v, sel, n, b);
      if SelectionOf(sel, n - 1).At? {
        SameEnds(Composed(v, sel, n - 1, a), 0, Composed(v, sel, n - 1, b), 0,
          Kept(SelectionOf(sel, n - 1), v.dims[n - 1]).0);
        ComposedInjective(v, sel, n - 1, a, b);
      } else {
        var fa, fb, la, lb := a[..|a| - 1], b[..|b| - 1], a[|a| - 1], b[|b| - 1];
        SameEnds(Composed(v, sel, n - 1, fa), la, Composed(v, sel, n - 1, fb), lb,
          Kept(SelectionOf(sel, n - 1), v.dims[n - 1]).0);
        ComposedInjective(v, sel, n - 1, fa, fb);
        assert a == fa + [la] && b == fb + [lb];
      }
    }
  }

  lemma {:induction false} NoAxes(v: View, sel: seq<Selection>)
    requires |v.dims| == |v.strides|
    ensures SlicedTo(v, sel, 0) == Ok(View([], [], v.offset))
  {
  }

  lemma {:induction false} SameEnds(a: Index, x: nat, b: Index, y: nat, start: nat)
    requires a + [start + x] == b + [start + y]
    ensures a == b && x == y
  {
    var s, t := a + [start + x], b + [start + y];
    assert s[..|s| - 1] == a && t[..|t| - 1] == b;
    assert s[|s| - 1] == t[|t| - 1];
  }

  /** What the last of n axes contributes to a slice and to a composed index. */
  lemma {:induction false} AxisComposed(v: View, sel: seq<Selection>, n: nat, ix: Index)
    requires 0 < n <= |v.dims| == |v.strides| && SlicedTo(v, sel, n).Ok? && |ix| == |SlicedTo(v, sel, n).value.dims|
    ensures SlicedTo(v, sel, n - 1).Ok?
    ensures var before, s := SlicedTo(v, sel, n - 1).value, SelectionOf(sel, n - 1);
      var (start, end) := Kept(s, v.dims[n - 1]);
      start <= end <= v.dims[n - 1] && (s.At? ==> start < end) &&
      if s.At? then
        && SlicedTo(v, sel, n).value == before.(offset := before.offset + start * v.strides[n - 1])
        && Composed(v, sel, n, ix) == Composed(v, sel, n - 1, ix) + [start + 0]
      else
        && SlicedTo(v, sel, n).value
           == View(before.dims + [end - start], before.strides + [v.strides[n - 1]],
             before.offset + start * v.strides[n - 1])
        && Composed(v, sel, n, ix) == Composed(v, sel, n - 1, ix[..|ix| - 1]) + [start + ix[|ix| - 1]]
  {
  }

  // ----------------------------------------------------------------- chains

  function Chain(v: View, sels: seq<seq<Selection>>): (r: Result<View>)
    requires |v.dims| == |v.strides|
    ensures r.Ok? ==> |r.value.dims| == |r.value.strides|
    decreases |sels|
  {
    if sels == [] then Ok(v)
    else
      var w := Sliced(v, sels[0]);
      if w.Err? then w else Chain(w.value, sels[1..])
  }

  function ComposedChain(v: View, sels: seq<seq<Selection>>, ix: Index): (c: Index)
    requires |v.dims| == |v.strides| && Chain(v, sels).Ok? && |ix| == |Chain(v, sels).value.dims|
    ensures |c| == |v.dims|
    decreases |sels|
  {
    if sels == [] then ix
    else Composed(v, sels[0], |v.dims|, ComposedChain(Sliced(v, sels[0]).value, sels[1..], ix))
  }

  lemma {:induction false} ChainAddress(v: View, sels: seq<seq<Selection>>, ix: Index)
    requires |v.dims| == |v.strides| && Chain(v, sels).Ok? && InBox(ix, Chain(v, sels).value.dims)
    ensures InBox(ComposedChain(v, sels, ix), v.dims)
    ensures Address(Chain(v, sels).value, ix) == Address(v, ComposedChain(v, sels, ix))
    decreases |sels|
  {
    hide SlicedTo, Composed, Distance;
    if sels != [] {
      var w := Sliced(v, sels[0]).value;
      ChainAddress(w, sels[1..], ix);
      SliceAddress(v, sels[0], |v.dims|, ComposedChain(w, sels[1..], ix));
      assert v.dims[..|v.dims|] == v.dims && v.strides[..|v.dims|] == v.strides;
    }
  }

  lemma {:induction false} ChainInjective(v: View, sels: seq<seq<Selection>>, a: Index, b: Index)
    requires |v.dims| == |v.strides| && Chain(v, sels).Ok? && |a| == |b| == |Chain(v, sels).value.dims|
    requires ComposedChain(v, sels, a) == ComposedChain(v, sels, b)
    ensures a == b
    decreases |sels|
  {
    hide SlicedTo, Composed;
    if sels != [] {
      var w := Sliced(v, sels[0]).value;
      ComposedInjective(v, sels[0], |v.dims|, ComposedChain(w, sels[1..], a), ComposedChain(w, sels[1..], b));
      ChainInjective(w, sels[1..], a, b);
    }
  }

  /**
   * However a block was sliced, an element of the view lies inside the block, at the place row-major order
   * gives the composed index.
   */
  lemma {:induction false} ViewInBlock(dims: Index, size: nat, sels: seq<seq<Selection>>, ix: Index)
    requires Chain(Contiguous(dims, size), sels).Ok? && InBox(ix, Chain(Contiguous(dims, size), sels).value.dims)
    ensures var c, at := ComposedChain(Contiguous(dims, size), sels, ix),
      Address(Chain(Contiguous(dims, size), sels).value, ix);
      InBox(c, dims) && at == FlatIndex(c, dims) * size && at + size <= Product(dims) * size
  {
    hide Product, FlatIndex, Strides, Distance, ComposedChain, Chain;
    var v := Contiguous(dims, size);
    var c := ComposedChain(v, sels, ix);
    ChainAddress(v, sels, ix);
    ContiguousAddress(c, dims, size);
    FlatInRange(c, dims);
    Room(FlatIndex(c, dims), Product(dims), size);
  }

  lemma {:induction false} Room(p: nat, n: nat, size: nat)
    requires p < n
    ensures p * size + size <= n * size
  {
    MultipleAtLeast(n - p, size);
    assert n * size == p * size + (n - p) * size;
  }

  /** Different elements of a view do not overlap. */
  lemma {:induction false} ElementsDisjoint(dims: Index, size: nat, sels: seq<seq<Selection>>, a: Index, b: Index)
    requires var r := Chain(Contiguous(dims, size), sels);
      r.Ok? && InBox(a, r.value.dims) && InBox(b, r.value.dims) && a != b
    ensures var w := Chain(Contiguous(dims, size), sels).value;
      Address(w, a) + size <= Address(w, b) || Address(w, b) + size <= Address(w, a)
  {
    hide Product, FlatIndex, Strides, Distance, ComposedChain, Chain;
    var v := Contiguous(dims, size);
    var c, d := ComposedChain(v, sels, a), ComposedChain(v, sels, b);
    ViewInBlock(dims, size, sels, a);
    ViewInBlock(dims, size, sels, b);
    if FlatIndex(c, dims) == FlatIndex(d, dims) {
      FlatInjective(c, d, dims);
      ChainInjective(v, sels, a, b);
    } else if FlatIndex(c, dims) < FlatIndex(d, dims) {
      Room(FlatIndex(c, dims), FlatIndex(d, dims), size);
    } else {
      Room(FlatIndex(d, dims), FlatIndex(c, dims), size);
    }
  }
}
