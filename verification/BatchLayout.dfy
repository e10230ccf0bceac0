/** Data layouts and strides of a batch descriptor: every layout addresses the same
    element at the same offset, and the offsets fill the buffer exactly. */
module BatchLayout {
  import opened Products

  datatype DataLayout = YXDepthBatch | YXBatchDepth | BatchYXDepth | BatchDepthYX | BatchDepthYX4

  datatype BatchDescriptor = BatchDescriptor(count: nat, featureMapCount: nat, spatialSize: seq<nat>,
                                             layout: DataLayout)

  datatype Option<+T> = None | Some(value: T)

  /** Depth index, batch index and first spatial index. */
  function GetDimIndices(layout: DataLayout, dataDims: nat): (int, int, int) {
    match layout
    case YXBatchDepth => (dataDims - 1, dataDims - 2, 0)
    case YXDepthBatch => (dataDims - 2, dataDims - 1, 0)
    case BatchYXDepth => (dataDims - 1, 0, 1)
    case BatchDepthYX | BatchDepthYX4 => (1, 0, 2)
  }

  /** Where a layout puts role `r`: role 0 is the batch, 1 the depth, 2 and up the
      spatial dimensions. */
  function Place(layout: DataLayout, n: nat, r: nat): (k: nat)
    requires r < n && n >= 2
    ensures k < n
  {
    var (d, b, s) := GetDimIndices(layout, n);
    if r == 0 then b else if r == 1 then d else s + (r - 2)
  }

  /** The role of position `k`. */
  function Role(layout: DataLayout, n: nat, k: nat): (r: nat)
    requires k < n && n >= 2
    ensures r < n && Place(layout, n, r) == k
  {
    var (d, b, s) := GetDimIndices(layout, n);
    if k == b then 0 else if k == d then 1 else k - s + 2
  }

  lemma PlaceInjective(layout: DataLayout, n: nat, r: nat, q: nat)
    requires n >= 2 && r < n && q < n && Place(layout, n, r) == Place(layout, n, q)
    ensures r == q
  {
  }

  /** The values of `input`, laid out as `from`, in the order of `to`. */
  function Reordered<T>(input: seq<T>, from: DataLayout, to: DataLayout): (r: seq<T>)
    requires |input| >= 2
    ensures |r| == |input|
    ensures forall k :: 0 <= k < |r| ==> r[k] == input[Place(from, |input|, Role(to, |input|, k))]
  {
    seq(|input|, k requires 0 <= k < |input| => input[Place(from, |input|, Role(to, |input|, k))])
  }

  lemma ReorderedAt<T>(input: seq<T>, from: DataLayout, to: DataLayout, r: nat)
    requires |input| >= 2 && r < |input|
    ensures Reordered(input, from, to)[Place(to, |input|, r)] == input[Place(from, |input|, r)]
  {
    PlaceInjective(to, |input|, r, Role(to, |input|, Place(to, |input|, r)));
  }

  /** Reordering composes, and going back undoes it. */
  lemma ReorderComposes<T>(input: seq<T>, a: DataLayout, b: DataLayout, c: DataLayout)
    requires |input| >= 2
    ensures Reordered(Reordered(input, a, b), b, c) == Reordered(input, a, c)
    ensures Reordered(input, a, a) == input
    ensures Reordered(Reordered(input, a, b), b, a) == input
  {
    var n := |input|;
    forall k | 0 <= k < n
      ensures Reordered(Reordered(input, a, b), b, c)[k] == Reordered(input, a, c)[k]
      ensures Reordered(Reordered(input, a, b), b, a)[k] == input[k]
    {
      ReorderedAt(input, a, b, Role(c, n, k));
      ReorderedAt(input, a, b, Role(a, n, k));
    }
  }

  /** The source's loop: batch and depth first, then the spatial dimensions in order. */
  method ReorderDims(input: seq<int>, from: DataLayout, to: DataLayout) returns (reordered: seq<int>)
    requires |input| >= 2
    ensures reordered == Reordered(input, from, to)
  {
    hide Reordered, Place, Role;
    if from == to {
      ReorderComposes(input, from, to, to);
      return input;
    }
    var n := |input|;
    var (dFrom, bFrom, sFrom) := GetDimIndices(from, n);
    var (dTo, bTo, sTo) := GetDimIndices(to, n);
    var out := new int[n](_ => 0);
    out[bTo] := input[bFrom];
    out[dTo] := input[dFrom];
    for i := 0 to n - 2
      invariant out[bTo] == input[bFrom] && out[dTo] == input[dFrom]
      invariant forall k :: sTo <= k < sTo + i ==> out[k] == input[k - sTo + sFrom]
    {
      out[sTo + i] := input[sFrom + i];
    }
    reordered := out[..];
    MovedIsReordered(input, from, to, reordered);
  }

  lemma MovedIsReordered(input: seq<int>, from: DataLayout, to: DataLayout, out: seq<int>)
    requires |out| == |input| >= 2
    requires var (dFrom, bFrom, sFrom) := GetDimIndices(from, |input|);
             var (dTo, bTo, sTo) := GetDimIndices(to, |input|);
             && out[bTo] == input[bFrom] && out[dTo] == input[dFrom]
             && forall k :: sTo <= k < sTo + |input| - 2 ==> out[k] == input[k - sTo + sFrom]
    ensures out == Reordered(input, from, to)
  {
    var n := |input|;
    forall k | 0 <= k < n ensures out[k] == input[Place(from, n, Role(to, n, k))] {
      var (_, _, sFrom) := GetDimIndices(from, n);
      var (_, _, sTo) := GetDimIndices(to, n);
      var r := Role(to, n, k);
      assert r >= 2 ==> k == sTo + (r - 2) && Place(from, n, r) == sFrom + (r - 2);
    }
  }

  // ---- Sums and products over dimensions ----

  function Dot(a: seq<int>, b: seq<int>): int
    requires |a| == |b|
  {
    if a == [] then 0 else a[0] * b[0] + Dot(a[1..], b[1..])
  }

  lemma {:induction false} DotConcat(a: seq<int>, b: seq<int>, c: seq<int>, d: seq<int>)
    requires |a| == |b| && |c| == |d|
    ensures Dot(a + c, b + d) == Dot(a, b) + Dot(c, d)
  {
    if a == [] {
      assert a + c == c && b + d == d;
    } else {
      DotConcat(a[1..], b[1..], c, d);
      assert (a + c)[1..] == a[1..] + c && (b + d)[1..] == b[1..] + d;
    }
  }

  ghost function Spatial<T>(layout: DataLayout, x: seq<T>): (r: seq<T>)
    requires |x| >= 2
    ensures |r| == |x| - 2 && forall i :: 0 <= i < |r| ==> r[i] == x[Place(layout, |x|, i + 2)]
  {
    var s := GetDimIndices(layout, |x|).2;
    x[s..s + |x| - 2]
  }

  ghost function Batch<T>(layout: DataLayout, x: seq<T>): T
    requires |x| >= 2
  {
    x[Place(layout, |x|, 0)]
  }

  ghost function Depth<T>(layout: DataLayout, x: seq<T>): T
    requires |x| >= 2
  {
    x[Place(layout, |x|, 1)]
  }

  /** A sequence in a layout is its three parts, in the order of the layout. */
  lemma Parts<T>(layout: DataLayout, x: seq<T>)
    requires |x| >= 2
    ensures var b, d, s := [Batch(layout, x)], [Depth(layout, x)], Spatial(layout, x);
            x == match layout
                 case YXBatchDepth => s + b + d
                 case YXDepthBatch => s + d + b
                 case BatchYXDepth => b + s + d
                 case BatchDepthYX | BatchDepthYX4 => b + d + s
  {
  }

  lemma DotOfParts(layout: DataLayout, a: seq<int>, c: seq<int>)
    requires |a| == |c| >= 2
    ensures Dot(a, c) == Batch(layout, a) * Batch(layout, c) + Depth(layout, a) * Depth(layout, c) +
                         Dot(Spatial(layout, a), Spatial(layout, c))
  {
    Parts(layout, a);
    Parts(layout, c);
    var ab, ad, aYX := [Batch(layout, a)], [Depth(layout, a)], Spatial(layout, a);
    var cb, cd, cYX := [Batch(layout, c)], [Depth(layout, c)], Spatial(layout, c);
    assert Dot(ab, cb) == Batch(layout, a) * Batch(layout, c) && Dot(ad, cd) == Depth(layout, a) * Depth(layout, c);
    match layout
    case YXBatchDepth => DotConcat(aYX + ab, cYX + cb, ad, cd); DotConcat(aYX, cYX, ab, cb);
    case YXDepthBatch => DotConcat(aYX + ad, cYX + cd, ab, cb); DotConcat(aYX, cYX, ad, cd);
    case BatchYXDepth => DotConcat(ab + aYX, cb + cYX, ad, cd); DotConcat(ab, cb, aYX, cYX);
    case BatchDepthYX | BatchDepthYX4 => DotConcat(ab + ad, cb + cd, aYX, cYX); DotConcat(ab, cb, ad, cd);
  }

  lemma ProductOfParts(layout: DataLayout, x: seq<nat>)
    requires |x| >= 2
    ensures Product(x) == Batch(layout, x) * Depth(layout, x) * Product(Spatial(layout, x))
  {
    Parts(layout, x);
    var b, d, s := [Batch(layout, x)], [Depth(layout, x)], Spatial(layout, x);
    SingleProduct(Batch(layout, x));
    SingleProduct(Depth(layout, x));
    match layout
    case YXBatchDepth => ProductConcat(s + b, d); ProductConcat(s, b); Rearrange(b[0], d[0], Product(s));
    case YXDepthBatch => ProductConcat(s + d, b); ProductConcat(s, d); Rearrange(b[0], d[0], Product(s));
    case BatchYXDepth => ProductConcat(b + s, d); ProductConcat(b, s); Rearrange(b[0], d[0], Product(s));
    case BatchDepthYX | BatchDepthYX4 => ProductConcat(b + d, s); ProductConcat(b, d);
  }

  lemma Rearrange(b: nat, d: nat, p: nat)
    ensures p * b * d == b * d * p && p * d * b == b * d * p && b * p * d == b * d * p
  {
  }

  lemma PartsOfReordered<T>(x: seq<T>, from: DataLayout, to: DataLayout)
    requires |x| >= 2
    ensures var y := Reordered(x, from, to);
            Batch(to, y) == Batch(from, x) && Depth(to, y) == Depth(from, x) && Spatial(to, y) == Spatial(from, x)
  {
    hide Place, Role, Reordered, Spatial;
    var y := Reordered(x, from, to);
    ReorderedAt(x, from, to, 0);
    ReorderedAt(x, from, to, 1);
    forall i | 0 <= i < |x| - 2 ensures Spatial(to, y)[i] == Spatial(from, x)[i] {
      ReorderedAt(x, from, to, i + 2);
    }
  }

  /** Reordering both factors leaves their dot product alone. */
  lemma DotReordered(a: seq<int>, c: seq<int>, from: DataLayout, to: DataLayout)
    requires |a| == |c| >= 2
    ensures Dot(Reordered(a, from, to), Reordered(c, from, to)) == Dot(a, c)
  {
    DotOfParts(from, a, c);
    DotOfParts(to, Reordered(a, from, to), Reordered(c, from, to));
    PartsOfReordered(a, from, to);
    PartsOfReordered(c, from, to);
  }

  lemma ProductReordered(x: seq<nat>, from: DataLayout, to: DataLayout)
    requires |x| >= 2
    ensures Product(Reordered(x, from, to)) == Product(x)
  {
    ProductOfParts(from, x);
    ProductOfParts(to, Reordered(x, from, to));
    PartsOfReordered(x, from, to);
  }

  // ---- Row-major order ----

  /** Strides of a dense buffer whose last dimension is contiguous. */
  function RowMajor(dims: seq<nat>): (r: seq<nat>)
    ensures |r| == |dims|
  {
    if dims == [] then [] else [Product(dims[1..])] + RowMajor(dims[1..])
  }

  ghost predicate InBounds(c: seq<int>, dims: seq<nat>) {
    |c| == |dims| && forall i :: 0 <= i < |c| ==> 0 <= c[i] < dims[i]
  }

  lemma {:induction false} RowMajorRange(c: seq<int>, dims: seq<nat>)
    requires InBounds(c, dims)
    ensures 0 <= Dot(c, RowMajor(dims)) < Product(dims)
  {
    if dims != [] {
      var p := Product(dims[1..]);
      RowMajorRange(c[1..], dims[1..]);
      assert RowMajor(dims)[1..] == RowMajor(dims[1..]);
      assert c[0] * p <= (dims[0] - 1) * p == dims[0] * p - p by { MulOrder(c[0], dims[0] - 1, p); }
    }
  }

  lemma MulOrder(a: nat, b: int, p: nat)
    requires a <= b
    ensures a * p <= b * p
  {
  }

  lemma {:induction false} RowMajorInjective(c: seq<int>, d: seq<int>, dims: seq<nat>)
    requires InBounds(c, dims) && InBounds(d, dims)
    requires Dot(c, RowMajor(dims)) == Dot(d, RowMajor(dims))
    ensures c == d
  {
    if dims != [] {
      var p := Product(dims[1..]);
      assert RowMajor(dims)[1..] == RowMajor(dims[1..]);
      RowMajorRange(c[1..], dims[1..]);
      RowMajorRange(d[1..], dims[1..]);
      QuotientUnique(c[0], Dot(c[1..], RowMajor(dims[1..])), d[0], Dot(d[1..], RowMajor(dims[1..])), p);
      RowMajorInjective(c[1..], d[1..], dims[1..]);
      assert c == [c[0]] + c[1..] && d == [d[0]] + d[1..];
    }
  }

  lemma QuotientUnique(q: int, r: int, q': int, r': int, p: int)
    requires 0 <= r < p && 0 <= r' < p && q * p + r == q' * p + r'
    ensures q == q' && r == r'
  {
    if q < q' {
      MulOrderInt(q + 1, q', p);
    } else if q' < q {
      MulOrderInt(q' + 1, q, p);
    }
  }

  lemma MulOrderInt(a: int, b: int, p: int)
    requires a <= b && p >= 0
    ensures a * p <= b * p
  {
  }

  lemma Divided(offset: nat, n: nat, p: nat) returns (q: nat, r: nat)
    requires offset < n * p
    ensures q < n && r < p && offset == q * p + r
  {
    q, r := offset / p, offset % p;
    assert offset == q * p + r;
    if n <= q {
      MulOrderInt(n, q, p);
    }
  }

  lemma {:induction false} RowMajorSurjective(offset: nat, dims: seq<nat>) returns (c: seq<int>)
    requires offset < Product(dims)
    ensures InBounds(c, dims) && Dot(c, RowMajor(dims)) == offset
  {
    if dims == [] {
      c := [];
    } else {
      var p := Product(dims[1..]);
      var q, r := Divided(offset, dims[0], p);
      var rest := RowMajorSurjective(r, dims[1..]);
      c := [q] + rest;
      assert c[1..] == rest && RowMajor(dims)[1..] == RowMajor(dims[1..]);
    }
  }

  // ---- The descriptor ----

  function BdyxDims(desc: BatchDescriptor): (r: seq<nat>)
    ensures |r| == |desc.spatialSize| + 2
  {
    [desc.count, desc.featureMapCount] + desc.spatialSize
  }

  ghost function FullDims(desc: BatchDescriptor, layout: DataLayout): seq<nat> {
    Reordered(BdyxDims(desc), BatchDepthYX, layout)
  }

  /** In every layout the batch place holds the count, the depth place the feature maps and
      the spatial places the spatial sizes. */
  lemma FullDimsParts(desc: BatchDescriptor, layout: DataLayout)
    ensures var x := FullDims(desc, layout);
            && |x| == |desc.spatialSize| + 2
            && Batch(layout, x) == desc.count && Depth(layout, x) == desc.featureMapCount
            && Spatial(layout, x) == desc.spatialSize
  {
    var bdyx := BdyxDims(desc);
    PartsOfReordered(bdyx, BatchDepthYX, layout);
    Parts(BatchDepthYX, bdyx);
    assert Spatial(BatchDepthYX, bdyx) == bdyx[2..] == desc.spatialSize;
  }

  method ComputeFullDims(desc: BatchDescriptor, layout: DataLayout) returns (dims: seq<int>)
    ensures dims == FullDims(desc, layout)
    ensures |dims| == |desc.spatialSize| + 2
    ensures Batch(layout, dims) == desc.count && Depth(layout, dims) == desc.featureMapCount
    ensures Spatial(layout, dims) == desc.spatialSize
  {
    FullDimsParts(desc, layout);
    dims := ReorderDims(BdyxDims(desc), BatchDepthYX, layout);
  }

  ghost function FullStrides(desc: BatchDescriptor, layout: DataLayout): seq<nat> {
    Reordered(RowMajor(FullDims(desc, desc.layout)), desc.layout, layout)
  }

  lemma {:induction false} RowMajorAt(dims: seq<nat>, i: nat)
    requires i < |dims|
    ensures RowMajor(dims)[i] == if i == |dims| - 1 then 1 else RowMajor(dims)[i + 1] * dims[i + 1]
  {
    if i > 0 {
      RowMajorAt(dims[1..], i - 1);
    } else if |dims| > 1 {
      assert dims[1..][1..] == dims[2..];
      assert RowMajor(dims)[1] == RowMajor(dims[1..])[0] == Product(dims[2..]);
    }
  }

  /** Strides of the stored layout, last dimension first, then reordered. Vectorised
      layouts have none. */
  method ComputeFullStrides(desc: BatchDescriptor, layout: DataLayout) returns (r: Option<seq<int>>)
    ensures r.None? <==> desc.layout == BatchDepthYX4
    ensures r.Some? ==> r.value == FullStrides(desc, layout)
  {
    hide RowMajor, Product, Place, Role, Reordered;
    if desc.layout == BatchDepthYX4 {
      return None;
    }
    var ndims := |desc.spatialSize|;
    var physDims := ComputeFullDims(desc, desc.layout);
    var strides := new int[ndims + 2](_ => 0);
    strides[ndims + 1] := 1;
    RowMajorAt(physDims, ndims + 1);
    var i := ndims;
    while i >= 0
      invariant -1 <= i <= ndims
      invariant forall k :: i < k < ndims + 2 ==> strides[k] == RowMajor(physDims)[k]
    {
      RowMajorAt(physDims, i);
      strides[i] := strides[i + 1] * physDims[i + 1];
      i := i - 1;
    }
    assert strides[..] == RowMajor(physDims);
    var result := ReorderDims(strides[..], desc.layout, layout);
    return Some(result);
  }

  /** In the stored layout the last dimension is contiguous, and each other dimension strides
      over all of the next one. */
  lemma StoredStrides(desc: BatchDescriptor, i: nat)
    requires i < |desc.spatialSize| + 2
    ensures var strides, dims := FullStrides(desc, desc.layout), FullDims(desc, desc.layout);
            && |strides| == |dims| == |desc.spatialSize| + 2
            && strides[i] == if i == |dims| - 1 then 1 else strides[i + 1] * dims[i + 1]
  {
    var dims := FullDims(desc, desc.layout);
    hide Reordered, RowMajor;
    ReorderComposes(RowMajor(dims), desc.layout, desc.layout, desc.layout);
    RowMajorAt(dims, i);
  }

  lemma {:induction false} RowMajorBelow(dims: seq<nat>, i: nat)
    requires i < |dims| && forall k :: 0 <= k < |dims| ==> dims[k] > 0
    ensures 0 < RowMajor(dims)[i] && RowMajor(dims)[i] * dims[i] <= Product(dims)
  {
    if i > 0 {
      RowMajorBelow(dims[1..], i - 1);
      MulOrder(1, dims[0], Product(dims[1..]));
    } else if |dims| > 1 {
      RowMajorBelow(dims[1..], 0);
      MulOrder(1, dims[1], RowMajor(dims[1..])[0]);
    }
  }

  /** Every product the loop forms is at most the element count, so nothing overflows if
      that fits and no dimension is empty. */
  lemma StridesFit(desc: BatchDescriptor, i: nat)
    requires forall k :: 0 <= k < |FullDims(desc, desc.layout)| ==> FullDims(desc, desc.layout)[k] > 0
    requires i < |FullDims(desc, desc.layout)|
    ensures var dims := FullDims(desc, desc.layout);
            0 < RowMajor(dims)[i] && RowMajor(dims)[i] * dims[i] <= ElementCount(desc)
  {
    hide FullDims, RowMajor, Product;
    RowMajorBelow(FullDims(desc, desc.layout), i);
    ElementCountIsProduct(desc, desc.layout);
  }

  method NodesPerFeatureMap(desc: BatchDescriptor) returns (r: nat)
    ensures r == Product(desc.spatialSize)
  {
    r := 1;
    for i := 0 to |desc.spatialSize|
      invariant r == Product(desc.spatialSize[..i])
    {
      ProductSnoc(desc.spatialSize, i);
      r := r * desc.spatialSize[i];
    }
    assert desc.spatialSize[..|desc.spatialSize|] == desc.spatialSize;
  }

  function ElementCount(desc: BatchDescriptor): nat {
    desc.count * desc.featureMapCount * Product(desc.spatialSize)
  }

  lemma ElementCountIsProduct(desc: BatchDescriptor, layout: DataLayout)
    ensures Product(FullDims(desc, layout)) == ElementCount(desc)
  {
    var dims := BdyxDims(desc);
    ProductReordered(dims, BatchDepthYX, layout);
    ProductOfParts(BatchDepthYX, dims);
    assert Spatial(BatchDepthYX, dims) == desc.spatialSize;
  }

  ghost function Offset(desc: BatchDescriptor, layout: DataLayout, c: seq<int>): int
    requires |c| == |desc.spatialSize| + 2
  {
    Dot(c, FullStrides(desc, layout))
  }

  // ---- Results ----

  /** One element has one offset: asking for another layout changes coordinates and
      strides together. */
  lemma OffsetIndependentOfLayout(desc: BatchDescriptor, a: DataLayout, b: DataLayout, c: seq<int>)
    requires InBounds(c, FullDims(desc, a))
    ensures InBounds(Reordered(c, a, b), FullDims(desc, b))
    ensures Offset(desc, b, Reordered(c, a, b)) == Offset(desc, a, c)
  {
    hide Reordered, Place, Role, Dot, InBounds, RowMajor;
    var phys := RowMajor(FullDims(desc, desc.layout));
    ReorderComposes(phys, desc.layout, a, b);
    InBoundsSize(c, FullDims(desc, a));
    DotReordered(c, FullStrides(desc, a), a, b);
    ReorderedAsInt(FullStrides(desc, a), a, b);
    ReorderComposes(BdyxDims(desc), BatchDepthYX, a, b);
    InBoundsReordered(c, FullDims(desc, a), a, b);
  }

  lemma ReorderedAsInt(x: seq<nat>, from: DataLayout, to: DataLayout)
    requires |x| >= 2
    ensures Reordered<int>(x, from, to) == Reordered<nat>(x, from, to)
  {
  }

  lemma InBoundsSize(c: seq<int>, dims: seq<nat>)
    requires InBounds(c, dims)
    ensures |c| == |dims|
  {
  }

  lemma InBoundsReordered(c: seq<int>, dims: seq<nat>, from: DataLayout, to: DataLayout)
    requires |dims| >= 2 && InBounds(c, dims)
    ensures InBounds(Reordered(c, from, to), Reordered(dims, from, to))
  {
    hide Place, Role;
  }

  /** Offsets stay inside the buffer and different coordinates have different offsets. */
  lemma OffsetInjective(desc: BatchDescriptor, layout: DataLayout, c: seq<int>, d: seq<int>)
    requires InBounds(c, FullDims(desc, layout)) && InBounds(d, FullDims(desc, layout))
    ensures 0 <= Offset(desc, layout, c) < ElementCount(desc)
    ensures Offset(desc, layout, c) == Offset(desc, layout, d) ==> c == d
  {
    var own := desc.layout;
    var x, y := Reordered(c, layout, own), Reordered(d, layout, own);
    OffsetIndependentOfLayout(desc, layout, own, c);
    OffsetIndependentOfLayout(desc, layout, own, d);
    ReorderComposes(RowMajor(FullDims(desc, own)), own, own, own);
    RowMajorRange(x, FullDims(desc, own));
    ElementCountIsProduct(desc, own);
    if Offset(desc, layout, c) == Offset(desc, layout, d) {
      RowMajorInjective(x, y, FullDims(desc, own));
      ReorderComposes(c, layout, own, layout);
      ReorderComposes(d, layout, own, layout);
    }
  }

  /** Every offset of the buffer is some coordinate's. */
  lemma OffsetSurjective(desc: BatchDescriptor, layout: DataLayout, offset: nat) returns (c: seq<int>)
    requires offset < ElementCount(desc)
    ensures InBounds(c, FullDims(desc, layout)) && Offset(desc, layout, c) == offset
  {
    var own := desc.layout;
    ElementCountIsProduct(desc, own);
    var x := RowMajorSurjective(offset, FullDims(desc, own));
    ReorderComposes(RowMajor(FullDims(desc, own)), own, own, own);
    OffsetIndependentOfLayout(desc, own, layout, x);
    c := Reordered(x, own, layout);
  }
}
