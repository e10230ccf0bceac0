/** Go tensors: nested values, shapes read off the first elements, and the nested numeric
    codec with its bulk path. */
module GoTensor {
  import opened Products
  import opened StringCodec

  datatype Option<+T> = None | Some(value: T)

  /** Element kinds. Numbers are fixed-width byte strings in native order. */
  datatype Kind = Bool | Number(size: nat) | String | Unsupported

  datatype GoType = Scalar(kind: Kind) | Array(len: nat, elem: GoType) | Slice(elem: GoType)

  datatype Element = BoolElement(b: bool) | NumberElement(bytes: Bytes) | StringElement(text: Bytes) | OtherElement

  datatype Value = Leaf(x: Element) | Items(items: seq<Value>)

  function Depth(t: GoType): nat {
    match t
    case Scalar(_) => 0
    case Array(_, e) => 1 + Depth(e)
    case Slice(e) => 1 + Depth(e)
  }

  function ElementKind(t: GoType): Kind {
    match t
    case Scalar(k) => k
    case Array(_, e) => ElementKind(e)
    case Slice(e) => ElementKind(e)
  }

  predicate HasKind(x: Element, k: Kind) {
    match k
    case Bool => x.BoolElement?
    case Number(size) => x.NumberElement? && |x.bytes| == size
    case String => x.StringElement? && |x.text| < PTRDIFF_LIMIT
    case Unsupported => x.OtherElement?
  }

  /** The values Go's type system allows: an array has the length of its type, a slice
      any length. */
  ghost predicate HasType(v: Value, t: GoType)
    decreases t
  {
    match t
    case Scalar(k) => v.Leaf? && HasKind(v.x, k)
    case Array(n, e) => v.Items? && |v.items| == n && forall i :: 0 <= i < |v.items| ==> HasType(v.items[i], e)
    case Slice(e) => v.Items? && forall i :: 0 <= i < |v.items| ==> HasType(v.items[i], e)
  }

  // ---- Shapes ----

  type Shape = seq<nat>

  ghost function Zeros(n: nat): Shape {
    if n == 0 then [] else [0] + Zeros(n - 1)
  }

  /** The lengths met on the way to the first element; below an empty container every
      length is zero. */
  ghost function ShapeOf(v: Value, t: GoType): (r: Shape)
    requires HasType(v, t)
    ensures |r| == Depth(t)
    decreases t
  {
    if t.Scalar? then []
    else if v.items == [] then ZerosLength(Depth(t)); Zeros(Depth(t))
    else [|v.items|] + ShapeOf(v.items[0], t.elem)
  }

  /** The value reached by taking the first element `d` times. */
  ghost function FirstAt(v: Value, d: nat): Option<Value> {
    if d == 0 then Some(v)
    else if v.Items? && v.items != [] then FirstAt(v.items[0], d - 1)
    else None
  }

  /** A dimension is the length of the container that first elements lead to, and zero below
      an empty one. */
  lemma {:induction false} ShapeExactly(v: Value, t: GoType, d: nat)
    requires HasType(v, t) && d < Depth(t)
    ensures FirstAt(v, d).Some? ==> FirstAt(v, d).value.Items? && ShapeOf(v, t)[d] == |FirstAt(v, d).value.items|
    ensures FirstAt(v, d).None? ==> ShapeOf(v, t)[d] == 0
    decreases t
  {
    if v.items == [] {
      ZerosAt(Depth(t), d);
    } else if d > 0 {
      ShapeExactly(v.items[0], t.elem, d - 1);
    }
  }

  lemma {:induction false} ZerosAt(n: nat, d: nat)
    requires d < n
    ensures |Zeros(n)| == n && Zeros(n)[d] == 0
  {
    ZerosLength(n);
    if d > 0 {
      ZerosAt(n - 1, d - 1);
    }
  }

  lemma ZerosLength(n: nat)
    ensures |Zeros(n)| == n
  {
  }

  /** `shapeAndDataTypeOf`: the type goes one level down each time, the value only if it
      has an element. */
  method ShapeAndKindOf(value: Value, t: GoType) returns (shape: Shape, kind: Kind)
    requires HasType(value, t)
    ensures shape == ShapeOf(value, t) && kind == ElementKind(t)
  {
    hide HasType, ShapeLeft;
    var val, typ := value, t;
    shape := [];
    ghost var emptied := false;
    ShapeLeftStart(value, t);
    while !typ.Scalar?
      invariant ElementKind(typ) == ElementKind(t)
      invariant Standing(val, typ, emptied)
      invariant shape + ShapeLeft(val, typ, emptied) == ShapeOf(value, t)
      decreases typ
    {
      ShapeLeftStep(val, typ, emptied, shape);
      shape := shape + [|val.items|];
      if |val.items| > 0 {
        val := val.items[0];
      } else {
        emptied := true;
      }
      typ := typ.elem;
    }
    ShapeLeftEnd(val, typ, emptied);
    assert shape + [] == shape;
    kind := typ.kind;
  }

  /** Where the loop stands: at a value of the type, or at an empty container above it. */
  ghost predicate Standing(val: Value, typ: GoType, emptied: bool) {
    if emptied then val == Items([]) else HasType(val, typ)
  }

  ghost function ShapeLeft(val: Value, typ: GoType, emptied: bool): Shape
    requires Standing(val, typ, emptied)
  {
    if emptied then Zeros(Depth(typ)) else ShapeOf(val, typ)
  }

  lemma ShapeLeftStart(val: Value, typ: GoType)
    requires HasType(val, typ)
    ensures [] + ShapeLeft(val, typ, false) == ShapeOf(val, typ)
  {
    hide ShapeOf, HasType;
  }

  lemma ShapeLeftStep(val: Value, typ: GoType, emptied: bool, before: Shape)
    requires Standing(val, typ, emptied) && !typ.Scalar?
    ensures val.Items?
    ensures var emptied' := emptied || val.items == [];
            var val' := if val.items == [] then val else val.items[0];
            && Standing(val', typ.elem, emptied')
            && before + ShapeLeft(val, typ, emptied) == before + [|val.items|] + ShapeLeft(val', typ.elem, emptied')
  {
    ZerosUnfold(Depth(typ));
    if !emptied {
      ShapeUnfolds(val, typ);
    }
    hide ShapeOf, Zeros, HasType;
    var emptied' := emptied || val.items == [];
    var val' := if val.items == [] then val else val.items[0];
    var rest := ShapeLeft(val', typ.elem, emptied');
    assert ShapeLeft(val, typ, emptied) == [|val.items|] + rest;
    assert before + ([|val.items|] + rest) == before + [|val.items|] + rest;
  }

  lemma ShapeLeftEnd(val: Value, typ: GoType, emptied: bool)
    requires Standing(val, typ, emptied) && typ.Scalar?
    ensures ShapeLeft(val, typ, emptied) == []
  {
  }

  lemma ZerosUnfold(n: nat)
    ensures Zeros(n) == if n == 0 then [] else [0] + Zeros(n - 1)
  {
  }

  lemma ShapeUnfolds(v: Value, t: GoType)
    requires HasType(v, t)
    ensures t.Scalar? ==> ShapeOf(v, t) == []
    ensures !t.Scalar? ==> v.Items?
    ensures !t.Scalar? && v.items == [] ==> ShapeOf(v, t) == Zeros(Depth(t))
    ensures !t.Scalar? && v.items != [] ==>
              HasType(v.items[0], t.elem) && ShapeOf(v, t) == [|v.items|] + ShapeOf(v.items[0], t.elem)
  {
  }

  lemma ShiftModulus(v: int, q: int)
    ensures (v + q * SIZE_LIMIT) % SIZE_LIMIT == v % SIZE_LIMIT
  {
  }

  /** Wrapping early does not change the wrapped product. */
  lemma WrappedProduct(v: int, d: nat)
    ensures AsSigned(AsSigned(v) * d) == AsSigned(v * d)
    ensures d * AsSigned(v) % SIZE_LIMIT == d * v % SIZE_LIMIT
  {
    var q := (AsSigned(v) - v) / SIZE_LIMIT;
    assert AsSigned(v) == v + q * SIZE_LIMIT;
    calc {
      (v + q * SIZE_LIMIT) * d;
      v * d + q * SIZE_LIMIT * d;
      v * d + q * d * SIZE_LIMIT;
    }
    ShiftModulus(v * d, q * d);
  }

  /** The product of the shape, as an `int64`. */
  method NumElements(shape: Shape) returns (n: int)
    ensures n == AsSigned(Product(shape))
  {
    hide Product, AsSigned;
    n := 1;
    EmptyProduct();
    assert shape[..0] == [];
    for i := 0 to |shape|
      invariant n == AsSigned(Product(shape[..i]))
    {
      ProductSnoc(shape, i);
      WrappedProduct(Product(shape[..i]), shape[i]);
      n := AsSigned(n * shape[i]);
    }
    assert shape[..|shape|] == shape;
  }

  lemma EmptyProduct()
    ensures Product([]) == 1 && AsSigned(1) == 1
  {
  }

  /** Every container at depth d has length shape[d]. */
  ghost predicate Uniform(v: Value, shape: Shape)
    decreases |shape|
  {
    if shape == [] then v.Leaf?
    else v.Items? && |v.items| == shape[0] && forall i :: 0 <= i < |v.items| ==> Uniform(v.items[i], shape[1..])
  }

  /** What the encoders check: lengths of slices only. */
  ghost predicate SlicesMatch(v: Value, t: GoType, shape: Shape)
    requires HasType(v, t) && |shape| == Depth(t)
    decreases t
  {
    match t
    case Scalar(_) => true
    case Array(_, e) => forall i :: 0 <= i < |v.items| ==> SlicesMatch(v.items[i], e, shape[1..])
    case Slice(e) => |v.items| == shape[0] && forall i :: 0 <= i < |v.items| ==> SlicesMatch(v.items[i], e, shape[1..])
  }

  /** Array lengths of the type appear in the shape, as long as elements are reached. */
  ghost predicate ArraysAgree(t: GoType, shape: Shape)
    requires |shape| == Depth(t)
    decreases t
  {
    match t
    case Scalar(_) => true
    case Array(n, e) => shape[0] == n && (n == 0 || ArraysAgree(e, shape[1..]))
    case Slice(e) => shape[0] == 0 || ArraysAgree(e, shape[1..])
  }

  lemma {:induction false} ShapeAgrees(v: Value, t: GoType)
    requires HasType(v, t)
    ensures ArraysAgree(t, ShapeOf(v, t))
    decreases t
  {
    if !t.Scalar? {
      if v.items == [] {
        assert Zeros(Depth(t))[0] == 0;
      } else {
        ShapeAgrees(v.items[0], t.elem);
        assert ShapeOf(v, t)[1..] == ShapeOf(v.items[0], t.elem);
      }
    }
  }

  lemma {:induction false} SlicesSuffice(v: Value, t: GoType, shape: Shape)
    requires HasType(v, t) && |shape| == Depth(t) && ArraysAgree(t, shape)
    ensures SlicesMatch(v, t, shape) <==> Uniform(v, shape)
    decreases t
  {
    if !t.Scalar? {
      forall i | 0 <= i < |v.items| && ArraysAgree(t.elem, shape[1..])
        ensures SlicesMatch(v.items[i], t.elem, shape[1..]) <==> Uniform(v.items[i], shape[1..])
      {
        SlicesSuffice(v.items[i], t.elem, shape[1..]);
      }
    }
  }

  /** Checking the slices against the shape read from first elements checks everything. */
  lemma EncodingChecksExactly(v: Value, t: GoType)
    requires HasType(v, t)
    ensures SlicesMatch(v, t, ShapeOf(v, t)) <==> Uniform(v, ShapeOf(v, t))
  {
    ShapeAgrees(v, t);
    SlicesSuffice(v, t, ShapeOf(v, t));
  }

  // ---- Elements in order ----

  ghost function Leaves(v: Value): seq<Element>
    decreases v, 1
  {
    match v
    case Leaf(x) => [x]
    case Items(items) => AllLeaves(items)
  }

  ghost function AllLeaves(items: seq<Value>): seq<Element>
    decreases items, 0
  {
    if items == [] then [] else AllLeaves(items[..|items| - 1]) + Leaves(items[|items| - 1])
  }

  lemma {:induction false} LeafCount(v: Value, shape: Shape)
    requires Uniform(v, shape)
    ensures |Leaves(v)| == Product(shape)
    decreases |shape|, 1, 0
  {
    if shape != [] {
      AllLeafCount(v.items, shape[1..]);
    }
  }

  lemma {:induction false} AllLeafCount(items: seq<Value>, shape: Shape)
    requires forall i :: 0 <= i < |items| ==> Uniform(items[i], shape)
    ensures |AllLeaves(items)| == |items| * Product(shape)
    decreases |shape| + 1, 0, |items|
  {
    if items != [] {
      var n := |items| - 1;
      AllLeafCount(items[..n], shape);
      LeafCount(items[n], shape);
      assert n * Product(shape) + Product(shape) == (n + 1) * Product(shape);
    }
  }

  lemma {:induction false} LeavesHaveKind(v: Value, t: GoType)
    requires HasType(v, t)
    ensures forall i :: 0 <= i < |Leaves(v)| ==> HasKind(Leaves(v)[i], ElementKind(t))
    decreases t, 1, 0
  {
    if !t.Scalar? {
      AllLeavesHaveKind(v.items, t.elem);
    }
  }

  lemma {:induction false} AllLeavesHaveKind(items: seq<Value>, t: GoType)
    requires forall i :: 0 <= i < |items| ==> HasType(items[i], t)
    ensures forall i :: 0 <= i < |AllLeaves(items)| ==> HasKind(AllLeaves(items)[i], ElementKind(t))
    decreases t, 2, |items|
  {
    if items != [] {
      AllLeavesHaveKind(items[..|items| - 1], t);
      LeavesHaveKind(items[|items| - 1], t);
    }
  }

  /** A nested slice of the given shape whose elements, in order, are f(at), f(at + 1)
      and so on. */
  ghost function Rebuild(f: nat -> Element, shape: Shape, at: nat): Value
    decreases |shape|
  {
    if shape == [] then Leaf(f(at))
    else Items(seq(shape[0], i requires 0 <= i < shape[0] => Rebuild(f, shape[1..], at + i * Product(shape[1..]))))
  }

  /** f yields `xs` from index `at` on. */
  ghost predicate Yields(f: nat -> Element, at: nat, xs: seq<Element>) {
    forall m :: at <= m < at + |xs| ==> f(m) == xs[m - at]
  }

  lemma YieldsPart(f: nat -> Element, at: nat, xs: seq<Element>, lo: nat, hi: nat)
    requires Yields(f, at, xs) && lo <= hi <= |xs|
    ensures Yields(f, at + lo, xs[lo..hi])
  {
  }

  /** Reading the elements of a uniform value back in order restores it. */
  lemma {:induction false} RebuildRestores(f: nat -> Element, v: Value, shape: Shape, at: nat)
    requires Uniform(v, shape) && Yields(f, at, Leaves(v))
    ensures Rebuild(f, shape, at) == v
    decreases |shape|
  {
    if shape != [] {
      hide Yields, Product, AllLeaves;
      var p := Product(shape[1..]);
      forall i | 0 <= i < |v.items| ensures v.items[i] == Rebuild(f, shape[1..], at + i * p) {
        ItemLeaves(v.items, shape[1..], i);
        YieldsPart(f, at, AllLeaves(v.items), i * p, i * p + |Leaves(v.items[i])|);
        RebuildRestores(f, v.items[i], shape[1..], at + i * p);
      }
      RebuildOfItems(f, shape, at, v.items);
    }
  }

  lemma RebuildOfItems(f: nat -> Element, shape: Shape, at: nat, items: seq<Value>)
    requires shape != [] && |items| == shape[0]
    requires forall i :: 0 <= i < |items| ==> items[i] == Rebuild(f, shape[1..], at + i * Product(shape[1..]))
    ensures Rebuild(f, shape, at) == Items(items)
  {
    hide Product;
    assert Rebuild(f, shape, at).items == items;
  }

  lemma {:induction false} ItemLeaves(items: seq<Value>, shape: Shape, i: nat)
    requires i < |items| && forall k :: 0 <= k < |items| ==> Uniform(items[k], shape)
    ensures i * Product(shape) + |Leaves(items[i])| <= |AllLeaves(items)|
    ensures AllLeaves(items)[i * Product(shape)..i * Product(shape) + |Leaves(items[i])|] == Leaves(items[i])
    decreases |items|
  {
    hide *;
    var n := |items| - 1;
    var front, last := AllLeaves(items[..n]), Leaves(items[n]);
    AllLeavesOfFront(items);
    AllLeafCount(items[..n], shape);
    if i < n {
      ItemLeaves(items[..n], shape, i);
      SliceOfSum(front, last, i * Product(shape), i * Product(shape) + |Leaves(items[i])|);
    }
  }

  lemma AllLeavesOfFront(items: seq<Value>)
    requires items != []
    ensures AllLeaves(items) == AllLeaves(items[..|items| - 1]) + Leaves(items[|items| - 1])
  {
  }

  lemma SliceOfSum(a: seq<Element>, b: seq<Element>, lo: nat, hi: nat)
    requires lo <= hi <= |a|
    ensures (a + b)[lo..hi] == a[lo..hi]
  {
  }

  /** `path` indexes an element of a tensor of this shape. */
  ghost predicate IsPath(path: seq<nat>, shape: Shape) {
    |path| == |shape| && forall d :: 0 <= d < |path| ==> path[d] < shape[d]
  }

  /** The element that Go's own indexing `v[path[0]][path[1]]...` finds. */
  ghost function ElementAt(v: Value, path: seq<nat>, shape: Shape): Element
    requires Uniform(v, shape) && IsPath(path, shape)
    decreases |shape|
  {
    if shape == [] then v.x else ElementAt(v.items[path[0]], path[1..], shape[1..])
  }

  /** The row-major index of a path: the last index runs fastest. */
  ghost function RowMajorIndex(path: seq<nat>, shape: Shape): nat
    requires |path| == |shape|
  {
    if shape == [] then 0 else path[0] * Product(shape[1..]) + RowMajorIndex(path[1..], shape[1..])
  }

  /** The elements of a tensor are listed in row-major order. */
  lemma {:induction false} LeavesAreRowMajor(v: Value, path: seq<nat>, shape: Shape)
    requires Uniform(v, shape) && IsPath(path, shape)
    ensures RowMajorIndex(path, shape) < |Leaves(v)|
    ensures Leaves(v)[RowMajorIndex(path, shape)] == ElementAt(v, path, shape)
    decreases |shape|
  {
    if shape != [] {
      LeavesAreRowMajor(v.items[path[0]], path[1..], shape[1..]);
      LeavesOfItems(v);
      ItemsAreRowMajor(v.items, shape[1..], path[0], RowMajorIndex(path[1..], shape[1..]));
    }
  }

  lemma ItemsAreRowMajor(items: seq<Value>, shape: Shape, i: nat, j: nat)
    requires i < |items| && (forall k :: 0 <= k < |items| ==> Uniform(items[k], shape)) && j < |Leaves(items[i])|
    ensures i * Product(shape) + j < |AllLeaves(items)|
    ensures AllLeaves(items)[i * Product(shape) + j] == Leaves(items[i])[j]
  {
    hide Leaves, AllLeaves, Uniform, Product;
    ItemLeaves(items, shape, i);
    var all, start := AllLeaves(items), i * Product(shape);
    assert all[start..start + |Leaves(items[i])|][j] == all[start + j];
  }

  lemma LeavesOfItems(v: Value)
    requires v.Items?
    ensures Leaves(v) == AllLeaves(v.items)
  {
  }

  // ---- Numeric tensors ----

  function ElementBytes(x: Element): Bytes {
    match x
    case BoolElement(b) => [if b then 1 else 0]
    case NumberElement(bytes) => bytes
    case StringElement(text) => text
    case OtherElement => []
  }

  function Width(k: Kind): nat {
    match k
    case Number(size) => size
    case _ => 1
  }

  predicate Fixed(k: Kind) {
    k.Bool? || (k.Number? && k.size > 0)
  }

  ghost function FlatBytes(xs: seq<Element>): Bytes {
    if xs == [] then [] else FlatBytes(xs[..|xs| - 1]) + ElementBytes(xs[|xs| - 1])
  }

  lemma FlatSnoc(xs: seq<Element>, x: Element)
    ensures FlatBytes(xs + [x]) == FlatBytes(xs) + ElementBytes(x)
  {
    hide ElementBytes;
    assert (xs + [x])[..|xs|] == xs;
  }

  lemma {:induction false} FlatConcat(xs: seq<Element>, ys: seq<Element>)
    ensures FlatBytes(xs + ys) == FlatBytes(xs) + FlatBytes(ys)
  {
    hide ElementBytes;
    if ys == [] {
      assert xs + ys == xs && FlatBytes(ys) == [];
    } else {
      var n := |ys| - 1;
      var front, y := ys[..n], ys[n];
      assert ys == front + [y] && xs + ys == (xs + front) + [y];
      hide FlatBytes;
      FlatConcat(xs, front);
      FlatSnoc(xs + front, y);
      FlatSnoc(front, y);
    }
  }

  lemma {:induction false} FlatLength(xs: seq<Element>, k: Kind)
    requires Fixed(k) && forall j :: 0 <= j < |xs| ==> HasKind(xs[j], k)
    ensures |FlatBytes(xs)| == |xs| * Width(k)
  {
    if xs != [] {
      var n, w := |xs| - 1, Width(k);
      FlatLength(xs[..n], k);
      assert n * w + w == (n + 1) * w;
    }
  }

  /** Elements of one kind lie at multiples of its width. */
  lemma FlatAt(xs: seq<Element>, k: Kind, i: nat)
    requires Fixed(k) && i < |xs| && forall j :: 0 <= j < |xs| ==> HasKind(xs[j], k)
    ensures i * Width(k) + Width(k) <= |FlatBytes(xs)|
    ensures FlatBytes(xs)[i * Width(k)..i * Width(k) + Width(k)] == ElementBytes(xs[i])
  {
    hide FlatBytes;
    var a, x, b := xs[..i], [xs[i]], xs[i + 1..];
    assert xs == a + (x + b);
    FlatConcat(a, x + b);
    FlatConcat(x, b);
    FlatLength(a, k);
    FlatLength(x, k);
    LeavesUnfold(Leaf(xs[i]));
    Middle(FlatBytes(a), FlatBytes(x), FlatBytes(b));
  }

  /** A boolean is the byte 1 if it is true and 0 if not, and a number its own bytes. */
  lemma FlatElement(xs: seq<Element>, k: Kind, i: nat)
    requires Fixed(k) && i < |xs| && forall j :: 0 <= j < |xs| ==> HasKind(xs[j], k)
    ensures k == Bool ==>
              |FlatBytes(xs)| == |xs| && FlatBytes(xs)[i] == if xs[i] == BoolElement(true) then 1 else 0
    ensures k.Number? ==>
              && i * k.size + k.size <= |FlatBytes(xs)| && xs[i].NumberElement?
              && FlatBytes(xs)[i * k.size..i * k.size + k.size] == xs[i].bytes
  {
    FlatAt(xs, k, i);
    FlatLength(xs, k);
    hide FlatBytes;
    assert HasKind(xs[i], k);
    if k == Bool {
      assert FlatBytes(xs)[i * 1..i * 1 + 1] == ElementBytes(xs[i]);
      assert FlatBytes(xs)[i] == FlatBytes(xs)[i..i + 1][0];
    }
  }

  lemma Middle(a: Bytes, b: Bytes, c: Bytes)
    ensures (a + (b + c))[|a|..|a| + |b|] == b
  {
  }

  class Buffer {
    var data: Bytes

    constructor ()
      ensures data == []
    {
      data := [];
    }
  }

  /** What one bulk write of a slice of numbers produces. */
  function BulkBytes(items: seq<Value>): Bytes
    requires forall i :: 0 <= i < |items| ==> items[i].Leaf?
  {
    if items == [] then [] else BulkBytes(items[..|items| - 1]) + ElementBytes(items[|items| - 1].x)
  }

  /** The bulk path writes what element-wise recursion would. */
  lemma {:induction false} BulkIsElementwise(items: seq<Value>)
    requires forall i :: 0 <= i < |items| ==> items[i].Leaf?
    ensures BulkBytes(items) == FlatBytes(AllLeaves(items))
  {
    if items == [] {
      NoItems();
    } else {
      var n := |items| - 1;
      hide FlatBytes, ElementBytes;
      BulkIsElementwise(items[..n]);
      assert AllLeaves(items) == AllLeaves(items[..n]) + [items[n].x];
      FlatSnoc(AllLeaves(items[..n]), items[n].x);
    }
  }

  /** Appends the encoding of `v`, checking the length of every slice met. */
  method EncodeTensor(w: Buffer, v: Value, t: GoType, shape: Shape) returns (ok: bool)
    requires HasType(v, t) && |shape| == Depth(t) && Fixed(ElementKind(t))
    modifies w
    ensures ok <==> SlicesMatch(v, t, shape)
    ensures ok ==> w.data == old(w.data) + FlatBytes(Leaves(v))
    decreases t, 0
  {
    hide Leaves, AllLeaves, FlatBytes;
    LeavesUnfold(v);
    if t.Scalar? {
      w.data := w.data + ElementBytes(v.x);
      return true;
    }
    if t.Slice? && |v.items| != shape[0] {
      return false;
    }
    if |shape| == 1 && |v.items| > 0 && t.elem.Scalar? && t.elem.kind.Number? {
      BulkIsElementwise(v.items);
      w.data := w.data + BulkBytes(v.items);
      return true;
    }
    ok := EncodeItems(w, v.items, t.elem, shape[1..]);
  }

  /** The loop over the elements of a container. */
  method EncodeItems(w: Buffer, items: seq<Value>, elem: GoType, shape: Shape) returns (ok: bool)
    requires (forall i :: 0 <= i < |items| ==> HasType(items[i], elem)) && |shape| == Depth(elem) &&
             Fixed(ElementKind(elem))
    modifies w
    ensures ok <==> forall i :: 0 <= i < |items| ==> SlicesMatch(items[i], elem, shape)
    ensures ok ==> w.data == old(w.data) + FlatBytes(AllLeaves(items))
    decreases elem, 1
  {
    hide HasType, SlicesMatch, Leaves, AllLeaves, FlatBytes;
    ghost var before := w.data;
    NoItems();
    assert items[..0] == [];
    for i := 0 to |items|
      invariant w.data == before + FlatBytes(AllLeaves(items[..i]))
      invariant forall k :: 0 <= k < i ==> SlicesMatch(items[k], elem, shape)
    {
      var done := EncodeTensor(w, items[i], elem, shape);
      if !done {
        return false;
      }
      AppendItem(items, i);
      FlatConcat(AllLeaves(items[..i]), Leaves(items[i]));
    }
    assert items[..|items|] == items;
    return true;
  }

  lemma LeavesUnfold(v: Value)
    ensures v.Leaf? ==> Leaves(v) == [v.x] && FlatBytes(Leaves(v)) == ElementBytes(v.x)
    ensures v.Items? ==> Leaves(v) == AllLeaves(v.items)
  {
    if v.Leaf? {
      assert FlatBytes([v.x]) == FlatBytes([]) + ElementBytes(v.x);
    }
  }

  lemma NoItems()
    ensures AllLeaves([]) == [] && FlatBytes([]) == []
  {
  }

  lemma AppendItem(items: seq<Value>, i: nat)
    requires i < |items|
    ensures AllLeaves(items[..i + 1]) == AllLeaves(items[..i]) + Leaves(items[i])
  {
    assert items[..i + 1][..i] == items[..i];
  }

  /** The element starting at byte `at`. */
  function Parse(src: Bytes, k: Kind, at: nat): Element {
    if at + Width(k) > |src| then NumberElement([])
    else if k.Bool? then BoolElement(src[at] == 1)
    else NumberElement(src[at..at + Width(k)])
  }

  /** A byte denotes true exactly if it is 1, and a number is the bytes it stands in. */
  lemma ReadsElement(src: Bytes, k: Kind, i: nat)
    requires Fixed(k) && i * Width(k) + Width(k) <= |src|
    ensures k == Bool ==> i < |src| && Reading(src, k)(i) == BoolElement(src[i] == 1)
    ensures k.Number? ==> Reading(src, k)(i) == NumberElement(src[i * k.size..i * k.size + k.size])
  {
  }

  ghost function Reading(src: Bytes, k: Kind): nat -> Element {
    (i: nat) => Parse(src, k, i * Width(k))
  }

  class Reader {
    const src: Bytes
    var pos: nat

    constructor (src: Bytes)
      ensures this.src == src && pos == 0
    {
      this.src := src;
      pos := 0;
    }
  }

  /** The bytes that n elements take. */
  ghost function BytesOf(n: nat, k: Kind): nat {
    n * Width(k)
  }

  /** Reads a nested slice of the given shape; fails exactly if the bytes do not suffice. */
  method DecodeTensor(r: Reader, shape: Shape, k: Kind, ghost at: nat) returns (v: Option<Value>)
    requires Fixed(k) && r.pos == BytesOf(at, k) <= |r.src|
    modifies r
    ensures v.Some? <==> BytesOf(at + Product(shape), k) <= |r.src|
    ensures v.Some? ==> v.value == Rebuild(Reading(r.src, k), shape, at) && r.pos == BytesOf(at + Product(shape), k)
    decreases |shape|, 1
  {
    hide Rebuild;
    var w := Width(k);
    if shape == [] {
      RebuildElement(r.src, k, at);
      if r.pos + w > |r.src| {
        return None;
      }
      v := Some(Leaf(Parse(r.src, k, r.pos)));
      r.pos := r.pos + w;
      return;
    }
    var items: seq<Value>;
    if |shape| == 1 && shape[0] > 0 && k.Number? {
      BulkSpan(shape, at, w);
      if r.pos + shape[0] * w > |r.src| {
        return None;
      }
      items := BulkRead(r.src, k, r.pos, shape[0], at);
      r.pos := r.pos + shape[0] * w;
    } else {
      var read := DecodeItems(r, shape, k, at);
      if read.None? {
        return None;
      }
      items := read.value;
    }
    RebuildOfItems(Reading(r.src, k), shape, at, items);
    v := Some(Items(items));
  }

  /** The loop over the elements of a slice. */
  method DecodeItems(r: Reader, shape: Shape, k: Kind, ghost at: nat) returns (read: Option<seq<Value>>)
    requires shape != [] && Fixed(k) && r.pos == BytesOf(at, k) <= |r.src|
    modifies r
    ensures read.Some? <==> BytesOf(at + Product(shape), k) <= |r.src|
    ensures read.Some? ==>
              && |read.value| == shape[0] && r.pos == BytesOf(at + Product(shape), k)
              && forall j :: 0 <= j < shape[0] ==>
                               read.value[j] == Rebuild(Reading(r.src, k), shape[1..], at + j * Product(shape[1..]))
    decreases |shape|, 0
  {
    hide Rebuild, Product, BytesOf;
    var items: seq<Value> := [];
    ghost var p := Product(shape[1..]);
    ProductUnfolds(shape);
    for i := 0 to shape[0]
      invariant |items| == i && r.pos == BytesOf(at + i * p, k) <= |r.src|
      invariant forall j :: 0 <= j < i ==> items[j] == Rebuild(Reading(r.src, k), shape[1..], at + j * p)
    {
      ItemSpan(shape, at, i, k);
      var item := DecodeTensor(r, shape[1..], k, at + i * p);
      if item.None? {
        return None;
      }
      items := items + [item.value];
    }
    return Some(items);
  }

  lemma ProductUnfolds(shape: Shape)
    requires shape != []
    ensures Product(shape) == shape[0] * Product(shape[1..])
  {
  }

  lemma RebuildElement(src: Bytes, k: Kind, at: nat)
    ensures Rebuild(Reading(src, k), [], at) == Leaf(Parse(src, k, at * Width(k)))
    ensures (at + Product([])) * Width(k) == at * Width(k) + Width(k)
  {
  }

  lemma BulkSpan(shape: Shape, at: nat, w: nat)
    requires |shape| == 1
    ensures Product(shape) == shape[0] && Product(shape[1..]) == 1
    ensures (at + Product(shape)) * w == at * w + shape[0] * w
  {
  }

  lemma ItemSpan(shape: Shape, at: nat, i: nat, k: Kind)
    requires shape != [] && i < shape[0]
    ensures BytesOf(at + (i + 1) * Product(shape[1..]), k) <= BytesOf(at + Product(shape), k)
    ensures at + i * Product(shape[1..]) + Product(shape[1..]) == at + (i + 1) * Product(shape[1..])
  {
    var p := Product(shape[1..]);
    assert i * p + p == (i + 1) * p;
    MulMonotone(i + 1, shape[0], p);
    MulMonotone(at + (i + 1) * p, at + shape[0] * p, Width(k));
  }

  lemma MulMonotone(a: nat, b: nat, c: nat)
    requires a <= b
    ensures a * c <= b * c
  {
  }

  /** One bulk read of n numbers. */
  method BulkRead(src: Bytes, k: Kind, pos: nat, n: nat, ghost at: nat) returns (items: seq<Value>)
    requires k.Number? && k.size > 0 && pos == at * k.size && pos + n * k.size <= |src|
    ensures |items| == n && forall j :: 0 <= j < n ==> items[j] == Rebuild(Reading(src, k), [], at + j * 1)
  {
    hide Rebuild;
    items := [];
    for j := 0 to n
      invariant |items| == j && forall i :: 0 <= i < j ==> items[i] == Rebuild(Reading(src, k), [], at + i * 1)
    {
      RebuildElement(src, k, at + j * 1);
      assert (at + j) * k.size == pos + j * k.size;
      items := items + [Leaf(Parse(src, k, pos + j * k.size))];
    }
  }

  /** Decoding the encoding of a uniform value gives the value back, arrays as slices. */
  lemma NumericRoundTrip(v: Value, t: GoType, shape: Shape)
    requires HasType(v, t) && Fixed(ElementKind(t)) && Uniform(v, shape)
    ensures |FlatBytes(Leaves(v))| == Product(shape) * Width(ElementKind(t))
    ensures Rebuild(Reading(FlatBytes(Leaves(v)), ElementKind(t)), shape, 0) == v
  {
    var k, xs := ElementKind(t), Leaves(v);
    LeafCount(v, shape);
    LeavesHaveKind(v, t);
    FlatLength(xs, k);
    var f := Reading(FlatBytes(xs), k);
    forall j | 0 <= j < |xs| ensures f(j) == xs[j] {
      FlatAt(xs, k, j);
    }
    RebuildRestores(f, v, shape, 0);
  }

  lemma WrapBelow(v: nat)
    ensures v % SIZE_LIMIT <= v && (v < SIZE_LIMIT ==> v % SIZE_LIMIT == v)
  {
  }

  /** Go sees a tensor's memory through a slice of this length; a longer one panics. */
  const MAX_TENSOR_BYTES: nat := 0x4000_0000

  /** What NewTensor ends in: a tensor, the error for the type, the panic of a tensor past
      the window, an error of the encoder, or the report of a wrongly computed size. */
  datatype Outcome = Made(shape: Shape, contents: Bytes) | NotSupported | PastWindow | EncodeFailed | SizeBug

  /** NewTensor on a numeric value. A tensor is made exactly of the uniform values that are
      not too large, and reading its buffer gives the value back. The check of the written
      size fires exactly if the size of a uniform value wraps to one inside the window. */
  method NewNumericTensor(v: Value, t: GoType) returns (r: Outcome)
    requires HasType(v, t) && Fixed(ElementKind(t))
    ensures r.Made? <==> NumericSize(v, t) <= MAX_TENSOR_BYTES && Uniform(v, ShapeOf(v, t))
    ensures r.PastWindow? <==> NumericSize(v, t) % SIZE_LIMIT > MAX_TENSOR_BYTES
    ensures r.EncodeFailed? <==> NumericSize(v, t) % SIZE_LIMIT <= MAX_TENSOR_BYTES && !Uniform(v, ShapeOf(v, t))
    ensures r.SizeBug? <==>
            && NumericSize(v, t) % SIZE_LIMIT <= MAX_TENSOR_BYTES && Uniform(v, ShapeOf(v, t))
            && NumericSize(v, t) >= SIZE_LIMIT
    ensures r.Made? ==> r == Made(ShapeOf(v, t), FlatBytes(Leaves(v)))
    ensures r.Made? ==> Rebuild(Reading(r.contents, ElementKind(t)), r.shape, 0) == v
    ensures r.Made? ==> HoldsElements(r.contents, v, r.shape, ElementKind(t))
  {
    hide HasType, Uniform, ShapeOf, SlicesMatch, FlatBytes, Leaves, Rebuild, Product, AsSigned;
    var shape, kind := ShapeAndKindOf(v, t);
    var n := NumElements(shape);
    WrappedProduct(Product(shape), Width(kind));
    var nbytes := Width(kind) * n % SIZE_LIMIT;
    WrapBelow(Width(kind) * Product(shape));
    if nbytes > MAX_TENSOR_BYTES {
      return PastWindow;
    }
    EncodingChecksExactly(v, t);
    var buf := new Buffer();
    var ok := EncodeTensor(buf, v, t, shape);
    if !ok {
      return EncodeFailed;
    }
    assert buf.data == FlatBytes(Leaves(v));
    NumericRoundTrip(v, t, shape);
    if |buf.data| != nbytes {
      return SizeBug;
    }
    ContentsHoldElements(v, t, shape);
    return Made(shape, buf.data);
  }

  /** The bytes of the element at every path stand at its row-major index: 1 for true, 0 for
      false, a number's own bytes. */
  ghost predicate HoldsElements(contents: Bytes, v: Value, shape: Shape, k: Kind) {
    Uniform(v, shape) && forall path :: IsPath(path, shape) ==> HoldsElement(contents, v, shape, k, path)
  }

  ghost predicate HoldsElement(contents: Bytes, v: Value, shape: Shape, k: Kind, path: seq<nat>)
    requires Uniform(v, shape) && IsPath(path, shape)
  {
    var i, x := RowMajorIndex(path, shape), ElementAt(v, path, shape);
    match k
    case Bool => i < |contents| && contents[i] == (if x == BoolElement(true) then 1 else 0)
    case Number(size) =>
      && i * size + size <= |contents|
      && x.NumberElement? && contents[i * size..i * size + size] == x.bytes
    case _ => false
  }

  lemma ContentsHoldElements(v: Value, t: GoType, shape: Shape)
    requires HasType(v, t) && Fixed(ElementKind(t)) && Uniform(v, shape)
    ensures HoldsElements(FlatBytes(Leaves(v)), v, shape, ElementKind(t))
  {
    hide HasType, Uniform, Leaves, FlatBytes, ElementAt, RowMajorIndex;
    LeavesHaveKind(v, t);
    forall path | IsPath(path, shape) ensures HoldsElement(FlatBytes(Leaves(v)), v, shape, ElementKind(t), path) {
      LeavesAreRowMajor(v, path, shape);
      FlatElement(Leaves(v), ElementKind(t), RowMajorIndex(path, shape));
    }
  }

  /** The exact size of the contents of a numeric value. */
  ghost function NumericSize(v: Value, t: GoType): nat
    requires HasType(v, t)
  {
    Width(ElementKind(t)) * Product(ShapeOf(v, t))
  }

  // ---- A size that wraps ----

  const LONG: nat := 0x1_0000_0000

  ghost const LONG_ROW := Items(seq(LONG, _ => Leaf(NumberElement([0]))))

  /** 2^32 slices, which may share memory, of 2^32 bytes each. */
  ghost const LONG_TABLE := Items(seq(LONG, _ => LONG_ROW))

  /** The check of the written size can fire. */
  lemma SizeBugHappens()
    ensures var t := Slice(Slice(Scalar(Number(1))));
            && HasType(LONG_TABLE, t) && Fixed(ElementKind(t)) && Uniform(LONG_TABLE, ShapeOf(LONG_TABLE, t))
            && NumericSize(LONG_TABLE, t) == SIZE_LIMIT
  {
    var row := Slice(Scalar(Number(1)));
    LongRow();
    hide LONG_ROW;
    assert HasType(LONG_TABLE, Slice(row)) && ShapeOf(LONG_TABLE, Slice(row)) == [LONG] + ShapeOf(LONG_ROW, row);
    assert ([LONG] + [LONG])[1..] == [LONG];
    assert Product([LONG, LONG]) == LONG * Product([LONG]) by { assert [LONG, LONG][1..] == [LONG]; }
    SingleProduct(LONG);
  }

  lemma LongRow()
    ensures var t := Slice(Scalar(Number(1)));
            HasType(LONG_ROW, t) && ShapeOf(LONG_ROW, t) == [LONG] && Uniform(LONG_ROW, [LONG])
  {
    assert [LONG][1..] == [];
  }
}
