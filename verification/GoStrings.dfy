/** String tensors in Go: the encoder and decoder recurse over the nested value while the
    offset table and the string data are written and read side by side. */
module GoStrings {
  import opened Products
  import opened StringCodec
  import opened GoTensor

  function Text(x: Element): Bytes {
    if x.StringElement? then x.text else []
  }

  ghost function Texts(xs: seq<Element>): (r: seq<Bytes>)
    ensures |r| == |xs| && forall i :: 0 <= i < |xs| ==> r[i] == Text(xs[i])
  {
    seq(|xs|, i requires 0 <= i < |xs| => Text(xs[i]))
  }

  // ---- Concatenation ----

  lemma {:induction false} ConcatenatedAppend(a: seq<Bytes>, b: seq<Bytes>)
    ensures Concatenated(a + b) == Concatenated(a) + Concatenated(b)
  {
    hide Encoded;
    if b == [] {
      assert a + b == a && Concatenated(b) == [];
    } else {
      var n := |b| - 1;
      ConcatenatedAppend(a, b[..n]);
      ConcatenatedLast(b);
      ConcatenatedLast(a + b);
      hide Concatenated;
      assert (a + b)[..|a| + n] == a + b[..n];
    }
  }

  lemma ConcatenatedLast(ss: seq<Bytes>)
    requires ss != []
    ensures Concatenated(ss) == Concatenated(ss[..|ss| - 1]) + Encoded(ss[|ss| - 1])
  {
  }

  lemma ConcatenatedOne(s: Bytes)
    ensures Concatenated([s]) == Encoded(s) && Encoded(s) != []
  {
    assert [s][..0] == [];
    assert Concatenated([s]) == Concatenated([]) + Encoded(s);
  }

  lemma {:induction false} TablePrefix(a: seq<Bytes>, b: seq<Bytes>, n: nat)
    requires n <= |a|
    ensures OffsetTable(a + b, n) == OffsetTable(a, n)
  {
    hide LittleEndian, Concatenated;
    if n > 0 {
      TablePrefix(a, b, n - 1);
      assert (a + b)[..n - 1] == a[..n - 1];
    }
  }

  /** One more string adds one offset, the size of the data so far. */
  lemma TableSnoc(a: seq<Bytes>, s: Bytes)
    ensures OffsetTable(a + [s], |a| + 1) == OffsetTable(a, |a|) + LittleEndian(|Concatenated(a)|, 8)
  {
    hide LittleEndian, Concatenated;
    TablePrefix(a, [s], |a|);
    assert (a + [s])[..|a|] == a;
  }

  // ---- Encoding ----

  class StringEncoder {
    var offsets: Bytes
    var data: Bytes         // what has been written; its length is the encoder's offset
    const capacity: nat

    constructor (capacity: nat)
      ensures offsets == [] && data == [] && this.capacity == capacity
    {
      this.capacity := capacity;
      offsets, data := [], [];
    }

    /** The buffers are those of a tensor of the strings `ss`. */
    ghost predicate Holds(ss: seq<Bytes>)
      reads this
    {
      offsets == OffsetTable(ss, |ss|) && data == Concatenated(ss)
    }

    /** Appends all strings of the value. It fails exactly if a slice has not the length
        of the shape or the strings do not fit. */
    method Encode(v: Value, t: GoType, shape: Shape, ghost done: seq<Bytes>) returns (ok: bool)
      requires HasType(v, t) && |shape| == Depth(t) && ElementKind(t) == String
      requires Holds(done) && |data| <= capacity < SIZE_LIMIT
      modifies this
      ensures ok <==> SlicesMatch(v, t, shape) && |Concatenated(done + Texts(Leaves(v)))| <= capacity
      ensures ok ==> Holds(done + Texts(Leaves(v)))
      decreases t, 0
    {
      hide Leaves, AllLeaves, Concatenated, OffsetTable, Encoded;
      LeavesUnfold(v);
      if t.Scalar? {
        assert Texts(Leaves(v)) == [v.x.text];
        ok := EncodeOne(v.x.text, done);
        return;
      }
      if t.Slice? && |v.items| != shape[0] {
        return false;
      }
      ok := EncodeItems(v.items, t.elem, shape[1..], done);
    }

    /** The offset of the next byte, then the string: an index outside the data or an
        encoding that does not fit fails. */
    method EncodeOne(s: Bytes, ghost done: seq<Bytes>) returns (ok: bool)
      requires Holds(done) && |data| <= capacity < SIZE_LIMIT && |s| < SIZE_LIMIT
      modifies this
      ensures ok <==> |Concatenated(done + [s])| <= capacity
      ensures ok ==> Holds(done + [s])
    {
      hide LittleEndian, OffsetTable, Concatenated, Encoded, EncodedSize, EncodeVarint;
      ConcatenatedOne(s);
      ConcatenatedAppend(done, [s]);
      EncodedLength(s);
      SizeWraps(|s|);
      if |data| >= capacity {
        return false;
      }
      TableSnoc(done, s);
      offsets := offsets + LittleEndian(|data|, 8);
      var size := EncodedSize(|s|);
      if size < |s| || capacity - |data| < size {
        return false;
      }
      data := data + Encoded(s);
      ok := true;
    }

    method EncodeItems(items: seq<Value>, elem: GoType, shape: Shape, ghost done: seq<Bytes>) returns (ok: bool)
      requires forall i :: 0 <= i < |items| ==> HasType(items[i], elem)
      requires |shape| == Depth(elem) && ElementKind(elem) == String
      requires Holds(done) && |data| <= capacity < SIZE_LIMIT
      modifies this
      ensures ok <==>
              && (forall i :: 0 <= i < |items| ==> SlicesMatch(items[i], elem, shape))
              && |Concatenated(done + Texts(AllLeaves(items)))| <= capacity
      ensures ok ==> Holds(done + Texts(AllLeaves(items)))
      decreases elem, 1
    {
      hide HasType, SlicesMatch, Leaves, AllLeaves, Concatenated, OffsetTable, Texts;
      ghost var written := done;
      NoItems();
      assert items[..0] == [];
      assert done + Texts([]) == done;
      for i := 0 to |items|
        invariant Holds(written) && written == done + Texts(AllLeaves(items[..i])) && |data| <= capacity
        invariant forall k :: 0 <= k < i ==> SlicesMatch(items[k], elem, shape)
      {
        ItemRoom(items, i, done);
        var encoded := Encode(items[i], elem, shape, written);
        if !encoded {
          return false;
        }
        written := written + Texts(Leaves(items[i]));
      }
      assert items[..|items|] == items;
      return true;
    }
  }

  lemma TextsConcat(xs: seq<Element>, ys: seq<Element>)
    ensures Texts(xs + ys) == Texts(xs) + Texts(ys)
  {
  }

  lemma {:induction false} AllLeavesSplit(items: seq<Value>, i: nat) returns (rest: seq<Element>)
    requires i <= |items|
    ensures AllLeaves(items) == AllLeaves(items[..i]) + rest
    decreases |items| - i
  {
    if i == |items| {
      assert items[..i] == items;
      rest := [];
    } else {
      AppendItem(items, i);
      var more := AllLeavesSplit(items, i + 1);
      rest := Leaves(items[i]) + more;
    }
  }

  /** What the items up to one need is part of what the container needs. */
  lemma ItemRoom(items: seq<Value>, i: nat, done: seq<Bytes>)
    requires i < |items|
    ensures var before := done + Texts(AllLeaves(items[..i]));
            && before + Texts(Leaves(items[i])) == done + Texts(AllLeaves(items[..i + 1]))
            && |Concatenated(before + Texts(Leaves(items[i])))| <= |Concatenated(done + Texts(AllLeaves(items)))|
  {
    hide Leaves, AllLeaves, Texts, Concatenated;
    var a, b := AllLeaves(items[..i]), Leaves(items[i]);
    AppendItem(items, i);
    var rest := AllLeavesSplit(items, i + 1);
    TextsConcat(a, b);
    TextsConcat(a + b, rest);
    var before := done + Texts(a);
    assert before + Texts(b) == done + (Texts(a) + Texts(b));
    assert done + (Texts(a + b) + Texts(rest)) == (done + Texts(a + b)) + Texts(rest);
    ConcatenatedAppend(done + Texts(a + b), Texts(rest));
  }

  /** `byteSizeOfEncodedStrings`, a uintptr. */
  method EncodedStringsSize(v: Value, t: GoType) returns (size: nat)
    requires HasType(v, t) && ElementKind(t) == String
    ensures size == |Concatenated(Texts(Leaves(v)))| % SIZE_LIMIT
    decreases t
  {
    hide Leaves, AllLeaves, Concatenated, Encoded, EncodeVarint;
    LeavesUnfold(v);
    if t.Scalar? {
      ConcatenatedOne(v.x.text);
      EncodedLength(v.x.text);
      assert Texts(Leaves(v)) == [v.x.text];
      return EncodedSize(|v.x.text|);
    }
    size := 0;
    NoItems();
    ConcatenatedNone();
    assert v.items[..0] == [] && Texts([]) == [];
    for i := 0 to |v.items|
      invariant size == |Concatenated(Texts(AllLeaves(v.items[..i])))| % SIZE_LIMIT
    {
      SizeOfNext(v.items, i);
      var more := EncodedStringsSize(v.items[i], t.elem);
      WrappedSum(|Concatenated(Texts(AllLeaves(v.items[..i])))|, |Concatenated(Texts(Leaves(v.items[i])))|);
      size := (size + more) % SIZE_LIMIT;
    }
    assert v.items[..|v.items|] == v.items;
  }

  lemma ConcatenatedNone()
    ensures Concatenated([]) == []
  {
  }

  lemma SizeOfNext(items: seq<Value>, i: nat)
    requires i < |items|
    ensures |Concatenated(Texts(AllLeaves(items[..i + 1])))| ==
            |Concatenated(Texts(AllLeaves(items[..i])))| + |Concatenated(Texts(Leaves(items[i])))|
    ensures |Concatenated(Texts(Leaves(items[i])))| <= |Concatenated(Texts(AllLeaves(items)))|
  {
    hide Leaves, AllLeaves, Texts, Concatenated;
    AppendItem(items, i);
    var a, b := AllLeaves(items[..i]), Leaves(items[i]);
    var rest := AllLeavesSplit(items, i + 1);
    TextsConcat(a, b);
    TextsConcat(a + b, rest);
    ConcatenatedAppend(Texts(a), Texts(b));
    ConcatenatedAppend(Texts(a) + Texts(b), Texts(rest));
  }

  /** NewTensor on nested strings: it succeeds exactly on uniform values that are not too
      large, and the buffer is the one the C library makes of the same strings in order. */
  method NewStringTensor(v: Value, t: GoType) returns (r: Outcome)
    requires HasType(v, t) && ElementKind(t) == String
    ensures r.Made? <==>
            && 8 * Product(ShapeOf(v, t)) + |Concatenated(Texts(Leaves(v)))| <= MAX_TENSOR_BYTES
            && Uniform(v, ShapeOf(v, t))
    ensures r.Made? ==> r == Made(ShapeOf(v, t), TensorBytes(Texts(Leaves(v))))
    ensures !r.SizeBug? && !r.NotSupported?
  {
    hide HasType, Uniform, ShapeOf, SlicesMatch, Leaves, Product, Concatenated, OffsetTable, Texts, AsSigned;
    var shape, _ := ShapeAndKindOf(v, t);
    var n := NumElements(shape);
    var size := EncodedStringsSize(v, t);
    ghost var ss := Texts(Leaves(v));
    var table := AsSigned(n * 8);
    var nbytes := (table + size) % SIZE_LIMIT;
    SizesFit(Product(shape), |Concatenated(ss)|, table, size, nbytes);
    if nbytes > MAX_TENSOR_BYTES || table < 0 || table > nbytes {
      return PastWindow;
    }
    EncodingChecksExactly(v, t);
    var e := new StringEncoder(nbytes - table);
    NothingWritten();
    assert [] + ss == ss;
    var ok := e.Encode(v, t, shape, []);
    if !ok {
      return EncodeFailed;
    }
    LeafCount(v, shape);
    TextsLength(Leaves(v));
    EveryStringCounts(ss);
    if |e.offsets| != table {
      return SizeBug;
    }
    return Made(shape, e.offsets + e.data);
  }

  /** The string at every path is the one listed at its row-major index. */
  lemma TextsAreRowMajor(v: Value, t: GoType, path: seq<nat>, shape: Shape)
    requires HasType(v, t) && ElementKind(t) == String && Uniform(v, shape) && IsPath(path, shape)
    ensures RowMajorIndex(path, shape) < |Texts(Leaves(v))|
    ensures ElementAt(v, path, shape) == StringElement(Texts(Leaves(v))[RowMajorIndex(path, shape)])
  {
    hide Leaves, HasType, Uniform, ElementAt, RowMajorIndex;
    LeavesAreRowMajor(v, path, shape);
    LeavesHaveKind(v, t);
    assert HasKind(Leaves(v)[RowMajorIndex(path, shape)], String);
  }

  /** Sizes that fit are computed without wrapping, and wrapped ones leave too little room. */
  lemma SizesFit(count: nat, bytes: nat, table: int, size: nat, nbytes: nat)
    requires table == AsSigned(AsSigned(count) * 8) && size == bytes % SIZE_LIMIT &&
             nbytes == (table + size) % SIZE_LIMIT
    ensures 8 * count + bytes <= MAX_TENSOR_BYTES ==> table == 8 * count && nbytes == table + bytes
    ensures nbytes <= MAX_TENSOR_BYTES && 0 <= table <= nbytes && bytes <= nbytes - table && count <= bytes ==>
              table == 8 * count && nbytes == 8 * count + bytes
  {
    hide AsSigned;
    WrappedProduct(count, 8);
    AsSignedOf(count * 8);
    WrapBelow(bytes);
  }

  lemma {:induction false} EveryStringCounts(ss: seq<Bytes>)
    ensures |ss| <= |Concatenated(ss)|
  {
    hide Encoded;
    if ss != [] {
      ConcatenatedLast(ss);
      ConcatenatedOne(ss[|ss| - 1]);
      EveryStringCounts(ss[..|ss| - 1]);
    }
  }

  lemma NothingWritten()
    ensures OffsetTable([], 0) == [] && Concatenated([]) == []
  {
  }

  lemma TextsLength(xs: seq<Element>)
    ensures |Texts(xs)| == |xs|
  {
  }

  // ---- Decoding ----

  /** The i-th string of a buffer. A bad offset and a string that runs past the end fail. */
  function ReadText(offsets: Bytes, data: Bytes, i: nat): Option<Bytes> {
    if 8 * i + 8 > |offsets| then None
    else
      var offset := FromLittleEndian(offsets[8 * i..8 * i + 8]);
      if offset >= |data| then None
      else
        match StringDecode(data[offset..])
        case Ok(s) => Some(s)
        case Err(_) => None
  }

  ghost function TextsFrom(offsets: Bytes, data: Bytes): nat -> Element {
    (i: nat) => StringElement(match ReadText(offsets, data, i) case Some(s) => s case None => [])
  }

  ghost predicate Readable(offsets: Bytes, data: Bytes, lo: nat, hi: nat) {
    forall i: nat :: lo <= i < hi ==> ReadText(offsets, data, i).Some?
  }

  class StringDecoder {
    const offsets: Bytes
    const data: Bytes
    var pos: nat

    constructor (offsets: Bytes, data: Bytes)
      ensures this.offsets == offsets && this.data == data && pos == 0
    {
      this.offsets, this.data := offsets, data;
      pos := 0;
    }

    /** Reads a nested slice of the given shape; fails exactly if one of its strings does. */
    method Decode(shape: Shape, ghost at: nat) returns (v: Option<Value>)
      requires pos == 8 * at
      modifies this
      ensures v.Some? <==> Readable(offsets, data, at, at + Product(shape))
      ensures v.Some? ==> v.value == Rebuild(TextsFrom(offsets, data), shape, at) && pos == 8 * (at + Product(shape))
      decreases |shape|
    {
      hide Rebuild, Product, ReadText, TextsFrom;
      if shape == [] {
        var s := DecodeOne(at);
        RebuildText(offsets, data, at);
        return if s.Some? then Some(Leaf(StringElement(s.value))) else None;
      }
      var items: seq<Value> := [];
      ghost var p := Product(shape[1..]);
      ProductUnfolds(shape);
      for i := 0 to shape[0]
        invariant |items| == i && pos == 8 * (at + i * p)
        invariant Readable(offsets, data, at, at + i * p)
        invariant forall j :: 0 <= j < i ==> items[j] == Rebuild(TextsFrom(offsets, data), shape[1..], at + j * p)
      {
        ItemEnds(shape[0], i, p);
        var item := Decode(shape[1..], at + i * p);
        if item.None? {
          return None;
        }
        items := items + [item.value];
      }
      RebuildOfItems(TextsFrom(offsets, data), shape, at, items);
      return Some(Items(items));
    }

    method DecodeOne(ghost at: nat) returns (s: Option<Bytes>)
      requires pos == 8 * at
      modifies this
      ensures s == ReadText(offsets, data, at)
      ensures s.Some? ==> pos == 8 * (at + 1)
    {
      if pos + 8 > |offsets| {
        return None;
      }
      var offset := FromLittleEndian(offsets[pos..pos + 8]);
      pos := pos + 8;
      if offset >= |data| {
        return None;
      }
      var text := StringDecode(data[offset..]);
      return if text.Ok? then Some(text.value) else None;
    }
  }

  lemma RebuildText(offsets: Bytes, data: Bytes, at: nat)
    ensures Product([]) == 1
    ensures var s := ReadText(offsets, data, at);
            s.Some? ==> Rebuild(TextsFrom(offsets, data), [], at) == Leaf(StringElement(s.value))
  {
  }

  lemma ItemEnds(n: nat, i: nat, p: nat)
    requires i < n
    ensures i * p + p == (i + 1) * p <= n * p
  {
    MulMonotone(i + 1, n, p);
  }

  /** Every string is read back from the buffer of its tensor. */
  lemma TextReadsBack(ss: seq<Bytes>, i: nat)
    requires i < |ss| && |TensorBytes(ss)| < SIZE_LIMIT
    ensures ReadText(OffsetTable(ss, |ss|), Concatenated(ss), i) == Some(ss[i])
  {
    hide OffsetTable, Concatenated, LittleEndian, FromLittleEndian, StringDecode, Encoded;
    OffsetAt(ss, |ss|, i);
    TensorHoldsTable(ss);
    ghost var rest := ConcatenatedTail(ss, i);
    OffsetRoundTrip(Offset(ss, i));
    ElementFits(ss, i);
    StringRoundTrip(ss[i], rest);
  }

  /** Decoding what the encoder wrote succeeds and gives the value back, arrays as slices. */
  lemma StringTensorRoundTrip(v: Value, t: GoType, shape: Shape)
    requires HasType(v, t) && ElementKind(t) == String && Uniform(v, shape)
    requires |TensorBytes(Texts(Leaves(v)))| < SIZE_LIMIT
    ensures var ss := Texts(Leaves(v));
            && |ss| == Product(shape)
            && Readable(OffsetTable(ss, |ss|), Concatenated(ss), 0, Product(shape))
            && Rebuild(TextsFrom(OffsetTable(ss, |ss|), Concatenated(ss)), shape, 0) == v
  {
    hide *;
    LeafCount(v, shape);
    LeavesHaveKind(v, t);
    var xs := Leaves(v);
    var ss := Texts(xs);
    forall i: nat | i < |ss| ensures ReadText(OffsetTable(ss, |ss|), Concatenated(ss), i) == Some(ss[i]) {
      TextReadsBack(ss, i);
    }
    TextsYield(OffsetTable(ss, |ss|), Concatenated(ss), xs);
    RebuildRestores(TextsFrom(OffsetTable(ss, |ss|), Concatenated(ss)), v, shape, 0);
  }

  lemma TextsYield(offsets: Bytes, data: Bytes, xs: seq<Element>)
    requires forall i :: 0 <= i < |xs| ==> HasKind(xs[i], String)
    requires forall i: nat :: i < |xs| ==> ReadText(offsets, data, i) == Some(Texts(xs)[i])
    ensures Readable(offsets, data, 0, |xs|) && Yields(TextsFrom(offsets, data), 0, xs)
  {
    hide ReadText;
    forall m: nat | m < |xs| ensures TextsFrom(offsets, data)(m) == xs[m] {
      assert ReadText(offsets, data, m) == Some(Texts(xs)[m]) && HasKind(xs[m], String);
    }
  }

  // ---- Tensors ----

  /** The contents of the tensor made of a value. */
  ghost function Contents(v: Value, k: Kind): Bytes {
    if k == String then TensorBytes(Texts(Leaves(v))) else FlatBytes(Leaves(v))
  }

  ghost function ContentsSize(v: Value, t: GoType): nat
    requires HasType(v, t)
  {
    if ElementKind(t) == String then 8 * Product(ShapeOf(v, t)) + |Concatenated(Texts(Leaves(v)))|
    else Width(ElementKind(t)) * Product(ShapeOf(v, t))
  }

  /** The kinds Go has: supported numbers are not empty. */
  predicate IsGoKind(k: Kind) {
    k.Number? ==> k.size > 0
  }

  /** Converts any Go value. Exactly the uniform values of a supported kind that are not
      too large become tensors. */
  method NewTensor(v: Value, t: GoType) returns (r: Outcome)
    requires HasType(v, t) && IsGoKind(ElementKind(t))
    ensures r.NotSupported? <==> ElementKind(t) == Unsupported
    ensures r.Made? <==>
            ElementKind(t) != Unsupported && ContentsSize(v, t) <= MAX_TENSOR_BYTES && Uniform(v, ShapeOf(v, t))
    ensures r.Made? ==> r == Made(ShapeOf(v, t), Contents(v, ElementKind(t)))
    ensures r.Made? && ElementKind(t) != String ==> HoldsElements(r.contents, v, r.shape, ElementKind(t))
  {
    hide HasType, Uniform, ShapeOf, Leaves, Product, Concatenated, TensorBytes, FlatBytes, HoldsElements;
    match ElementKind(t)
    case Unsupported => r := NotSupported;
    case String => r := NewStringTensor(v, t);
    case _ => r := NewNumericTensor(v, t);
  }

  /** `raw` holds, as a tensor of this shape and kind, the value `v`. */
  ghost predicate Denotes(raw: Bytes, shape: Shape, k: Kind, v: Value) {
    if k == String then
      && 8 * Product(shape) <= |raw|
      && Readable(raw[..8 * Product(shape)], raw[8 * Product(shape)..], 0, Product(shape))
      && v == Rebuild(TextsFrom(raw[..8 * Product(shape)], raw[8 * Product(shape)..]), shape, 0)
    else BytesOf(Product(shape), k) <= |raw| && v == Rebuild(Reading(raw, k), shape, 0)
  }

  lemma ReadableFits(offsets: Bytes, data: Bytes, n: nat)
    ensures Readable(offsets, data, 0, n) ==> 8 * n <= |offsets|
  {
    if n > 0 && Readable(offsets, data, 0, n) {
      assert ReadText(offsets, data, n - 1).Some?;
    }
  }

  /** `Value`: fails exactly if the memory is too large or does not hold a value. */
  method TensorValue(raw: Bytes, shape: Shape, k: Kind) returns (v: Option<Value>)
    requires k == String || Fixed(k)
    ensures v.Some? ==> |raw| <= MAX_TENSOR_BYTES && Denotes(raw, shape, k, v.value)
    ensures v.None? ==> |raw| > MAX_TENSOR_BYTES || forall w :: !Denotes(raw, shape, k, w)
  {
    hide Rebuild, Product, Readable, AsSigned;
    if |raw| > MAX_TENSOR_BYTES {
      return None;
    }
    if k == String {
      var n := NumElements(shape);
      WrappedProduct(Product(shape), 8);
      AsSignedOf(Product(shape) * 8);
      var table := AsSigned(8 * n);
      if table < 0 || table > |raw| {
        return None;
      }
      var d := new StringDecoder(raw[..table], raw[table..]);
      v := d.Decode(shape, 0);
      ReadableFits(raw[..table], raw[table..], Product(shape));
    } else {
      var r := new Reader(raw);
      v := GoTensor.DecodeTensor(r, shape, k, 0);
    }
  }

  /** A tensor made of a value denotes that value and no other. */
  lemma TensorHoldsValue(v: Value, t: GoType, w: Value)
    requires HasType(v, t) && (ElementKind(t) == String || Fixed(ElementKind(t)))
    requires Uniform(v, ShapeOf(v, t)) && ContentsSize(v, t) < SIZE_LIMIT
    ensures Denotes(Contents(v, ElementKind(t)), ShapeOf(v, t), ElementKind(t), w) <==> w == v
  {
    hide Rebuild, Product, Readable, HasType, Uniform, ShapeOf, Leaves, FlatBytes, OffsetTable, Concatenated;
    var shape := ShapeOf(v, t);
    if ElementKind(t) == String {
      var ss := Texts(Leaves(v));
      TensorHoldsTable(ss);
      LeafCount(v, shape);
      StringTensorRoundTrip(v, t, shape);
      var raw := TensorBytes(ss);
      assert raw[..8 * |ss|] == OffsetTable(ss, |ss|) && raw[8 * |ss|..] == Concatenated(ss);
    } else {
      NumericRoundTrip(v, t, shape);
    }
  }
}
