/** TF_STRING tensors: base-128 varints, length-prefixed strings, and the flat buffer of
    64-bit offsets followed by the encoded strings. Sizes are 64-bit; integers in the
    buffer are little-endian. */
module StringCodec {

  type Byte = b: nat | b < 256
  type Bytes = seq<Byte>

  const SIZE_LIMIT: nat := 0x1_0000_0000_0000_0000
  const PTRDIFF_LIMIT: nat := 0x8000_0000_0000_0000
  const INT_LIMIT: nat := 0x8000_0000

  datatype Error = TooLarge | TooSmall | InvalidEncoding | TooShort | OutOfRange | BadVarint | PastEnd

  datatype Result<+T> = Ok(value: T) | Err(error: Error)

  // ---- Varints ----

  /** Seven bits at a time, low bits first, the top bit marking that more follow. */
  function EncodeVarint(v: nat): (r: Bytes)
    ensures r != []
  {
    if v < 128 then [v] else [v % 128 + 128] + EncodeVarint(v / 128)
  }

  function Power128(i: nat): (r: nat)
    ensures r > 0
  {
    if i == 0 then 1 else 128 * Power128(i - 1)
  }

  /** The low seven bits of the i-th byte, shifted into place in 64 bits. */
  function Shifted(b: Byte, i: nat): nat {
    b % 128 * Power128(i) % SIZE_LIMIT
  }

  /** Reads from the i-th byte on: the value and the bytes consumed. Ten bytes at most are
      read, and bits shifted out of 64 are lost. */
  function DecodeVarint(src: Bytes, i: nat, acc: nat): (r: Result<(nat, nat)>)
    decreases |src|
  {
    if i > 9 || src == [] then Err(BadVarint)
    else
      var acc' := acc + Shifted(src[0], i);
      if src[0] < 128 then Ok((acc', i + 1)) else DecodeVarint(src[1..], i + 1, acc')
  }

  lemma DivideTwice(v: nat, a: nat, b: nat)
    requires a > 0 && b > 0
    ensures a * b > 0 && v / a / b == v / (a * b)
  {
    var q, r := v / a / b, v / a % b;
    assert v / a == q * b + r;
    assert v == (q * b + r) * a + v % a == q * (a * b) + (r * a + v % a);
    RestBelow(r, v % a, a, b);
    QuotientIs(v, a * b, q, r * a + v % a);
  }

  lemma RestBelow(r: nat, s: nat, a: nat, b: nat)
    requires r < b && s < a
    ensures r * a + s < a * b
  {
    assert (r + 1) * a <= b * a;
  }

  lemma QuotientIs(v: nat, m: nat, q: nat, r: nat)
    requires v == q * m + r && r < m
    ensures v / m == q
  {
    var d := v / m - q;
    assert v == v / m * m + v % m;
    assert d * m == r - v % m;
    assert (d >= 1 ==> d * m >= m) && (d <= -1 ==> d * m + m <= 0);
  }

  /** Byte `i` of a varint holds the i-th group of seven bits, and its top bit is set in all
      bytes but the last. */
  lemma {:induction false} VarintByte(v: nat, i: nat)
    requires i < |EncodeVarint(v)|
    ensures EncodeVarint(v)[i] == v / Power128(i) % 128 + (if i < |EncodeVarint(v)| - 1 then 128 else 0)
    decreases i
  {
    if i > 0 {
      VarintByte(v / 128, i - 1);
      DivideTwice(v, 128, Power128(i - 1));
    }
  }

  /** A varint is as short as its value allows. */
  lemma {:induction false} VarintIsShortest(v: nat)
    ensures v < Power128(|EncodeVarint(v)|)
    ensures |EncodeVarint(v)| > 1 ==> v >= Power128(|EncodeVarint(v)| - 1)
    decreases v
  {
    if v >= 128 {
      VarintIsShortest(v / 128);
      var n := |EncodeVarint(v / 128)|;
      assert |EncodeVarint(v)| == n + 1;
      assert Power128(n + 1) == 128 * Power128(n) && (n > 1 ==> Power128(n) == 128 * Power128(n - 1));
      assert n == 1 ==> Power128(1) == 128 * Power128(0) == 128;
    }
  }

  /** The groups of the first `n` bytes, each shifted to its place in 64 bits. */
  ghost function GroupSum(src: Bytes, n: nat): nat
    requires n <= |src|
  {
    if n == 0 then 0 else GroupSum(src, n - 1) + src[n - 1] % 128 * Power128(n - 1) % SIZE_LIMIT
  }

  /** Byte `k` is the first without a top bit. */
  ghost predicate EndsAt(src: Bytes, k: nat) {
    k < |src| && src[k] < 128 && forall j :: 0 <= j < k ==> src[j] >= 128
  }

  /** On any buffer a varint is read exactly if one of the first ten bytes ends it, and then
      its value is the sum of its groups. */
  lemma VarintReadExactly(src: Bytes)
    ensures forall k: nat :: EndsAt(src, k) && k < 10 ==> DecodeVarint(src, 0, 0) == Ok((GroupSum(src, k + 1), k + 1))
    ensures DecodeVarint(src, 0, 0).Ok? <==> exists k: nat :: EndsAt(src, k) && k < 10
  {
    assert src[0..] == src;
    VarintReadFrom(src, 0);
  }

  lemma {:induction false} VarintReadFrom(src: Bytes, i: nat)
    requires i <= |src| && i <= 10 && forall j :: 0 <= j < i ==> src[j] >= 128
    ensures var r := DecodeVarint(src[i..], i, GroupSum(src, i));
            && (forall k: nat :: EndsAt(src, k) && k < 10 ==> r == Ok((GroupSum(src, k + 1), k + 1)))
            && (r.Ok? <==> exists k: nat :: EndsAt(src, k) && k < 10)
    decreases |src| - i
  {
    if i <= 9 && i < |src| {
      assert src[i..][1..] == src[i + 1..] && src[i..][0] == src[i];
      if src[i] < 128 {
        assert EndsAt(src, i);
      } else {
        VarintReadFrom(src, i + 1);
      }
    }
  }

  /** The decoder's loop: the shift stays within 63, the position within the buffer. */
  method GetVarint64(src: Bytes) returns (r: Result<(nat, nat)>)
    ensures r == DecodeVarint(src, 0, 0)
  {
    var result: nat, i: nat := 0, 0;
    while i <= 9 && i < |src|
      invariant 0 <= i <= 10 && i <= |src|
      invariant DecodeVarint(src, 0, 0) == DecodeVarint(src[i..], i, result)
    {
      var b := src[i];
      assert src[i..][1..] == src[i + 1..];
      result := result + Shifted(b, i);
      if b < 128 {
        return Ok((result, i + 1));
      }
      i := i + 1;
    }
    return Err(BadVarint);
  }

  lemma {:induction false} Power128Large(i: nat)
    requires i >= 10
    ensures Power128(i) >= SIZE_LIMIT
    decreases i
  {
    if i > 10 {
      Power128Large(i - 1);
    } else {
      assert Power128(2) == 16384;
      assert Power128(4) == 128 * (128 * Power128(2)) == 268435456;
      assert Power128(6) == 128 * (128 * Power128(4));
      assert Power128(8) == 128 * (128 * Power128(6));
      assert Power128(10) == 128 * (128 * Power128(8));
    }
  }

  /** Every 64-bit value is read back from its encoding, whatever follows. */
  lemma {:induction false} VarintRoundTrip(v: nat, rest: Bytes, i: nat, acc: nat)
    requires v * Power128(i) < SIZE_LIMIT && (i == 0 || v > 0)
    ensures DecodeVarint(EncodeVarint(v) + rest, i, acc) == Ok((acc + v * Power128(i), i + |EncodeVarint(v)|))
    decreases v
  {
    hide Power128, Shifted;
    var p, src := Power128(i), EncodeVarint(v) + rest;
    AtMostTen(v, i);
    if v >= 128 {
      var q, m := v / 128, v % 128;
      assert src[1..] == EncodeVarint(q) + rest && src[0] == m + 128;
      SplitValue(v, i);
      VarintRoundTrip(q, rest, i + 1, acc + m * p);
    } else {
      assert src[0] == v;
      SmallShift(v, i);
    }
  }

  lemma SplitValue(v: nat, i: nat)
    requires v >= 128 && v * Power128(i) < SIZE_LIMIT
    ensures v * Power128(i) == v / 128 * Power128(i + 1) + v % 128 * Power128(i)
    ensures v / 128 * Power128(i + 1) < SIZE_LIMIT && Shifted(v % 128 + 128, i) == v % 128 * Power128(i)
  {
    var q, m, p := v / 128, v % 128, Power128(i);
    assert v == q * 128 + m;
    Distribute(q, m, p);
    assert m * p >= 0 && q * (128 * p) >= 0;
    assert (m + 128) % 128 == m;
  }

  lemma SmallShift(v: nat, i: nat)
    requires v < 128 && v * Power128(i) < SIZE_LIMIT
    ensures Shifted(v, i) == v * Power128(i)
  {
  }

  lemma AtMostTen(v: nat, i: nat)
    requires v * Power128(i) < SIZE_LIMIT && (i == 0 || v > 0)
    ensures i <= 9
  {
    if i > 9 {
      Power128Large(i);
      MulAtLeast(v, Power128(i));
    }
  }

  lemma MulAtLeast(a: nat, b: nat)
    ensures a > 0 ==> a * b >= b
    ensures 0 <= a * b
  {
    if a > 0 {
      assert a * b == (a - 1) * b + b;
    }
  }

  lemma Distribute(q: nat, m: nat, p: nat)
    ensures (q * 128 + m) * p == q * (128 * p) + m * p
  {
  }

  /** `VarintLength`, as a loop. */
  method VarintLength(v: nat) returns (len: nat)
    ensures len == |EncodeVarint(v)|
  {
    len := 1;
    var x := v;
    while x >= 128
      invariant len + |EncodeVarint(x)| == |EncodeVarint(v)| + 1
    {
      x := x / 128;
      len := len + 1;
    }
  }

  // ---- One string ----

  /** A varint length and the bytes. */
  function Encoded(s: Bytes): Bytes {
    EncodeVarint(|s|) + s
  }

  /** `TF_StringEncodedSize`, a size_t. */
  function EncodedSize(len: nat): nat {
    (|EncodeVarint(len)| + len) % SIZE_LIMIT
  }

  /** Writes the encoding of `src` at `at`; fails, writing nothing, if it cannot fit. */
  method StringEncode(src: Bytes, dst: array<Byte>, at: nat, dstLen: nat) returns (r: Result<nat>)
    requires |src| < SIZE_LIMIT && at + dstLen <= dst.Length
    modifies dst
    ensures r.Err? ==> dst[..] == old(dst[..])
    ensures r.Ok? <==> |Encoded(src)| < SIZE_LIMIT && |Encoded(src)| <= dstLen
    ensures r.Ok? ==> r.value == |Encoded(src)|
    ensures r.Ok? ==> dst[..] == Overwritten(old(dst[..]), at, Encoded(src))
  {
    hide EncodeVarint, Overwritten;
    ghost var was := dst[..];
    var sz := EncodedSize(|src|);
    SizeWraps(|src|);
    if sz < |src| {
      return Err(TooLarge);
    }
    if dstLen < sz {
      return Err(TooSmall);
    }
    var p := EncodeVarint64(dst, at, |src|);
    ghost var head := EncodeVarint(|src|);
    assert head + src[..0] == head;
    for i := 0 to |src|
      invariant dst[..] == Overwritten(was, at, head + src[..i])
    {
      OverwriteOne(was, at, head + src[..i], src[i]);
      dst[p + i] := src[i];
      assert head + src[..i + 1] == head + src[..i] + [src[i]];
    }
    assert src[..|src|] == src;
    return Ok(sz);
  }

  /** The wrapped size is below the length exactly if the true size does not fit. */
  lemma SizeWraps(len: nat)
    requires len < SIZE_LIMIT
    ensures EncodedSize(len) < len <==> |EncodeVarint(len)| + len >= SIZE_LIMIT
    ensures |EncodeVarint(len)| + len < SIZE_LIMIT ==> EncodedSize(len) == |EncodeVarint(len)| + len
  {
    VarintLengthBound(len, 0);
  }

  lemma {:induction false} VarintLengthBound(v: nat, i: nat)
    requires v * Power128(i) < SIZE_LIMIT && (i == 0 || v > 0)
    ensures i + |EncodeVarint(v)| <= 10
  {
    AtMostTen(v, i);
    if v >= 128 {
      assert v == v / 128 * 128 + v % 128;
      Distribute(v / 128, v % 128, Power128(i));
      VarintLengthBound(v / 128, i + 1);
    }
  }

  /** Writes the varint of `value` at `at` and returns the position after it. */
  method EncodeVarint64(dst: array<Byte>, at: nat, value: nat) returns (p: nat)
    requires at + |EncodeVarint(value)| <= dst.Length
    modifies dst
    ensures p == at + |EncodeVarint(value)|
    ensures dst[..] == Overwritten(old(dst[..]), at, EncodeVarint(value))
  {
    hide EncodeVarint, Overwritten, Written;
    p := at;
    var v := value;
    ghost var was, done: Bytes := dst[..], [];
    OverwriteNone(was, at);
    NothingWritten(value);
    while v >= 128
      invariant p == at + |done| && Written(value, done, v) && |done| < |EncodeVarint(value)|
      invariant dst[..] == Overwritten(was, at, done)
    {
      WriteGroup(value, done, v);
      OverwriteOne(was, at, done, v % 128 + 128);
      dst[p] := v % 128 + 128;
      done := done + [v % 128 + 128];
      p := p + 1;
      v := v / 128;
    }
    WriteGroup(value, done, v);
    OverwriteOne(was, at, done, v);
    dst[p] := v;
    p := p + 1;
  }

  /** The bytes `done` are written and the varint of `v` is left to write. */
  ghost predicate Written(value: nat, done: Bytes, v: nat) {
    done + EncodeVarint(v) == EncodeVarint(value)
  }

  lemma NothingWritten(value: nat)
    ensures Written(value, [], value)
  {
    assert [] + EncodeVarint(value) == EncodeVarint(value);
  }

  lemma WriteGroup(value: nat, done: Bytes, v: nat)
    requires Written(value, done, v)
    ensures v < 128 ==> done + [v] == EncodeVarint(value)
    ensures v >= 128 ==>
              Written(value, done + [v % 128 + 128], v / 128) && |done + [v % 128 + 128]| < |EncodeVarint(value)|
  {
    VarintUnfolds(v);
    if v >= 128 {
      hide EncodeVarint;
      assert done + ([v % 128 + 128] + EncodeVarint(v / 128)) == (done + [v % 128 + 128]) + EncodeVarint(v / 128);
    }
  }

  lemma VarintUnfolds(v: nat)
    ensures EncodeVarint(v) == if v < 128 then [v] else [v % 128 + 128] + EncodeVarint(v / 128)
  {
  }

  /** `was` with `text` written over it from `at` on. */
  ghost function Overwritten(was: Bytes, at: nat, text: Bytes): (r: Bytes)
    requires at + |text| <= |was|
    ensures |r| == |was|
  {
    was[..at] + text + was[at + |text|..]
  }

  lemma OverwriteOne(was: Bytes, at: nat, done: Bytes, b: Byte)
    requires at + |done| < |was|
    ensures Overwritten(was, at, done)[at + |done| := b] == Overwritten(was, at, done + [b])
  {
  }

  /** Reads a string at the start of `src`. The length is not checked against the end of
      the buffer by the decoder; reading on past it is `PastEnd` here. */
  function StringDecode(src: Bytes): (r: Result<Bytes>)
  {
    match DecodeVarint(src, 0, 0)
    case Err(e) => Err(e)
    case Ok((len, p)) => if p + len <= |src| then Ok(src[p..p + len]) else Err(PastEnd)
  }

  lemma StringRoundTrip(s: Bytes, rest: Bytes)
    requires |s| < SIZE_LIMIT
    ensures StringDecode(Encoded(s) + rest) == Ok(s)
  {
    var src := Encoded(s) + rest;
    assert src == EncodeVarint(|s|) + (s + rest);
    assert |s| * Power128(0) == |s|;
    VarintRoundTrip(|s|, s + rest, 0, 0);
    var p := |EncodeVarint(|s|)|;
    assert src[p..p + |s|] == s;
  }

  // ---- The tensor buffer ----

  /** `count` bytes of a number, low byte first. */
  function LittleEndian(v: nat, count: nat): (r: Bytes)
    ensures |r| == count
  {
    if count == 0 then [] else [v % 256] + LittleEndian(v / 256, count - 1)
  }

  function FromLittleEndian(b: Bytes): nat {
    if b == [] then 0 else b[0] + 256 * FromLittleEndian(b[1..])
  }

  function Power256(i: nat): nat {
    if i == 0 then 1 else 256 * Power256(i - 1)
  }

  /** Byte `i` holds the i-th group of eight bits. */
  lemma {:induction false} LittleEndianByte(v: nat, count: nat, i: nat)
    requires i < count
    ensures Power256(i) > 0 && LittleEndian(v, count)[i] == v / Power256(i) % 256
  {
    if i > 0 {
      LittleEndianByte(v / 256, count - 1, i - 1);
      DivideTwice(v, 256, Power256(i - 1));
    }
  }

  lemma {:induction false} LittleEndianRoundTrip(v: nat, count: nat)
    requires v < Power256(count)
    ensures FromLittleEndian(LittleEndian(v, count)) == v
  {
    if count > 0 {
      LittleEndianRoundTrip(v / 256, count - 1);
    }
  }

  lemma OffsetRoundTrip(v: nat)
    requires v < SIZE_LIMIT
    ensures FromLittleEndian(LittleEndian(v, 8)) == v
  {
    assert Power256(2) == 65536 && Power256(4) == 256 * (256 * Power256(2));
    assert Power256(6) == 256 * (256 * Power256(4)) && Power256(8) == 256 * (256 * Power256(6));
    LittleEndianRoundTrip(v, 8);
  }

  function Concatenated(ss: seq<Bytes>): (r: Bytes)
  {
    if ss == [] then [] else Concatenated(ss[..|ss| - 1]) + Encoded(ss[|ss| - 1])
  }

  /** The i-th offset: the encoded size of the strings before. */
  function Offset(ss: seq<Bytes>, i: nat): nat
    requires i <= |ss|
  {
    |Concatenated(ss[..i])|
  }

  function OffsetTable(ss: seq<Bytes>, n: nat): (r: Bytes)
    requires n <= |ss|
    ensures |r| == 8 * n
  {
    if n == 0 then [] else OffsetTable(ss, n - 1) + LittleEndian(Offset(ss, n - 1), 8)
  }

  /** The buffer of a string tensor. */
  function TensorBytes(ss: seq<Bytes>): (r: Bytes) {
    OffsetTable(ss, |ss|) + Concatenated(ss)
  }

  lemma {:induction false} ConcatenatedSplit(ss: seq<Bytes>, i: nat)
    requires i < |ss|
    ensures Offset(ss, i) + |Encoded(ss[i])| == Offset(ss, i + 1) <= |Concatenated(ss)|
    ensures Concatenated(ss)[..Offset(ss, i + 1)] == Concatenated(ss[..i + 1])
    decreases |ss|
  {
    assert ss[..i + 1][..i] == ss[..i];
    if i + 1 == |ss| {
      assert ss[..i + 1] == ss;
    } else {
      var front := ss[..|ss| - 1];
      ConcatenatedSplit(front, i);
      assert front[..i] == ss[..i] && front[..i + 1] == ss[..i + 1];
    }
  }

  lemma {:induction false} OffsetAt(ss: seq<Bytes>, n: nat, i: nat)
    requires i < n <= |ss|
    ensures OffsetTable(ss, n)[8 * i..8 * i + 8] == LittleEndian(Offset(ss, i), 8)
  {
    var t := OffsetTable(ss, n - 1);
    if i < n - 1 {
      OffsetAt(ss, n - 1, i);
      assert OffsetTable(ss, n)[8 * i..8 * i + 8] == t[8 * i..8 * i + 8];
    }
  }

  // ---- TF_TensorFromTensor ----

  lemma WrappedSum(a: nat, b: nat)
    ensures (a % SIZE_LIMIT + b % SIZE_LIMIT) % SIZE_LIMIT == (a + b) % SIZE_LIMIT
    ensures (a % SIZE_LIMIT + b) % SIZE_LIMIT == (a + b) % SIZE_LIMIT
  {
  }

  lemma EncodedLength(s: Bytes)
    ensures |Encoded(s)| == |EncodeVarint(|s|)| + |s|
  {
  }

  /** The bytes needed for all offsets and strings, as a size_t. */
  method TensorBufferSize(ss: seq<Bytes>) returns (size: nat)
    ensures size == |TensorBytes(ss)| % SIZE_LIMIT
  {
    hide TensorBytes, Concatenated, Encoded, EncodeVarint;
    OffsetZero(ss);
    size := 0;
    for i := 0 to |ss|
      invariant size == (8 * i + Offset(ss, i)) % SIZE_LIMIT
    {
      ConcatenatedSplit(ss, i);
      EncodedLength(ss[i]);
      WrappedSum(8 * i + Offset(ss, i) + 8, |Encoded(ss[i])|);
      WrappedSum(8 * i + Offset(ss, i), 8);
      WrappedSum(8 * i + Offset(ss, i), 8 + EncodedSize(|ss[i]|));
      WrappedSum(8 * i + Offset(ss, i) + 8, EncodedSize(|ss[i]|));
      size := (size + 8 + EncodedSize(|ss[i]|)) % SIZE_LIMIT;
    }
    assert ss[..|ss|] == ss;
    TensorHoldsTable(ss);
  }

  /** The buffer of the wrapped size holds the offset table. */
  ghost predicate TableFits(ss: seq<Bytes>) {
    8 * |ss| + |Concatenated(ss)| % SIZE_LIMIT < SIZE_LIMIT
  }

  /** Sizes the buffer, then writes offsets and strings from the front. It fails exactly if
      the encoding does not fit a size_t; otherwise both error exits are unreachable and
      the buffer is filled exactly. */
  method TensorFromTensor(ss: seq<Bytes>) returns (r: Result<Bytes>)
    requires |ss| < INT_LIMIT && TableFits(ss) && forall i :: 0 <= i < |ss| ==> |ss[i]| < SIZE_LIMIT
    ensures r.Ok? <==> |TensorBytes(ss)| < SIZE_LIMIT
    ensures r == if |TensorBytes(ss)| < SIZE_LIMIT then Ok(TensorBytes(ss)) else Err(InvalidEncoding)
  {
    hide Concatenated, TensorBytes, Filled;
    var n := |ss|;
    var size := TensorBufferSize(ss);
    TensorHoldsTable(ss);
    WrappedSum(|Concatenated(ss)|, 8 * n);
    OffsetZero(ss);
    var base := new Byte[size](_ => 0);
    var dst, dstLen := 8 * n, size - 8 * n;
    NothingFilled(ss, base[..]);
    for i := 0 to n
      invariant dst == 8 * n + Offset(ss, i) <= size && dstLen == size - dst
      invariant Filled(ss, i, base[..])
    {
      ConcatenatedSplit(ss, i);
      var consumed := WriteElement(ss, i, base, dst, dstLen);
      if consumed.Err? {
        return Err(InvalidEncoding);
      }
      dst := dst + consumed.value;
      dstLen := dstLen - consumed.value;
    }
    WholeOffset(ss);
    if dst != size {
      return Err(InvalidEncoding);
    }
    FilledIsTensor(ss, base[..]);
    return Ok(base[..]);
  }

  /** The first `i` offsets and strings are in place. */
  ghost predicate Filled(ss: seq<Bytes>, i: nat, b: Bytes)
    requires i <= |ss|
  {
    && 8 * |ss| + Offset(ss, i) <= |b|
    && b[..8 * i] == OffsetTable(ss, i) && b[8 * |ss|..8 * |ss| + Offset(ss, i)] == Concatenated(ss[..i])
  }

  lemma NothingFilled(ss: seq<Bytes>, b: Bytes)
    requires 8 * |ss| <= |b|
    ensures Filled(ss, 0, b)
  {
    StartsEmpty(ss);
    OffsetZero(ss);
  }

  lemma WholeOffset(ss: seq<Bytes>)
    ensures Offset(ss, |ss|) == |Concatenated(ss)|
  {
    assert ss[..|ss|] == ss;
  }

  lemma FilledIsTensor(ss: seq<Bytes>, b: Bytes)
    requires Filled(ss, |ss|, b) && |b| == 8 * |ss| + Offset(ss, |ss|)
    ensures b == TensorBytes(ss)
  {
    assert ss[..|ss|] == ss;
    assert b == b[..8 * |ss|] + b[8 * |ss|..];
  }

  /** One turn of the loop: the offset, then the string. */
  method WriteElement(ss: seq<Bytes>, i: nat, base: array<Byte>, dst: nat, dstLen: nat) returns (r: Result<nat>)
    requires i < |ss| && |ss[i]| < SIZE_LIMIT && Filled(ss, i, base[..])
    requires dst == 8 * |ss| + Offset(ss, i) && dst + dstLen == base.Length
    modifies base
    ensures r.Ok? <==> |Encoded(ss[i])| < SIZE_LIMIT && |Encoded(ss[i])| <= dstLen
    ensures r.Ok? ==> r.value == |Encoded(ss[i])| && Filled(ss, i + 1, base[..])
  {
    hide Concatenated, Encoded, OffsetTable, Overwritten;
    var dataStart := 8 * |ss|;
    ConcatenatedSplit(ss, i);
    ghost var was := base[..];
    PutOffset(base, 8 * i, dst - dataStart);
    ghost var before := base[..];
    OffsetAppends(ss, i, was, before, dataStart, dst);
    r := StringEncode(ss[i], base, dst, dstLen);
    if r.Ok? {
      EncodedAppends(ss, i, before, base[..], dataStart, dst);
    }
  }

  lemma StartsEmpty(ss: seq<Bytes>)
    ensures OffsetTable(ss, 0) == [] && Concatenated(ss[..0]) == []
  {
  }

  lemma OffsetAppends(ss: seq<Bytes>, i: nat, before: Bytes, after: Bytes, start: nat, at: nat)
    requires i < |ss| && 8 * (i + 1) <= start <= at <= |before|
    requires after == Overwritten(before, 8 * i, LittleEndian(Offset(ss, i), 8))
    requires before[..8 * i] == OffsetTable(ss, i)
    ensures |after| == |before| && after[start..at] == before[start..at]
    ensures after[..8 * (i + 1)] == OffsetTable(ss, i + 1)
  {
    hide LittleEndian;
    assert after[..8 * (i + 1)] == before[..8 * i] + LittleEndian(Offset(ss, i), 8);
  }

  lemma EncodedAppends(ss: seq<Bytes>, i: nat, before: Bytes, after: Bytes, start: nat, at: nat)
    requires i < |ss| && 8 * (i + 1) <= start <= at && at + |Encoded(ss[i])| <= |before|
    requires after == Overwritten(before, at, Encoded(ss[i]))
    requires before[start..at] == Concatenated(ss[..i])
    requires before[..8 * (i + 1)] == OffsetTable(ss, i + 1)
    ensures |after| == |before|
    ensures after[start..at + |Encoded(ss[i])|] == Concatenated(ss[..i + 1])
    ensures after[..8 * (i + 1)] == OffsetTable(ss, i + 1)
  {
    hide Encoded, OffsetTable;
    assert ss[..i + 1][..i] == ss[..i];
    assert after[start..at + |Encoded(ss[i])|] == before[start..at] + Encoded(ss[i]);
    assert after[..8 * (i + 1)] == before[..8 * (i + 1)];
  }

  /** Stores one 64-bit offset. */
  method PutOffset(base: array<Byte>, at: nat, value: nat)
    requires at + 8 <= base.Length
    modifies base
    ensures base[..] == Overwritten(old(base[..]), at, LittleEndian(value, 8))
  {
    hide Overwritten;
    var b := LittleEndian(value, 8);
    ghost var was := base[..];
    assert base[..] == Overwritten(was, at, b[..0]) by { OverwriteNone(was, at); }
    for k := 0 to 8
      invariant base[..] == Overwritten(was, at, b[..k])
    {
      OverwriteOne(was, at, b[..k], b[k]);
      base[at + k] := b[k];
      assert b[..k + 1] == b[..k] + [b[k]];
    }
    assert b[..8] == b;
  }

  lemma OverwriteNone(was: Bytes, at: nat)
    requires at <= |was|
    ensures Overwritten(was, at, []) == was
  {
  }

  // ---- TF_TensorToTensor ----

  /** The signed 64-bit value with the low bits of `v`. */
  function AsSigned(v: int): int {
    var low := v % SIZE_LIMIT;
    if low < PTRDIFF_LIMIT then low else low - SIZE_LIMIT
  }

  /** One element: the offset is compared as a pointer difference. */
  function DecodeElement(input: Bytes, n: nat, i: nat): (r: Result<Bytes>)
    requires i < n && 8 * n <= |input|
  {
    var offset := FromLittleEndian(input[8 * i..8 * i + 8]);
    if AsSigned(offset) >= AsSigned(|input| - 8 * n) then Err(OutOfRange)
    else if 8 * n + offset > |input| then Err(PastEnd)
    else StringDecode(input[8 * n + offset..])
  }

  function DecodeElements(input: Bytes, n: nat, i: nat): (r: Result<seq<Bytes>>)
    requires i <= n && 8 * n <= |input|
  {
    if i == 0 then Ok([])
    else
      match DecodeElements(input, n, i - 1)
      case Err(e) => Err(e)
      case Ok(ss) =>
        match DecodeElement(input, n, i - 1)
        case Err(e) => Err(e)
        case Ok(s) => Ok(ss + [s])
  }

  function DecodeTensor(input: Bytes, n: nat): Result<seq<Bytes>> {
    if |input| / 8 < n then Err(TooShort) else DecodeElements(input, n, n)
  }

  method TensorToTensor(input: Bytes, n: nat) returns (r: Result<seq<Bytes>>)
    ensures r == DecodeTensor(input, n)
  {
    if |input| / 8 < n {
      return Err(TooShort);
    }
    var dst: seq<Bytes> := [];
    for i := 0 to n
      invariant DecodeElements(input, n, i) == Ok(dst)
    {
      var s := DecodeElement(input, n, i);
      if s.Err? {
        FirstError(input, n, i + 1, s.error);
        return Err(s.error);
      }
      dst := dst + [s.value];
    }
    return Ok(dst);
  }

  /** The first failing element decides the outcome. */
  lemma {:induction false} FirstError(input: Bytes, n: nat, i: nat, e: Error)
    requires i <= n && 8 * n <= |input| && DecodeElements(input, n, i) == Err(e)
    ensures DecodeElements(input, n, n) == Err(e)
    decreases n - i
  {
    if i < n {
      FirstError(input, n, i + 1, e);
    }
  }

  // ---- Round trip ----

  lemma {:induction false} ConcatenatedTail(ss: seq<Bytes>, i: nat) returns (rest: Bytes)
    requires i < |ss|
    ensures Offset(ss, i) < |Concatenated(ss)|
    ensures Concatenated(ss)[Offset(ss, i)..] == Encoded(ss[i]) + rest
  {
    ConcatenatedSplit(ss, i);
    assert ss[..i + 1][..i] == ss[..i];
    var all, a, b := Concatenated(ss), Offset(ss, i), Offset(ss, i + 1);
    rest := all[b..];
    assert all[..b][a..] == Encoded(ss[i]);
    assert all[a..] == all[..b][a..] + all[b..];
  }

  lemma ElementRoundTrip(ss: seq<Bytes>, i: nat)
    requires i < |ss| && |TensorBytes(ss)| < SIZE_LIMIT
    ensures |Concatenated(ss)| < PTRDIFF_LIMIT ==> DecodeElement(TensorBytes(ss), |ss|, i) == Ok(ss[i])
    ensures Offset(ss, i) < PTRDIFF_LIMIT <= |Concatenated(ss)| ==>
            DecodeElement(TensorBytes(ss), |ss|, i) == Err(OutOfRange)
  {
    hide Concatenated, OffsetTable, StringDecode, FromLittleEndian, Offset, TensorBytes, AsSigned;
    TensorHoldsTable(ss);
    OffsetReadsBack(ss, i);
    StringReadsBack(ss, i);
    AsSignedOf(Offset(ss, i));
    AsSignedOf(|Concatenated(ss)|);
  }

  lemma AsSignedOf(v: nat)
    ensures v < PTRDIFF_LIMIT ==> AsSigned(v) == v
    ensures PTRDIFF_LIMIT <= v < SIZE_LIMIT ==> AsSigned(v) == v - SIZE_LIMIT
  {
  }

  lemma OffsetReadsBack(ss: seq<Bytes>, i: nat)
    requires i < |ss| && |TensorBytes(ss)| < SIZE_LIMIT
    ensures 8 * i + 8 <= |TensorBytes(ss)|
    ensures FromLittleEndian(TensorBytes(ss)[8 * i..8 * i + 8]) == Offset(ss, i)
  {
    hide Concatenated, OffsetTable, LittleEndian, FromLittleEndian;
    OffsetAt(ss, |ss|, i);
    assert TensorBytes(ss)[8 * i..8 * i + 8] == OffsetTable(ss, |ss|)[8 * i..8 * i + 8];
    ConcatenatedSplit(ss, i);
    OffsetRoundTrip(Offset(ss, i));
  }

  lemma StringReadsBack(ss: seq<Bytes>, i: nat)
    requires i < |ss| && |TensorBytes(ss)| < SIZE_LIMIT
    ensures Offset(ss, i) < |Concatenated(ss)| && 8 * |ss| + Offset(ss, i) <= |TensorBytes(ss)|
    ensures StringDecode(TensorBytes(ss)[8 * |ss| + Offset(ss, i)..]) == Ok(ss[i])
  {
    hide Concatenated, OffsetTable, StringDecode, Encoded;
    var rest := ConcatenatedTail(ss, i);
    assert TensorBytes(ss)[8 * |ss| + Offset(ss, i)..] == Concatenated(ss)[Offset(ss, i)..];
    ElementFits(ss, i);
    StringRoundTrip(ss[i], rest);
  }

  lemma ElementFits(ss: seq<Bytes>, i: nat)
    requires i < |ss| && |Concatenated(ss)| < SIZE_LIMIT
    ensures |ss[i]| < SIZE_LIMIT
  {
    ConcatenatedSplit(ss, i);
  }

  lemma {:induction false} ElementsRoundTrip(ss: seq<Bytes>, i: nat)
    requires i <= |ss| && |TensorBytes(ss)| < SIZE_LIMIT && |Concatenated(ss)| < PTRDIFF_LIMIT
    ensures DecodeElements(TensorBytes(ss), |ss|, i) == Ok(ss[..i])
  {
    hide DecodeElement, TensorBytes;
    TensorHoldsTable(ss);
    if i > 0 {
      ElementsRoundTrip(ss, i - 1);
      ElementRoundTrip(ss, i - 1);
      assert ss[..i] == ss[..i - 1] + [ss[i - 1]];
    }
  }

  lemma TensorHoldsTable(ss: seq<Bytes>)
    ensures |TensorBytes(ss)| == 8 * |ss| + |Concatenated(ss)|
  {
  }

  /** The strings come back, for every tensor whose encoding fits a size_t, if and only if
      the encoded strings take fewer than 2^63 bytes (or there are none). */
  lemma TensorRoundTrip(ss: seq<Bytes>)
    requires |TensorBytes(ss)| < SIZE_LIMIT
    ensures DecodeTensor(TensorBytes(ss), |ss|) == Ok(ss) <==> ss == [] || |Concatenated(ss)| < PTRDIFF_LIMIT
  {
    hide DecodeElement, TensorBytes, Concatenated;
    TensorHoldsTable(ss);
    if |Concatenated(ss)| < PTRDIFF_LIMIT {
      ElementsRoundTrip(ss, |ss|);
      assert ss[..|ss|] == ss;
    } else if ss != [] {
      ElementRoundTrip(ss, 0);
      OffsetZero(ss);
      assert DecodeElements(TensorBytes(ss), |ss|, 1) == Err(OutOfRange);
      FirstError(TensorBytes(ss), |ss|, 1, OutOfRange);
    }
  }

  lemma OffsetZero(ss: seq<Bytes>)
    ensures Offset(ss, 0) == 0
  {
    assert ss[..0] == [];
  }

  /** Where a string stands in the buffer: behind the offset table, at its offset and after
      the varint of its length. */
  lemma StringStandsAt(ss: seq<Bytes>, i: nat)
    requires i < |ss|
    ensures var at := 8 * |ss| + Offset(ss, i);
            var text := at + |EncodeVarint(|ss[i]|)|;
            && text + |ss[i]| <= |TensorBytes(ss)|
            && TensorBytes(ss)[at..text] == EncodeVarint(|ss[i]|) && TensorBytes(ss)[text..text + |ss[i]|] == ss[i]
  {
    hide Concatenated, OffsetTable, EncodeVarint;
    var rest := ConcatenatedTail(ss, i);
    var at, head := 8 * |ss| + Offset(ss, i), EncodeVarint(|ss[i]|);
    var tail := TensorBytes(ss)[at..];
    assert tail == Concatenated(ss)[Offset(ss, i)..] == head + ss[i] + rest;
    assert TensorBytes(ss)[at..at + |head|] == tail[..|head|] == head;
    assert TensorBytes(ss)[at + |head|..at + |head| + |ss[i]|] == tail[|head|..|head| + |ss[i]|] == ss[i];
  }

  /** A buffer is too short exactly if it cannot hold the offset table. */
  lemma TooShortExactly(input: Bytes, n: nat)
    ensures DecodeTensor(input, n) == Err(TooShort) <==> |input| < 8 * n
  {
    if |input| >= 8 * n {
      NeverTooShort(input, n, n);
    }
  }

  lemma {:induction false} NeverTooShort(input: Bytes, n: nat, i: nat)
    requires i <= n && 8 * n <= |input|
    ensures DecodeElements(input, n, i) != Err(TooShort)
  {
    hide StringDecode;
    if i > 0 {
      NeverTooShort(input, n, i - 1);
      DecodeErrors(input[8 * n..]);
      var offset := FromLittleEndian(input[8 * (i - 1)..8 * (i - 1) + 8]);
      if 8 * n + offset <= |input| {
        DecodeErrors(input[8 * n + offset..]);
      }
    }
  }

  lemma DecodeErrors(src: Bytes)
    ensures StringDecode(src) != Err(TooShort) && StringDecode(src) != Err(OutOfRange)
  {
    VarintErrors(src, 0, 0);
  }

  lemma {:induction false} VarintErrors(src: Bytes, i: nat, acc: nat)
    ensures DecodeVarint(src, i, acc).Err? ==> DecodeVarint(src, i, acc).error == BadVarint
    decreases |src|
  {
    if i <= 9 && src != [] && src[0] >= 128 {
      VarintErrors(src[1..], i + 1, acc + Shifted(src[0], i));
    }
  }

  /** Below the pointer-difference limit an element is out of range exactly if its offset is
      not inside the data section. */
  lemma OutOfRangeExactly(input: Bytes, n: nat, i: nat)
    requires i < n && 8 * n <= |input| < PTRDIFF_LIMIT
    ensures var offset := FromLittleEndian(input[8 * i..8 * i + 8]);
            offset < PTRDIFF_LIMIT ==>
              (DecodeElement(input, n, i) == Err(OutOfRange) <==> offset >= |input| - 8 * n)
  {
    hide StringDecode, FromLittleEndian, AsSigned;
    var offset := FromLittleEndian(input[8 * i..8 * i + 8]);
    AsSignedOf(offset);
    AsSignedOf(|input| - 8 * n);
    if 8 * n + offset <= |input| {
      DecodeErrors(input[8 * n + offset..]);
    }
  }
}
