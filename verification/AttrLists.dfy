/** Reading list attributes into caller-supplied storage: the metadata call reports how
    much is needed, and the getters pack the values one after the other. */
module AttrLists {

  // Characters of strings and dimensions of shapes are both integers here.

  /** A shape attribute; the rank may be unknown. */
  datatype PartialShape = UnknownRank | Ranked(dims: seq<int>)

  /** The values a list stores: an unknown rank takes no space. */
  function Stored(s: PartialShape): seq<int> {
    match s
    case UnknownRank => []
    case Ranked(dims) => dims
  }

  ghost function StoredAll(shapes: seq<PartialShape>): (r: seq<seq<int>>)
    ensures |r| == |shapes| && forall i :: 0 <= i < |r| ==> r[i] == Stored(shapes[i])
  {
    seq(|shapes|, i requires 0 <= i < |shapes| => Stored(shapes[i]))
  }

  /** Where the i-th value starts: the sizes of those before it. */
  ghost function Start(values: seq<seq<int>>, i: nat): nat
    requires i <= |values|
  {
    if i == 0 then 0 else Start(values, i - 1) + |values[i - 1]|
  }

  ghost function Total(values: seq<seq<int>>): nat {
    Start(values, |values|)
  }

  lemma {:induction false} StartMonotone(values: seq<seq<int>>, i: nat, j: nat)
    requires i <= j <= |values|
    ensures Start(values, i) <= Start(values, j)
    decreases j
  {
    if i < j {
      StartMonotone(values, i, j - 1);
    }
  }

  lemma StartNext(values: seq<seq<int>>, i: nat)
    requires i < |values|
    ensures Start(values, 0) == 0 && Start(values, i + 1) == Start(values, i) + |values[i]| <= Total(values)
  {
    StartMonotone(values, i + 1, |values|);
  }

  /** Slices of different values do not overlap. */
  lemma {:induction false} SlicesDisjoint(values: seq<seq<int>>, i: nat, j: nat)
    requires i < j < |values|
    ensures Start(values, i) + |values[i]| <= Start(values, j)
  {
    hide Start;
    StartNext(values, i);
    StartMonotone(values, i + 1, j);
  }

  /** The storage starts with the first n values, back to back. */
  ghost predicate Packed(storage: seq<int>, values: seq<seq<int>>, n: nat)
    requires n <= |values|
  {
    forall i :: 0 <= i < n ==>
      Start(values, i) + |values[i]| <= |storage| &&
        storage[Start(values, i)..Start(values, i) + |values[i]|] == values[i]
  }

  /** The metadata call's total size of a string list. */
  method StringListTotalSize(values: seq<seq<int>>) returns (totalSize: nat)
    ensures totalSize == Total(values)
  {
    totalSize := 0;
    for i := 0 to |values|
      invariant totalSize == Start(values, i)
    {
      totalSize := totalSize + |values[i]|;
    }
  }

  method ShapeListTotalSize(shapes: seq<PartialShape>) returns (totalSize: nat)
    ensures totalSize == Total(StoredAll(shapes))
  {
    totalSize := 0;
    for i := 0 to |shapes|
      invariant totalSize == Start(StoredAll(shapes), i)
    {
      totalSize := totalSize + if shapes[i].UnknownRank? then 0 else |shapes[i].dims|;
    }
  }

  /** Copies one value to the storage from `at` on. */
  method Copy(storage: array<int>, at: nat, value: seq<int>)
    requires at + |value| <= storage.Length
    modifies storage
    ensures storage[at..at + |value|] == value
    ensures storage[..at] == old(storage[..at])
  {
    for k := 0 to |value|
      invariant storage[at..at + k] == value[..k]
      invariant storage[..at] == old(storage[..at])
    {
      storage[at + k] := value[k];
    }
  }

  lemma {:induction false} PackedStep(before: seq<int>, after: seq<int>, values: seq<seq<int>>, n: nat)
    requires n < |values| && Packed(before, values, n) && |after| == |before|
    requires Start(values, n) + |values[n]| <= |after|
    requires after[..Start(values, n)] == before[..Start(values, n)]
    requires after[Start(values, n)..Start(values, n) + |values[n]|] == values[n]
    ensures Packed(after, values, n + 1)
  {
    hide Start;
    forall i | 0 <= i < n
      ensures Start(values, i) + |values[i]| <= |after|
      ensures after[Start(values, i)..Start(values, i) + |values[i]|] == values[i]
    {
      SlicesDisjoint(values, i, n);
      var lo, hi := Start(values, i), Start(values, i) + |values[i]|;
      assert after[lo..hi] == after[..Start(values, n)][lo..hi] == before[..Start(values, n)][lo..hi] == before[lo..hi];
    }
  }

  /** How many values a call copies. */
  function Taken(maxValues: int, size: nat): nat {
    if maxValues < 0 then 0 else if maxValues < size then maxValues else size
  }

  /** With room for all values, what is needed is the total that the metadata reports. */
  lemma AllTaken(values: seq<seq<int>>, maxValues: int)
    requires maxValues >= |values|
    ensures Start(values, Taken(maxValues, |values|)) == Total(values)
  {
  }

  /** The string list getter. It succeeds exactly if the values to copy fit the storage,
      and then every value is where its pointer says. */
  method GetAttrStringList(list: seq<seq<int>>, maxValues: int, storage: array<int>)
    returns (ok: bool, values: seq<nat>, lengths: seq<nat>)
    modifies storage
    ensures ok <==> Start(list, Taken(maxValues, |list|)) <= storage.Length
    ensures ok ==> |values| == |lengths| == Taken(maxValues, |list|)
    ensures ok ==> Packed(storage[..], list, |values|)
    ensures ok ==> forall i :: 0 <= i < |values| ==> values[i] == Start(list, i) && lengths[i] == |list[i]|
  {
    hide Packed, Start;
    var len := Taken(maxValues, |list|);
    var p: nat := 0;
    values, lengths := [], [];
    NothingPacked(storage[..], list);
    for i := 0 to len
      invariant p == Start(list, i) <= storage.Length && |values| == |lengths| == i
      invariant Packed(storage[..], list, i)
      invariant forall k :: 0 <= k < i ==> values[k] == Start(list, k) && lengths[k] == |list[k]|
    {
      values := values + [p];
      lengths := lengths + [|list[i]|];
      StartNext(list, i);
      StartMonotone(list, i + 1, len);
      if p + |list[i]| > storage.Length {
        return false, values, lengths;
      }
      ghost var before := storage[..];
      Copy(storage, p, list[i]);
      PackedStep(before, storage[..], list, i);
      p := p + |list[i]|;
    }
    ok := true;
  }

  lemma NothingAdded(storage: seq<int>, values: seq<seq<int>>, n: nat)
    requires n < |values| && values[n] == [] && Start(values, n) <= |storage| && Packed(storage, values, n)
    ensures Packed(storage, values, n + 1)
  {
    PackedStep(storage, storage, values, n);
  }

  lemma NothingPacked(storage: seq<int>, values: seq<seq<int>>)
    ensures Packed(storage, values, 0) && Start(values, 0) == 0
  {
  }

  /** The shape list getter, which counts down what is left; unknown ranks are reported as
      -1 dimensions and take no space. */
  method GetAttrShapeList(shapes: seq<PartialShape>, maxValues: int, storage: array<int>)
    returns (ok: bool, values: seq<nat>, numDims: seq<int>)
    modifies storage
    ensures ok <==> Start(StoredAll(shapes), Taken(maxValues, |shapes|)) <= storage.Length
    ensures ok ==> |values| == |numDims| == Taken(maxValues, |shapes|)
    ensures ok ==> Packed(storage[..], StoredAll(shapes), |values|)
    ensures ok ==> forall i :: 0 <= i < |values| ==>
                     && values[i] == Start(StoredAll(shapes), i)
                     && numDims[i] == if shapes[i].UnknownRank? then -1 else |shapes[i].dims|
  {
    hide Packed, StoredAll, Start;
    var len := Taken(maxValues, |shapes|);
    ghost var list := StoredAll(shapes);
    var p: nat, storageLeft: int := 0, storage.Length;
    values, numDims := [], [];
    NothingPacked(storage[..], list);
    for i := 0 to len
      invariant p == Start(list, i) && storageLeft == storage.Length - p >= 0 && |values| == |numDims| == i
      invariant Packed(storage[..], list, i)
      invariant forall k :: 0 <= k < i ==>
                  values[k] == Start(list, k) && numDims[k] == if shapes[k].UnknownRank? then -1 else |shapes[k].dims|
    {
      var n := if shapes[i].UnknownRank? then -1 else |shapes[i].dims|;
      numDims := numDims + [n];
      values := values + [p];
      StartNext(list, i);
      ghost var before := storage[..];
      if n < 0 {
        NothingAdded(before, list, i);
        continue;
      }
      StartMonotone(list, i + 1, len);
      if storageLeft < n {
        return false, values, numDims;
      }
      storageLeft := storageLeft - n;
      Copy(storage, p, shapes[i].dims);
      PackedStep(before, storage[..], list, i);
      p := p + n;
    }
    ok := true;
  }
}
