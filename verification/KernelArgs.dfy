/** The packed argument list of a kernel launch: separate arrays for plain and for
    shared-memory arguments, from which an iterator restores the original order. */
module KernelArgs {

  const SIZE_LIMIT: nat := 0x1_0000_0000_0000_0000
  const POINTER_SIZE: nat := 8

  /** Memory of the caller, or a slot of the list's own copies of device pointers. */
  datatype Address = HostAddress(a: nat) | OpaqueSlot(slot: nat)

  /** An argument as it was added. */
  datatype Arg = Plain(address: nat, size: nat) | Device(devicePointer: nat) | Shared(size: nat)

  datatype Pointer = Null | To(address: Address)

  /** An argument as the iterator hands it out. */
  datatype KernelArg = KernelArg(isShared: bool, address: Pointer, size: nat)

  const NO_ARG := KernelArg(false, Null, 0)

  // ---- The lists a sequence of arguments packs into ----

  ghost function Front(args: seq<Arg>): seq<Arg>
    requires args != []
  {
    args[..|args| - 1]
  }

  ghost function Addresses(args: seq<Arg>): seq<Address> {
    if args == [] then []
    else
      var front := Addresses(Front(args));
      match args[|args| - 1]
      case Plain(address, _) => front + [HostAddress(address)]
      case Device(_) => front + [OpaqueSlot(|front|)]
      case Shared(_) => front
  }

  ghost function Sizes(args: seq<Arg>): seq<nat> {
    if args == [] then []
    else
      match args[|args| - 1]
      case Plain(_, size) => Sizes(Front(args)) + [size]
      case Device(_) => Sizes(Front(args)) + [POINTER_SIZE]
      case Shared(_) => Sizes(Front(args))
  }

  ghost function SharedSizes(args: seq<Arg>): seq<nat> {
    if args == [] then []
    else SharedSizes(Front(args)) + if args[|args| - 1].Shared? then [args[|args| - 1].size] else []
  }

  ghost function SharedIndices(args: seq<Arg>): seq<nat> {
    if args == [] then []
    else SharedIndices(Front(args)) + if args[|args| - 1].Shared? then [|args| - 1] else []
  }

  /** The device pointers copied, by address slot; a plain argument leaves its slot. */
  ghost function Copies(args: seq<Arg>): seq<nat> {
    if args == [] then []
    else
      match args[|args| - 1]
      case Plain(_, _) => Copies(Front(args)) + [0]
      case Device(p) => Copies(Front(args)) + [p]
      case Shared(_) => Copies(Front(args))
  }

  ghost function SharedTotal(args: seq<Arg>): nat {
    if args == [] then 0
    else SharedTotal(Front(args)) + if args[|args| - 1].Shared? then args[|args| - 1].size else 0
  }

  lemma {:induction false} Lengths(args: seq<Arg>)
    ensures |Addresses(args)| == |Sizes(args)| == |Copies(args)|
    ensures |SharedSizes(args)| == |SharedIndices(args)|
    ensures |Addresses(args)| + |SharedIndices(args)| == |args|
  {
    if args != [] {
      Lengths(Front(args));
    }
  }

  /** What the i-th argument looks like to the iterator. */
  ghost function Presented(args: seq<Arg>, i: nat): KernelArg
    requires i < |args|
  {
    match args[i]
    case Plain(address, size) => KernelArg(false, To(HostAddress(address)), size)
    case Device(_) => KernelArg(false, To(OpaqueSlot(|Addresses(args[..i])|)), POINTER_SIZE)
    case Shared(size) => KernelArg(true, Null, size)
  }

  /** Packed prefixes: the lists of the first i arguments start the lists of all. */
  lemma {:induction false} PackedPrefix(args: seq<Arg>, i: nat)
    requires i <= |args|
    ensures Addresses(args[..i]) <= Addresses(args) && Sizes(args[..i]) <= Sizes(args) &&
            Copies(args[..i]) <= Copies(args)
    ensures SharedSizes(args[..i]) <= SharedSizes(args) && SharedIndices(args[..i]) <= SharedIndices(args)
    ensures forall k :: |SharedIndices(args[..i])| <= k < |SharedIndices(args)| ==> SharedIndices(args)[k] >= i
    decreases |args| - i
  {
    if i == |args| {
      assert args[..i] == args;
    } else {
      PackedPrefix(args, i + 1);
      assert Front(args[..i + 1]) == args[..i];
    }
  }

  /** The i-th argument is shared exactly if the next shared index is i, and otherwise it
      is the next plain one. */
  lemma NextArgument(args: seq<Arg>, i: nat)
    requires i < |args|
    ensures var a, s := |Addresses(args[..i])|, |SharedIndices(args[..i])|;
            && s <= |SharedIndices(args)|
            && (args[i].Device? ==> a < |Copies(args)| && Copies(args)[a] == args[i].devicePointer)
            && (args[i].Shared? <==> s < |SharedIndices(args)| && SharedIndices(args)[s] == i)
            && (args[i].Shared? ==>
                  s < |SharedSizes(args)| && Presented(args, i) == KernelArg(true, Null, SharedSizes(args)[s]))
            && (!args[i].Shared? ==>
                  a < |Addresses(args)| && a < |Sizes(args)| &&
                    Presented(args, i) == KernelArg(false, To(Addresses(args)[a]), Sizes(args)[a]))
            && |Addresses(args[..i + 1])| == a + (if args[i].Shared? then 0 else 1)
            && |SharedIndices(args[..i + 1])| == s + (if args[i].Shared? then 1 else 0)
  {
    PackedPrefix(args, i);
    PackedPrefix(args, i + 1);
    assert Front(args[..i + 1]) == args[..i];
    Lengths(args[..i]);
    Lengths(args[..i + 1]);
  }

  // ---- The list ----

  class KernelArgsArray {
    const capacity: nat
    const opaquePointers: array<nat>
    const argumentAddresses: array<Address>
    const argumentSizes: array<nat>
    const sharedMemoryBytes: array<nat>
    const sharedMemoryIndices: array<nat>
    var totalSharedMemoryBytes: nat
    var numAddresses: nat
    var numShared: nat
    ghost var args: seq<Arg>

    ghost predicate Distinct()
    {
      && opaquePointers != argumentSizes && opaquePointers != sharedMemoryBytes && opaquePointers != sharedMemoryIndices
      && argumentSizes != sharedMemoryBytes && argumentSizes != sharedMemoryIndices &&
         sharedMemoryBytes != sharedMemoryIndices
      && opaquePointers.Length == argumentAddresses.Length == argumentSizes.Length == capacity
      && sharedMemoryBytes.Length == sharedMemoryIndices.Length == capacity
    }

    /** The arrays hold the packed form of everything added so far. */
    ghost predicate Valid()
      reads this, opaquePointers, argumentAddresses, argumentSizes, sharedMemoryBytes, sharedMemoryIndices
    {
      && Distinct()
      && |args| <= capacity && numAddresses == |Addresses(args)| && numShared == |SharedIndices(args)|
      && numAddresses == |Sizes(args)| == |Copies(args)| && numShared == |SharedSizes(args)|
      && numAddresses + numShared == |args|
      && argumentAddresses[..numAddresses] == Addresses(args) && argumentSizes[..numAddresses] == Sizes(args)
      && sharedMemoryBytes[..numShared] == SharedSizes(args) && sharedMemoryIndices[..numShared] == SharedIndices(args)
      && (forall k :: 0 <= k < numAddresses && Addresses(args)[k].OpaqueSlot? ==> opaquePointers[k] == Copies(args)[k])
      && totalSharedMemoryBytes == SharedTotal(args) % SIZE_LIMIT
    }

    constructor (capacity: nat)
      ensures Valid() && args == [] && this.capacity == capacity
      ensures fresh(opaquePointers) && fresh(argumentAddresses) && fresh(argumentSizes)
      ensures fresh(sharedMemoryBytes) && fresh(sharedMemoryIndices)
    {
      this.capacity := capacity;
      opaquePointers := new nat[capacity](_ => 0);
      argumentAddresses := new Address[capacity](_ => HostAddress(0));
      argumentSizes := new nat[capacity](_ => 0);
      sharedMemoryBytes := new nat[capacity](_ => 0);
      sharedMemoryIndices := new nat[capacity](_ => 0);
      totalSharedMemoryBytes, numAddresses, numShared := 0, 0, 0;
      args := [];
    }

    method AddArgument(address: nat, size: nat)
      requires Valid() && |args| < capacity
      modifies this, argumentAddresses, argumentSizes
      ensures Valid() && args == old(args) + [Plain(address, size)]
    {
      argumentAddresses[numAddresses] := HostAddress(address);
      argumentSizes[numAddresses] := size;
      numAddresses := numAddresses + 1;
      args := args + [Plain(address, size)];
      assert Front(args) == old(args);
    }

    method AddDeviceMemoryArgument(devicePointer: nat)
      requires Valid() && |args| < capacity
      modifies this, opaquePointers, argumentAddresses, argumentSizes
      ensures Valid() && args == old(args) + [Device(devicePointer)]
    {
      opaquePointers[numAddresses] := devicePointer;
      argumentAddresses[numAddresses] := OpaqueSlot(numAddresses);
      argumentSizes[numAddresses] := POINTER_SIZE;
      numAddresses := numAddresses + 1;
      args := args + [Device(devicePointer)];
      assert Front(args) == old(args);
    }

    method AddSharedBytes(numberOfBytes: nat)
      requires Valid() && |args| < capacity
      modifies this, sharedMemoryBytes, sharedMemoryIndices
      ensures Valid() && args == old(args) + [Shared(numberOfBytes)]
    {
      sharedMemoryIndices[numShared] := numAddresses + numShared;
      sharedMemoryBytes[numShared] := numberOfBytes;
      numShared := numShared + 1;
      totalSharedMemoryBytes := (totalSharedMemoryBytes + numberOfBytes) % SIZE_LIMIT;
      args := args + [Shared(numberOfBytes)];
      assert Front(args) == old(args);
    }

    /** The sum of all shared sizes, as a size_t. */
    method NumberOfSharedBytes() returns (r: nat)
      requires Valid()
      ensures r == SharedTotal(args) % SIZE_LIMIT
    {
      r := totalSharedMemoryBytes;
    }
  }

  // ---- The iterator ----

  class KernelArgIterator {
    const list: KernelArgsArray
    const numberOfArguments: nat
    const sharedEnd: nat
    var argIndex: nat
    var addressIter: nat
    var sizeIter: nat
    var sharedBytesIter: nat
    var sharedIndicesIter: nat

    /** The cursors stand behind the first `argIndex` arguments. */
    ghost predicate Valid()
      reads this, list, list.opaquePointers, list.argumentAddresses, list.argumentSizes, list.sharedMemoryBytes,
            list.sharedMemoryIndices
    {
      && list.Valid() && numberOfArguments == |list.args| && sharedEnd == list.numShared
      && argIndex <= numberOfArguments
      && addressIter == sizeIter == |Addresses(list.args[..argIndex])|
      && sharedBytesIter == sharedIndicesIter == |SharedIndices(list.args[..argIndex])|
    }

    constructor (list: KernelArgsArray)
      requires list.Valid()
      ensures Valid() && this.list == list && argIndex == 0
    {
      this.list := list;
      numberOfArguments := list.numAddresses + list.numShared;
      sharedEnd := list.numShared;
      argIndex, addressIter, sizeIter, sharedBytesIter, sharedIndicesIter := 0, 0, 0, 0, 0;
    }

    predicate HasNext()
      reads this
    {
      argIndex < numberOfArguments
    }

    /** The next argument in the order of addition; past the end a default one, and
        nothing moves. */
    method Next() returns (r: KernelArg)
      requires Valid()
      modifies this
      ensures Valid()
      ensures old(HasNext()) ==> argIndex == old(argIndex) + 1 && r == Presented(list.args, old(argIndex))
      ensures !old(HasNext()) ==> argIndex == old(argIndex) && r == NO_ARG
    {
      if !HasNext() {
        return NO_ARG;
      }
      NextArgument(list.args, argIndex);
      if sharedIndicesIter != sharedEnd && argIndex == list.sharedMemoryIndices[..list.numShared][sharedIndicesIter] {
        r := KernelArg(true, Null, list.sharedMemoryBytes[..list.numShared][sharedBytesIter]);
        sharedIndicesIter := sharedIndicesIter + 1;
        sharedBytesIter := sharedBytesIter + 1;
      } else {
        r := KernelArg(false, To(list.argumentAddresses[..list.numAddresses][addressIter]),
                       list.argumentSizes[..list.numAddresses][sizeIter]);
        addressIter := addressIter + 1;
        sizeIter := sizeIter + 1;
      }
      argIndex := argIndex + 1;
    }
  }

  /** Iterating to the end yields exactly the arguments added, in their order; a device
      argument points at the list's copy of the device pointer. */
  method AllArguments(list: KernelArgsArray) returns (out: seq<KernelArg>)
    requires list.Valid()
    ensures |out| == |list.args| && forall i :: 0 <= i < |out| ==> out[i] == Presented(list.args, i)
    ensures forall i :: 0 <= i < |out| ==> (out[i].isShared <==> list.args[i].Shared?)
    ensures forall i :: 0 <= i < |out| && list.args[i].Shared? ==>
              out[i].address == Null && out[i].size == list.args[i].size
    ensures forall i :: 0 <= i < |out| && list.args[i].Plain? ==>
              out[i].address == To(HostAddress(list.args[i].address)) && out[i].size == list.args[i].size
    ensures forall i :: 0 <= i < |out| && list.args[i].Device? ==>
              && out[i].size == POINTER_SIZE
              && out[i].address.To? && out[i].address.address.OpaqueSlot? && out[i].address.address.slot < list.capacity
              && list.opaquePointers[out[i].address.address.slot] == list.args[i].devicePointer
  {
    var it := new KernelArgIterator(list);
    out := [];
    while it.HasNext()
      invariant it.list == list && it.Valid() && |out| == it.argIndex
      invariant forall i :: 0 <= i < |out| ==> out[i] == Presented(list.args, i)
      decreases it.numberOfArguments - it.argIndex
    {
      var arg := it.Next();
      out := out + [arg];
    }
    forall i | 0 <= i < |out| && list.args[i].Device?
      ensures out[i].address.To? && out[i].address.address.OpaqueSlot? && out[i].address.address.slot < list.capacity
      ensures list.opaquePointers[out[i].address.address.slot] == list.args[i].devicePointer
    {
      NextArgument(list.args, i);
    }
  }
}
