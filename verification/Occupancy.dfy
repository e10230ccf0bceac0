/** GPU occupancy and the register search. Arithmetic is on 64-bit unsigned integers and
    wraps; the loop variables of the search are 32-bit signed. */
module Occupancy {

  const U64: nat := 0x1_0000_0000_0000_0000
  const UNINITIALIZED: nat := U64 - 1
  const INT_LIMIT: nat := 0x8000_0000

  datatype DeviceDescription = DeviceDescription(
    registersPerThreadLimit: nat,
    threadsPerWarp: nat,
    warpAllocGranularity: nat,
    registerAllocGranularity: nat,
    registersPerBlockLimit: nat,
    sharedMemoryPerCore: nat,
    blocksPerCoreLimit: nat,
    sharedMemoryAllocGranularity: nat,
    threadsPerCoreLimit: nat)

  datatype ThreadDim = ThreadDim(x: nat, y: nat, z: nat)

  function Wrap(n: nat): nat {
    n % U64
  }

  /** Conversion of a 64-bit value to `int`. */
  function ToInt(n: nat): int {
    var low := n % (2 * INT_LIMIT);
    if low < INT_LIMIT then low else low - 2 * INT_LIMIT
  }

  /** Truncated quotient, adjusted upwards when there is a remainder. */
  function CeilOfRatio(a: nat, b: nat): (r: nat)
    requires b > 0
    ensures a <= r * b < a + b
  {
    var q := a / b;
    assert a == q * b + a % b;
    assert (q + 1) * b == q * b + b;
    q + if a > q * b then 1 else 0
  }

  function RoundUp(value: nat, n: nat): nat
    requires n > 0
  {
    Wrap(CeilOfRatio(value, n) * n)
  }

  function RoundDown(value: nat, n: nat): nat
    requires n > 0
  {
    Wrap(value / n * n)
  }

  predicate Initialized(dev: DeviceDescription) {
    && dev.registersPerThreadLimit != UNINITIALIZED && dev.threadsPerWarp != UNINITIALIZED
    && dev.warpAllocGranularity != UNINITIALIZED && dev.registerAllocGranularity != UNINITIALIZED
    && dev.registersPerBlockLimit != UNINITIALIZED && dev.sharedMemoryPerCore != UNINITIALIZED
    && dev.blocksPerCoreLimit != UNINITIALIZED
  }

  /** No divisor of the computation is zero. */
  predicate Divides(dev: DeviceDescription, regs: nat, dims: ThreadDim) {
    && regs > 0 && dims.x > 0 && dims.y > 0 && dims.z > 0
    && dev.threadsPerWarp > 0 && dev.warpAllocGranularity > 0
    && dev.registerAllocGranularity > 0 && dev.sharedMemoryAllocGranularity > 0
  }

  function Min(a: nat, b: nat): nat {
    if a < b then a else b
  }

  // ---- Exact quantities ----

  ghost function Multiple(value: nat, n: nat): (r: nat)
    requires n > 0
    ensures value <= r < value + n
  {
    CeilOfRatio(value, n) * n
  }

  ghost function Warps(dev: DeviceDescription, dims: ThreadDim): nat
    requires dev.threadsPerWarp > 0
  {
    CeilOfRatio(dims.x * dims.y * dims.z, dev.threadsPerWarp)
  }

  ghost function AllocWarps(dev: DeviceDescription, dims: ThreadDim): nat
    requires dev.threadsPerWarp > 0 && dev.warpAllocGranularity > 0
  {
    Multiple(Warps(dev, dims), dev.warpAllocGranularity)
  }

  ghost function AllocRegs(dev: DeviceDescription, regs: nat): nat
    requires dev.registerAllocGranularity > 0
  {
    Multiple(dev.threadsPerWarp * regs, dev.registerAllocGranularity)
  }

  ghost function AllocSmem(dev: DeviceDescription, smem: nat): nat
    requires dev.sharedMemoryAllocGranularity > 0
  {
    Multiple(smem, dev.sharedMemoryAllocGranularity)
  }

  /** `blocks` blocks fit one core: the block, register, shared memory and thread budgets
      hold what is allocated for them after rounding. */
  ghost predicate Fits(dev: DeviceDescription, regs: nat, smem: nat, dims: ThreadDim, blocks: nat)
    requires Divides(dev, regs, dims)
  {
    && blocks <= dev.blocksPerCoreLimit
    && blocks * (AllocWarps(dev, dims) * AllocRegs(dev, regs)) <= dev.registersPerBlockLimit
    && blocks * AllocSmem(dev, smem) <= dev.sharedMemoryPerCore
    && blocks * (Warps(dev, dims) * dev.threadsPerWarp) <= dev.threadsPerCoreLimit
  }

  ghost predicate NoOverflow(dev: DeviceDescription, regs: nat, smem: nat, dims: ThreadDim)
    requires Divides(dev, regs, dims)
  {
    && dims.x * dims.y < U64 && dims.x * dims.y * dims.z < U64
    && AllocWarps(dev, dims) < U64
    && dev.threadsPerWarp * regs < U64 && AllocRegs(dev, regs) < U64
    && AllocWarps(dev, dims) * AllocRegs(dev, regs) < U64
    && AllocSmem(dev, smem) < U64
    && Warps(dev, dims) * dev.threadsPerWarp < U64
  }

  lemma WrapSmall(n: nat)
    requires n < U64
    ensures Wrap(n) == n
  {
  }

  lemma ThreadsPositive(dims: ThreadDim)
    requires dims.x > 0 && dims.y > 0 && dims.z > 0
    ensures dims.x * dims.y * dims.z > 0
  {
    assert dims.x * dims.y > 0;
  }

  lemma ProductPositive(a: nat, b: nat)
    requires a > 0 && b > 0
    ensures a * b > 0
  {
  }

  /** The two divisors that are computed are not zero. */
  lemma DivisorsPositive(dev: DeviceDescription, regs: nat, dims: ThreadDim)
    requires Divides(dev, regs, dims)
    ensures AllocWarps(dev, dims) * AllocRegs(dev, regs) > 0 && Warps(dev, dims) * dev.threadsPerWarp > 0
  {
    ThreadsPositive(dims);
    ProductPositive(dev.threadsPerWarp, regs);
    ProductPositive(Warps(dev, dims), dev.threadsPerWarp);
    ProductPositive(AllocWarps(dev, dims), AllocRegs(dev, regs));
  }

  // ---- The computation ----

  function WarpsPerBlock(dev: DeviceDescription, dims: ThreadDim): nat
    requires dev.threadsPerWarp > 0
  {
    CeilOfRatio(Wrap(Wrap(dims.x * dims.y) * dims.z), dev.threadsPerWarp)
  }

  function RegsPerBlock(dev: DeviceDescription, regs: nat, dims: ThreadDim): nat
    requires Divides(dev, regs, dims)
  {
    var allocWarps := RoundUp(WarpsPerBlock(dev, dims), dev.warpAllocGranularity);
    var allocRegs := RoundUp(Wrap(dev.threadsPerWarp * regs), dev.registerAllocGranularity);
    Wrap(allocWarps * allocRegs)
  }

  function ThreadsPerBlock(dev: DeviceDescription, dims: ThreadDim): nat
    requires dev.threadsPerWarp > 0
  {
    Wrap(WarpsPerBlock(dev, dims) * dev.threadsPerWarp)
  }

  /** No division by zero on the way to the result. */
  predicate Computable(dev: DeviceDescription, regs: nat, dims: ThreadDim) {
    Divides(dev, regs, dims) && RegsPerBlock(dev, regs, dims) > 0 && ThreadsPerBlock(dev, dims) > 0
  }

  function Quotient(a: nat, b: nat): nat
    requires b > 0
  {
    a / b
  }

  /** The smallest of the four limits, in wrapping arithmetic. */
  function SmallestLimit(dev: DeviceDescription, regs: nat, smem: nat, dims: ThreadDim): nat
    requires Computable(dev, regs, dims)
  {
    var regLimit := Quotient(dev.registersPerBlockLimit, RegsPerBlock(dev, regs, dims));
    var allocSmem := RoundUp(smem, dev.sharedMemoryAllocGranularity);
    var smemLimit := if allocSmem > 0 then Quotient(dev.sharedMemoryPerCore, allocSmem) else dev.blocksPerCoreLimit;
    var threadLimit := Quotient(dev.threadsPerCoreLimit, ThreadsPerBlock(dev, dims));
    Min(Min(dev.blocksPerCoreLimit, regLimit), Min(smemLimit, threadLimit))
  }

  /** The occupancy. It is zero when a required field is missing or too many registers are
      asked for. */
  function CalculateOccupancy(dev: DeviceDescription, regs: nat, smem: nat, dims: ThreadDim): nat
    requires Initialized(dev) && regs <= dev.registersPerThreadLimit ==> Computable(dev, regs, dims)
  {
    if !Initialized(dev) || regs > dev.registersPerThreadLimit then 0 else SmallestLimit(dev, regs, smem, dims)
  }

  /** The occupancy is zero when one of seven fields has its unset value, all bits one, or
      too many registers are asked for; other fields may be unset. */
  lemma UnsetFieldsGiveZero(dev: DeviceDescription, regs: nat, smem: nat, dims: ThreadDim)
    ensures var unset := 0xFFFF_FFFF_FFFF_FFFF;
            var missing := || dev.registersPerThreadLimit == unset || dev.threadsPerWarp == unset
                           || dev.warpAllocGranularity == unset || dev.registerAllocGranularity == unset
                           || dev.registersPerBlockLimit == unset || dev.sharedMemoryPerCore == unset
                           || dev.blocksPerCoreLimit == unset;
            && (missing <==> !Initialized(dev))
            && (missing || regs > dev.registersPerThreadLimit ==> CalculateOccupancy(dev, regs, smem, dims) == 0)
  {
    hide SmallestLimit;
  }

  /** Without overflow the wrapping quantities are the exact ones. */
  lemma ComputedExactly(dev: DeviceDescription, regs: nat, smem: nat, dims: ThreadDim)
    requires Divides(dev, regs, dims) && NoOverflow(dev, regs, smem, dims)
    ensures RegsPerBlock(dev, regs, dims) == AllocWarps(dev, dims) * AllocRegs(dev, regs)
    ensures ThreadsPerBlock(dev, dims) == Warps(dev, dims) * dev.threadsPerWarp
    ensures RoundUp(smem, dev.sharedMemoryAllocGranularity) == AllocSmem(dev, smem)
    ensures Computable(dev, regs, dims)
  {
    hide CeilOfRatio;
    WrapSmall(dims.x * dims.y);
    WrapSmall(dims.x * dims.y * dims.z);
    WrapSmall(AllocWarps(dev, dims));
    WrapSmall(dev.threadsPerWarp * regs);
    WrapSmall(AllocRegs(dev, regs));
    WrapSmall(AllocSmem(dev, smem));
    WrapSmall(AllocWarps(dev, dims) * AllocRegs(dev, regs));
    WrapSmall(Warps(dev, dims) * dev.threadsPerWarp);
    DivisorsPositive(dev, regs, dims);
  }

  lemma QuotientBound(b: nat, limit: nat, k: nat)
    requires k > 0
    ensures b <= limit / k <==> b * k <= limit
  {
    var q := limit / k;
    assert limit == q * k + limit % k;
    if b <= q {
      assert b * k <= q * k;
    } else {
      assert b * k >= (q + 1) * k == q * k + k;
    }
  }

  /** Exactly the block counts up to the occupancy fit. */
  lemma OccupancyIsGreatest(dev: DeviceDescription, regs: nat, smem: nat, dims: ThreadDim, blocks: nat)
    requires Divides(dev, regs, dims) && NoOverflow(dev, regs, smem, dims)
    requires Initialized(dev) && regs <= dev.registersPerThreadLimit
    ensures Computable(dev, regs, dims)
    ensures blocks <= CalculateOccupancy(dev, regs, smem, dims) <==> Fits(dev, regs, smem, dims, blocks)
  {
    hide CeilOfRatio, Wrap, RoundUp, AllocWarps, AllocRegs, AllocSmem, Warps, Initialized, NoOverflow, RegsPerBlock,
         ThreadsPerBlock;
    ComputedExactly(dev, regs, smem, dims);
    DivisorsPositive(dev, regs, dims);
    QuotientBound(blocks, dev.registersPerBlockLimit, AllocWarps(dev, dims) * AllocRegs(dev, regs));
    QuotientBound(blocks, dev.threadsPerCoreLimit, Warps(dev, dims) * dev.threadsPerWarp);
    if AllocSmem(dev, smem) > 0 {
      QuotientBound(blocks, dev.sharedMemoryPerCore, AllocSmem(dev, smem));
    }
  }

  /** An allocation that respects the granularities: whole warps that cover all threads, and
      whole granules of warps, of registers per warp and of shared memory. */
  ghost predicate Allocates(dev: DeviceDescription, regs: nat, smem: nat, dims: ThreadDim,
                            warps: nat, warpGranules: nat, regGranules: nat, smemGranules: nat)
  {
    && dims.x * dims.y * dims.z <= warps * dev.threadsPerWarp
    && warps <= warpGranules * dev.warpAllocGranularity
    && dev.threadsPerWarp * regs <= regGranules * dev.registerAllocGranularity
    && smem <= smemGranules * dev.sharedMemoryAllocGranularity
  }

  ghost predicate WithinBudgets(dev: DeviceDescription, blocks: nat,
                                warps: nat, warpGranules: nat, regGranules: nat, smemGranules: nat)
  {
    && blocks <= dev.blocksPerCoreLimit
    && blocks * (warpGranules * dev.warpAllocGranularity * (regGranules * dev.registerAllocGranularity))
       <= dev.registersPerBlockLimit
    && blocks * (smemGranules * dev.sharedMemoryAllocGranularity) <= dev.sharedMemoryPerCore
    && blocks * (warps * dev.threadsPerWarp) <= dev.threadsPerCoreLimit
  }

  /** Blocks fit exactly if some allocation for each of them stays within the budgets. */
  lemma FitsExactly(dev: DeviceDescription, regs: nat, smem: nat, dims: ThreadDim, blocks: nat)
    requires Divides(dev, regs, dims)
    ensures Fits(dev, regs, smem, dims, blocks) <==>
            exists w: nat, a: nat, r: nat, m: nat ::
              Allocates(dev, regs, smem, dims, w, a, r, m) && WithinBudgets(dev, blocks, w, a, r, m)
  {
    hide CeilOfRatio;
    var w := Warps(dev, dims);
    var a := CeilOfRatio(w, dev.warpAllocGranularity);
    var r := CeilOfRatio(dev.threadsPerWarp * regs, dev.registerAllocGranularity);
    var m := CeilOfRatio(smem, dev.sharedMemoryAllocGranularity);
    LeastAllocates(dev, regs, smem, dims);
    LeastIsWithin(dev, regs, smem, dims, blocks);
    hide Fits, Allocates, WithinBudgets;
    forall w': nat, a': nat, r': nat, m': nat
      | Allocates(dev, regs, smem, dims, w', a', r', m') && WithinBudgets(dev, blocks, w', a', r', m')
      ensures Fits(dev, regs, smem, dims, blocks)
    {
      LeastFits(dev, regs, smem, dims, blocks, w', a', r', m');
    }
  }

  lemma LeastAllocates(dev: DeviceDescription, regs: nat, smem: nat, dims: ThreadDim)
    requires Divides(dev, regs, dims)
    ensures Allocates(dev, regs, smem, dims, Warps(dev, dims), CeilOfRatio(Warps(dev, dims), dev.warpAllocGranularity),
                      CeilOfRatio(dev.threadsPerWarp * regs, dev.registerAllocGranularity),
                      CeilOfRatio(smem, dev.sharedMemoryAllocGranularity))
  {
    hide CeilOfRatio;
  }

  lemma LeastIsWithin(dev: DeviceDescription, regs: nat, smem: nat, dims: ThreadDim, blocks: nat)
    requires Divides(dev, regs, dims)
    ensures Fits(dev, regs, smem, dims, blocks) <==>
            WithinBudgets(dev, blocks, Warps(dev, dims), CeilOfRatio(Warps(dev, dims), dev.warpAllocGranularity),
                          CeilOfRatio(dev.threadsPerWarp * regs, dev.registerAllocGranularity),
                          CeilOfRatio(smem, dev.sharedMemoryAllocGranularity))
  {
    hide CeilOfRatio, Warps;
  }

  /** The least multiple that covers a value is at most any other that does. */
  lemma LeastMultiple(v: nat, n: nat, c: nat)
    requires n > 0 && v <= c * n
    ensures CeilOfRatio(v, n) <= c && Multiple(v, n) <= c * n
  {
    var k := CeilOfRatio(v, n);
    hide CeilOfRatio;
    assert n * (c + 1) == c * n + n;
    if k > c {
      MulMonotone(c + 1, k, n);
    }
    MulMonotone(k, c, n);
  }

  lemma LeastFits(dev: DeviceDescription, regs: nat, smem: nat, dims: ThreadDim, blocks: nat,
                  w: nat, a: nat, r: nat, m: nat)
    requires Divides(dev, regs, dims)
    requires Allocates(dev, regs, smem, dims, w, a, r, m) && WithinBudgets(dev, blocks, w, a, r, m)
    ensures Fits(dev, regs, smem, dims, blocks)
  {
    var least, g, h := Warps(dev, dims), a * dev.warpAllocGranularity, r * dev.registerAllocGranularity;
    LeastMultiple(dims.x * dims.y * dims.z, dev.threadsPerWarp, w);
    LeastMultiple(least, dev.warpAllocGranularity, a);
    LeastMultiple(dev.threadsPerWarp * regs, dev.registerAllocGranularity, r);
    LeastMultiple(smem, dev.sharedMemoryAllocGranularity, m);
    var aw, ar, sm := AllocWarps(dev, dims), AllocRegs(dev, regs), AllocSmem(dev, smem);
    hide CeilOfRatio, Multiple, Warps, AllocWarps, AllocRegs, AllocSmem;
    MulMonotone(least, w, dev.threadsPerWarp);
    MulMonotone(least * dev.threadsPerWarp, w * dev.threadsPerWarp, blocks);
    MulMonotone(aw, g, ar);
    MulMonotone(ar, h, g);
    MulMonotone(aw * ar, g * h, blocks);
    MulMonotone(sm, m * dev.sharedMemoryAllocGranularity, blocks);
  }

  lemma CeilMonotone(a: nat, b: nat, n: nat)
    requires a <= b && n > 0
    ensures Multiple(a, n) <= Multiple(b, n)
  {
    var x, y := CeilOfRatio(a, n), CeilOfRatio(b, n);
    assert (y + 1) * n == y * n + n;
    MulCancel(x, y + 1, n);
    MulMonotone(x, y, n);
  }

  lemma MulCancel(x: nat, y: nat, n: nat)
    requires x * n < y * n
    ensures x < y
  {
    if y <= x {
      MulMonotone(y, x, n);
    }
  }

  lemma MulMonotone(a: nat, b: nat, c: nat)
    requires a <= b
    ensures c * a <= c * b
  {
  }

  lemma AllocRegsMonotone(dev: DeviceDescription, r: nat, q: nat)
    requires dev.registerAllocGranularity > 0 && r <= q
    ensures dev.threadsPerWarp * r <= dev.threadsPerWarp * q && AllocRegs(dev, r) <= AllocRegs(dev, q)
  {
    MulMonotone(r, q, dev.threadsPerWarp);
    CeilMonotone(dev.threadsPerWarp * r, dev.threadsPerWarp * q, dev.registerAllocGranularity);
  }

  /** Fewer registers never overflow when more do not. */
  lemma NoOverflowBelow(dev: DeviceDescription, r: nat, q: nat, smem: nat, dims: ThreadDim)
    requires 0 < r <= q && Divides(dev, q, dims) && NoOverflow(dev, q, smem, dims)
    ensures NoOverflow(dev, r, smem, dims)
  {
    hide AllocRegs, AllocWarps, AllocSmem, Warps;
    AllocRegsMonotone(dev, r, q);
    MulMonotone(AllocRegs(dev, r), AllocRegs(dev, q), AllocWarps(dev, dims));
  }

  /** Asking for more registers per thread never raises the occupancy. */
  lemma OccupancyAntitone(dev: DeviceDescription, r: nat, q: nat, smem: nat, dims: ThreadDim)
    requires 0 < r <= q && Divides(dev, q, dims) && NoOverflow(dev, q, smem, dims)
    ensures Computable(dev, r, dims) && Computable(dev, q, dims)
    ensures CalculateOccupancy(dev, q, smem, dims) <= CalculateOccupancy(dev, r, smem, dims)
  {
    NoOverflowBelow(dev, r, q, smem, dims);
    ComputedExactly(dev, r, smem, dims);
    ComputedExactly(dev, q, smem, dims);
    var b := CalculateOccupancy(dev, q, smem, dims);
    if Initialized(dev) && q <= dev.registersPerThreadLimit {
      hide CalculateOccupancy, AllocRegs, AllocWarps, AllocSmem, Warps, NoOverflow, Initialized;
      OccupancyIsGreatest(dev, q, smem, dims, b);
      OccupancyIsGreatest(dev, r, smem, dims, b);
      AllocRegsMonotone(dev, r, q);
      MulMonotone(AllocRegs(dev, r), AllocRegs(dev, q), AllocWarps(dev, dims));
      MulMonotone(AllocWarps(dev, dims) * AllocRegs(dev, r), AllocWarps(dev, dims) * AllocRegs(dev, q), b);
    }
  }

  // ---- The search ----

  /** What the search needs of its device: an `int` register limit, a positive step and
      arithmetic that does not overflow at the limit. */
  ghost predicate Searchable(dev: DeviceDescription, smem: nat, dims: ThreadDim) {
    && dev.registersPerThreadLimit < INT_LIMIT
    && Divides(dev, 1, dims) && 0 < dev.registerAllocGranularity / dev.threadsPerWarp < INT_LIMIT
    && (dev.registersPerThreadLimit > 0 ==> NoOverflow(dev, dev.registersPerThreadLimit, smem, dims))
  }

  /** Register count `r` reaches the target. */
  ghost predicate Meets(dev: DeviceDescription, smem: nat, dims: ThreadDim, target: nat, r: nat)
    requires Divides(dev, 1, dims)
  {
    r > 0 && Computable(dev, r, dims) && CalculateOccupancy(dev, r, smem, dims) >= target
  }

  /** The largest count up to the limit that reaches the target, or 0 if there is none. */
  ghost predicate IsBest(dev: DeviceDescription, smem: nat, dims: ThreadDim, target: nat, r: nat)
    requires Divides(dev, 1, dims)
  {
    && r <= dev.registersPerThreadLimit
    && (r > 0 ==> Meets(dev, smem, dims, target, r))
    && forall q :: r < q <= dev.registersPerThreadLimit ==> !Meets(dev, smem, dims, target, q)
  }

  /** The counts the loop visits, from `r` down. */
  ghost function SearchFrom(dev: DeviceDescription, smem: nat, dims: ThreadDim, target: nat, r: nat): (result: nat)
    requires Divides(dev, 1, dims) && dev.registerAllocGranularity / dev.threadsPerWarp > 0
    ensures result <= r
  {
    if r == 0 || Meets(dev, smem, dims, target, r) then r
    else SearchFrom(dev, smem, dims, target, NextCount(r, dev.registerAllocGranularity / dev.threadsPerWarp))
  }

  /** The next count visited after `r`. */
  function NextCount(r: nat, step: nat): (n: nat)
    requires r > 0 && step > 0
    ensures n < r <= n + step
  {
    RoundDownBelow(r - 1, step);
    (r - 1) / step * step
  }

  ghost function SearchResult(dev: DeviceDescription, smem: nat, dims: ThreadDim, target: nat): nat
    requires Divides(dev, 1, dims) && dev.registerAllocGranularity / dev.threadsPerWarp > 0
  {
    SearchFrom(dev, smem, dims, target, dev.registersPerThreadLimit)
  }

  lemma RoundDownBelow(v: nat, n: nat)
    requires n > 0
    ensures v / n * n <= v < v / n * n + n
  {
    assert v == v / n * n + v % n;
  }

  lemma ToIntSmall(n: nat)
    requires n < INT_LIMIT
    ensures ToInt(n) == n
  {
  }

  /** The loop's start and step, converted to `int`. */
  function FirstCount(dev: DeviceDescription): int {
    ToInt(dev.registersPerThreadLimit)
  }

  function StepOf(dev: DeviceDescription): int
    requires dev.threadsPerWarp > 0
  {
    ToInt(dev.registerAllocGranularity / dev.threadsPerWarp)
  }

  /** The counts the loop looks at: the first one and, below it, the multiples of a
      positive step. */
  ghost predicate Visited(dev: DeviceDescription, r: int)
    requires dev.threadsPerWarp > 0
  {
    && 0 < r <= FirstCount(dev)
    && (r == FirstCount(dev) || (StepOf(dev) > 0 && r % StepOf(dev) == 0))
  }

  /** The occupancy of `r` is computed without dividing by zero. */
  ghost predicate Defined(dev: DeviceDescription, dims: ThreadDim, r: nat) {
    Initialized(dev) && r <= dev.registersPerThreadLimit ==> Computable(dev, r, dims)
  }

  ghost predicate Hits(dev: DeviceDescription, smem: nat, dims: ThreadDim, target: nat, r: nat) {
    Defined(dev, dims, r) && CalculateOccupancy(dev, r, smem, dims) >= target
  }

  /** The loop gets to `r`: no larger visited count reaches the target. */
  ghost predicate LookedAt(dev: DeviceDescription, smem: nat, dims: ThreadDim, target: nat, r: nat)
    requires dev.threadsPerWarp > 0
  {
    Visited(dev, r) && forall q: nat :: Visited(dev, q) && q > r ==> !Hits(dev, smem, dims, target, q)
  }

  /** The search divides by zero nowhere: every count it gets to has an occupancy, and a
      step of zero is never taken. */
  ghost predicate Runnable(dev: DeviceDescription, smem: nat, dims: ThreadDim, target: nat) {
    && dev.threadsPerWarp > 0
    && (forall r: nat :: LookedAt(dev, smem, dims, target, r) ==> Defined(dev, dims, r))
    && (FirstCount(dev) > 0 && StepOf(dev) == 0 ==> Hits(dev, smem, dims, target, FirstCount(dev)))
  }

  /** The largest visited count that reaches the target, or 0 if none does. */
  ghost predicate IsGreatestVisited(dev: DeviceDescription, smem: nat, dims: ThreadDim, target: nat, r: nat)
    requires dev.threadsPerWarp > 0
  {
    && (r > 0 ==> Visited(dev, r) && Hits(dev, smem, dims, target, r))
    && forall q: nat :: Visited(dev, q) && q > r ==> !Hits(dev, smem, dims, target, q)
  }

  /** The loop: down from the limit, one granule at a time, for every device on which it
      runs at all. */
  method CalculateRegisterLimitForTargetOccupancy(dev: DeviceDescription, smem: nat, dims: ThreadDim, target: nat)
    returns (result: nat)
    requires Runnable(dev, smem, dims, target)
    ensures IsGreatestVisited(dev, smem, dims, target, result)
  {
    hide CalculateOccupancy, Defined, Visited, ToInt, RoundDown;
    var step := ToInt(dev.registerAllocGranularity / dev.threadsPerWarp);
    var r := ToInt(dev.registersPerThreadLimit);
    FirstIsVisited(dev);
    while r > 0
      invariant r > 0 ==> Visited(dev, r)
      invariant forall q: nat :: Visited(dev, q) && q > r ==> !Hits(dev, smem, dims, target, q)
      decreases r
    {
      assert LookedAt(dev, smem, dims, target, r);
      DefinedUnfolds(dev, dims, r);
      var occupancy := CalculateOccupancy(dev, r, smem, dims);
      if occupancy >= target {
        return r;
      }
      LaterHasStep(dev, r);
      NextVisited(dev, r);
      r := ToInt(RoundDown(r - 1, step % U64));
    }
    return 0;
  }

  lemma DefinedUnfolds(dev: DeviceDescription, dims: ThreadDim, r: nat)
    ensures Defined(dev, dims, r) <==> (Initialized(dev) && r <= dev.registersPerThreadLimit ==>
                                        Computable(dev, r, dims))
  {
  }

  lemma FirstIsVisited(dev: DeviceDescription)
    requires dev.threadsPerWarp > 0
    ensures FirstCount(dev) > 0 ==> Visited(dev, FirstCount(dev))
    ensures forall q: nat :: Visited(dev, q) ==> q <= FirstCount(dev)
  {
  }

  lemma LaterHasStep(dev: DeviceDescription, r: nat)
    requires dev.threadsPerWarp > 0 && Visited(dev, r)
    ensures r == FirstCount(dev) || StepOf(dev) > 0
  {
  }

  /** One step down leaves out no visited count; the step is converted to 64 bits again. */
  lemma NextVisited(dev: DeviceDescription, r: nat)
    requires dev.threadsPerWarp > 0 && Visited(dev, r) && StepOf(dev) != 0
    ensures StepOf(dev) % U64 > 0
    ensures var next := ToInt(RoundDown(r - 1, StepOf(dev) % U64));
            && 0 <= next < r && (next > 0 ==> Visited(dev, next))
            && forall q: nat :: Visited(dev, q) && q > next ==> q >= r
  {
    var step := StepOf(dev);
    ToIntRange(dev.registersPerThreadLimit);
    ToIntRange(dev.registerAllocGranularity / dev.threadsPerWarp);
    hide ToInt;
    if step > 0 {
      StepDown(r, step);
      MultiplesBelow(r, step);
    } else {
      HugeStep(r, step % U64);
      ToIntSmall(0);
    }
  }

  lemma ToIntRange(n: nat)
    ensures ToInt(n) + INT_LIMIT >= 0 && ToInt(n) < INT_LIMIT
  {
  }

  lemma HugeStep(r: nat, step: nat)
    requires 0 < r <= step < U64
    ensures RoundDown(r - 1, step) == 0
  {
    assert (r - 1) / step == 0;
  }

  lemma MultiplesBelow(r: nat, step: nat)
    requires r > 0 && step > 0
    ensures NextCount(r, step) % step == 0
    ensures forall q: nat :: q % step == 0 && NextCount(r, step) < q ==> q >= r
  {
    var k := (r - 1) / step;
    RoundDownBelow(r - 1, step);
    MultipleHasNoRest(k, step);
    forall q: nat | q % step == 0 && k * step < q ensures q >= r {
      RoundDownBelow(q, step);
      MulCancel(k, q / step, step);
      MulMonotone(k + 1, q / step, step);
      assert (k + 1) * step == k * step + step;
    }
  }

  lemma MultipleHasNoRest(k: nat, step: nat)
    requires step > 0
    ensures k * step % step == 0
  {
    RoundDownBelow(k * step, step);
    MulCancelEq(k, k * step / step, step);
  }

  lemma MulCancelEq(k: nat, c: nat, g: nat)
    requires c * g <= k * g < c * g + g
    ensures c == k
  {
    assert (c + 1) * g == c * g + g;
    MulCancel(k, c + 1, g);
    assert g * (k + 1) == k * g + g;
    if c > k {
      MulMonotone(k + 1, c, g);
    }
  }

  lemma StepDown(r: nat, step: nat)
    requires 0 < r < INT_LIMIT && 0 < step < INT_LIMIT
    ensures step % U64 == step && ToInt(RoundDown(r - 1, step % U64)) == NextCount(r, step)
  {
    WrapSmall(NextCount(r, step));
    ToIntSmall(NextCount(r, step));
  }

  /** On searchable devices the result is the one that `SearchResult` describes. */
  lemma {:induction false} GreatestIsSearchFrom(dev: DeviceDescription, smem: nat, dims: ThreadDim, target: nat,
                                                r: nat, result: nat)
    requires Searchable(dev, smem, dims) && IsGreatestVisited(dev, smem, dims, target, result)
    requires result <= r && (r > 0 ==> Visited(dev, r))
    ensures SearchFrom(dev, smem, dims, target, r) == result
    decreases r
  {
    hide Visited, Hits, Meets, ToInt;
    var step := dev.registerAllocGranularity / dev.threadsPerWarp;
    ToIntSmall(step);
    if r > 0 {
      HitsIsMeets(dev, smem, dims, target, r);
      if !Meets(dev, smem, dims, target, r) {
        NextVisited(dev, r);
        VisitedBelow(dev, r);
        StepDown(r, step);
        GreatestIsSearchFrom(dev, smem, dims, target, NextCount(r, step), result);
      }
    }
  }

  lemma VisitedBelow(dev: DeviceDescription, r: nat)
    requires dev.threadsPerWarp > 0 && Visited(dev, r)
    ensures r < INT_LIMIT && r <= FirstCount(dev)
  {
    ToIntRange(dev.registersPerThreadLimit);
  }

  lemma HitsIsMeets(dev: DeviceDescription, smem: nat, dims: ThreadDim, target: nat, r: nat)
    requires Searchable(dev, smem, dims) && Visited(dev, r)
    ensures Hits(dev, smem, dims, target, r) <==> Meets(dev, smem, dims, target, r)
  {
    ToIntSmall(dev.registersPerThreadLimit);
    hide CalculateOccupancy, NoOverflow, RegsPerBlock, ThreadsPerBlock, Initialized, ToInt;
    NoOverflowBelow(dev, r, dev.registersPerThreadLimit, smem, dims);
    ComputedExactly(dev, r, smem, dims);
  }

  /** Where the search runs without overflow, its result is `SearchResult`. */
  lemma ResultIsSearchResult(dev: DeviceDescription, smem: nat, dims: ThreadDim, target: nat, result: nat)
    requires Searchable(dev, smem, dims)
    ensures Runnable(dev, smem, dims, target)
    ensures IsGreatestVisited(dev, smem, dims, target, result) ==> result == SearchResult(dev, smem, dims, target)
  {
    ToIntSmall(dev.registersPerThreadLimit);
    ToIntSmall(dev.registerAllocGranularity / dev.threadsPerWarp);
    hide Hits, Meets, ToInt, NoOverflow, CalculateOccupancy, Visited, Defined, SearchFrom;
    forall r: nat | Visited(dev, r) ensures Defined(dev, dims, r) {
      VisitedIsDefined(dev, smem, dims, r);
    }
    FirstIsVisited(dev);
    if IsGreatestVisited(dev, smem, dims, target, result) {
      VisitedAtMostLimit(dev, result);
      GreatestIsSearchFrom(dev, smem, dims, target, dev.registersPerThreadLimit, result);
    }
  }

  lemma VisitedAtMostLimit(dev: DeviceDescription, r: nat)
    requires dev.threadsPerWarp > 0 && dev.registersPerThreadLimit < INT_LIMIT
    ensures Visited(dev, r) ==> r <= dev.registersPerThreadLimit
  {
  }

  lemma VisitedIsDefined(dev: DeviceDescription, smem: nat, dims: ThreadDim, r: nat)
    requires Searchable(dev, smem, dims) && Visited(dev, r)
    ensures Defined(dev, dims, r)
  {
    ToIntSmall(dev.registersPerThreadLimit);
    hide NoOverflow, RegsPerBlock, ThreadsPerBlock, Initialized, ToInt;
    NoOverflowBelow(dev, r, dev.registersPerThreadLimit, smem, dims);
    ComputedExactly(dev, r, smem, dims);
  }

  /** Inside one granule the number of allocated registers does not change. */
  lemma SameGranule(w: nat, step: nat, q: nat, r: nat)
    requires w > 0 && step > 0 && 0 < r && NextCount(r, step) < q <= r
    ensures w * step > 0 && Multiple(w * q, w * step) == Multiple(w * r, w * step)
  {
    var k := (r - 1) / step;
    ProductPositive(w, step);
    GranuleCount(w, step, k, q);
    GranuleCount(w, step, k, r);
  }

  lemma GranuleCount(w: nat, step: nat, k: nat, q: nat)
    requires w > 0 && step > 0 && k * step < q <= k * step + step
    ensures w * step > 0 && Multiple(w * q, w * step) == k * (w * step) + w * step
  {
    ProductPositive(w, step);
    Exchange(k, w, step);
    Distribute(w, k * step, 1);
    Distribute(w, k * step, step);
    MulMonotone(k * step + 1, q, w);
    MulMonotone(q, k * step + step, w);
    NextMultiple(k, w * step, w * q);
  }

  lemma Exchange(k: nat, w: nat, s: nat)
    ensures k * (w * s) == w * (k * s)
  {
  }

  lemma Distribute(a: nat, b: nat, c: nat)
    ensures a * (b + c) == a * b + a * c
  {
  }

  /** The multiple of `g` that covers a value just above `k` granules. */
  lemma NextMultiple(k: nat, g: nat, v: nat)
    requires g > 0 && k * g < v <= k * g + g
    ensures Multiple(v, g) == k * g + g
  {
    var c := CeilOfRatio(v, g);
    hide CeilOfRatio;
    assert k * g < c * g < k * g + g + g;
    assert (k + 2) * g == k * g + g + g && (k + 1) * g == k * g + g;
    SandwichMultiple(k, c, g);
  }

  lemma SandwichMultiple(k: nat, c: nat, g: nat)
    requires g > 0 && k * g < c * g < (k + 2) * g
    ensures c == k + 1
  {
    MulCancel(k, c, g);
    MulCancel(c, k + 2, g);
  }

  lemma SkippedCountsAgree(dev: DeviceDescription, smem: nat, dims: ThreadDim, target: nat, r: nat, q: nat)
    requires Searchable(dev, smem, dims) && dev.registerAllocGranularity % dev.threadsPerWarp == 0
    requires 0 < r <= dev.registersPerThreadLimit
    requires NextCount(r, dev.registerAllocGranularity / dev.threadsPerWarp) < q <= r
    ensures Meets(dev, smem, dims, target, q) <==> Meets(dev, smem, dims, target, r)
  {
    var step, w := dev.registerAllocGranularity / dev.threadsPerWarp, dev.threadsPerWarp;
    assert w * step == dev.registerAllocGranularity;
    SameGranule(w, step, q, r);
    NoOverflowBelow(dev, r, dev.registersPerThreadLimit, smem, dims);
    NoOverflowBelow(dev, q, dev.registersPerThreadLimit, smem, dims);
    hide CalculateOccupancy, AllocWarps, AllocSmem, Warps, NoOverflow, Initialized, CeilOfRatio, RegsPerBlock,
         ThreadsPerBlock;
    if Initialized(dev) {
      OccupancyIsGreatest(dev, q, smem, dims, target);
      OccupancyIsGreatest(dev, r, smem, dims, target);
    } else {
      MissingField(dev, q, smem, dims);
      MissingField(dev, r, smem, dims);
    }
  }

  lemma MissingField(dev: DeviceDescription, regs: nat, smem: nat, dims: ThreadDim)
    requires !Initialized(dev) && Divides(dev, regs, dims) && NoOverflow(dev, regs, smem, dims)
    ensures Computable(dev, regs, dims) && CalculateOccupancy(dev, regs, smem, dims) == 0
  {
    ComputedExactly(dev, regs, smem, dims);
  }

  lemma {:induction false} SearchFromIsBest(dev: DeviceDescription, smem: nat, dims: ThreadDim, target: nat, r: nat)
    requires Searchable(dev, smem, dims) && dev.registerAllocGranularity % dev.threadsPerWarp == 0
    requires r <= dev.registersPerThreadLimit
    requires forall q :: r < q <= dev.registersPerThreadLimit ==> !Meets(dev, smem, dims, target, q)
    ensures IsBest(dev, smem, dims, target, SearchFrom(dev, smem, dims, target, r))
  {
    hide Meets, NoOverflow, Initialized, NextCount;
    var step := dev.registerAllocGranularity / dev.threadsPerWarp;
    if r > 0 && !Meets(dev, smem, dims, target, r) {
      var next := NextCount(r, step);
      forall q | next < q <= dev.registersPerThreadLimit ensures !Meets(dev, smem, dims, target, q) {
        if q <= r {
          SkippedCountsAgree(dev, smem, dims, target, r, q);
        }
      }
      SearchFromIsBest(dev, smem, dims, target, next);
    }
  }

  /** When a warp's registers are allocated in whole steps, the search is optimal. */
  lemma SearchIsBest(dev: DeviceDescription, smem: nat, dims: ThreadDim, target: nat)
    requires Searchable(dev, smem, dims) && dev.registerAllocGranularity % dev.threadsPerWarp == 0
    ensures IsBest(dev, smem, dims, target, SearchResult(dev, smem, dims, target))
  {
    hide Meets, IsBest, SearchFrom;
    SearchFromIsBest(dev, smem, dims, target, dev.registersPerThreadLimit);
  }

  /** With a step of one nothing is skipped, whatever the granularity. */
  lemma {:induction false} UnitStepIsBest(dev: DeviceDescription, smem: nat, dims: ThreadDim, target: nat, r: nat)
    requires Divides(dev, 1, dims) && dev.registerAllocGranularity / dev.threadsPerWarp == 1
    requires r <= dev.registersPerThreadLimit
    requires forall q :: r < q <= dev.registersPerThreadLimit ==> !Meets(dev, smem, dims, target, q)
    ensures IsBest(dev, smem, dims, target, SearchFrom(dev, smem, dims, target, r))
  {
    hide Meets;
    if r > 0 && !Meets(dev, smem, dims, target, r) {
      UnitStepIsBest(dev, smem, dims, target, r - 1);
    }
  }

  // ---- Otherwise it is not ----

  /** A device of one block whose register file holds exactly `k` granules. */
  function TightDevice(w: nat, g: nat, k: nat, limit: nat): DeviceDescription {
    DeviceDescription(limit, w, 1, g, k * g, 0, 1, 1, w)
  }

  lemma TightSearchable(w: nat, g: nat, k: nat, limit: nat)
    requires 0 < w <= g < INT_LIMIT && 0 < limit < INT_LIMIT && k <= w
    ensures Initialized(TightDevice(w, g, k, limit))
    ensures Searchable(TightDevice(w, g, k, limit), 0, ThreadDim(w, 1, 1))
  {
    hide NoOverflow;
    TightNoOverflow(w, g, k, limit, limit);
    QuotientBound(1, g, w);
    QuotientBound(g / w, g, w);
    MulMonotone(1, w, g / w);
    MulMonotone(k, INT_LIMIT, g);
    MulMonotone(g, INT_LIMIT, INT_LIMIT);
  }

  /** On it a count reaches one block exactly if the warp's registers fit the file. */
  lemma TightDeviceMeets(w: nat, g: nat, k: nat, limit: nat, r: nat)
    requires 0 < w <= g < INT_LIMIT && limit < INT_LIMIT && 0 < r <= limit && k <= w
    ensures Meets(TightDevice(w, g, k, limit), 0, ThreadDim(w, 1, 1), 1, r) <==> w * r <= k * g
  {
    var dev, dims := TightDevice(w, g, k, limit), ThreadDim(w, 1, 1);
    OneWarp(w, g, k, limit);
    TightNoOverflow(w, g, k, limit, r);
    TightSearchable(w, g, k, limit);
    hide CalculateOccupancy, NoOverflow, Initialized, AllocWarps, AllocSmem, Warps, Searchable, RegsPerBlock,
         ThreadsPerBlock, CeilOfRatio;
    OccupancyIsGreatest(dev, r, 0, dims, 1);
    MultipleBound(w * r, g, k);
  }

  lemma OneWarp(w: nat, g: nat, k: nat, limit: nat)
    requires w > 0
    ensures var dev, dims := TightDevice(w, g, k, limit), ThreadDim(w, 1, 1);
            Warps(dev, dims) == 1 && AllocWarps(dev, dims) == 1 && AllocSmem(dev, 0) == 0
  {
    var dev, dims := TightDevice(w, g, k, limit), ThreadDim(w, 1, 1);
    SandwichMultiple(0, Warps(dev, dims), w);
  }

  lemma TightNoOverflow(w: nat, g: nat, k: nat, limit: nat, r: nat)
    requires 0 < w < INT_LIMIT && 0 < g < INT_LIMIT && 0 < r < INT_LIMIT
    ensures NoOverflow(TightDevice(w, g, k, limit), r, 0, ThreadDim(w, 1, 1))
  {
    OneWarp(w, g, k, limit);
    MulMonotone(r, INT_LIMIT, w);
    MulMonotone(w, INT_LIMIT, INT_LIMIT);
  }

  /** A multiple of g that covers v stays within k granules just when v does. */
  lemma MultipleBound(v: nat, g: nat, k: nat)
    requires g > 0
    ensures Multiple(v, g) <= k * g <==> v <= k * g
  {
    var c := CeilOfRatio(v, g);
    assert (k + 1) * g == k * g + g;
    if v <= k * g {
      MulCancel(c, k + 1, g);
      MulMonotone(c, k, g);
    }
  }

  /** If neither the step is one nor the granularity a multiple of the warp, some device
      with these two fields makes the search miss the best count. */
  lemma SearchMissesBest(w: nat, g: nat)
    requires 0 < w <= g < INT_LIMIT - 2 && g / w >= 2 && g % w != 0
    ensures exists dev: DeviceDescription, smem: nat, dims: ThreadDim, target: nat ::
              dev.threadsPerWarp == w && dev.registerAllocGranularity == g && Searchable(dev, smem, dims) &&
              !IsBest(dev, smem, dims, target, SearchResult(dev, smem, dims, target))
  {
    var s := g / w;
    var k := GranulesToDrift(w, g);
    var best := k * s + 1;
    var limit := best + 1;
    var dev, dims := TightDevice(w, g, k, limit), ThreadDim(w, 1, 1);
    TightSearchable(w, g, k, limit);
    TightDeviceMeets(w, g, k, limit, limit);
    TightDeviceMeets(w, g, k, limit, best);
    TightDeviceMeets(w, g, k, limit, k * s);
    FloorOfNext(k, s);
    hide Meets, Searchable, TightDevice;
    assert NextCount(limit, s) == k * s;
    assert SearchResult(dev, 0, dims, 1) == SearchFrom(dev, 0, dims, 1, k * s) == k * s;
    assert !IsBest(dev, 0, dims, 1, k * s);
  }

  /** The granules after which a remainder of registers adds up to one more thread. */
  lemma GranulesToDrift(w: nat, g: nat) returns (k: nat)
    requires 0 < w <= g < INT_LIMIT - 2 && g / w >= 2 && g % w != 0
    ensures 0 < k <= w && 0 < k * (g / w) && k * (g / w) + 2 < INT_LIMIT
    ensures w * (k * (g / w)) <= k * g && w * (k * (g / w) + 1) <= k * g < w * (k * (g / w) + 2)
  {
    var s, m := g / w, g % w;
    assert g == s * w + m;
    k := CeilOfRatio(w, m);
    assert w <= k * m < w + m;
    hide CeilOfRatio;
    GranuleBound(w, g, s, m, k);
    DriftProduct(w, s, m, k);
    Distribute(w, k * s, 1);
    Distribute(w, k * s, 2);
  }

  lemma DriftProduct(w: nat, s: nat, m: nat, k: nat)
    ensures k * (s * w + m) == w * (k * s) + k * m
  {
    Distribute(k, s * w, m);
    Exchange(k, w, s);
  }

  lemma GranuleBound(w: nat, g: nat, s: nat, m: nat, k: nat)
    requires 0 < m < w && s >= 2 && g == s * w + m && k * m < w + m && w <= k * m && g < INT_LIMIT - 2
    ensures 0 < k <= w && 0 < k * s && k * s + 2 < INT_LIMIT && w < INT_LIMIT
  {
    if k > w {
      MulMonotone(w + 1, k, m);
      assert m * (w + 1) == m * w + m;
      MulMonotone(1, m, w);
    }
    ProductPositive(k, s);
    MulMonotone(k, w, s);
    MulMonotone(2, s, w);
  }

  lemma FloorOfNext(k: nat, s: nat)
    requires s >= 2
    ensures (k * s + 1) / s == k
  {
    QuotientBound(k, k * s + 1, s);
    QuotientBound(k + 1, k * s + 1, s);
    assert (k + 1) * s == k * s + s;
  }

  /** For a given warp size and register granularity, the search finds the best count on
      every device, block and target if and only if its step is one or the granularity is
      a multiple of the warp size. */
  lemma SearchExact(w: nat, g: nat)
    requires 0 < w <= g < INT_LIMIT - 2
    ensures (forall dev: DeviceDescription, smem: nat, dims: ThreadDim, target: nat ::
               dev.threadsPerWarp == w && dev.registerAllocGranularity == g && Searchable(dev, smem, dims) ==>
                 IsBest(dev, smem, dims, target, SearchResult(dev, smem, dims, target)))
            <==> g % w == 0 || g / w == 1
  {
    QuotientBound(1, g, w);
    if g % w == 0 || g / w == 1 {
      forall dev: DeviceDescription, smem: nat, dims: ThreadDim, target: nat
        | dev.threadsPerWarp == w && dev.registerAllocGranularity == g && Searchable(dev, smem, dims)
        ensures IsBest(dev, smem, dims, target, SearchResult(dev, smem, dims, target))
      {
        if g % w == 0 {
          SearchIsBest(dev, smem, dims, target);
        } else {
          UnitStepIsBest(dev, smem, dims, target, dev.registersPerThreadLimit);
        }
      }
    } else {
      SearchMissesBest(w, g);
    }
  }
}
