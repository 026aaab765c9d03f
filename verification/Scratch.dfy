/**
 * Scratch space accounting (src/secp256k1/src/scratch_impl.h) and the sizing rules of the
 * multi-multiplication, for a 64-bit build with 52-bit limbs and the endomorphism.
 */
module Scratch {
  import opened Arith
  import opened WnafFixed

  const ALIGNMENT: nat := 16

  // Object sizes in bytes.
  const SIZEOF_INT: nat := 4
  const SIZEOF_FE: nat := 40
  const SIZEOF_SCALAR: nat := 32
  const SIZEOF_GE: nat := 88
  const SIZEOF_GEJ: nat := 128
  const SIZEOF_STRAUSS_POINT_STATE: nat := 1120
  const SIZEOF_PIPPENGER_POINT_STATE: nat := 16
  const SIZEOF_PIPPENGER_STATE: nat := 16

  const STRAUSS_SCRATCH_OBJECTS: nat := 6
  const PIPPENGER_SCRATCH_OBJECTS: nat := 6
  const PIPPENGER_MAX_BUCKET_WINDOW: nat := 12
  const WNAF_BITS: nat := 128

  const MAX_POINTS_PER_BATCH: nat := 5000000
  const PIPPENGER_THRESHOLD: nat := 88

  /** ROUND_TO_ALIGN, in 64-bit arithmetic. */
  function RoundToAlign(size: nat): (r: nat)
    requires size <= SIZE_MAX
    ensures size <= SIZE_MAX - (ALIGNMENT - 1) ==> size <= r < size + ALIGNMENT
    ensures r % ALIGNMENT == 0
  {
    (size + ALIGNMENT - 1) % (SIZE_MAX + 1) / ALIGNMENT * ALIGNMENT
  }

  function Spare(left: nat, objects: nat): nat
  {
    if left <= objects * (ALIGNMENT - 1) then 0 else left - objects * (ALIGNMENT - 1)
  }

  /** secp256k1_scratch */
  class ScratchSpace {
    var allocSize: nat
    const maxSize: nat

    ghost predicate Valid()
      reads this
    {
      allocSize <= maxSize <= SIZE_MAX
    }

    /** secp256k1_scratch_create */
    constructor (size: nat)
      requires size <= SIZE_MAX
      ensures Valid() && allocSize == 0 && maxSize == size
    {
      allocSize := 0;
      maxSize := size;
    }

    /** secp256k1_scratch_checkpoint */
    function Checkpoint(): nat
      reads this
    {
      allocSize
    }

    /** secp256k1_scratch_apply_checkpoint; a checkpoint from the future is refused. */
    method ApplyCheckpoint(checkpoint: nat)
      requires Valid()
      modifies this
      ensures Valid()
      ensures allocSize == if checkpoint > old(allocSize) then old(allocSize) else checkpoint
    {
      if checkpoint > allocSize {
        return;
      }
      allocSize := checkpoint;
    }

    /** secp256k1_scratch_max_allocation: what is left once every object has lost its alignment padding. */
    function MaxAllocation(objects: nat): (r: nat)
      requires Valid()
      reads this
      ensures r + objects * (ALIGNMENT - 1) >= maxSize - allocSize
      ensures r > 0 ==> r + objects * (ALIGNMENT - 1) == maxSize - allocSize
    {
      Spare(maxSize - allocSize, objects)
    }

    /** secp256k1_scratch_alloc; ok is false for NULL. */
    method Alloc(size: nat) returns (ok: bool)
      requires Valid() && size <= SIZE_MAX
      modifies this
      ensures Valid()
      ensures ok == (RoundToAlign(size) <= maxSize - old(allocSize))
      ensures allocSize == old(allocSize) + if ok then RoundToAlign(size) else 0
    {
      var rounded := RoundToAlign(size);
      if rounded > maxSize - allocSize {
        return false;
      }
      allocSize := allocSize + rounded;
      return true;
    }
  }

  // ---- what the maximum allocation is good for ----

  function Total(sizes: seq<nat>): nat
  {
    if sizes == [] then 0 else Total(sizes[..|sizes| - 1]) + sizes[|sizes| - 1]
  }

  function RoundedTotal(sizes: seq<nat>): nat
    requires forall i :: 0 <= i < |sizes| ==> sizes[i] <= SIZE_MAX
  {
    if sizes == [] then 0 else RoundedTotal(sizes[..|sizes| - 1]) + RoundToAlign(sizes[|sizes| - 1])
  }

  lemma {:induction false} TotalBound(sizes: seq<nat>, i: nat)
    requires i < |sizes|
    ensures sizes[i] <= Total(sizes)
  {
    if i < |sizes| - 1 { TotalBound(sizes[..|sizes| - 1], i); }
  }

  lemma {:induction false} Padding(sizes: seq<nat>)
    requires Total(sizes) <= SIZE_MAX - (ALIGNMENT - 1)
    requires forall i :: 0 <= i < |sizes| ==> sizes[i] <= SIZE_MAX
    ensures Total(sizes) <= RoundedTotal(sizes) <= Total(sizes) + |sizes| * (ALIGNMENT - 1)
    ensures Total(sizes) == 0 ==> RoundedTotal(sizes) == 0
  {
    hide RoundToAlign;
    if sizes != [] {
      Padding(sizes[..|sizes| - 1]);
      RoundOne(sizes[|sizes| - 1]);
    }
  }

  lemma RoundOne(size: nat)
    requires size <= SIZE_MAX - (ALIGNMENT - 1)
    ensures size <= RoundToAlign(size) <= size + ALIGNMENT - 1 && (size == 0 ==> RoundToAlign(size) == 0)
  {
  }

  /** Whatever the sizes of at most `objects` requests, they fit if they add up to no more than the answer. */
  lemma MaxAllocationSuffices(scratch: ScratchSpace, objects: nat, sizes: seq<nat>)
    requires scratch.Valid() && |sizes| <= objects && Total(sizes) <= scratch.MaxAllocation(objects)
    ensures forall i :: 0 <= i < |sizes| ==> sizes[i] <= SIZE_MAX
    ensures RoundedTotal(sizes) <= scratch.maxSize - scratch.allocSize
  {
    forall i | 0 <= i < |sizes|
      ensures sizes[i] <= SIZE_MAX
    {
      TotalBound(sizes, i);
    }
    if objects > 0 {
      Padding(sizes);
    }
  }

  // ---- bucket windows ----

  /** secp256k1_pippenger_bucket_window. The window 8 is never chosen. */
  function BucketWindow(n: nat): (w: nat)
    ensures 1 <= w <= PIPPENGER_MAX_BUCKET_WINDOW
  {
    if n <= 1 then 1
    else if n <= 4 then 2
    else if n <= 20 then 3
    else if n <= 57 then 4
    else if n <= 136 then 5
    else if n <= 235 then 6
    else if n <= 1260 then 7
    else if n <= 4420 then 9
    else if n <= 7880 then 10
    else if n <= 16050 then 11
    else PIPPENGER_MAX_BUCKET_WINDOW
  }

  /** secp256k1_pippenger_bucket_window_inv */
  function BucketWindowInv(w: nat): nat
  {
    match w
    case 1 => 1
    case 2 => 4
    case 3 => 20
    case 4 => 57
    case 5 => 136
    case 6 => 235
    case 7 => 1260
    case 8 => 1260
    case 9 => 4420
    case 10 => 7880
    case 11 => 16050
    case 12 => SIZE_MAX
    case _ => 0
  }

  /** The two tables are adjoint: w suffices for n points exactly when n is at most the inverse of w. */
  lemma WindowAdjoint(n: nat, w: nat)
    requires n <= SIZE_MAX && 1 <= w <= PIPPENGER_MAX_BUCKET_WINDOW
    ensures n <= BucketWindowInv(w) <==> BucketWindow(n) <= w
  {
    if w <= 6 { } else { }
  }

  // ---- memory needs ----

  /** Bytes for one entry of a bucket multiplication. */
  function EntrySize(w: nat): (r: nat)
    requires w <= PIPPENGER_MAX_BUCKET_WINDOW
    ensures r > 0
  {
    SIZEOF_GE + SIZEOF_SCALAR + SIZEOF_PIPPENGER_POINT_STATE + (WnafSize(WNAF_BITS, w + 1) + 1) * SIZEOF_INT
  }

  /** secp256k1_pippenger_scratch_size */
  function PippengerScratchSize(n: nat, w: nat): nat
    requires w <= PIPPENGER_MAX_BUCKET_WINDOW
  {
    SIZEOF_GEJ * Pow2(w) + SIZEOF_PIPPENGER_STATE + (2 * n + 2) * EntrySize(w)
  }

  /** n points, with the window chosen for them, fit into maxAlloc bytes. */
  predicate Fits(n: nat, maxAlloc: nat)
  {
    PippengerScratchSize(n, BucketWindow(n)) <= maxAlloc
  }

  /** Bytes needed by n points in window w: linear in n. */
  lemma Linear(n: nat, w: nat)
    requires w <= PIPPENGER_MAX_BUCKET_WINDOW
    ensures PippengerScratchSize(n, w)
      == SIZEOF_GEJ * Pow2(w) + SIZEOF_PIPPENGER_STATE + 2 * EntrySize(w) + n * (2 * EntrySize(w))
  {
    hide Pow2, EntrySize;
    var e := EntrySize(w);
    assert (2 * n + 2) * e == 2 * e + n * (2 * e);
  }

  /** The division in the sizing loop is exact: it yields the largest number of points that fits. */
  lemma QuotientFits(n: nat, w: nat, maxAlloc: nat, overhead: nat)
    requires w <= PIPPENGER_MAX_BUCKET_WINDOW
    requires overhead == SIZEOF_GEJ * Pow2(w) + 2 * EntrySize(w) + SIZEOF_PIPPENGER_STATE
    ensures overhead <= maxAlloc
      ==> (n <= (maxAlloc - overhead) / (2 * EntrySize(w)) <==> PippengerScratchSize(n, w) <= maxAlloc)
    ensures overhead > maxAlloc ==> PippengerScratchSize(n, w) > maxAlloc
  {
    hide Pow2, EntrySize, PippengerScratchSize;
    Linear(n, w);
    var e := 2 * EntrySize(w);
    MulMono(e, 0, n);
    if overhead <= maxAlloc {
      var space := maxAlloc - overhead;
      var q := space / e;
      if n <= q {
        MulMono(e, n, q);
      } else {
        MulMono(e, q + 1, n);
        MulDist(e, q, 1);
      }
    }
  }

  /** More points need more bytes. */
  lemma MorePoints(m: nat, n: nat, w: nat)
    requires m <= n && w <= PIPPENGER_MAX_BUCKET_WINDOW
    ensures PippengerScratchSize(m, w) <= PippengerScratchSize(n, w)
  {
    hide Pow2, EntrySize;
    MulMono(EntrySize(w), 2 * m + 2, 2 * n + 2);
  }

  /** The unused window 8 can be skipped: what fits 1261 points in window 9 fits 1260 in window 8. */
  lemma SkippedWindow()
    ensures PippengerScratchSize(1260, 8) < PippengerScratchSize(1261, 9)
  {
    assert Pow2(8) == 256 && Pow2(9) == 512;
    assert WnafSize(WNAF_BITS, 9) == 15 && WnafSize(WNAF_BITS, 10) == 13;
  }

  lemma SkippedValues()
    ensures BucketWindowInv(7) == BucketWindowInv(8) == 1260 && BucketWindow(1261) == 9
  {
  }

  /** All windows below w are full: every number of points that chooses one of them fits. */
  ghost predicate FullBelow(w: nat, maxAlloc: nat)
  {
    forall m: nat :: m <= (if w <= 1 then 0 else BucketWindowInv(w - 1)) && (w > 1 || m > 0) ==> Fits(m, maxAlloc)
  }

  /** A full window extends the guarantee. */
  lemma FullWindow(w: nat, maxAlloc: nat)
    requires 1 <= w <= PIPPENGER_MAX_BUCKET_WINDOW && FullBelow(w, maxAlloc) && maxAlloc <= SIZE_MAX
    requires PippengerScratchSize(BucketWindowInv(w), w) <= maxAlloc
    ensures FullBelow(w + 1, maxAlloc)
  {
    hide Pow2, EntrySize, PippengerScratchSize, BucketWindow, BucketWindowInv;
    forall m: nat | m <= BucketWindowInv(w)
      ensures Fits(m, maxAlloc)
    {
      InvRange(w);
      WindowAdjoint(m, w);
      if w > 1 { WindowAdjoint(m, w - 1); }
      if BucketWindow(m) == w {
        MorePoints(m, BucketWindowInv(w), w);
      }
    }
  }

  lemma InvRange(w: nat)
    requires 1 <= w <= PIPPENGER_MAX_BUCKET_WINDOW
    ensures 0 < BucketWindowInv(w) <= SIZE_MAX
    ensures w > 1 ==> BucketWindowInv(w - 1) <= BucketWindowInv(w)
    ensures w > 1 && w != 8 ==> BucketWindowInv(w - 1) < BucketWindowInv(w)
    ensures if w < PIPPENGER_MAX_BUCKET_WINDOW then BucketWindowInv(w) <= 16050 else BucketWindowInv(w) == SIZE_MAX
  {
    if w <= 6 { } else { }
  }

  /** The window that is not full decides: res points fit, with everything below, and res + 1 do not. */
  lemma LastWindow(w: nat, maxAlloc: nat, n: nat, res: nat)
    requires 1 <= w <= PIPPENGER_MAX_BUCKET_WINDOW && FullBelow(w, maxAlloc) && maxAlloc <= SIZE_MAX
    requires n < BucketWindowInv(w) && n < SIZE_MAX
    requires n > 0 ==> PippengerScratchSize(n, w) <= maxAlloc
    requires forall k: nat :: k > n ==> PippengerScratchSize(k, w) > maxAlloc
    requires var full := if w == 1 then 0 else BucketWindowInv(w - 1); res == if n > full then n else full
    ensures forall m: nat :: 0 < m <= res ==> Fits(m, maxAlloc)
    ensures !Fits(res + 1, maxAlloc)
  {
    hide Pow2, EntrySize, PippengerScratchSize, BucketWindow, BucketWindowInv;
    InvRange(w);
    forall m: nat | 0 < m <= res
      ensures Fits(m, maxAlloc)
    {
      WindowAdjoint(m, w);
      if w > 1 { WindowAdjoint(m, w - 1); InvRange(w - 1); }
      if m <= n && BucketWindow(m) == w {
        MorePoints(m, n, w);
      }
    }
    if w == 8 {
      SkippedWindow();
      SkippedValues();
    } else {
      WindowAdjoint(res + 1, w);
      if w > 1 { WindowAdjoint(res + 1, w - 1); InvRange(w - 1); }
    }
  }
}
