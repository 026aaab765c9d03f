/**
 * secp256k1_ecmult_multi_var: picks an algorithm, splits the input into batches that fit the
 * scratch space, and adds up the batch results.
 */
module Multi {
  import opened Arith
  import opened Scalars
  import opened WnafFixed
  import opened Field
  import opened Curve
  import opened Jacobian
  import opened BatchInverse
  import opened Endomorphism
  import opened Generator
  import opened Sums
  import opened Strauss
  import opened Tables
  import opened Pippenger
  import opened Scratch

  /** What the callback answers for one index; a missing answer is its failure. */
  datatype Term = Term(scalar: Scalar, point: Ge)

  ghost predicate Answers(cb: seq<Option<Term>>, pts: seq<CurvePoint>)
  {
    && |cb| == |pts|
    && forall i :: 0 <= i < |cb| && cb[i].Some? ==> RepGe(cb[i].value.point, 1, pts[i])
  }

  ghost predicate AllAnswered(cb: seq<Option<Term>>, lo: nat, hi: nat)
    requires hi <= |cb|
  {
    forall i :: lo <= i < hi ==> cb[i].Some?
  }

  ghost function Coefficient(t: Option<Term>): int
  {
    if t.Some? then t.value.scalar else 0
  }

  ghost function Coefficients(cb: seq<Option<Term>>): (ks: seq<int>)
    ensures |ks| == |cb|
  {
    seq(|cb|, i requires 0 <= i < |cb| => Coefficient(cb[i]))
  }

  /** The terms from lo up to hi, added up. */
  ghost function SumOf(cb: seq<Option<Term>>, pts: seq<CurvePoint>, lo: nat, hi: nat): CurvePoint
    requires lo <= hi <= |cb| == |pts|
  {
    MultiSum(Coefficients(cb)[lo..hi], pts[lo..hi])
  }

  lemma SumOfNone(cb: seq<Option<Term>>, pts: seq<CurvePoint>, lo: nat)
    requires lo <= |cb| == |pts|
    ensures SumOf(cb, pts, lo, lo) == Infinity
  {
  }

  lemma SumOfStep(cb: seq<Option<Term>>, pts: seq<CurvePoint>, lo: nat, hi: nat)
    requires lo <= hi < |cb| == |pts|
    ensures SumOf(cb, pts, lo, hi + 1) == CurveAdd(SumOf(cb, pts, lo, hi), Mul(Coefficient(cb[hi]), pts[hi]))
  {
    hide CurveAdd, Mul, Coefficient, OnCurve;
    var ks := Coefficients(cb);
    assert ks[lo..hi + 1][..hi - lo] == ks[lo..hi] && pts[lo..hi + 1][..hi - lo] == pts[lo..hi];
  }

  lemma SumOfJoin(cb: seq<Option<Term>>, pts: seq<CurvePoint>, lo: nat, mid: nat, hi: nat)
    requires CurveFacts() && lo <= mid <= hi <= |cb| == |pts|
    ensures SumOf(cb, pts, lo, hi) == CurveAdd(SumOf(cb, pts, lo, mid), SumOf(cb, pts, mid, hi))
  {
    hide CurveFacts, CurveAdd, MultiSum, Coefficient, OnCurve;
    var ks := Coefficients(cb);
    MultiSumConcat(ks[lo..mid], pts[lo..mid], ks[mid..hi], pts[mid..hi]);
    assert ks[lo..mid] + ks[mid..hi] == ks[lo..hi] && pts[lo..mid] + pts[mid..hi] == pts[lo..hi];
  }

  // ---- sizing ----

  /** Whether window w has room for any points at all, and for how many of those it is meant for. */
  method WindowCapacity(bucketWindow: nat, maxAlloc: nat) returns (fits: bool, nPoints: nat)
    requires 1 <= bucketWindow <= PIPPENGER_MAX_BUCKET_WINDOW && maxAlloc <= SIZE_MAX
    ensures !fits ==> nPoints == 0 && forall k: nat :: PippengerScratchSize(k, bucketWindow) > maxAlloc
    ensures fits ==> PippengerScratchSize(nPoints, bucketWindow) <= maxAlloc
    ensures nPoints <= BucketWindowInv(bucketWindow) && nPoints < SIZE_MAX
    ensures nPoints < BucketWindowInv(bucketWindow) ==>
      forall k: nat :: k > nPoints ==> PippengerScratchSize(k, bucketWindow) > maxAlloc
  {
    hide Pow2, BucketWindowInv, EntrySize, PippengerScratchSize;
    InvRange(bucketWindow);
    var maxPoints := BucketWindowInv(bucketWindow);
    var entrySize := 2 * EntrySize(bucketWindow);
    var spaceOverhead := SIZEOF_GEJ * Pow2(bucketWindow) + entrySize + SIZEOF_PIPPENGER_STATE;
    forall k: nat
      ensures spaceOverhead <= maxAlloc
        ==> (k <= (maxAlloc - spaceOverhead) / entrySize <==> PippengerScratchSize(k, bucketWindow) <= maxAlloc)
      ensures spaceOverhead > maxAlloc ==> PippengerScratchSize(k, bucketWindow) > maxAlloc
    {
      QuotientFits(k, bucketWindow, maxAlloc, spaceOverhead);
    }
    if spaceOverhead > maxAlloc {
      return false, 0;
    }
    var spaceForPoints := maxAlloc - spaceOverhead;
    nPoints := spaceForPoints / entrySize;
    QuotientSmall(spaceForPoints, entrySize);
    nPoints := if nPoints > maxPoints then maxPoints else nPoints;
    fits := true;
  }

  /** secp256k1_pippenger_max_points: the largest number of points such that it and every smaller one fit. */
  method PippengerMaxPoints(scratch: ScratchSpace) returns (res: nat)
    requires scratch.Valid()
    ensures forall m: nat :: 0 < m <= res ==> Fits(m, scratch.MaxAllocation(PIPPENGER_SCRATCH_OBJECTS))
    ensures !Fits(res + 1, scratch.MaxAllocation(PIPPENGER_SCRATCH_OBJECTS))
  {
    hide Pow2, Fits, FullBelow, BucketWindowInv, EntrySize, PippengerScratchSize;
    var maxAlloc := scratch.MaxAllocation(PIPPENGER_SCRATCH_OBJECTS);
    res := 0;
    FullStart(maxAlloc);
    var bucketWindow := 1;
    while bucketWindow <= PIPPENGER_MAX_BUCKET_WINDOW
      invariant 1 <= bucketWindow <= PIPPENGER_MAX_BUCKET_WINDOW
      invariant res == if bucketWindow == 1 then 0 else BucketWindowInv(bucketWindow - 1)
      invariant FullBelow(bucketWindow, maxAlloc)
      decreases PIPPENGER_MAX_BUCKET_WINDOW - bucketWindow
    {
      ghost var full := res;
      InvRange(bucketWindow);
      var maxPoints := BucketWindowInv(bucketWindow);
      var fits, nPoints := WindowCapacity(bucketWindow, maxAlloc);
      if !fits {
        LastWindow(bucketWindow, maxAlloc, 0, res);
        break;
      }
      if nPoints > res {
        res := nPoints;
      }
      if nPoints < maxPoints {
        LastWindow(bucketWindow, maxAlloc, nPoints, res);
        break;
      }
      // The last window has no upper limit, so this point is never reached with it.
      FullWindow(bucketWindow, maxAlloc);
      bucketWindow := bucketWindow + 1;
    }
  }

  lemma FullStart(maxAlloc: nat)
    ensures FullBelow(1, maxAlloc)
  {
  }

  lemma QuotientSmall(x: nat, d: nat)
    requires d >= 2 && x <= SIZE_MAX
    ensures 0 <= x / d < SIZE_MAX
  {
  }

  const STRAUSS_POINT_SIZE: nat := (2 * SIZEOF_GE + SIZEOF_GEJ + SIZEOF_FE) * TABLE_A
    + SIZEOF_STRAUSS_POINT_STATE + SIZEOF_GEJ + SIZEOF_SCALAR

  /** secp256k1_strauss_scratch_size */
  function StraussScratchSize(n: nat): nat
  {
    n * STRAUSS_POINT_SIZE
  }

  /** secp256k1_strauss_max_points: the largest number of points that fits. */
  function StraussMaxPoints(scratch: ScratchSpace): (n: nat)
    requires scratch.Valid()
    reads scratch
    ensures forall m: nat :: m <= n <==> StraussScratchSize(m) <= scratch.MaxAllocation(STRAUSS_SCRATCH_OBJECTS)
  {
    scratch.MaxAllocation(STRAUSS_SCRATCH_OBJECTS) / STRAUSS_POINT_SIZE
  }

  function Min(a: nat, b: nat): nat
  {
    if a <= b then a else b
  }

  /** q is the smallest number with d*q >= n. */
  predicate IsCeiling(n: nat, d: nat, q: nat)
  {
    q > 0 && d * (q - 1) < n <= d * q
  }

  /** nBatches batches of at most nBatchPoints cover n points, the last one partly and no one empty. */
  predicate Covers(n: nat, nBatches: nat, nBatchPoints: nat)
  {
    0 < nBatches && 0 < nBatchPoints && nBatchPoints * (nBatches - 1) < n <= nBatchPoints * nBatches
  }

  /**
   * secp256k1_ecmult_multi_batch_size_helper: as few batches as the limit allows, of almost equal
   * size; they cover the n points and none of them is empty.
   */
  method BatchSizeHelper(maxBatchPoints: nat, n: nat) returns (ok: bool, nBatches: nat, nBatchPoints: nat)
    ensures ok <==> maxBatchPoints > 0
    ensures ok && n == 0 ==> nBatches == 0 && nBatchPoints == 0
    ensures ok && n > 0 ==>
      nBatchPoints <= Min(maxBatchPoints, MAX_POINTS_PER_BATCH) && Covers(n, nBatches, nBatchPoints)
    ensures ok && n > 0 ==>
      IsCeiling(n, Min(maxBatchPoints, MAX_POINTS_PER_BATCH), nBatches) && IsCeiling(n, nBatches, nBatchPoints)
  {
    hide IsCeiling, Covers;
    if maxBatchPoints == 0 {
      return false, 0, 0;
    }
    var limit := maxBatchPoints;
    if limit > MAX_POINTS_PER_BATCH {
      limit := MAX_POINTS_PER_BATCH;
    }
    if n == 0 {
      return true, 0, 0;
    }
    QuotientNonNegative(n - 1, limit);
    nBatches := 1 + (n - 1) / limit;
    QuotientNonNegative(n - 1, nBatches);
    nBatchPoints := 1 + (n - 1) / nBatches;
    CeilDiv(n, limit);
    CeilDiv(n, nBatches);
    BatchBounds(n, limit, nBatches, nBatchPoints);
    return true, nBatches, nBatchPoints;
  }

  lemma CeilDiv(n: nat, d: nat)
    requires n > 0 && d > 0 && (n - 1) / d >= 0
    ensures IsCeiling(n, d, 1 + (n - 1) / d)
  {
    MulDist(d, (n - 1) / d, 1);
  }

  lemma BatchBounds(n: nat, limit: nat, b: nat, p: nat)
    requires n > 0 && limit > 0 && IsCeiling(n, limit, b) && IsCeiling(n, b, p)
    ensures p <= limit && Covers(n, b, p)
  {
    Swap(limit, b);
    if p > limit { MulMono(b, limit, p - 1); }
    MulMono(b - 1, p, limit);
    Swap(p, b - 1);
    Swap(limit, b - 1);
    Swap(p, b);
  }

  /** Every index belongs to exactly one batch, and the last batch ends at n. */
  lemma {:induction false} Partition(n: nat, nBatches: nat, nBatchPoints: nat, k: nat)
    requires Covers(n, nBatches, nBatchPoints) && k < n
    ensures exists i: nat :: i < nBatches && InBatch(n, nBatchPoints, i, k)
    ensures forall i: nat, j: nat :: InBatch(n, nBatchPoints, i, k) && InBatch(n, nBatchPoints, j, k) ==> i == j
  {
    var i := k / nBatchPoints;
    QuotientNonNegative(k, nBatchPoints);
    MulDist(nBatchPoints, i, 1);
    if i >= nBatches { MulMono(nBatchPoints, nBatches, i); }
    assert InBatch(n, nBatchPoints, i, k);
    forall a: nat, b: nat | InBatch(n, nBatchPoints, a, k) && InBatch(n, nBatchPoints, b, k)
      ensures a == b
    {
      DivModUnique(k, nBatchPoints, a, k - nBatchPoints * a);
      DivModUnique(k, nBatchPoints, b, k - nBatchPoints * b);
    }
  }

  /** Batch i holds the indices from its offset up to the offset of the next, or up to n. */
  ghost predicate InBatch(n: nat, nBatchPoints: nat, i: nat, k: nat)
  {
    var offset := nBatchPoints * i;
    offset <= k && k < n && k < offset + nBatchPoints
  }

  // ---- one batch with Strauss' algorithm ----

  /** What the five allocations whose result is looked at take from the scratch space. */
  function StraussChecked(n: nat): nat
    requires n <= MAX_POINTS_PER_BATCH
  {
    RoundToAlign(n * SIZEOF_GEJ) + RoundToAlign(n * SIZEOF_SCALAR) + RoundToAlign(n * TABLE_A * SIZEOF_GEJ)
    + RoundToAlign(n * TABLE_A * SIZEOF_FE) + RoundToAlign(n * 2 * TABLE_A * SIZEOF_GE)
  }

  /** ... and the sixth, which goes unchecked. */
  function StraussUnchecked(n: nat): nat
    requires n <= MAX_POINTS_PER_BATCH
  {
    RoundToAlign(n * SIZEOF_STRAUSS_POINT_STATE)
  }

  /** If the five checked allocations succeed then so does the unchecked one. */
  predicate StraussSafe(scratch: ScratchSpace, n: nat)
    requires scratch.Valid() && n <= MAX_POINTS_PER_BATCH
    reads scratch
  {
    var left := scratch.maxSize - scratch.allocSize;
    StraussChecked(n) <= left ==> StraussChecked(n) + StraussUnchecked(n) <= left
  }

  /** The five checked allocations succeed. */
  predicate StraussGranted(scratch: ScratchSpace, n: nat)
    requires scratch.Valid() && n <= MAX_POINTS_PER_BATCH
    reads scratch
  {
    StraussChecked(n) <= scratch.maxSize - scratch.allocSize
  }

  lemma RoundExact(size: nat, k: nat)
    requires size == 16 * k <= SIZE_MAX - ALIGNMENT
    ensures RoundToAlign(size) == size
  {
  }

  /** The six allocations take what the sizing rule says, to the byte. */
  lemma StraussSize(n: nat)
    requires n <= MAX_POINTS_PER_BATCH
    ensures StraussChecked(n) + StraussUnchecked(n) == StraussScratchSize(n) == 4032 * n
  {
    hide RoundToAlign;
    RoundExact(n * SIZEOF_GEJ, 8 * n);
    RoundExact(n * SIZEOF_SCALAR, 2 * n);
    RoundExact(n * TABLE_A * SIZEOF_GEJ, 64 * n);
    RoundExact(n * TABLE_A * SIZEOF_FE, 20 * n);
    RoundExact(n * 2 * TABLE_A * SIZEOF_GE, 88 * n);
    RoundExact(n * SIZEOF_STRAUSS_POINT_STATE, 70 * n);
  }

  /** Within the advertised number of points all six allocations succeed. */
  lemma StraussFits(scratch: ScratchSpace, n: nat)
    requires scratch.Valid() && n <= MAX_POINTS_PER_BATCH && n <= StraussMaxPoints(scratch)
    ensures StraussChecked(n) + StraussUnchecked(n) <= scratch.maxSize - scratch.allocSize
  {
    hide RoundToAlign;
    assert StraussScratchSize(n) <= scratch.MaxAllocation(STRAUSS_SCRATCH_OBJECTS);
    if n == 0 { RoundZero(); }
  }

  lemma RoundZero()
    ensures RoundToAlign(0) == 0
  {
  }

  /**
   * A scratch space whose free part has 2912 to 4031 bytes passes every check for a single point, but
   * has no room left for the last allocation.
   */
  lemma UncheckedAllocation(scratch: ScratchSpace)
    requires scratch.Valid()
    ensures StraussGranted(scratch, 1) && !StraussSafe(scratch, 1)
      <==> 2912 <= scratch.maxSize - scratch.allocSize < 4032
  {
  }

  /**
   * The six allocations of a Strauss batch. ok says whether the five that are checked succeeded, ps
   * whether the last one did; the batch is safe exactly when the first never goes without the second.
   */
  method AllocateStrauss(scratch: ScratchSpace, nPoints: nat) returns (ok: bool, ps: bool)
    requires scratch.Valid() && nPoints <= MAX_POINTS_PER_BATCH
    modifies scratch
    ensures (ok ==> ps) <==> old(StraussSafe(scratch, nPoints))
    ensures scratch.Valid() && scratch.allocSize >= old(scratch.allocSize)
    ensures ok <==> StraussChecked(nPoints) <= scratch.maxSize - old(scratch.allocSize)
    ensures ok && ps ==>
      scratch.allocSize == old(scratch.allocSize) + StraussChecked(nPoints) + StraussUnchecked(nPoints)
  {
    hide RoundToAlign;
    var points := scratch.Alloc(nPoints * SIZEOF_GEJ);
    var scalars := scratch.Alloc(nPoints * SIZEOF_SCALAR);
    var prej := scratch.Alloc(nPoints * TABLE_A * SIZEOF_GEJ);
    var zr := scratch.Alloc(nPoints * TABLE_A * SIZEOF_FE);
    var preA := scratch.Alloc(nPoints * 2 * TABLE_A * SIZEOF_GE);
    ps := scratch.Alloc(nPoints * SIZEOF_STRAUSS_POINT_STATE);
    ok := points && scalars && prej && zr && preA;
  }

  lemma AnswerAt(cb: seq<Option<Term>>, pts: seq<CurvePoint>, i: nat)
    requires Answers(cb, pts) && i < |cb| && cb[i].Some?
    ensures RepGe(cb[i].value.point, 1, pts[i]) && Rep(GejSetGe(cb[i].value.point), 1, pts[i])
  {
  }

  predicate NothingToDo(ng: Option<Scalar>, nPoints: nat)
  {
    ng.None? && nPoints == 0
  }

  /** secp256k1_ecmult_strauss_batch; it uses its last allocation without looking at the result. */
  method StraussBatch(ctx: EcmultContext, scratch: ScratchSpace, ng: Option<Scalar>, cb: seq<Option<Term>>,
      nPoints: nat, cbOffset: nat,
      ghost pts: seq<CurvePoint>)
    returns (ok: bool, r: Gej)
    requires CurveFacts() && Cyclic() && ctx.Valid() && (ng.Some? ==> ctx.IsBuilt())
    requires Answers(cb, pts) && cbOffset + nPoints <= |cb|
    requires scratch.Valid() && nPoints <= MAX_POINTS_PER_BATCH && StraussSafe(scratch, nPoints)
    modifies scratch
    ensures scratch.Valid() && scratch.allocSize == old(scratch.allocSize)
    ensures ok <==>
      NothingToDo(ng, nPoints) || (StraussGranted(scratch, nPoints) && AllAnswered(cb, cbOffset, cbOffset + nPoints))
    ensures ok ==> |cb| == |pts| && Rep(r, 1, CurveAdd(SumOf(cb, pts, cbOffset, cbOffset + nPoints), GTerm(ng)))
  {
    hide CurveFacts, Cyclic, CurveAdd, Mul, Rep, GTerm, G, MultiSum, Answers, Coefficient, Coefficients, TableSize,
      IsTable, AllAnswered, StraussChecked, StraussUnchecked, StraussSafe, OnCurve;
    AnswersLength(cb, pts);
    var checkpoint := scratch.Checkpoint();
    r := GejSetInfinity();
    InfinityRep(1);
    if ng.None? && nPoints == 0 {
      SumOfNone(cb, pts, cbOffset);
      AddInfinity(Infinity);
      NoTerm();
      return true, r;
    }
    var granted, _ := AllocateStrauss(scratch, nPoints);
    if !granted {
      scratch.ApplyCheckpoint(checkpoint);
      return false, r;
    }
    var points := new Gej[nPoints](_ => GejSetInfinity());
    var scalars := new Scalar[nPoints](_ => 0);
    ok := LoadPoints(points, scalars, cb, cbOffset, pts);
    if !ok {
      scratch.ApplyCheckpoint(checkpoint);
      return false, r;
    }
    r := StraussOnHeap(ctx, points[..], scalars[..], ng, pts[cbOffset..cbOffset + nPoints]);
    scratch.ApplyCheckpoint(checkpoint);
  }

  /** Loads the answers of the callback; ok is false when one is missing. */
  method LoadPoints(points: array<Gej>, scalars: array<Scalar>, cb: seq<Option<Term>>, cbOffset: nat,
      ghost pts: seq<CurvePoint>) returns (ok: bool)
    requires scalars != points as object && scalars.Length == points.Length
    requires Answers(cb, pts) && cbOffset + points.Length <= |cb| == |pts|
    modifies points, scalars
    ensures ok <==> AllAnswered(cb, cbOffset, cbOffset + points.Length)
    ensures ok ==> forall k :: 0 <= k < points.Length ==> Rep(points[k], 1, pts[cbOffset + k])
    ensures ok ==> scalars[..] == Coefficients(cb)[cbOffset..cbOffset + points.Length]
  {
    hide Rep, Answers, Coefficient, OnCurve;
    for i := 0 to points.Length
      invariant AllAnswered(cb, cbOffset, cbOffset + i)
      invariant forall k :: 0 <= k < i ==> Rep(points[k], 1, pts[cbOffset + k])
      invariant forall k :: 0 <= k < i ==> scalars[k] == Coefficient(cb[cbOffset + k])
    {
      var answer := cb[i + cbOffset];
      if answer.None? {
        return false;
      }
      AnswerAt(cb, pts, i + cbOffset);
      CoefficientIs(answer);
      scalars[i] := answer.value.scalar;
      points[i] := GejSetGe(answer.value.point);
    }
    ok := true;
  }

  lemma AnswersLength(cb: seq<Option<Term>>, pts: seq<CurvePoint>)
    requires Answers(cb, pts)
    ensures |cb| == |pts|
  {
  }

  lemma CoefficientIs(t: Option<Term>)
    requires t.Some?
    ensures Coefficient(t) == t.value.scalar
  {
  }

  lemma NoTerm()
    ensures GTerm(None) == Infinity
  {
  }

  /** secp256k1_ecmult_strauss_wnaf on freshly allocated tables. */
  method StraussOnHeap(ctx: EcmultContext, a: seq<Gej>, na: seq<Scalar>, ng: Option<Scalar>,
      ghost pts: seq<CurvePoint>) returns (r: Gej)
    requires CurveFacts() && Cyclic() && ctx.Valid() && (ng.Some? ==> ctx.IsBuilt())
    requires |a| == |na| == |pts| && forall i :: 0 <= i < |a| ==> Rep(a[i], 1, pts[i])
    ensures Rep(r, 1, CurveAdd(MultiSum(na, pts), GTerm(ng)))
  {
    hide CurveFacts, Cyclic, CurveAdd, Mul, Rep, GTerm, MultiSum, G, TableSize, IsTable, OnCurve;
    var infinity := GejSetInfinity();
    var prej := new Gej[TABLE_A * |a|](_ => infinity);
    var zr := new Fe[TABLE_A * |a|](_ => FeSetInt(1));
    var preA := new Ge[TABLE_A * |a|](_ => ConstG());
    var preALam := new Ge[TABLE_A * |a|](_ => ConstG());
    var state := new PointState[|a|](_ => PointState(0, [], 0, [], 0));
    r := StraussWnaf(ctx, prej, zr, preA, preALam, state, a, na, ng, pts);
  }

  // ---- one batch with Pippenger's algorithm ----

  /** What the six allocations of a bucket multiplication take from the scratch space. */
  function PippengerFirst(n: nat): nat
    requires n <= MAX_POINTS_PER_BATCH
  {
    RoundToAlign((2 * n + 2) * SIZEOF_GE) + RoundToAlign((2 * n + 2) * SIZEOF_SCALAR)
      + RoundToAlign(SIZEOF_PIPPENGER_STATE)
  }

  function PippengerSecond(n: nat, w: nat): nat
    requires n <= MAX_POINTS_PER_BATCH && 1 <= w <= PIPPENGER_MAX_BUCKET_WINDOW
  {
    PippengerSizes(n, w);
    RoundToAlign((2 * n + 2) * SIZEOF_PIPPENGER_POINT_STATE)
      + RoundToAlign((2 * n + 2) * WnafSize(WNAF_BITS, w + 1) * SIZEOF_INT)
    + RoundToAlign(Pow2(w) * SIZEOF_GEJ)
  }

  /** All six allocations succeed. */
  predicate PippengerGranted(scratch: ScratchSpace, n: nat)
    requires scratch.Valid() && n <= MAX_POINTS_PER_BATCH
    reads scratch
  {
    PippengerFirst(n) + PippengerSecond(n, BucketWindow(n)) <= scratch.maxSize - scratch.allocSize
  }

  lemma PippengerSizes(n: nat, w: nat)
    requires n <= MAX_POINTS_PER_BATCH && 1 <= w <= PIPPENGER_MAX_BUCKET_WINDOW
    ensures 0 <= (2 * n + 2) * WnafSize(WNAF_BITS, w + 1) * SIZEOF_INT <= SIZE_MAX - ALIGNMENT
    ensures Pow2(w) * SIZEOF_GEJ <= SIZE_MAX - ALIGNMENT
  {
    var k := WnafSize(WNAF_BITS, w + 1);
    Pow2Mono(w, 16);
    PowerValues();
    WnafSizeBound(w);
    MulMono(2 * n + 2, 0, k);
    MulMono(2 * n + 2, k, 128);
  }

  lemma WnafSizeBound(w: nat)
    ensures 0 <= WnafSize(WNAF_BITS, w + 1) <= 128
  {
    WnafSizeCovers(WNAF_BITS, w + 1);
    var k := WnafSize(WNAF_BITS, w + 1);
    MulMono(k - 1, 1, w + 1);
    Swap(k - 1, w + 1);
  }

  /** Whenever the sizing rule says that n points fit, all six allocations succeed. */
  lemma PippengerFits(scratch: ScratchSpace, n: nat)
    requires scratch.Valid() && n <= MAX_POINTS_PER_BATCH && Fits(n, scratch.MaxAllocation(PIPPENGER_SCRATCH_OBJECTS))
    ensures PippengerFirst(n) + PippengerSecond(n, BucketWindow(n)) <= scratch.maxSize - scratch.allocSize
  {
    hide RoundToAlign, BucketWindow, Pow2, WnafSize;
    var w, e := BucketWindow(n), 2 * n + 2;
    var k := WnafSize(WNAF_BITS, w + 1);
    PippengerSizes(n, w);
    MulDist(e, k, 1);
    MulAssoc(e, k, SIZEOF_INT);
    EntryBytes(e, k);
  }

  /**
   * The six allocations of a bucket multiplication against the sizing rule: but for alignment, the rule
   * asks for one int per entry too many.
   */
  lemma PippengerSize(n: nat, w: nat)
    requires n <= MAX_POINTS_PER_BATCH && 1 <= w <= PIPPENGER_MAX_BUCKET_WINDOW
    ensures var slack := PippengerFirst(n) + PippengerSecond(n, w)
      + (2 * n + 2) * SIZEOF_INT - PippengerScratchSize(n, w);
      0 <= slack <= PIPPENGER_SCRATCH_OBJECTS * (ALIGNMENT - 1)
  {
    hide RoundToAlign, Pow2, WnafSize;
    var e := 2 * n + 2;
    var k := WnafSize(WNAF_BITS, w + 1);
    PippengerSizes(n, w);
    MulDist(e, k, 1);
    MulAssoc(e, k, SIZEOF_INT);
    EntryBytes(e, k);
  }

  lemma EntryBytes(e: int, k: int)
    ensures e * (SIZEOF_GE + SIZEOF_SCALAR + SIZEOF_PIPPENGER_POINT_STATE + (k + 1) * SIZEOF_INT)
      == e * SIZEOF_GE + e * SIZEOF_SCALAR + e * SIZEOF_PIPPENGER_POINT_STATE + e * k * SIZEOF_INT + e * SIZEOF_INT
  {
    MulDist(e, k, 1);
  }

  /** The scalars and points loaded so far, two for each input. */
  ghost predicate Loaded(scalars: seq<Scalar>, points: seq<Ge>, qs: seq<CurvePoint>, sum: CurvePoint)
  {
    && |scalars| == |points| == |qs|
    && AffineAll(points, qs)
    && (forall i :: 0 <= i < |scalars| ==> scalars[i] < TWO_128)
    && MultiSum(scalars, qs) == sum
  }

  lemma LoadedMeans(scalars: seq<Scalar>, points: seq<Ge>, qs: seq<CurvePoint>, sum: CurvePoint)
    requires Loaded(scalars, points, qs, sum)
    ensures |scalars| == |points| == |qs| && AffineAll(points, qs) && MultiSum(scalars, qs) == sum
    ensures forall i :: 0 <= i < |scalars| ==> scalars[i] < Pow2(WNAF_BITS)
  {
    PowerValues();
  }

  lemma LoadedNone()
    ensures Loaded([], [], [], Infinity)
  {
  }

  lemma LoadedPair(scalars: seq<Scalar>, points: seq<Ge>, qs: seq<CurvePoint>, sum: CurvePoint,
      s1: Scalar, s2: Scalar, p1: Ge, p2: Ge, q1: CurvePoint, q2: CurvePoint)
    requires CurveFacts() && Loaded(scalars, points, qs, sum) && s1 < TWO_128 && s2 < TWO_128 && RepGe(p1, 1, q1)
      && RepGe(p2, 1, q2)
    ensures Loaded(scalars + [s1, s2], points + [p1, p2], qs
      + [q1, q2], CurveAdd(sum, CurveAdd(Mul(s1, q1), Mul(s2, q2))))
  {
    hide CurveFacts, CurveAdd, Mul, RepGe, OnCurve;
    PairSum(s1, s2, q1, q2);
    MultiSumConcat(scalars, qs, [s1, s2], [q1, q2]);
  }

  lemma PairSum(k1: int, k2: int, q1: CurvePoint, q2: CurvePoint)
    ensures MultiSum([k1, k2], [q1, q2]) == CurveAdd(Mul(k1, q1), Mul(k2, q2))
  {
    hide CurveAdd, Mul, OnCurve;
    SingleSum(k1, q1);
    assert [k1, k2][..1] == [k1] && [q1, q2][..1] == [q1];
  }

  /** Stores one input, split in two, at idx. */
  method LoadPair(scalars: array<Scalar>, points: array<Ge>, idx: nat, s: Scalar, p: Ge, ghost q: CurvePoint,
      ghost qs: seq<CurvePoint>, ghost sum: CurvePoint)
    returns (ghost qs': seq<CurvePoint>)
    requires CurveFacts() && Cyclic() && RepGe(p, 1, q) && scalars != points as object
    requires idx + 2 <= scalars.Length == points.Length && Loaded(scalars[..idx], points[..idx], qs, sum)
    modifies scalars, points
    ensures Loaded(scalars[..idx + 2], points[..idx + 2], qs', CurveAdd(sum, Mul(s, q)))
  {
    hide CurveFacts, Cyclic, CurveAdd, Mul, RepGe, Loaded, OnCurve;
    ghost var before, loaded := scalars[..idx], points[..idx];
    var s1, s2, p1, p2;
    ghost var q1, q2;
    s1, s2, p1, p2, q1, q2 := EndoSplit(s, p, q);
    scalars[idx], scalars[idx + 1] := s1, s2;
    points[idx], points[idx + 1] := p1, p2;
    qs' := qs + [q1, q2];
    LoadedPair(before, loaded, qs, sum, s1, s2, p1, p2, q1, q2);
    assert scalars[..idx + 2] == before + [s1, s2] && points[..idx + 2] == loaded + [p1, p2];
  }

  /** Loads G, when asked to, and the answers of the callback; ok is false when one is missing. */
  method LoadInputs(scalars: array<Scalar>, points: array<Ge>, ng: Option<Scalar>, cb: seq<Option<Term>>, nPoints: nat,
      cbOffset: nat, ghost pts: seq<CurvePoint>)
    returns (ok: bool, idx: nat, ghost qs: seq<CurvePoint>)
    requires CurveFacts() && Cyclic() && scalars != points as object
      && scalars.Length == points.Length == 2 * nPoints + 2
    requires Answers(cb, pts) && cbOffset + nPoints <= |cb| == |pts|
    modifies scalars, points
    ensures ok <==> AllAnswered(cb, cbOffset, cbOffset + nPoints)
    ensures idx <= scalars.Length
    ensures ok ==> Loaded(scalars[..idx], points[..idx], qs,
      CurveAdd(GTerm(ng), SumOf(cb, pts, cbOffset, cbOffset + nPoints)))
  {
    hide CurveFacts, Cyclic, CurveAdd, Mul, RepGe, Loaded, Answers, G, Coefficient, SumOf, OnCurve;
    InfinityOnCurve();
    idx, qs := 0, [];
    ghost var sum := Infinity;
    LoadedNone();
    assert scalars[..0] == [] && points[..0] == [];
    AddInfinity(GTerm(ng));
    if ng.Some? {
      ConstGRep();
      qs := LoadPair(scalars, points, idx, ng.value, ConstG(), G(), qs, sum);
      AddInfinity(Mul(ng.value, G()));
      idx := idx + 2;
    }
    ghost var first := idx;
    var pointIdx := 0;
    SumOfNone(cb, pts, cbOffset);
    while pointIdx < nPoints
      invariant 0 <= pointIdx <= nPoints && idx == first + 2 * pointIdx && first <= 2
      invariant AllAnswered(cb, cbOffset, cbOffset + pointIdx)
      invariant Loaded(scalars[..idx], points[..idx], qs,
        CurveAdd(GTerm(ng), SumOf(cb, pts, cbOffset, cbOffset + pointIdx)))
    {
      var answer := cb[pointIdx + cbOffset];
      if answer.None? {
        return false, idx, qs;
      }
      ghost var sum, q := SumOf(cb, pts, cbOffset, cbOffset + pointIdx), pts[cbOffset + pointIdx];
      AnswerAt(cb, pts, cbOffset + pointIdx);
      CoefficientIs(answer);
      SumOfStep(cb, pts, cbOffset, cbOffset + pointIdx);
      qs := LoadPair(scalars, points, idx, answer.value.scalar, answer.value.point, q, qs, CurveAdd(GTerm(ng), sum));
      AddAssoc(GTerm(ng), sum, Mul(answer.value.scalar, q));
      idx := idx + 2;
      pointIdx := pointIdx + 1;
    }
    ok := true;
  }

  /** The six allocations of a bucket batch, in two groups of three. */
  method AllocatePippenger(scratch: ScratchSpace, n: nat, w: nat) returns (ok: bool)
    requires scratch.Valid() && n <= MAX_POINTS_PER_BATCH && 1 <= w <= PIPPENGER_MAX_BUCKET_WINDOW
    modifies scratch
    ensures scratch.Valid() && scratch.allocSize >= old(scratch.allocSize)
    ensures ok <==> PippengerFirst(n) + PippengerSecond(n, w) <= scratch.maxSize - old(scratch.allocSize)
  {
    hide RoundToAlign, Pow2, WnafSize;
    var entries := 2 * n + 2;
    PippengerSizes(n, w);
    var points := scratch.Alloc(entries * SIZEOF_GE);
    var scalars := scratch.Alloc(entries * SIZEOF_SCALAR);
    var stateSpace := scratch.Alloc(SIZEOF_PIPPENGER_STATE);
    if !points || !scalars || !stateSpace {
      return false;
    }
    var ps := scratch.Alloc(entries * SIZEOF_PIPPENGER_POINT_STATE);
    var wnafNa := scratch.Alloc(entries * WnafSize(WNAF_BITS, w + 1) * SIZEOF_INT);
    var buckets := scratch.Alloc(Pow2(w) * SIZEOF_GEJ);
    ok := ps && wnafNa && buckets;
  }

  /** secp256k1_ecmult_pippenger_batch */
  method PippengerBatch(scratch: ScratchSpace, ng: Option<Scalar>, cb: seq<Option<Term>>, nPoints: nat, cbOffset: nat,
      ghost pts: seq<CurvePoint>)
    returns (ok: bool, r: Gej)
    requires CurveFacts() && Cyclic()
    requires Answers(cb, pts) && cbOffset + nPoints <= |cb|
    requires scratch.Valid() && nPoints <= MAX_POINTS_PER_BATCH
    modifies scratch
    ensures scratch.Valid() && scratch.allocSize == old(scratch.allocSize)
    ensures ok <==>
      NothingToDo(ng, nPoints) || (PippengerGranted(scratch, nPoints) && AllAnswered(cb, cbOffset, cbOffset + nPoints))
    ensures ok ==> |cb| == |pts| && Rep(r, 1, CurveAdd(SumOf(cb, pts, cbOffset, cbOffset + nPoints), GTerm(ng)))
  {
    hide CurveFacts, Cyclic, CurveAdd, Mul, Rep, GTerm, G, MultiSum, Answers, Coefficient, Loaded, AllAnswered,
      SumOf, AffineAll, PippengerFirst, PippengerSecond, Pow2, WnafSize;
    AnswersLength(cb, pts);
    var checkpoint := scratch.Checkpoint();
    r := GejSetInfinity();
    InfinityRep(1);
    if ng.None? && nPoints == 0 {
      SumOfNone(cb, pts, cbOffset);
      AddInfinity(Infinity);
      NoTerm();
      return true, r;
    }
    var bucketWindow := BucketWindow(nPoints);
    var granted := AllocatePippenger(scratch, nPoints, bucketWindow);
    if !granted {
      scratch.ApplyCheckpoint(checkpoint);
      return false, r;
    }
    var entries := 2 * nPoints + 2;
    var points := new Ge[entries](_ => ConstG());
    var scalars := new Scalar[entries](_ => 0);
    var idx;
    ghost var qs;
    ok, idx, qs := LoadInputs(scalars, points, ng, cb, nPoints, cbOffset, pts);
    if !ok {
      scratch.ApplyCheckpoint(checkpoint);
      return false, r;
    }
    ghost var term, sum := GTerm(ng), SumOf(cb, pts, cbOffset, cbOffset + nPoints);
    LoadedMeans(scalars[..idx], points[..idx], qs, CurveAdd(term, sum));
    var size := WnafSize(WNAF_BITS, bucketWindow + 1);
    DigitsFit(idx, entries, size);
    var ps := new PippengerPointState[entries](_ => PippengerPointState(0, 0));
    var wnafNa := new int[entries * size](_ => 0);
    var infinity := GejSetInfinity();
    var buckets := new Gej[Pow2(bucketWindow)](_ => infinity);
    r := PippengerWnaf(buckets, bucketWindow, wnafNa, ps, WNAF_BITS, scalars[..idx], points[..idx], qs);
    Commute(term, sum);
    scratch.ApplyCheckpoint(checkpoint);
  }

  /** There is room for the digits of n of the entries. */
  lemma DigitsFit(n: nat, entries: nat, size: nat)
    requires n <= entries
    ensures n * size <= entries * size
  {
    MulMono(size, n, entries);
    Swap(size, n);
    Swap(size, entries);
  }

  // ---- the entry points ----

  lemma SimpleStep(s: CurvePoint, t: CurvePoint, x: CurvePoint)
    requires CurveFacts()
    ensures CurveAdd(CurveAdd(s, t), x) == CurveAdd(CurveAdd(s, x), t)
  {
    hide CurveFacts, CurveAdd, OnCurve;
    AddAssoc(s, t, x);
    AddAssoc(s, x, t);
    Commute(t, x);
  }

  /** secp256k1_ecmult_multi_simple_var */
  method MultiSimpleVar(ctx: EcmultContext, ng: Option<Scalar>, cb: seq<Option<Term>>, ghost pts: seq<CurvePoint>)
      returns (ok: bool, r: Gej)
    requires CurveFacts() && Cyclic() && ctx.Valid() && (ng.Some? ==> ctx.IsBuilt()) && Answers(cb, pts)
    ensures ok <==> AllAnswered(cb, 0, |cb|)
    ensures ok ==> |cb| == |pts| && Rep(r, 1, CurveAdd(SumOf(cb, pts, 0, |cb|), GTerm(ng)))
  {
    hide CurveFacts, Cyclic, CurveAdd, Mul, Rep, GTerm, SumOf, Answers, Coefficient, G, TableSize, IsTable;
    AnswersLength(cb, pts);
    var tmpj := GejSetInfinity();
    InfinityRep(1);
    r := Ecmult(ctx, tmpj, 0, ng, Infinity);
    MulInfinity(0);
    SumOfNone(cb, pts, 0);
    NoTerm();
    for pointIdx := 0 to |cb|
      invariant AllAnswered(cb, 0, pointIdx)
      invariant Rep(r, 1, CurveAdd(SumOf(cb, pts, 0, pointIdx), GTerm(ng)))
    {
      var answer := cb[pointIdx];
      if answer.None? {
        return false, r;
      }
      AnswerAt(cb, pts, pointIdx);
      CoefficientIs(answer);
      SumOfStep(cb, pts, 0, pointIdx);
      var pointj := GejSetGe(answer.value.point);
      ghost var x := Mul(answer.value.scalar, pts[pointIdx]);
      AddInfinity(x);
      tmpj := Ecmult(ctx, pointj, answer.value.scalar, None, pts[pointIdx]);
      var ignore;
      SimpleStep(SumOf(cb, pts, 0, pointIdx), GTerm(ng), x);
      r, ignore := GejAddVar(r, tmpj, false, 1, CurveAdd(SumOf(cb, pts, 0, pointIdx), GTerm(ng)), x);
    }
    ok := true;
  }

  /** A scratch space with `left` bytes has room for n points with the chosen algorithm. */
  predicate Room(left: nat, usePippenger: bool, n: nat)
  {
    if usePippenger then Fits(n, Spare(left, PIPPENGER_SCRATCH_OBJECTS))
    else n <= Spare(left, STRAUSS_SCRATCH_OBJECTS) / STRAUSS_POINT_SIZE
  }

  /** One batch: with enough room only the callback can make it fail. */
  method RunBatch(ctx: EcmultContext, scratch: ScratchSpace, usePippenger: bool, ng: Option<Scalar>,
      cb: seq<Option<Term>>, nPoints: nat, cbOffset: nat,
      ghost pts: seq<CurvePoint>)
    returns (ok: bool, r: Gej)
    requires CurveFacts() && Cyclic() && ctx.Valid() && (ng.Some? ==> ctx.IsBuilt()) && Answers(cb, pts)
    requires scratch.Valid() && 0 < nPoints <= MAX_POINTS_PER_BATCH && cbOffset + nPoints <= |cb|
      && Room(scratch.maxSize - scratch.allocSize, usePippenger, nPoints)
    modifies scratch
    ensures scratch.Valid() && scratch.allocSize == old(scratch.allocSize)
    ensures ok <==> AllAnswered(cb, cbOffset, cbOffset + nPoints)
    ensures ok ==> |cb| == |pts| && Rep(r, 1, CurveAdd(SumOf(cb, pts, cbOffset, cbOffset + nPoints), GTerm(ng)))
  {
    hide CurveFacts, Cyclic, CurveAdd, Mul, Rep, GTerm, SumOf, Answers, Coefficient, G, TableSize, IsTable,
      AllAnswered, Fits,
      StraussChecked, StraussUnchecked, PippengerFirst, PippengerSecond;
    if usePippenger {
      PippengerFits(scratch, nPoints);
      ok, r := PippengerBatch(scratch, ng, cb, nPoints, cbOffset, pts);
    } else {
      StraussFits(scratch, nPoints);
      ok, r := StraussBatch(ctx, scratch, ng, cb, nPoints, cbOffset, pts);
    }
  }

  /** What the first batches have added up to; G enters with batch 0. */
  ghost function Gathered(cb: seq<Option<Term>>, pts: seq<CurvePoint>, ng: Option<Scalar>, i: nat,
      offset: nat): CurvePoint
    requires offset <= |cb| == |pts|
  {
    if i == 0 then Infinity else CurveAdd(SumOf(cb, pts, 0, offset), GTerm(ng))
  }

  lemma GatherStep(cb: seq<Option<Term>>, pts: seq<CurvePoint>, ng: Option<Scalar>, i: nat, offset: nat, next: nat)
    requires CurveFacts() && offset <= next <= |cb| == |pts| && (i == 0 ==> offset == 0)
    ensures CurveAdd(Gathered(cb, pts, ng, i, offset),
      CurveAdd(SumOf(cb, pts, offset, next), GTerm(if i == 0 then ng else None)))
      == Gathered(cb, pts, ng, i + 1, next)
  {
    hide CurveFacts, CurveAdd, Mul, GTerm, SumOf, OnCurve;
    var s, x := SumOf(cb, pts, 0, offset), SumOf(cb, pts, offset, next);
    NoTerm();
    AddInfinity(CurveAdd(x, GTerm(ng)));
    AddInfinity(x);
    if i > 0 {
      SumOfJoin(cb, pts, 0, offset, next);
      SimpleStep(s, GTerm(ng), x);
    }
  }

  lemma AnsweredJoin(cb: seq<Option<Term>>, mid: nat, hi: nat)
    requires mid <= hi <= |cb| && AllAnswered(cb, 0, mid)
    ensures AllAnswered(cb, 0, hi) <==> AllAnswered(cb, mid, hi)
  {
  }

  /** Batch i starts where batch i-1 ended. */
  lemma BatchOffset(n: nat, nBatches: nat, nBatchPoints: nat, i: nat)
    requires Covers(n, nBatches, nBatchPoints) && i < nBatches
    ensures 0 <= nBatchPoints * i < n
    ensures i + 1 < nBatches ==> nBatchPoints * (i + 1) < n && nBatchPoints * i + nBatchPoints == nBatchPoints * (i + 1)
    ensures i + 1 == nBatches ==> n - nBatchPoints * i <= nBatchPoints
  {
    MulMono(nBatchPoints, i, nBatches - 1);
    MulMono(nBatchPoints, 0, i);
    MulDist(nBatchPoints, i, 1);
    if i + 1 < nBatches { MulMono(nBatchPoints, i + 1, nBatches - 1); }
  }

  /** The batches, one after the other. */
  method RunBatches(ctx: EcmultContext, scratch: ScratchSpace, usePippenger: bool, ng: Option<Scalar>,
      cb: seq<Option<Term>>, nBatches: nat, nBatchPoints: nat,
      ghost left: nat, ghost pts: seq<CurvePoint>)
    returns (ok: bool, r: Gej)
    requires CurveFacts() && Cyclic() && ctx.Valid() && (ng.Some? ==> ctx.IsBuilt()) && Answers(cb, pts)
      && |cb| == |pts|
    requires Covers(|cb|, nBatches, nBatchPoints) && nBatchPoints <= MAX_POINTS_PER_BATCH && scratch.Valid()
    requires left == scratch.maxSize - scratch.allocSize
    requires forall m: nat :: 0 < m <= nBatchPoints ==> Room(left, usePippenger, m)
    modifies scratch
    ensures scratch.Valid() && scratch.allocSize == old(scratch.allocSize)
    ensures ok <==> AllAnswered(cb, 0, |cb|)
    ensures ok ==> Rep(r, 1, CurveAdd(SumOf(cb, pts, 0, |cb|), GTerm(ng)))
  {
    hide CurveFacts, Cyclic, CurveAdd, Mul, Rep, GTerm, SumOf, Answers, Coefficient, G, TableSize, IsTable,
      AllAnswered, Room, Covers, Gathered, OnCurve;
    r := GejSetInfinity();
    InfinityRep(1);
    var n: int := |cb|;
    CoversSome(n, nBatches, nBatchPoints);
    GatherStart(cb, pts, ng);
    ghost var done: int := 0;
    for i := 0 to nBatches
      invariant scratch.Valid() && scratch.allocSize == old(scratch.allocSize)
      invariant 0 <= n <= |cb| && done == |cb| - n && AllAnswered(cb, 0, done)
      invariant if i < nBatches then done == nBatchPoints * i else n == 0
      invariant Rep(r, 1, Gathered(cb, pts, ng, i, done))
    {
      BatchOffset(|cb|, nBatches, nBatchPoints, i);
      assert scratch.maxSize - scratch.allocSize == left;
      var nbp := if n < nBatchPoints then n else nBatchPoints;
      var offset := nBatchPoints * i;
      var tmp;
      ok, tmp := RunBatch(ctx, scratch, usePippenger, if i == 0 then ng else None, cb, nbp, offset, pts);
      AnsweredJoin(cb, offset, offset + nbp);
      if !ok {
        AnsweredPrefix(cb, offset + nbp);
        return false, r;
      }
      GatherStep(cb, pts, ng, i, offset, offset + nbp);
      var ignore;
      r, ignore := GejAddVar(r, tmp, false, 1, Gathered(cb, pts, ng, i, offset),
        CurveAdd(SumOf(cb, pts, offset, offset + nbp), GTerm(if i == 0 then ng else None)));
      n := n - nbp;
      done := done + nbp;
    }
    GatherEnd(cb, pts, ng, nBatches);
    ok := true;
  }

  lemma CoversSome(n: nat, nBatches: nat, nBatchPoints: nat)
    requires Covers(n, nBatches, nBatchPoints)
    ensures nBatches > 0 && n > 0 && nBatchPoints > 0
  {
    MulMono(nBatchPoints, 0, nBatches - 1);
  }

  lemma GatherStart(cb: seq<Option<Term>>, pts: seq<CurvePoint>, ng: Option<Scalar>)
    requires |cb| == |pts|
    ensures Gathered(cb, pts, ng, 0, 0) == Infinity && AllAnswered(cb, 0, 0)
  {
  }

  lemma GatherEnd(cb: seq<Option<Term>>, pts: seq<CurvePoint>, ng: Option<Scalar>, i: nat)
    requires |cb| == |pts| && i > 0
    ensures Gathered(cb, pts, ng, i, |cb|) == CurveAdd(SumOf(cb, pts, 0, |cb|), GTerm(ng))
  {
  }

  lemma AnsweredPrefix(cb: seq<Option<Term>>, hi: nat)
    requires hi <= |cb|
    ensures AllAnswered(cb, 0, |cb|) ==> AllAnswered(cb, 0, hi)
  {
  }

  /**
   * secp256k1_ecmult_multi_var: succeeds exactly when the callback answers for every index, and
   * then returns ng*G plus the sum of all terms, whatever the scratch space.
   */
  method EcmultMultiVar(ctx: EcmultContext, scratch: ScratchSpace?, ng: Option<Scalar>, cb: seq<Option<Term>>,
      ghost pts: seq<CurvePoint>)
    returns (ok: bool, r: Gej)
    requires CurveFacts() && Cyclic() && ctx.Valid() && (ng.Some? ==> ctx.IsBuilt()) && Answers(cb, pts)
    requires scratch != null ==> scratch.Valid()
    modifies scratch
    ensures scratch != null ==> scratch.Valid() && scratch.allocSize == old(scratch.allocSize)
    ensures ok <==> AllAnswered(cb, 0, |cb|)
    ensures ok ==> |cb| == |pts| && Rep(r, 1, CurveAdd(SumOf(cb, pts, 0, |cb|), GTerm(ng)))
  {
    hide CurveFacts, Cyclic, CurveAdd, Mul, Rep, GTerm, SumOf, Answers, Coefficient, G, TableSize, IsTable, Fits,
      Covers, IsCeiling, AllAnswered, OnCurve;
    AnswersLength(cb, pts);
    var n := |cb|;
    r := GejSetInfinity();
    InfinityRep(1);
    if n == 0 {
      SumOfNone(cb, pts, 0);
      NothingAnswered(cb);
      if ng.None? {
        NoTerm();
        AddInfinity(Infinity);
        return true, r;
      }
      r := Ecmult(ctx, r, 0, ng, Infinity);
      MulInfinity(0);
      return true, r;
    }
    if scratch == null {
      ok, r := MultiSimpleVar(ctx, ng, cb, pts);
      return;
    }
    var max := PippengerMaxPoints(scratch);
    var sized, nBatches, nBatchPoints := BatchSizeHelper(max, n);
    if !sized {
      ok, r := MultiSimpleVar(ctx, ng, cb, pts);
      return;
    }
    var usePippenger := nBatchPoints >= PIPPENGER_THRESHOLD;
    if !usePippenger {
      max := StraussMaxPoints(scratch);
      sized, nBatches, nBatchPoints := BatchSizeHelper(max, n);
      if !sized {
        ok, r := MultiSimpleVar(ctx, ng, cb, pts);
        return;
      }
    }
    ok, r := RunBatches(ctx, scratch, usePippenger, ng, cb, nBatches, nBatchPoints,
      scratch.maxSize - scratch.allocSize, pts);
  }

  lemma NothingAnswered(cb: seq<Option<Term>>)
    requires |cb| == 0
    ensures AllAnswered(cb, 0, 0)
  {
  }
}
