/**
 * Bucket multiplication, secp256k1_ecmult_pippenger_wnaf: in every round each point goes into the
 * bucket named by its digit, and a running sum weighs the buckets by 1, 3, 5, ...
 */
module Pippenger {
  import opened Arith
  import opened Scalars
  import opened WnafFixed
  import opened Field
  import opened Curve
  import opened Jacobian
  import opened Tables
  import opened Endomorphism
  import opened Sums

  /** secp256k1_pippenger_point_state */
  datatype PippengerPointState = PippengerPointState(skewNa: int, inputPos: nat)

  // ---- weighing the buckets ----

  /** bucket[j] + bucket[j+1] + ... */
  ghost function SumFrom(b: seq<CurvePoint>, j: nat): CurvePoint
    decreases |b| - j, b
  {
    if j >= |b| then Infinity else CurveAdd(SumFrom(b, j + 1), b[j])
  }

  /** The running sums from j upwards, added up. */
  ghost function SumsFrom(b: seq<CurvePoint>, j: nat): CurvePoint
    decreases |b| - j, b
  {
    if j >= |b| then Infinity else CurveAdd(SumsFrom(b, j + 1), SumFrom(b, j))
  }

  /** (2j+1)*bucket[j] + (2j+3)*bucket[j+1] + ... */
  ghost function Weighted(b: seq<CurvePoint>, j: nat): CurvePoint
    decreases |b| - j, b
  {
    if j >= |b| then Infinity else CurveAdd(Weighted(b, j + 1), Mul(2 * j + 1, b[j]))
  }

  /** Odd weights come out of the running sums by one doubling. */
  lemma {:induction false} RunningSums(b: seq<CurvePoint>, j: nat)
    requires CurveFacts() && j <= |b|
    ensures Weighted(b, j) == CurveAdd(Mul(2, SumsFrom(b, j + 1)), Mul(2 * j + 1, SumFrom(b, j)))
    decreases |b| - j
  {
    hide CurveFacts, CurveAdd, Mul, OnCurve;
    if j == |b| {
      MulInfinity(2);
      MulInfinity(2 * j + 1);
      AddInfinity(Infinity);
    } else {
      RunningSums(b, j + 1);
      var a, s, x := SumsFrom(b, j + 2), SumFrom(b, j + 1), b[j];
      RunningStep(a, s, x, j);
      if j + 1 == |b| {
        AddInfinity(Infinity);
      }
    }
  }

  /** (2a + (2j+3)s) + (2j+1)x = 2(a + s) + (2j+1)(s + x) */
  lemma RunningStep(a: CurvePoint, s: CurvePoint, x: CurvePoint, j: nat)
    requires CurveFacts()
    ensures CurveAdd(CurveAdd(Mul(2, a), Mul(2 * (j + 1) + 1, s)), Mul(2 * j + 1, x))
      == CurveAdd(Mul(2, CurveAdd(a, s)), Mul(2 * j + 1, CurveAdd(s, x)))
  {
    hide CurveFacts, CurveAdd, Mul, OnCurve;
    MulAdd(2, 2 * j + 1, s);
    MulSum(2, a, s);
    MulSum(2 * j + 1, s, x);
    var a2, s2, sj, xj := Mul(2, a), Mul(2, s), Mul(2 * j + 1, s), Mul(2 * j + 1, x);
    AddAssoc(a2, s2, sj);
    AddAssoc(CurveAdd(a2, s2), sj, xj);
  }

  /** Putting q into bucket k adds (2k+1)*q. */
  lemma {:induction false} WeightedUpdate(b: seq<CurvePoint>, j: nat, k: nat, q: CurvePoint)
    requires CurveFacts() && j <= k < |b|
    ensures Weighted(b[k := CurveAdd(b[k], q)], j) == CurveAdd(Weighted(b, j), Mul(2 * k + 1, q))
    decreases |b| - j
  {
    hide CurveFacts, CurveAdd, Mul, OnCurve;
    var b' := b[k := CurveAdd(b[k], q)];
    if j == k {
      WeightedTail(b, b', j + 1);
      MulSum(2 * k + 1, b[k], q);
      AddAssoc(Weighted(b, j + 1), Mul(2 * k + 1, b[k]), Mul(2 * k + 1, q));
    } else {
      WeightedUpdate(b, j + 1, k, q);
      var w, x, y := Weighted(b, j + 1), Mul(2 * j + 1, b[j]), Mul(2 * k + 1, q);
      AddAssoc(w, y, x);
      AddAssoc(w, x, y);
      Commute(x, y);
    }
  }

  lemma {:induction false} WeightedTail(b: seq<CurvePoint>, c: seq<CurvePoint>, j: nat)
    requires |b| == |c| && forall k :: j <= k < |b| ==> b[k] == c[k]
    ensures Weighted(b, j) == Weighted(c, j)
    decreases |b| - j
  {
    hide CurveAdd, Mul, OnCurve;
    if j < |b| {
      WeightedTail(b, c, j + 1);
    }
  }

  lemma {:induction false} WeightedEmpty(b: seq<CurvePoint>, j: nat)
    requires forall k :: 0 <= k < |b| ==> b[k] == Infinity
    ensures Weighted(b, j) == Infinity
    decreases |b| - j
  {
    hide CurveAdd, Mul, OnCurve;
    if j < |b| {
      WeightedEmpty(b, j + 1);
      MulInfinity(2 * j + 1);
      AddInfinity(Infinity);
    }
  }

  ghost predicate RepBuckets(buckets: seq<Gej>, b: seq<CurvePoint>)
  {
    |buckets| >= |b| && forall k :: 0 <= k < |b| ==> Rep(buckets[k], 1, b[k])
  }

  /** r becomes 2^(w+1)*r + bucket[0] + 3*bucket[1] + 5*bucket[2] + ... */
  method SumBuckets(r: Gej, buckets: array<Gej>, w: nat, ghost h: CurvePoint, ghost b: seq<CurvePoint>)
      returns (r': Gej)
    requires CurveFacts() && Rep(r, 1, h) && |b| == Pow2(w) && RepBuckets(buckets[..], b)
    ensures Rep(r', 1, CurveAdd(Mul(Pow2(w + 1), h), Weighted(b, 0)))
  {
    hide CurveFacts, CurveAdd, Mul, Pow2, Rep, OnCurve;
    r' := r;
    ghost var h' := h;
    Pow2Small();
    MulOne(h);
    for j := 0 to w
      invariant h' == Mul(Pow2(j), h) && Rep(r', 1, h')
    {
      var ignore;
      r', ignore := GejDoubleVar(r', false, 1, h');
      h' := CurveAdd(h', h');
      DoubledPower(j, h);
    }
    var runningSum := GejSetInfinity();
    InfinityRep(1);
    var T := Pow2(w);
    var j := T - 1;
    AddInfinity(h');
    while j > 0
      invariant 0 <= j < T
      invariant Rep(runningSum, 1, SumFrom(b, j + 1))
      invariant Rep(r', 1, CurveAdd(h', SumsFrom(b, j + 1)))
    {
      assert Rep(buckets[..][j], 1, b[j]);
      var ignore;
      runningSum, ignore := GejAddVar(runningSum, buckets[j], false, 1, SumFrom(b, j + 1), b[j]);
      r', ignore := GejAddVar(r', runningSum, false, 1, CurveAdd(h', SumsFrom(b, j + 1)), SumFrom(b, j));
      AddAssoc(h', SumsFrom(b, j + 1), SumFrom(b, j));
      j := j - 1;
    }
    assert Rep(buckets[..][0], 1, b[0]);
    var ignore;
    runningSum, ignore := GejAddVar(runningSum, buckets[0], false, 1, SumFrom(b, 1), b[0]);
    ghost var acc := CurveAdd(h', SumsFrom(b, 1));
    r', ignore := GejDoubleVar(r', false, 1, acc);
    r', ignore := GejAddVar(r', runningSum, false, 1, CurveAdd(acc, acc), SumFrom(b, 0));
    RoundValue(h, w, b);
  }

  lemma RoundValue(h: CurvePoint, w: nat, b: seq<CurvePoint>)
    requires CurveFacts() && |b| > 0
    ensures var acc := CurveAdd(Mul(Pow2(w), h), SumsFrom(b, 1));
      CurveAdd(CurveAdd(acc, acc), SumFrom(b, 0)) == CurveAdd(Mul(Pow2(w + 1), h), Weighted(b, 0))
  {
    hide CurveFacts, CurveAdd, Mul, Pow2, SumsFrom, SumFrom, Weighted, OnCurve;
    var x, a, s := Mul(Pow2(w), h), SumsFrom(b, 1), SumFrom(b, 0);
    Interchange(x, a, x, a);
    DoubledPower(w, h);
    Doubling(a);
    RunningSums(b, 0);
    MulOne(s);
    AddAssoc(Mul(Pow2(w + 1), h), Mul(2, a), s);
  }

  // ---- recoding the inputs ----

  /** Digit string j occupies the n cells of wnaf from j*n. */
  ghost predicate Laid(wnaf: seq<int>, ds: seq<seq<int>>, n: nat)
  {
    forall j :: 0 <= j < |ds| ==> LaidAt(wnaf, ds, n, j)
  }

  ghost predicate LaidAt(wnaf: seq<int>, ds: seq<seq<int>>, n: nat, j: nat)
    requires j < |ds|
  {
    && |ds[j]| == n
    && 0 <= j * n && j * n + n <= |wnaf|
    && wnaf[j * n..j * n + n] == ds[j]
  }

  lemma LaidNone(wnaf: seq<int>, n: nat)
    ensures Laid(wnaf, [], n)
  {
  }

  lemma CellRange(j: nat, no: nat, n: nat)
    requires j < no
    ensures 0 <= j * n && j * n + n <= no * n
  {
    MulMono(n, j + 1, no);
    MulDist(n, j, 1);
  }

  /** Writing the next string leaves the earlier ones in place. */
  lemma LaidExtend(wnaf: seq<int>, wnaf': seq<int>, ds: seq<seq<int>>, n: nat, d: seq<int>)
    requires Laid(wnaf, ds, n) && 0 <= |ds| * n && |ds| * n + n <= |wnaf'| == |wnaf|
    requires wnaf'[..|ds| * n] == wnaf[..|ds| * n] && wnaf'[|ds| * n..|ds| * n + n] == d
    ensures Laid(wnaf', ds + [d], n)
  {
    forall j | 0 <= j < |ds| + 1
      ensures LaidAt(wnaf', ds + [d], n, j)
    {
      if j < |ds| {
        assert LaidAt(wnaf, ds, n, j);
        CellRange(j, |ds|, n);
        assert wnaf'[j * n..j * n + n]
          == wnaf[j * n..j * n + n] by { SliceOfPrefix(wnaf, wnaf', |ds| * n, j * n, j * n + n); }
      }
    }
  }

  lemma SliceOfPrefix(a: seq<int>, b: seq<int>, m: nat, i: nat, j: nat)
    requires i <= j <= m <= |a| && m <= |b| && a[..m] == b[..m]
    ensures a[i..j] == b[i..j]
  {
    assert a[i..j] == a[..m][i..j] && b[i..j] == b[..m][i..j];
  }

  ghost predicate InRange(ps: seq<PippengerPointState>, n: nat)
  {
    forall j :: 0 <= j < |ps| ==> ps[j].inputPos < n
  }

  ghost function PointStreams(ps: seq<PippengerPointState>, ds: seq<seq<int>>, pts: seq<CurvePoint>): (s: seq<Stream>)
    requires |ps| == |ds| && InRange(ps, |pts|)
    ensures |s| == |ps|
  {
    seq(|ps|, j requires 0 <= j < |ps| => Stream(ds[j], pts[ps[j].inputPos]))
  }

  /** What adding one to the even scalars has contributed too much. */
  ghost function Skews(ps: seq<PippengerPointState>, pts: seq<CurvePoint>): CurvePoint
    requires InRange(ps, |pts|)
  {
    if ps == [] then Infinity
    else CurveAdd(Skews(ps[..|ps| - 1], pts), Mul(-ps[|ps| - 1].skewNa, pts[ps[|ps| - 1].inputPos]))
  }

  lemma SkewsStep(ps: seq<PippengerPointState>, pts: seq<CurvePoint>, n: nat)
    requires InRange(ps, |pts|) && n < |ps|
    ensures Skews(ps[..n + 1], pts) == CurveAdd(Skews(ps[..n], pts), Mul(-ps[n].skewNa, pts[ps[n].inputPos]))
  {
    hide CurveAdd, Mul, OnCurve;
    assert ps[..n + 1][..n] == ps[..n];
  }

  /** The digit strings of the selected inputs, with the skews taken back, add up to the first np terms. */
  ghost predicate Recoded(ps: seq<PippengerPointState>, ds: seq<seq<int>>, w: nat, n: nat, np: nat, sc: seq<Scalar>,
      pts: seq<CurvePoint>)
    requires np <= |sc| == |pts|
  {
    && |ps| == |ds| && InRange(ps, |pts|)
    && (forall j :: 0 <= j < |ps| ==> |ds[j]| == n && FixedDigits(ds[j], w) && (ps[j].skewNa == 0 || ps[j].skewNa == 1))
    && CurveAdd(Horner(PointStreams(ps, ds, pts), Pow2(w), 0), Skews(ps, pts)) == MultiSum(sc[..np], pts[..np])
  }

  lemma RecodeNone(w: nat, n: nat, sc: seq<Scalar>, pts: seq<CurvePoint>)
    requires |sc| == |pts|
    ensures Recoded([], [], w, n, 0, sc, pts)
  {
    hide CurveAdd, Mul;
    assert sc[..0] == [] && pts[..0] == [];
    AddInfinity(Infinity);
  }

  lemma RecodeSkip(ps: seq<PippengerPointState>, ds: seq<seq<int>>, w: nat, n: nat, np: nat, sc: seq<Scalar>,
      pts: seq<CurvePoint>)
    requires CurveFacts() && np < |sc| == |pts| && Recoded(ps, ds, w, n, np, sc, pts)
    requires sc[np] == 0 || pts[np] == Infinity
    ensures Recoded(ps, ds, w, n, np + 1, sc, pts)
  {
    hide CurveFacts, CurveAdd, Mul, MultiSum, Horner, PointStreams, Skews, FixedDigits, Pow2, OnCurve;
    MultiSumExtend(sc, pts, np);
    MulOne(pts[np]);
    MulInfinity(sc[np]);
    AddInfinity(MultiSum(sc[..np], pts[..np]));
  }

  lemma RecodeKeep(ps: seq<PippengerPointState>, ds: seq<seq<int>>, w: nat, n: nat, np: nat, sc: seq<Scalar>,
      pts: seq<CurvePoint>,
      e: PippengerPointState, d: seq<int>)
    requires CurveFacts() && np < |sc| == |pts| && Recoded(ps, ds, w, n, np, sc, pts)
    requires e.inputPos == np && (e.skewNa == 0 || e.skewNa == 1)
    requires |d| == n && FixedDigits(d, w) && Eval(d, Pow2(w)) == sc[np] + e.skewNa
    ensures Recoded(ps + [e], ds + [d], w, n, np + 1, sc, pts)
  {
    hide CurveFacts, CurveAdd, Mul, MultiSum, Horner, Skews, FixedDigits, Pow2, Tail, Eval, OnCurve;
    var s, p, b := PointStreams(ps, ds, pts), pts[np], Pow2(w);
    assert PointStreams(ps + [e], ds + [d], pts) == s + [Stream(d, p)];
    HornerExtend(s, Stream(d, p), b, 0);
    TailStep(d, b, 0);
    SkewsStep(ps + [e], pts, |ps|);
    assert (ps + [e])[..|ps|] == ps && (ps + [e])[..|ps| + 1] == ps + [e];
    MultiSumExtend(sc, pts, np);
    Interchange(Horner(s, b, 0), Mul(Eval(d, b), p), Skews(ps, pts), Mul(-e.skewNa, p));
    MulAdd(Eval(d, b), -e.skewNa, p);
  }

  ghost predicate AffineAll(pt: seq<Ge>, pts: seq<CurvePoint>)
  {
    |pt| == |pts| && forall i :: 0 <= i < |pt| ==> RepGe(pt[i], 1, pts[i])
  }

  lemma AffineAt(pt: seq<Ge>, pts: seq<CurvePoint>, i: nat)
    requires AffineAll(pt, pts) && i < |pt|
    ensures RepGe(pt[i], 1, pts[i]) && pt[i].infinity == pts[i].Infinity?
  {
  }

  /** Recodes every input with a nonzero scalar and a finite point. */
  method SelectScalars(wnafNa: array<int>, ps: array<PippengerPointState>, w: nat, bits: nat, pt: seq<Ge>,
      sc: seq<Scalar>, ghost pts: seq<CurvePoint>)
    returns (no: nat, ghost ds: seq<seq<int>>)
    requires CurveFacts() && |pt| == |sc| && AffineAll(pt, pts)
    requires 0 < w < 32 && 0 < bits <= 256 && forall i :: 0 <= i < |sc| ==> sc[i] < Pow2(bits)
    requires wnafNa.Length >= |pt| * WnafSize(bits, w) && ps.Length >= |pt|
    modifies wnafNa, ps
    ensures no <= |pt| && Laid(wnafNa[..], ds, WnafSize(bits, w))
    ensures Recoded(ps[..no], ds, w, WnafSize(bits, w), |sc|, sc, pts)
  {
    hide CurveFacts, CurveAdd, Mul, RepGe, Recoded, Laid, FixedDigits, Pow2, Eval, WnafSize, OnCurve;
    var n := WnafSize(bits, w);
    no, ds := 0, [];
    RecodeNone(w, n, sc, pts);
    LaidNone(wnafNa[..], n);
    assert ps[..0] == [];
    for np := 0 to |pt|
      invariant no <= np && |ds| == no
      invariant Laid(wnafNa[..], ds, n)
      invariant Recoded(ps[..no], ds, w, n, np, sc, pts)
    {
      AffineAt(pt, pts, np);
      ghost var before, cells := ps[..no], wnafNa[..];
      if sc[np] == 0 || pt[np].infinity {
        RecodeSkip(before, ds, w, n, np, sc, pts);
        continue;
      }
      CellRange(no, |pt|, n);
      var skew := WnafFixed.WnafFixed(wnafNa, no * n, sc[np], w, bits);
      ps[no] := PippengerPointState(skew, np);
      ghost var d := wnafNa[no * n..no * n + n];
      LaidExtend(cells, wnafNa[..], ds, n, d);
      RecodeKeep(before, ds, w, n, np, sc, pts, ps[no], d);
      ds := ds + [d];
      assert ps[..no + 1] == before + [ps[no]];
      no := no + 1;
    }
  }

  // ---- one round ----

  /** What round i contributes for the first np inputs; the skews are repaid in the last round. */
  ghost function RoundSum(ps: seq<PippengerPointState>, ds: seq<seq<int>>, pts: seq<CurvePoint>, np: nat,
      i: nat): CurvePoint
    requires np <= |ps| == |ds| && InRange(ps, |pts|)
  {
    CurveAdd(Column(PointStreams(ps, ds, pts)[..np], i), if i == 0 then Skews(ps[..np], pts) else Infinity)
  }

  lemma RoundStep(ps: seq<PippengerPointState>, ds: seq<seq<int>>, pts: seq<CurvePoint>, np: nat, i: nat)
    requires CurveFacts() && np < |ps| == |ds| && InRange(ps, |pts|)
    ensures var p := pts[ps[np].inputPos];
      RoundSum(ps, ds, pts, np + 1, i)
        == CurveAdd(CurveAdd(RoundSum(ps, ds, pts, np, i), Mul(if i == 0 then -ps[np].skewNa else 0, p)),
          Mul(Digit(ds[np], i), p))
  {
    hide CurveFacts, CurveAdd, Mul, Skews, Column, Digit, OnCurve;
    var p, s := pts[ps[np].inputPos], PointStreams(ps, ds, pts);
    ColumnExtend(s, np, i);
    var x, y := Mul(Digit(ds[np], i), p), Mul(if i == 0 then -ps[np].skewNa else 0, p);
    var c, k := Column(s[..np], i), if i == 0 then Skews(ps[..np], pts) else Infinity;
    if i == 0 {
      SkewsStep(ps, pts, np);
    } else {
      MulOne(p);
      AddInfinity(Infinity);
    }
    Interchange(c, x, k, y);
    AddAssoc(CurveAdd(c, k), y, x);
    Commute(x, y);
  }

  lemma BucketUpdate(buckets: seq<Gej>, b: seq<CurvePoint>, k: nat, e: Gej, q: CurvePoint)
    requires RepBuckets(buckets, b) && k < |b| && Rep(e, 1, CurveAdd(b[k], q))
    ensures RepBuckets(buckets[k := e], b[k := CurveAdd(b[k], q)])
  {
    hide Rep, CurveAdd, OnCurve;
  }

  /** Adds q to bucket idx, which raises the weighted sum by (2*idx+1)*q. */
  method AddToBucket(buckets: array<Gej>, idx: nat, g: Ge, ghost q: CurvePoint, ghost b: seq<CurvePoint>)
      returns (ghost b': seq<CurvePoint>)
    requires CurveFacts() && idx < |b| && RepBuckets(buckets[..], b) && RepGe(g, 1, q)
    modifies buckets
    ensures |b'| == |b| && RepBuckets(buckets[..], b')
    ensures Weighted(b', 0) == CurveAdd(Weighted(b, 0), Mul(2 * idx + 1, q))
  {
    hide CurveFacts, CurveAdd, Mul, Rep, RepGe, Weighted, OnCurve;
    ghost var before := buckets[..];
    assert Rep(before[idx], 1, b[idx]);
    var ignore;
    buckets[idx], ignore := GejAddGeVar(buckets[idx], g, false, 1, b[idx], q);
    b' := b[idx := CurveAdd(b[idx], q)];
    BucketUpdate(before, b, idx, buckets[idx], q);
    assert buckets[..] == before[idx := buckets[idx]];
    WeightedUpdate(b, 0, idx, q);
  }

  /** The bucket of a digit lies in range. */
  lemma BucketIndex(n: int, w: nat)
    requires FixedDigit(n, w + 1)
    ensures n > 0 ==> 0 <= (n - 1) / 2 < Pow2(w) && 2 * ((n - 1) / 2) + 1 == n
    ensures n < 0 ==> 0 <= -(n + 1) / 2 < Pow2(w) && 2 * (-(n + 1) / 2) + 1 == -n
  {
    hide Pow2;
    Pow2Step(w + 1);
  }

  /** Puts one input into the bucket of its digit n, after repaying its skew if asked to. */
  method PlacePoint(buckets: array<Gej>, w: nat, n: int, skew: int, g: Ge, ghost p: CurvePoint,
      ghost b: seq<CurvePoint>)
    returns (ghost b': seq<CurvePoint>)
    requires CurveFacts() && |b| == Pow2(w) && RepBuckets(buckets[..], b) && RepGe(g, 1, p)
    requires FixedDigit(n, w + 1) && (skew == 0 || skew == 1)
    modifies buckets
    ensures |b'| == |b| && RepBuckets(buckets[..], b')
    ensures Weighted(b', 0) == CurveAdd(CurveAdd(Weighted(b, 0), Mul(-skew, p)), Mul(n, p))
  {
    hide CurveFacts, CurveAdd, Mul, RepGe, Rep, Weighted, Pow2, Neg, GeNeg, RepBuckets, OnCurve;
    b' := b;
    BucketIndex(n, w);
    MulOne(p);
    AddInfinity(Weighted(b, 0));
    NegRepGe(g, 1, p);
    FromRepGe(g, 1, p);
    if skew != 0 {
      var tmp := GeNeg(g);
      MulOne(Neg(p));
      b' := AddToBucket(buckets, 0, tmp, Neg(p), b');
    }
    ghost var mid := Weighted(b', 0);
    AddInfinity(mid);
    if n > 0 {
      var idx := (n - 1) / 2;
      b' := AddToBucket(buckets, idx, g, p, b');
    } else if n < 0 {
      var idx := -(n + 1) / 2;
      var tmp := GeNeg(g);
      b' := AddToBucket(buckets, idx, tmp, Neg(p), b');
      MulMul(-n, -1, p);
    }
  }

  /** Resets the buckets and distributes all selected inputs by their digit at position i. */
  method FillBuckets(buckets: array<Gej>, w: nat, wnafNa: array<int>, ps: seq<PippengerPointState>, n: nat, i: nat,
      pt: seq<Ge>,
      ghost ds: seq<seq<int>>, ghost pts: seq<CurvePoint>)
    returns (ghost b: seq<CurvePoint>)
    requires CurveFacts() && buckets.Length >= Pow2(w) && AffineAll(pt, pts) && i < n
    requires wnafNa != buckets as object && |ds| == |ps|
    requires Laid(wnafNa[..], ds, n) && InRange(ps, |pts|) && Placeable(ps, ds, w + 1)
    modifies buckets
    ensures |b| == Pow2(w) && RepBuckets(buckets[..], b)
    ensures Weighted(b, 0) == RoundSum(ps, ds, pts, |ps|, i)
  {
    hide CurveFacts, CurveAdd, Mul, Rep, RepGe, Weighted, Pow2, FixedDigit, Laid, RoundSum, OnCurve;
    InfinityOnCurve();
    b := seq(Pow2(w), _ => Infinity);
    for j := 0 to Pow2(w)
      invariant forall k :: 0 <= k < j ==> Rep(buckets[k], 1, Infinity)
    {
      buckets[j] := GejSetInfinity();
      InfinityRep(1);
    }
    WeightedEmpty(b, 0);
    RoundNone(ps, ds, pts, i);
    for np := 0 to |ps|
      invariant |b| == Pow2(w) && RepBuckets(buckets[..], b)
      invariant Weighted(b, 0) == RoundSum(ps, ds, pts, np, i)
    {
      hide RepBuckets;
      DigitAt(wnafNa[..], ds, n, np, i);
      var digit := wnafNa[np * n + i];
      assert FixedDigits(ds[np], w + 1);
      var pointState := ps[np];
      AffineAt(pt, pts, ps[np].inputPos);
      MulOne(pts[ps[np].inputPos]);
      RoundStep(ps, ds, pts, np, i);
      b := PlacePoint(buckets, w, digit, if i
        == 0 then pointState.skewNa else 0, pt[pointState.inputPos], pts[pointState.inputPos], b);
    }
  }

  ghost predicate Placeable(ps: seq<PippengerPointState>, ds: seq<seq<int>>, w: nat)
    requires |ps| == |ds|
  {
    forall j :: 0 <= j < |ps| ==> FixedDigits(ds[j], w) && (ps[j].skewNa == 0 || ps[j].skewNa == 1)
  }

  lemma RoundNone(ps: seq<PippengerPointState>, ds: seq<seq<int>>, pts: seq<CurvePoint>, i: nat)
    requires |ps| == |ds| && InRange(ps, |pts|)
    ensures RoundSum(ps, ds, pts, 0, i) == Infinity
  {
    hide CurveAdd, Mul;
    assert ps[..0] == [] && PointStreams(ps, ds, pts)[..0] == [];
    AddInfinity(Infinity);
  }

  lemma DigitAt(wnaf: seq<int>, ds: seq<seq<int>>, n: nat, np: nat, i: nat)
    requires Laid(wnaf, ds, n) && np < |ds| && i < n
    ensures 0 <= np * n + i < |wnaf| && |ds[np]| == n && wnaf[np * n + i] == ds[np][i] == Digit(ds[np], i)
  {
    assert LaidAt(wnaf, ds, n, np);
    assert wnaf[np * n..np * n + n][i] == wnaf[np * n + i];
  }

  // ---- the whole multiplication ----

  /** What r holds once rounds i and above are done. */
  ghost function Accumulated(ps: seq<PippengerPointState>, ds: seq<seq<int>>, pts: seq<CurvePoint>, base: int,
      i: nat): CurvePoint
    requires |ps| == |ds| && InRange(ps, |pts|)
  {
    if i == 0 then CurveAdd(Horner(PointStreams(ps, ds, pts), base, 0), Skews(ps, pts))
    else Horner(PointStreams(ps, ds, pts), base, i)
  }

  /** Before round i the accumulator holds a plain Horner prefix; the skews only enter round 0. */
  lemma RoundKeeps(ps: seq<PippengerPointState>, ds: seq<seq<int>>, pts: seq<CurvePoint>, base: int, i: nat)
    requires CurveFacts() && |ps| == |ds| && InRange(ps, |pts|)
    ensures CurveAdd(Mul(base, Accumulated(ps, ds, pts, base, i + 1)), RoundSum(ps, ds, pts, |ps|, i))
      == Accumulated(ps, ds, pts, base, i)
  {
    hide CurveFacts, CurveAdd, Mul, Horner, Column, Skews, OnCurve;
    var s := PointStreams(ps, ds, pts);
    assert s[..|ps|] == s && ps[..|ps|] == ps;
    HornerStep(s, base, i);
    var h, c := Mul(base, Horner(s, base, i + 1)), Column(s, i);
    if i == 0 {
      AddAssoc(h, c, Skews(ps, pts));
    } else {
      AddInfinity(c);
    }
  }

  lemma AccumulatedTop(ps: seq<PippengerPointState>, ds: seq<seq<int>>, pts: seq<CurvePoint>, base: int, n: nat)
    requires |ps| == |ds| && InRange(ps, |pts|) && n > 0 && forall j :: 0 <= j < |ds| ==> |ds[j]| == n
    ensures Accumulated(ps, ds, pts, base, n) == Infinity
  {
    hide CurveAdd, Mul, Horner, OnCurve;
    HornerTop(PointStreams(ps, ds, pts), base, n);
  }

  lemma RecodedFacts(ps: seq<PippengerPointState>, ds: seq<seq<int>>, w: nat, n: nat, sc: seq<Scalar>,
      pts: seq<CurvePoint>)
    requires |sc| == |pts| && Recoded(ps, ds, w, n, |sc|, sc, pts)
    ensures |ps| == |ds| && InRange(ps, |pts|)
    ensures Placeable(ps, ds, w) && forall j :: 0 <= j < |ds| ==> |ds[j]| == n
    ensures Accumulated(ps, ds, pts, Pow2(w), 0) == MultiSum(sc, pts)
  {
    hide FixedDigits, Horner, MultiSum, CurveAdd, Mul, Skews, PointStreams, OnCurve;
    assert sc[..|sc|] == sc && pts[..|pts|] == pts;
  }

  lemma NothingSelected(base: int, pts: seq<CurvePoint>)
    ensures Accumulated([], [], pts, base, 0) == Infinity
  {
    hide CurveAdd, Mul;
    AddInfinity(Infinity);
  }

  /** secp256k1_ecmult_pippenger_wnaf, with WNAF_BITS = bits. */
  method PippengerWnaf(buckets: array<Gej>, bucketWindow: nat, wnafNa: array<int>, ps: array<PippengerPointState>,
      bits: nat,
      sc: seq<Scalar>, pt: seq<Ge>, ghost pts: seq<CurvePoint>)
    returns (r: Gej)
    requires CurveFacts() && |sc| == |pt| == |pts| && AffineAll(pt, pts)
    requires 0 < bucketWindow < 31 && 0 < bits <= 256 && forall i :: 0 <= i < |sc| ==> sc[i] < Pow2(bits)
    requires buckets.Length >= Pow2(bucketWindow) && ps.Length >= |pt|
    requires wnafNa.Length >= |pt| * WnafSize(bits, bucketWindow + 1)
    requires wnafNa != buckets as object && ps != buckets as object && wnafNa != ps as object
    modifies buckets, wnafNa, ps
    ensures Rep(r, 1, MultiSum(sc, pts))
  {
    hide CurveFacts, CurveAdd, Mul, Rep, RepGe, Weighted, Pow2, FixedDigits, Laid, RoundSum, MultiSum, WnafSize,
      Accumulated, RepBuckets, AffineAll, Recoded, Placeable, OnCurve;
    var w := bucketWindow + 1;
    var n := WnafSize(bits, w);
    WnafSizeCovers(bits, w);
    ghost var ds;
    var no;
    no, ds := SelectScalars(wnafNa, ps, w, bits, pt, sc, pts);
    var sel := ps[..no];
    RecodedFacts(sel, ds, w, n, sc, pts);
    if no == 0 {
      r := GejSetInfinity();
      InfinityRep(1);
      NothingSelected(Pow2(w), pts);
      return;
    }
    r := Rounds(buckets, bucketWindow, wnafNa, sel, n, pt, ds, pts);
  }

  /** The rounds, from the top digits down. */
  method Rounds(buckets: array<Gej>, bucketWindow: nat, wnafNa: array<int>, ps: seq<PippengerPointState>, n: nat,
      pt: seq<Ge>,
      ghost ds: seq<seq<int>>, ghost pts: seq<CurvePoint>)
    returns (r: Gej)
    requires CurveFacts() && AffineAll(pt, pts) && n > 0 && buckets.Length >= Pow2(bucketWindow)
      && wnafNa != buckets as object
    requires |ps| == |ds| && InRange(ps, |pts|) && Laid(wnafNa[..], ds, n) && Placeable(ps, ds, bucketWindow + 1)
    requires forall j :: 0 <= j < |ds| ==> |ds[j]| == n
    modifies buckets
    ensures Rep(r, 1, Accumulated(ps, ds, pts, Pow2(bucketWindow + 1), 0))
  {
    hide CurveFacts, CurveAdd, Mul, Rep, Weighted, Pow2, Laid, RoundSum, Accumulated, RepBuckets, AffineAll, Placeable,
      OnCurve;
    ghost var base := Pow2(bucketWindow + 1);
    r := GejSetInfinity();
    InfinityRep(1);
    AccumulatedTop(ps, ds, pts, base, n);
    var i := n;
    while i > 0
      invariant 0 <= i <= n && Rep(r, 1, Accumulated(ps, ds, pts, base, i))
    {
      i := i - 1;
      ghost var b := FillBuckets(buckets, bucketWindow, wnafNa, ps, n, i, pt, ds, pts);
      r := SumBuckets(r, buckets, bucketWindow, Accumulated(ps, ds, pts, base, i + 1), b);
      RoundKeeps(ps, ds, pts, base, i);
    }
  }

  // ---- splitting an input along the endomorphism ----

  /** A short scalar, negated when it is in the upper half, is below 2^128. */
  lemma ShortHalf(x: Scalar)
    requires Short(x)
    ensures (if IsHigh(x) then Negate(x) else x) < TWO_128
  {
  }

  lemma NegateCongruent(k: Scalar, m: int)
    requires m == Negate(k)
    ensures Congruent(-m, k, N)
  {
    CongruentBy(-m, k, N, if k == 0 then 0 else -1);
  }

  /** Negating both the scalar and the point changes nothing. */
  lemma NegateBoth(k: Scalar, p: CurvePoint)
    requires CurveFacts()
    ensures Mul(Negate(k), Neg(p)) == Mul(k, p)
  {
    hide CurveFacts, CurveAdd, Mul, Neg, Negate, Congruent, OnCurve;
    var m: int := Negate(k);
    MulOne(p);
    MulMul(m, -1, p);
    NegateCongruent(k, m);
    MulCongruent(-m, k, p);
  }

  /** secp256k1_ecmult_endo_split: two scalars below 2^128 on two points, adding up to s*p. */
  method EndoSplit(s: Scalar, p: Ge, ghost q: CurvePoint)
      returns (s1: Scalar, s2: Scalar, p1: Ge, p2: Ge, ghost q1: CurvePoint, ghost q2: CurvePoint)
    requires CurveFacts() && Cyclic() && RepGe(p, 1, q)
    ensures s1 < TWO_128 && s2 < TWO_128
    ensures RepGe(p1, 1, q1) && RepGe(p2, 1, q2)
    ensures CurveAdd(Mul(s1, q1), Mul(s2, q2)) == Mul(s, q)
  {
    hide CurveFacts, Cyclic, CurveAdd, Mul, RepGe, SplitLambda, Short, IsHigh, Negate, Neg, GeNeg, GeMulLambda,
      Congruent, OnCurve;
    var halves := SplitLambda(s);
    s1, s2 := halves.0, halves.1;
    FromRepGe(p, 1, q);
    p1, p2 := p, GeMulLambda(p);
    q1, q2 := q, Mul(LAMBDA, q);
    MulLambdaRep(p, 1, q);
    ShortHalf(s1);
    ShortHalf(s2);
    SplitRecombines(s);
    LambdaSum(s1, s2, s, q);
    NegateBoth(s1, q1);
    NegateBoth(s2, q2);
    FromRepGe(p2, 1, q2);
    NegRepGe(p1, 1, q1);
    NegRepGe(p2, 1, q2);
    if IsHigh(s1) {
      s1, p1, q1 := Negate(s1), GeNeg(p1), Neg(q1);
    }
    if IsHigh(s2) {
      s2, p2, q2 := Negate(s2), GeNeg(p2), Neg(q2);
    }
  }
}
