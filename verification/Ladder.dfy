/**
 * The constant-time multiplication secp256k1_ecmult_const: odd digits only, so that every step
 * adds a table entry with the unified addition, and the skew is subtracted at the end.
 */
module Ladder {
  import opened Arith
  import opened Scalars
  import opened WnafFixed
  import opened WnafConst
  import opened Field
  import opened Curve
  import opened Jacobian
  import opened AdditionChain
  import opened BatchInverse
  import opened Tables
  import opened Endomorphism
  import opened Generator
  import opened Sums
  import opened Strauss

  const W: nat := 4

  lemma Base()
    ensures Pow2(W) == 16
  {
  }

  // ---- digits ----

  /** d is an odd-digit recoding of a + skew, modulo the order, small enough for a split scalar. */
  ghost predicate ConstDigits(d: seq<int>, a: Scalar, skew: int)
  {
    && d != [] && OddDigits(d, W)
    && (skew == 1 || skew == 2)
    && Congruent(Eval(d, 16) - skew, a, N)
    && -TWO_128 - 2 <= Eval(d, 16) <= TWO_128 + 2
  }

  lemma SkewedCongruent(a: Scalar, sign: int, odd: nat, skew: int, size: nat)
    requires SkewedBy(a, sign, odd, skew) && Magnitude(a) <= Pow2(size) && size <= 128
    ensures Congruent(sign * odd - skew, a, N) && (skew == 1 || skew == 2)
    ensures -TWO_128 - 2 <= sign * odd <= TWO_128 + 2
  {
    hide Pow2, Magnitude;
    Pow2Mono(size, 128);
    PowerValues();
    CongruentBy(sign * odd - skew, a, N, if sign * odd == a + skew then 0 else -1);
  }

  lemma WordCount(size: nat)
    requires 0 < size <= 128
    ensures 0 < WnafSize(size, W) <= 32
  {
  }

  method ConstRecode(a: Scalar, size: nat) returns (d: seq<int>, skew: int)
    requires 0 < size <= 128 && Magnitude(a) <= Pow2(size)
    ensures |d| == WnafSize(size, W) + 1 && ConstDigits(d, a, skew)
  {
    hide Pow2, Eval, SkewedBy, OddDigits, Magnitude, WnafSize, Congruent;
    WordCount(size);
    var wnaf := new int[33];
    ghost var sign, odd;
    skew, sign, odd := WnafConst.WnafConst(wnaf, a, W, size);
    d := wnaf[..WnafSize(size, W) + 1];
    Base();
    SkewedCongruent(a, sign, odd, skew, size);
  }

  /** A digit string is smaller than the weight above it. */
  lemma {:induction false} EvalBound(d: seq<int>)
    requires forall i :: 0 <= i < |d| ==> -16 < d[i] < 16
    ensures Power(16, |d|) > 0 && -Power(16, |d|) < Eval(d, 16) < Power(16, |d|)
  {
    if d != [] {
      EvalBound(d[1..]);
    }
  }

  lemma {:induction false} PowerGrows(i: nat)
    requires i >= 1
    ensures Power(16, i) >= 16
  {
    if i > 1 { PowerGrows(i - 1); } else { assert Power(16, 1) == 16 * Power(16, 0); }
  }

  /** All prefixes the ladder doubles are odd and below 2^126. */
  lemma PrefixSmall(d: seq<int>, i: nat)
    requires OddDigits(d, W) && 1 <= i < |d| && -TWO_128 - 2 <= Eval(d, 16) <= TWO_128 + 2
    ensures Tail(d, 16, i) % 2 == 1 && -TWO_126 < Tail(d, 16, i) < TWO_126
  {
    Base();
    DigitsInRange(d);
    hide Pow2, Eval;
    var low, high := d[..i], d[i..];
    assert low + high == d;
    EvalAppend(low, high, 16);
    EvalBound(low);
    PowerGrows(i);
    OddSuffix(d, i);
    OddValue(high, W);
    PrefixBound(Power(16, i), Eval(high, 16), Eval(low, 16));
  }

  lemma DigitsInRange(d: seq<int>)
    requires OddDigits(d, W)
    ensures forall i :: 0 <= i < |d| ==> -16 < d[i] < 16
  {
    Base();
    forall i | 0 <= i < |d|
      ensures -16 < d[i] < 16
    {
      assert OddDigit(d[i], W);
    }
  }

  lemma OddSuffix(d: seq<int>, i: nat)
    requires OddDigits(d, W) && i <= |d|
    ensures OddDigits(d[i..], W)
  {
    hide OddDigit;
  }

  lemma PrefixBound(p: int, t: int, low: int)
    requires p >= 16 && -p < low < p && -TWO_128 - 2 <= low + p * t <= TWO_128 + 2
    ensures -TWO_126 < t < TWO_126
  {
    PrefixBelow(p, t, low);
    assert p * -t == -(p * t);
    PrefixBelow(p, -t, -low);
  }

  lemma PrefixBelow(p: int, t: int, low: int)
    requires p >= 16 && -p < low && low + p * t <= TWO_128 + 2
    ensures t < TWO_126
  {
    if t >= TWO_126 {
      MulDist(p, TWO_126 - 1, 1);
      MulMono(p, TWO_126, t);
      Swap(p, TWO_126 - 1);
      MulMono(TWO_126 - 1, 16, p);
    }
  }

  // ---- the two digit strings ----

  ghost function TwoStreams(d1: seq<int>, dLam: seq<int>, p: CurvePoint): seq<Stream>
  {
    [Stream(d1, p), Stream(dLam, Mul(LAMBDA, p))]
  }

  /** The accumulated point is a single multiple of p. */
  lemma HornerTwo(d1: seq<int>, dLam: seq<int>, p: CurvePoint, i: nat)
    requires CurveFacts()
    ensures Horner(TwoStreams(d1, dLam, p), 16, i)
      == CurveAdd(Mul(Tail(d1, 16, i), p), Mul(Tail(dLam, 16, i), Mul(LAMBDA, p)))
    ensures Horner(TwoStreams(d1, dLam, p), 16, i) == Mul(Tail(d1, 16, i) + Tail(dLam, 16, i) * LAMBDA, p)
  {
    hide CurveFacts, CurveAdd, Mul, Tail, OnCurve;
    var s1, s2 := Stream(d1, p), Stream(dLam, Mul(LAMBDA, p));
    var x, y := Tail(d1, 16, i), Tail(dLam, 16, i);
    HornerExtend([], s1, 16, i);
    assert [] + [s1] == [s1];
    HornerExtend([s1], s2, 16, i);
    assert [s1] + [s2] == TwoStreams(d1, dLam, p);
    AddInfinity(Mul(x, p));
    MulMul(y, LAMBDA, p);
    MulAdd(x, y * LAMBDA, p);
  }

  /** No prefix is infinity, so doubling never meets it. */
  lemma PrefixFinite(d1: seq<int>, dLam: seq<int>, p: CurvePoint, i: nat)
    requires CurveFacts() && p != Infinity
    requires OddDigits(d1, W) && 1 <= i < |d1| && -TWO_128 - 2 <= Eval(d1, 16) <= TWO_128 + 2
    requires dLam != [] ==> OddDigits(dLam, W) && |dLam| == |d1| && -TWO_128 - 2 <= Eval(dLam, 16) <= TWO_128 + 2
    ensures Horner(TwoStreams(d1, dLam, p), 16, i) != Infinity
  {
    hide CurveFacts, CurveAdd, Mul, Tail, Eval, Congruent, OddDigits, Horner, OnCurve;
    HornerTwo(d1, dLam, p, i);
    var x, y := Tail(d1, 16, i), Tail(dLam, 16, i);
    PrefixSmall(d1, i);
    if dLam != [] { PrefixSmall(dLam, i); } else { EmptyTail(i); }
    NotMultiple(x, y);
    NotMultipleOfN(x + y * LAMBDA);
    MulNonzero(x + y * LAMBDA, p);
  }

  lemma EmptyTail(i: nat)
    ensures Tail([], 16, i) == 0
  {
  }

  lemma NotMultiple(x: int, y: int)
    requires x % 2 == 1 && -TWO_126 < x < TWO_126 && -TWO_126 < y < TWO_126
    ensures (x + y * LAMBDA) % N != 0
  {
    hide Congruent;
    var k := x + y * LAMBDA;
    if k % N == 0 {
      CongruentMod(k, N);
      NoSmallKernel(x, y);
    }
  }

  // ---- table lookup ----

  /** Reads entry idx by a conditional move at every entry. */
  method ScanTable(pre: array<Ge>, idx: nat, ghost z: int, ghost q: CurvePoint) returns (x: Fe, y: Fe)
    requires idx < TABLE_A <= pre.Length
    requires forall m :: 0 <= m < TABLE_A ==> TableEntry(pre[m], z, Mul(2 * m + 1, q))
    ensures x.v == pre[idx].x.v && y.v == pre[idx].y.v && x.mag <= MAX_MUL_MAGNITUDE && y.mag <= 1
  {
    hide Mul, TableEntry, FeCmov, OnCurve;
    SmallResidues();
    x, y := Fe(0, 0), Fe(0, 0);
    for m := 0 to TABLE_A
      invariant x.mag <= MAX_MUL_MAGNITUDE && y.mag <= 1
      invariant m > idx ==> x.v == pre[idx].x.v && y.v == pre[idx].y.v
    {
      EntryBounds(pre[m], z, Mul(2 * m + 1, q));
      x := FeCmov(x, pre[m].x, m == idx);
      y := FeCmov(y, pre[m].y, m == idx);
    }
  }

  /** ECMULT_CONST_TABLE_GET_GE: scans the whole table for the entry of |n|, and negates y for n < 0. */
  method ConstTableGetGe(pre: array<Ge>, n: int, ghost z: int, ghost q: CurvePoint) returns (r: Ge)
    requires CurveFacts() && OddDigit(n, W) && TABLE_A <= pre.Length
    requires forall m :: 0 <= m < TABLE_A ==> TableEntry(pre[m], z, Mul(2 * m + 1, q))
    ensures RepGe(r, z, Mul(n, q)) && !r.infinity
  {
    hide CurveFacts, Mul, Neg, TableEntry, FeCmov, FeNegate, RepGe, OnCurve;
    Base();
    var absN := if n < 0 then -n else n;
    var idxN := absN / 2;
    var x, y := ScanTable(pre, idxN, z, q);
    ghost var e, p := pre[idxN], Mul(absN, q);
    assert TableEntry(pre[idxN], z, Mul(2 * idxN + 1, q));
    EntryBounds(e, z, p);
    r := Ge(x, y, false);
    SameEntry(e, r, z, p);
    FlipRep(r, z, p);
    MulNeg(absN, q);
    var negY := FeNegate(r.y, 1);
    r := r.(y := FeCmov(r.y, negY, n != absN));
    CmovFlag(Ge(x, y, false), negY, n != absN, z, p);
  }

  lemma EntryBounds(e: Ge, z: int, p: CurvePoint)
    requires TableEntry(e, z, p)
    ensures e.x.mag <= MAX_MUL_MAGNITUDE && e.y.mag <= 1 && !e.infinity
  {
  }

  lemma SameEntry(e: Ge, r: Ge, z: int, p: CurvePoint)
    requires TableEntry(e, z, p) && r.x.v == e.x.v && r.y.v == e.y.v && !r.infinity && r.x.mag <= MAX_MUL_MAGNITUDE
      && r.y.mag <= 1
    ensures RepGe(r, z, p)
  {
  }

  lemma CmovFlag(r: Ge, negY: Fe, flag: bool, z: int, p: CurvePoint)
    requires RepGe(r, z, p) && r.y.mag <= 1 && negY == FeNegate(r.y, 1) && RepGe(r.(y := negY), z, Neg(p))
    ensures RepGe(r.(y := FeCmov(r.y, negY, flag)), z, if flag then Neg(p) else p)
  {
  }

  // ---- the ladder ----

  /** secp256k1_ecmult_odd_multiples_table_globalz_windowa */
  method OddMultiplesGlobalz(pre: array<Ge>, a: Gej, ghost p: CurvePoint) returns (globalz: Fe)
    requires CurveFacts() && Rep(a, 1, p) && !a.infinity && pre.Length == TABLE_A
    modifies pre
    ensures globalz.v != 0 && globalz.mag <= MAX_MUL_MAGNITUDE
    ensures forall m :: 0 <= m < TABLE_A ==> TableEntry(pre[m], globalz.v, Mul(2 * m + 1, p))
  {
    hide CurveFacts, Mul, Rep, TableEntry, Chain, M, OnCurve;
    OrderIs();
    var infinity := GejSetInfinity();
    var prej := new Gej[TABLE_A](_ => infinity);
    var zr := new Fe[TABLE_A](_ => FeSetInt(1));
    ghost var tz := OddMultiplesTable(TABLE_A, prej, zr, 0, a, p);
    assert prej[0..0 + TABLE_A] == prej[..TABLE_A] && zr[0..0 + TABLE_A] == zr[..TABLE_A];
    globalz := GlobalzSetTable(TABLE_A, pre, prej, zr, tz, OddMultiples(p, TABLE_A));
  }

  /** The lambda table of a single point. */
  method LambdaTable(preLam: array<Ge>, pre: array<Ge>, ghost z: int, ghost p: CurvePoint)
    requires CurveFacts() && Cyclic() && pre != preLam && pre.Length == preLam.Length == TABLE_A
    requires forall m :: 0 <= m < TABLE_A ==> TableEntry(pre[m], z, Mul(2 * m + 1, p))
    modifies preLam
    ensures forall m :: 0 <= m < TABLE_A ==> TableEntry(preLam[m], z, Mul(2 * m + 1, Mul(LAMBDA, p)))
  {
    hide CurveFacts, Cyclic, Mul, TableEntry, GeMulLambda, OnCurve;
    for i := 0 to TABLE_A
      invariant forall m :: 0 <= m < i ==> TableEntry(preLam[m], z, Mul(2 * m + 1, Mul(LAMBDA, p)))
    {
      LambdaEntry(pre[i], z, Mul(2 * i + 1, p));
      MulMul(LAMBDA, 2 * i + 1, p);
      MulMul(2 * i + 1, LAMBDA, p);
      assert LAMBDA * (2 * i + 1) == (2 * i + 1) * LAMBDA;
      preLam[i] := GeMulLambda(pre[i]);
    }
  }

  /** Four doublings of a point that is not infinity. */
  method DoubleWindow(r: Gej, ghost z: int, ghost h: CurvePoint) returns (r': Gej)
    requires CurveFacts() && Rep(r, z, h) && h != Infinity
    ensures Rep(r', z, Mul(16, h))
  {
    hide CurveFacts, CurveAdd, Mul, Rep, Pow2, OnCurve;
    r' := r;
    RepFacts(r, z, h);
    Pow2Small();
    MulOne(h);
    for j := 0 to W
      invariant Rep(r', z, Mul(Pow2(j), h)) && !r'.infinity
    {
      DoubledPower(j, h);
      r' := GejDoubleNonzero(r', z, Mul(Pow2(j), h));
    }
    Base();
  }

  ghost predicate HasTable(pre: seq<Ge>, z: int, q: CurvePoint)
  {
    |pre| == TABLE_A && forall m :: 0 <= m < TABLE_A ==> TableEntry(pre[m], z, Mul(2 * m + 1, q))
  }

  /** Adds n*q from a table. */
  method AddEntry(r: Gej, pre: array<Ge>, n: int, ghost z: int, ghost sum: CurvePoint, ghost q: CurvePoint)
      returns (r': Gej)
    requires CurveFacts() && Rep(r, z, sum) && OddDigit(n, W) && HasTable(pre[..], z, q)
    ensures Rep(r', z, CurveAdd(sum, Mul(n, q)))
  {
    hide CurveFacts, CurveAdd, Mul, Rep, RepGe, TableEntry, OnCurve;
    assert forall m :: 0 <= m < TABLE_A ==> pre[..][m] == pre[m];
    var tmpa := ConstTableGetGe(pre, n, z, q);
    r' := GejAddGe(r, tmpa, z, sum, Mul(n, q));
  }

  /** The first digits set r directly. */
  method FirstDigits(preA: array<Ge>, preALam: array<Ge>, d1: seq<int>, dLam: seq<int>, ghost z: int,
      ghost p: CurvePoint) returns (r: Gej)
    requires CurveFacts() && d1 != [] && OddDigits(d1, W) && HasTable(preA[..], z, p)
    requires dLam != [] ==> OddDigits(dLam, W) && |dLam| == |d1| && HasTable(preALam[..], z, Mul(LAMBDA, p))
    ensures Rep(r, z, Horner(TwoStreams(d1, dLam, p), 16, |d1| - 1))
  {
    hide CurveFacts, CurveAdd, Mul, Rep, RepGe, Horner, Tail, OnCurve;
    var top := |d1| - 1;
    HornerTwo(d1, dLam, p, top);
    LastDigit(d1);
    assert forall m :: 0 <= m < TABLE_A ==> preA[..][m] == preA[m];
    var tmpa := ConstTableGetGe(preA, d1[top], z, p);
    r := GejSetGe(tmpa);
    FromRepGe(tmpa, z, Mul(d1[top], p));
    if dLam != [] {
      LastDigit(dLam);
      r := AddEntry(r, preALam, dLam[top], z, Mul(d1[top], p), Mul(LAMBDA, p));
    } else {
      EmptyTail(top);
      MulOne(Mul(LAMBDA, p));
      AddInfinity(Mul(d1[top], p));
    }
  }

  lemma LastDigit(d: seq<int>)
    requires d != [] && OddDigits(d, W)
    ensures Tail(d, 16, |d| - 1) == d[|d| - 1] && OddDigit(d[|d| - 1], W)
  {
    assert d[|d| - 1..] == [d[|d| - 1]];
    EvalOne(d[|d| - 1], 16);
  }

  /** One column down. */
  lemma LadderStep(d1: seq<int>, dLam: seq<int>, p: CurvePoint, i: nat)
    requires CurveFacts()
    ensures Horner(TwoStreams(d1, dLam, p), 16, i)
      == CurveAdd(CurveAdd(Mul(16, Horner(TwoStreams(d1, dLam, p), 16, i + 1)), Mul(Digit(d1, i), p)),
        Mul(Digit(dLam, i), Mul(LAMBDA, p)))
  {
    hide CurveFacts, CurveAdd, Mul, Horner, Column, Digit, OnCurve;
    var s1, s2 := Stream(d1, p), Stream(dLam, Mul(LAMBDA, p));
    var h := Mul(16, Horner(TwoStreams(d1, dLam, p), 16, i + 1));
    HornerStep(TwoStreams(d1, dLam, p), 16, i);
    ColumnTwo([], s1, s2, i, h);
    assert [] + [s1, s2] == TwoStreams(d1, dLam, p);
    EmptyColumn(i);
    AddInfinity(h);
  }

  lemma EmptyColumn(i: nat)
    ensures Column([], i) == Infinity
  {
  }

  /** All digits of both strings, relative to the z coordinate of the tables. */
  method Climb(preA: array<Ge>, preALam: array<Ge>, d1: seq<int>, dLam: seq<int>, ghost z: int, ghost p: CurvePoint)
      returns (r: Gej)
    requires CurveFacts() && p != Infinity && |d1| > 0 && OddDigits(d1, W) && HasTable(preA[..], z, p)
    requires -TWO_128 - 2 <= Eval(d1, 16) <= TWO_128 + 2
    requires dLam != [] ==> OddDigits(dLam, W) && |dLam| == |d1| && HasTable(preALam[..], z, Mul(LAMBDA, p))
    requires dLam != [] ==> -TWO_128 - 2 <= Eval(dLam, 16) <= TWO_128 + 2
    ensures Rep(r, z, Horner(TwoStreams(d1, dLam, p), 16, 0))
  {
    hide CurveFacts, CurveAdd, Mul, Rep, Horner, Tail, HasTable, Eval, OddDigit, TwoStreams, OnCurve;
    ghost var s := TwoStreams(d1, dLam, p);
    r := FirstDigits(preA, preALam, d1, dLam, z, p);
    var i := |d1| - 1;
    while i > 0
      invariant 0 <= i < |d1| && Rep(r, z, Horner(s, 16, i))
    {
      PrefixFinite(d1, dLam, p, i);
      i := i - 1;
      ghost var h := Horner(s, 16, i + 1);
      r := DoubleWindow(r, z, h);
      r := AddEntry(r, preA, d1[i], z, Mul(16, h), p);
      ghost var sum := CurveAdd(Mul(16, h), Mul(d1[i], p));
      if dLam != [] {
        r := AddEntry(r, preALam, dLam[i], z, sum, Mul(LAMBDA, p));
      } else {
        MulOne(Mul(LAMBDA, p));
        AddInfinity(sum);
      }
      LadderStep(d1, dLam, p, i);
    }
  }

  // ---- repaying the skew ----

  lemma NegDouble(p: CurvePoint)
    requires CurveFacts()
    ensures CurveAdd(p, p) == Mul(2, p) && Neg(p) == Mul(-1, p) && Neg(CurveAdd(p, p)) == Mul(-2, p)
  {
    hide CurveFacts, CurveAdd, Mul, Neg, OnCurve;
    Doubling(p);
    MulOne(p);
    MulNeg(2, p);
  }

  /** Affine coordinates of the point to subtract, a or 2a. */
  method Correction(a: Ge, skew: int, ghost p: CurvePoint) returns (c: Ge)
    requires CurveFacts() && RepGe(a, 1, p) && !a.infinity && (skew == 1 || skew == 2)
    ensures RepGe(c, 1, Mul(-skew, p)) && !c.infinity && c.x.mag <= 1
  {
    hide CurveFacts, CurveAdd, Mul, Neg, Rep, RepGe, GeNeg, IsPrime, OnCurve;
    FromRepGe(a, 1, p);
    Prime();
    var tmpj := GejSetGe(a);
    var ignore;
    tmpj, ignore := GejDoubleVar(tmpj, false, 1, p);
    var correction := GeSetGej(tmpj, CurveAdd(p, p));
    DoubleFinitePoint(tmpj, correction, p);
    StoredPoint(a, p);
    StoredPoint(correction, CurveAdd(p, p));
    var correction1 := GeToStorage(a);
    var a2 := GeToStorage(correction);
    correction1 := if skew == 2 then a2 else correction1;
    ghost var q := if skew == 2 then CurveAdd(p, p) else p;
    StoredRep(correction1, q);
    c := GeFromStorage(correction1);
    NegRepGe(c, 1, q);
    c := GeNeg(c);
    NegDouble(p);
    NegFacts(correction1);
  }

  lemma NegFacts(e: GeStorage)
    ensures !GeNeg(GeFromStorage(e)).infinity && GeNeg(GeFromStorage(e)).x.mag <= 1
  {
  }

  lemma DoubleFinitePoint(d: Gej, g: Ge, p: CurvePoint)
    requires Rep(d, 1, CurveAdd(p, p)) && !d.infinity && RepGe(g, 1, CurveAdd(p, p))
    ensures !g.infinity
  {
  }

  lemma StoredPoint(g: Ge, p: CurvePoint)
    requires RepGe(g, 1, p) && !g.infinity
    ensures Stores(GeToStorage(g), p)
  {
    AffineValues(g, p);
  }

  /** Digits minus skews recombine to the scalar. */
  lemma RepaidSplit(d1: seq<int>, dLam: seq<int>, skew1: int, skewLam: int, k: Scalar, p: CurvePoint)
    requires CurveFacts()
    requires Congruent(Eval(d1, 16) - skew1, SplitLambda(k).0, N)
      && Congruent(Eval(dLam, 16) - skewLam, SplitLambda(k).1, N)
    ensures CurveAdd(CurveAdd(Horner(TwoStreams(d1, dLam, p), 16, 0), Mul(-skew1, p)), Mul(LAMBDA, Mul(-skewLam, p)))
      == Mul(k, p)
  {
    hide CurveFacts, CurveAdd, Mul, Eval, Congruent, SplitLambda, Horner, Tail, OnCurve;
    var (k1, kLam) := SplitLambda(k);
    HornerTwo(d1, dLam, p, 0);
    TailStep(d1, 16, 0);
    TailStep(dLam, 16, 0);
    var x, y := Eval(d1, 16), Eval(dLam, 16);
    MulMul(LAMBDA, -skewLam, p);
    var t := x + y * LAMBDA;
    MulAdd(t, -skew1, p);
    MulAdd(t - skew1, LAMBDA * -skewLam, p);
    assert t - skew1 + LAMBDA * -skewLam == (x - skew1) + (y - skewLam) * LAMBDA;
    CongruentSelf(LAMBDA, N);
    CongruentMul(y - skewLam, kLam, LAMBDA, LAMBDA, N);
    CongruentAdd(x - skew1, k1, (y - skewLam) * LAMBDA, kLam * LAMBDA, N);
    SplitRecombines(k);
    CongruentTrans((x - skew1) + (y - skewLam) * LAMBDA, k1 + kLam * LAMBDA, k, N);
    MulCongruent((x - skew1) + (y - skewLam) * LAMBDA, k, p);
  }

  lemma RepaidSingle(d1: seq<int>, skew1: int, k: Scalar, p: CurvePoint)
    requires CurveFacts() && Congruent(Eval(d1, 16) - skew1, k, N)
    ensures CurveAdd(Horner(TwoStreams(d1, [], p), 16, 0), Mul(-skew1, p)) == Mul(k, p)
  {
    hide CurveFacts, CurveAdd, Mul, Eval, Congruent, Horner, Tail, OnCurve;
    HornerTwo(d1, [], p, 0);
    TailStep(d1, 16, 0);
    EmptyTail(0);
    assert 0 * LAMBDA == 0;
    MulAdd(Eval(d1, 16), -skew1, p);
    MulCongruent(Eval(d1, 16) - skew1, k, p);
  }

  lemma ShortMagnitude(x: Scalar)
    requires Short(x)
    ensures Magnitude(x) <= Pow2(128)
  {
    PowerValues();
  }

  /** secp256k1_ecmult_const: scalar*a, for a finite point a and a scalar of at most `size` bits up to sign. */
  method EcmultConst(a: Ge, scalar: Scalar, size: nat, ghost p: CurvePoint) returns (r: Gej)
    requires CurveFacts() && Cyclic() && RepGe(a, 1, p) && !a.infinity
    requires size > 0 && (size > 128 || Magnitude(scalar) <= Pow2(size))
    ensures Rep(r, 1, Mul(scalar, p))
  {
    hide CurveFacts, Cyclic, CurveAdd, Mul, Rep, RepGe, Eval, Congruent, Horner, SplitLambda, Short, Magnitude,
      OddDigits, Pow2, TableEntry, TwoStreams, WnafSize, OnCurve;
    var d1: seq<int>, dLam: seq<int>, skew1: int, skewLam: int := [], [], 0, 0;
    if size > 128 {
      var (q1, qLam) := SplitLambda(scalar);
      ShortMagnitude(q1);
      ShortMagnitude(qLam);
      d1, skew1 := ConstRecode(q1, 128);
      dLam, skewLam := ConstRecode(qLam, 128);
    } else {
      d1, skew1 := ConstRecode(scalar, size);
    }
    FromRepGe(a, 1, p);
    r := GejSetGe(a);
    RepFacts(r, 1, p);
    var preA := new Ge[TABLE_A](_ => ConstG());
    var preALam := new Ge[TABLE_A](_ => ConstG());
    var Z := OddMultiplesGlobalz(preA, r, p);
    NormalizeTable(preA, Z.v, p);
    if size > 128 {
      LambdaTable(preALam, preA, Z.v, p);
    }
    r := Climb(preA, preALam, d1, dLam, Z.v, p);
    ghost var h := Horner(TwoStreams(d1, dLam, p), 16, 0);
    RepFacts(r, Z.v, h);
    ScaleZ(r, Z, h);
    r := r.(z := FeMul(r.z, Z));
    var c := Correction(a, skew1, p);
    r := GejAddGe(r, c, 1, h, Mul(-skew1, p));
    if size > 128 {
      var cLam := Correction(a, skewLam, p);
      MulLambdaRep(cLam, 1, Mul(-skewLam, p));
      LambdaFinite(cLam);
      r := GejAddGe(r, GeMulLambda(cLam), 1, CurveAdd(h, Mul(-skew1, p)), Mul(LAMBDA, Mul(-skewLam, p)));
      RepaidSplit(d1, dLam, skew1, skewLam, scalar, p);
    } else {
      RepaidSingle(d1, skew1, scalar, p);
    }
  }

  lemma LambdaFinite(c: Ge)
    requires c.x.mag <= MAX_MUL_MAGNITUDE
    ensures GeMulLambda(c).infinity == c.infinity
  {
  }

  /** Multiplying z by Z, also when the point is infinity. */
  lemma ScaleZ(r: Gej, Z: Fe, p: CurvePoint)
    requires Rep(r, Z.v, p) && Z.mag <= MAX_MUL_MAGNITUDE
    ensures r.z.mag <= MAX_MUL_MAGNITUDE && Rep(r.(z := FeMul(r.z, Z)), 1, p)
  {
    LeaveIsomorphism(r, Z, p);
  }

  /** The y coordinates of the table are weakly normalized before use. */
  method NormalizeTable(pre: array<Ge>, ghost z: int, ghost p: CurvePoint)
    requires pre.Length == TABLE_A && forall m :: 0 <= m < TABLE_A ==> TableEntry(pre[m], z, Mul(2 * m + 1, p))
    modifies pre
    ensures forall m :: 0 <= m < TABLE_A ==> TableEntry(pre[m], z, Mul(2 * m + 1, p))
  {
    hide TableEntry, Mul, OnCurve;
    for i := 0 to TABLE_A
      invariant forall m :: 0 <= m < TABLE_A ==> TableEntry(pre[m], z, Mul(2 * m + 1, p))
    {
      NormalizedEntry(pre[i], z, Mul(2 * i + 1, p));
      pre[i] := pre[i].(y := FeNormalizeWeak(pre[i].y));
    }
  }

  lemma NormalizedEntry(e: Ge, z: int, p: CurvePoint)
    requires TableEntry(e, z, p)
    ensures e.y.mag <= MAX_MAGNITUDE && TableEntry(e.(y := FeNormalizeWeak(e.y)), z, p)
  {
  }
}
