/**
 * Interleaved multiplication, secp256k1_ecmult_strauss_wnaf with the endomorphism: all inputs are
 * recoded into sparse digits, their tables share one z coordinate Z, and one chain of doublings
 * serves every digit string.
 */
module Strauss {
  import opened Arith
  import opened Scalars
  import opened WnafSparse
  import opened Field
  import opened Curve
  import opened Jacobian
  import opened Tables
  import opened Endomorphism
  import opened Generator
  import opened Sums

  /** secp256k1_strauss_point_state: where the input came from, and the digits of its two halves. */
  datatype PointState = PointState(inputPos: nat, wnaf1: seq<int>, bits1: nat, wnafLam: seq<int>, bitsLam: nat)

  /** d is a sparse recoding of k with nothing at or above position `bits`. */
  ghost predicate Recodes(d: seq<int>, bits: nat, w: nat, k: int)
    requires w >= 2
  {
    && bits <= |d|
    && IsSparse(d, w)
    && (forall i :: bits <= i < |d| ==> d[i] == 0)
    && Congruent(Eval(d, 2), k, N)
  }

  /** Scalars below 2^128, up to sign, fit the digit arrays. */
  lemma ShortFolds(x: Scalar)
    requires Short(x)
    ensures Folded(x) < Pow2(128)
  {
    hide Pow2, Bits;
    OrderIs();
    FoldTop(x);
    OrderBits();
    PowerValues();
  }

  /** Recodes a short scalar with secp256k1_ecmult_wnaf into an array of the given length. */
  method Recode(k: Scalar, len: nat, w: nat) returns (d: seq<int>, bits: nat)
    requires Short(k) && 129 <= len <= 256 && 2 <= w <= 31
    ensures |d| == len && Recodes(d, bits, w, k)
  {
    hide Pow2, Eval, IsSparse, BitLength, Folded, FoldSign, Short;
    var wnaf := new int[len];
    ghost var carry;
    bits, carry := EcmultWnaf(wnaf, len, k, w);
    ShortFolds(k);
    Pow2Mono(128, len - 1);
    FoldCongruent(k);
    d := wnaf[..];
    assert wnaf[..len] == d;
  }

  // ---- the digit strings of all selected inputs ----

  ghost predicate Positions(ps: seq<PointState>, n: nat)
  {
    forall j :: 0 <= j < |ps| ==> ps[j].inputPos < n
  }

  /** Two strings for each selected input: one for its point, one for lambda times its point. */
  ghost function Streams(ps: seq<PointState>, pts: seq<CurvePoint>): (s: seq<Stream>)
    requires Positions(ps, |pts|)
    ensures |s| == 2 * |ps|
  {
    if ps == [] then []
    else
      var e := ps[|ps| - 1];
      Streams(ps[..|ps| - 1], pts) + [Stream(e.wnaf1, pts[e.inputPos]), Stream(e.wnafLam, Mul(LAMBDA, pts[e.inputPos]))]
  }

  lemma StreamsStep(ps: seq<PointState>, pts: seq<CurvePoint>, n: nat)
    requires Positions(ps, |pts|) && n < |ps|
    ensures Streams(ps[..n + 1], pts) == Streams(ps[..n], pts)
      + [Stream(ps[n].wnaf1, pts[ps[n].inputPos]), Stream(ps[n].wnafLam, Mul(LAMBDA, pts[ps[n].inputPos]))]
  {
    assert ps[..n + 1][..n] == ps[..n];
  }

  ghost predicate Digits(e: PointState)
  {
    && |e.wnaf1| == 130 && |e.wnafLam| == 130
    && e.bits1 <= 130 && e.bitsLam <= 130
    && IsSparse(e.wnaf1, WINDOW_A) && IsSparse(e.wnafLam, WINDOW_A)
    && (forall i :: e.bits1 <= i < 130 ==> e.wnaf1[i] == 0)
    && (forall i :: e.bitsLam <= i < 130 ==> e.wnafLam[i] == 0)
  }

  /** The selected inputs: well-formed digits, none longer than `bits`, adding up to the first np terms. */
  ghost predicate Selected(ps: seq<PointState>, bits: nat, np: nat, na: seq<Scalar>, pts: seq<CurvePoint>)
    requires np <= |na| == |pts|
  {
    && bits <= 130
    && Positions(ps, |pts|)
    && (forall j :: 0 <= j < |ps| ==> Digits(ps[j]) && ps[j].bits1 <= bits && ps[j].bitsLam <= bits)
    && (forall j :: 0 <= j < |ps| ==> pts[ps[j].inputPos] != Infinity)
    && Horner(Streams(ps, pts), 2, 0) == MultiSum(na[..np], pts[..np])
  }

  /** The two halves of a term recombine. */
  lemma HalvesRecombine(d1: seq<int>, dLam: seq<int>, k: Scalar, p: CurvePoint)
    requires CurveFacts()
    requires Congruent(Eval(d1, 2), SplitLambda(k).0, N) && Congruent(Eval(dLam, 2), SplitLambda(k).1, N)
    ensures CurveAdd(Mul(Eval(d1, 2), p), Mul(Eval(dLam, 2), Mul(LAMBDA, p))) == Mul(k, p)
  {
    hide CurveFacts, CurveAdd, Mul, Eval, Congruent, SplitLambda, OnCurve;
    var (k1, kLam) := SplitLambda(k);
    var x, y := Eval(d1, 2), Eval(dLam, 2);
    CongruentSelf(LAMBDA, N);
    CongruentMul(y, kLam, LAMBDA, LAMBDA, N);
    CongruentAdd(x, k1, y * LAMBDA, kLam * LAMBDA, N);
    SplitRecombines(k);
    CongruentTrans(x + y * LAMBDA, k1 + kLam * LAMBDA, k, N);
    LambdaSum(x, y, k, p);
  }

  lemma SelectSkip(ps: seq<PointState>, bits: nat, np: nat, na: seq<Scalar>, pts: seq<CurvePoint>)
    requires CurveFacts() && np < |na| == |pts| && Selected(ps, bits, np, na, pts)
    requires na[np] == 0 || pts[np] == Infinity
    ensures Selected(ps, bits, np + 1, na, pts)
  {
    hide CurveFacts, CurveAdd, Mul, Digits, MultiSum, Horner, Streams, OnCurve;
    MultiSumExtend(na, pts, np);
    MulOne(pts[np]);
    MulInfinity(na[np]);
    AddInfinity(MultiSum(na[..np], pts[..np]));
  }

  lemma SelectKeep(ps: seq<PointState>, bits: nat, np: nat, na: seq<Scalar>, pts: seq<CurvePoint>, e: PointState,
      bits': nat)
    requires CurveFacts() && np < |na| == |pts| && Selected(ps, bits, np, na, pts)
    requires pts[np] != Infinity && e.inputPos == np && Digits(e)
    requires Congruent(Eval(e.wnaf1, 2), SplitLambda(na[np]).0, N)
    requires Congruent(Eval(e.wnafLam, 2), SplitLambda(na[np]).1, N)
    requires bits <= bits' <= 130 && e.bits1 <= bits' && e.bitsLam <= bits'
    ensures Selected(ps + [e], bits', np + 1, na, pts)
  {
    hide CurveFacts, CurveAdd, Mul, Digits, MultiSum, Horner, Streams, Congruent, SplitLambda, Eval, Tail, OnCurve;
    var p := pts[np];
    var s := Streams(ps, pts);
    var s1, s2 := Stream(e.wnaf1, p), Stream(e.wnafLam, Mul(LAMBDA, p));
    assert (ps + [e])[..|ps|] == ps && (ps + [e])[..|ps| + 1] == ps + [e];
    StreamsStep(ps + [e], pts, |ps|);
    assert Streams(ps + [e], pts) == s + [s1] + [s2];
    HornerExtend(s, s1, 2, 0);
    HornerExtend(s + [s1], s2, 2, 0);
    TailStep(e.wnaf1, 2, 0);
    TailStep(e.wnafLam, 2, 0);
    HalvesRecombine(e.wnaf1, e.wnafLam, na[np], p);
    AddAssoc(Horner(s, 2, 0), Mul(Eval(e.wnaf1, 2), p), Mul(Eval(e.wnafLam, 2), Mul(LAMBDA, p)));
    MultiSumExtend(na, pts, np);
  }

  lemma SelectStart(na: seq<Scalar>, pts: seq<CurvePoint>)
    requires |na| == |pts|
    ensures Selected([], 0, 0, na, pts)
  {
    hide CurveAdd, Mul, OnCurve;
    assert na[..0] == [] && pts[..0] == [];
  }

  lemma RecodedState(e: PointState, k1: int, kLam: int)
    requires |e.wnaf1| == |e.wnafLam| == 130
    requires Recodes(e.wnaf1, e.bits1, WINDOW_A, k1) && Recodes(e.wnafLam, e.bitsLam, WINDOW_A, kLam)
    ensures Digits(e) && Congruent(Eval(e.wnaf1, 2), k1, N) && Congruent(Eval(e.wnafLam, 2), kLam, N)
  {
    hide IsSparse, Eval, Congruent;
  }

  ghost predicate RepAll(a: seq<Gej>, pts: seq<CurvePoint>)
  {
    |a| == |pts| && forall i :: 0 <= i < |a| ==> Rep(a[i], 1, pts[i])
  }

  /** Recodes every input with a nonzero scalar and a finite point. */
  method SelectPoints(ps: array<PointState>, a: seq<Gej>, na: seq<Scalar>, ghost pts: seq<CurvePoint>)
    returns (no: nat, bits: nat)
    requires CurveFacts() && |a| == |na| == |pts| && RepAll(a, pts) && ps.Length >= |a|
    modifies ps
    ensures no <= |a| && Selected(ps[..no], bits, |na|, na, pts)
  {
    hide CurveFacts, CurveAdd, Mul, Rep, Selected, Digits, SplitLambda, Short, Congruent, Eval, IsSparse, Recodes,
      OnCurve;
    no, bits := 0, 0;
    SelectStart(na, pts);
    assert ps[..0] == [];
    for np := 0 to |a|
      invariant no <= np && Selected(ps[..no], bits, np, na, pts)
    {
      RepFacts(a[np], 1, pts[np]);
      ghost var before, bits0 := ps[..no], bits;
      if na[np] == 0 || a[np].infinity {
        SelectSkip(before, bits, np, na, pts);
        continue;
      }
      var (na1, naLam) := SplitLambda(na[np]);
      var d1, b1 := Recode(na1, 130, WINDOW_A);
      var dLam, bLam := Recode(naLam, 130, WINDOW_A);
      ps[no] := PointState(np, d1, b1, dLam, bLam);
      RecodedState(ps[no], na1, naLam);
      BitsBounded(before, bits0, np, na, pts, ps[no]);
      if ps[no].bits1 > bits {
        bits := ps[no].bits1;
      }
      if ps[no].bitsLam > bits {
        bits := ps[no].bitsLam;
      }
      SelectKeep(before, bits0, np, na, pts, ps[no], bits);
      assert ps[..no + 1] == before + [ps[no]];
      no := no + 1;
    }
  }

  lemma BitsBounded(ps: seq<PointState>, bits: nat, np: nat, na: seq<Scalar>, pts: seq<CurvePoint>, e: PointState)
    requires np <= |na| == |pts| && Selected(ps, bits, np, na, pts) && Digits(e)
    ensures bits <= 130 && e.bits1 <= 130 && e.bitsLam <= 130
  {
    hide IsSparse, Horner, MultiSum, Streams, OnCurve;
  }

  // ---- tables over a common z ----

  /** The table contents: eight odd multiples for each selected input. */
  ghost function TablePoints(ps: seq<PointState>, pts: seq<CurvePoint>, no: nat): (t: seq<CurvePoint>)
    requires no <= |ps| && Positions(ps, |pts|)
    ensures |t| == TABLE_A * no
  {
    if no == 0 then []
    else TablePoints(ps, pts, no - 1) + OddMultiples(pts[ps[no - 1].inputPos], TABLE_A)
  }

  lemma {:induction false} TablePointAt(ps: seq<PointState>, pts: seq<CurvePoint>, no: nat, j: nat, m: nat)
    requires no <= |ps| && Positions(ps, |pts|) && j < no && m < TABLE_A
    ensures TablePoints(ps, pts, no)[TABLE_A * j + m] == Mul(2 * m + 1, pts[ps[j].inputPos])
  {
    hide Mul, OnCurve;
    if j < no - 1 {
      TablePointAt(ps, pts, no - 1, j, m);
    }
  }

  /** The chained tables of the first np selected inputs. */
  ghost predicate Chained(prej: seq<Gej>, zr: seq<Fe>, tz: seq<int>, ps: seq<PointState>, pts: seq<CurvePoint>, np: nat)
  {
    && np <= |ps| && Positions(ps, |pts|)
    && Chain(prej, zr, tz, TablePoints(ps, pts, np))
    && (np > 0 ==> M(tz[TABLE_A * np - 1]) == M(prej[TABLE_A * np - 1].z.v) != 0)
  }

  lemma LastOfChain(e: seq<Gej>, zr: seq<Fe>, tz: seq<int>, pts: seq<CurvePoint>)
    requires Chain(e, zr, tz, pts) && |e| > 0 && M(tz[|e| - 1]) == M(e[|e| - 1].z.v)
    ensures M(e[|e| - 1].z.v) != 0 && e[|e| - 1].z.mag <= MAX_MUL_MAGNITUDE
  {
    ChainAt(e, zr, tz, pts, |e| - 1);
  }

  /** A table computed from a rescaled input links up with the chain before it. */
  lemma LinkTable(prej: seq<Gej>, zr: seq<Fe>, tz: seq<int>, ps: seq<PointState>, pts: seq<CurvePoint>, np: nat,
      e: seq<Gej>, zr1: seq<Fe>, tz1: seq<int>, a: Gej, tmp: Gej)
    requires 0 < np < |ps| && Chained(prej, zr, tz, ps, pts, np) && a.z.mag <= MAX_MUL_MAGNITUDE
    requires Chain(e, zr1, tz1, OddMultiples(pts[ps[np].inputPos], TABLE_A))
    requires Is(tmp.z, a.z.v * prej[TABLE_A * np - 1].z.v)
    requires M(tz1[0]) == M(tmp.z.v * zr1[0].v) && M(tz1[TABLE_A - 1]) == M(e[TABLE_A - 1].z.v)
    requires zr1[0].mag <= MAX_MUL_MAGNITUDE
    ensures Chained(prej + e, zr + zr1[0 := FeMul(zr1[0], a.z)], tz + tz1, ps, pts, np + 1)
  {
    hide M, Chain, OddMultiples, FeMul, OnCurve;
    ghost var t := TablePoints(ps, pts, np);
    ChainLength(prej, zr, tz, t);
    ChainLength(e, zr1, tz1, OddMultiples(pts[ps[np].inputPos], TABLE_A));
    ghost var x: int := prej[TABLE_A * np - 1].z.v;
    LinkRatio(tmp.z, a.z, x, zr1[0], tz[TABLE_A * np - 1]);
    ghost var zr2 := zr1[0 := FeMul(zr1[0], a.z)];
    RatioHead(e, zr1, tz1, OddMultiples(pts[ps[np].inputPos], TABLE_A), FeMul(zr1[0], a.z));
    ChainConcat(prej, zr, tz, t, e, zr2, tz1, OddMultiples(pts[ps[np].inputPos], TABLE_A));
    LastOfChain(e, zr1, tz1, OddMultiples(pts[ps[np].inputPos], TABLE_A));
  }

  lemma RatioHead(e: seq<Gej>, zr: seq<Fe>, tz: seq<int>, pts: seq<CurvePoint>, z: Fe)
    requires Chain(e, zr, tz, pts) && |e| > 0 && z.mag <= 3
    ensures Chain(e, zr[0 := z], tz, pts)
  {
    hide Entry, Step;
    var zr' := zr[0 := z];
    forall k | 1 <= k < |e|
      ensures Ratio(tz, zr', k)
    {
      assert Ratio(tz, zr, k);
    }
  }

  lemma LinkRatio(tz: Fe, az: Fe, x: int, ratio: Fe, t: int)
    requires Is(tz, az.v * x) && M(t) == M(x) && az.mag <= MAX_MUL_MAGNITUDE && ratio.mag <= MAX_MUL_MAGNITUDE
    ensures M(tz.v * ratio.v) == M(t * FeMul(ratio, az).v)
  {
    hide M;
    Idempotent(az.v * x);
    Idempotent(ratio.v * az.v);
    Cong(tz.v, az.v * x, ratio.v, ratio.v);
    Cong(t, x, FeMul(ratio, az).v, ratio.v * az.v);
    assert (az.v * x) * ratio.v == x * (ratio.v * az.v);
  }

  /** The first table starts the chain. */
  lemma FirstTable(e: seq<Gej>, zr: seq<Fe>, tz: seq<int>, ps: seq<PointState>, pts: seq<CurvePoint>)
    requires |ps| > 0 && Positions(ps, |pts|)
    requires Chain(e, zr, tz, OddMultiples(pts[ps[0].inputPos], TABLE_A))
    requires M(tz[TABLE_A - 1]) == M(e[TABLE_A - 1].z.v)
    ensures Chained(e, zr, tz, ps, pts, 1)
  {
    hide M, Chain, OddMultiples, OnCurve;
    ghost var t := OddMultiples(pts[ps[0].inputPos], TABLE_A);
    ChainLength(e, zr, tz, t);
    LastOfChain(e, zr, tz, t);
    assert TablePoints(ps, pts, 0) == [];
    assert TablePoints(ps, pts, 1) == [] + t == t;
  }

  /** Appends the table of one more input to the chain. */
  method ChainTable(prej: array<Gej>, zr: array<Fe>, a: Gej, np: nat, ghost tz: seq<int>, ghost ps: seq<PointState>,
      ghost pts: seq<CurvePoint>)
    returns (ghost tz': seq<int>)
    requires CurveFacts() && prej != zr as object && 0 < np < |ps| && Positions(ps, |pts|)
    requires TABLE_A * (np + 1) <= prej.Length && TABLE_A * (np + 1) <= zr.Length
    requires Rep(a, 1, pts[ps[np].inputPos]) && pts[ps[np].inputPos] != Infinity
    requires Chained(prej[..TABLE_A * np], zr[..TABLE_A * np], tz, ps, pts, np)
    modifies prej, zr
    ensures Chained(prej[..TABLE_A * (np + 1)], zr[..TABLE_A * (np + 1)], tz', ps, pts, np + 1)
  {
    hide CurveFacts, Rep, Chained, Chain, M, FeMul, Mul, OddMultiples, OnCurve;
    OrderIs();
    ghost var p := pts[ps[np].inputPos];
    ghost var off := TABLE_A * np;
    ghost var e0, z0 := prej[..off], zr[..off];
    RepFacts(a, 1, p);
    Prime();
    ChainedLast(e0, z0, tz, ps, pts, np);
    var tmp := GejRescale(a, prej[(np - 1) * TABLE_A + TABLE_A - 1].z, 1, p);
    var tz1 := OddMultiplesTable(TABLE_A, prej, zr, np * TABLE_A, tmp, p);
    ghost var e1, z1 := prej[off..off + TABLE_A], zr[off..off + TABLE_A];
    ChainAt(e1, z1, tz1, OddMultiples(p, TABLE_A), 0);
    LinkTable(e0, z0, tz, ps, pts, np, e1, z1, tz1, a, tmp);
    ghost var before := zr[..];
    zr[np * TABLE_A] := FeMul(zr[np * TABLE_A], a.z);
    tz' := tz + tz1;
    assert prej[..off + TABLE_A] == e0 + e1;
    assert zr[..] == before[off := FeMul(before[off], a.z)] && before[..off] == z0 && before[off..off + TABLE_A] == z1;
    HeadReplaced(before, off, TABLE_A, FeMul(before[off], a.z));
    assert zr[..off + TABLE_A] == zr[..][..off + TABLE_A];
  }

  /** Replacing the first element of the part that follows the first k elements. */
  lemma HeadReplaced<T>(s: seq<T>, k: nat, n: nat, x: T)
    requires 0 < n && k + n <= |s|
    ensures s[k := x][..k + n] == s[..k] + s[k..k + n][0 := x]
  {
  }

  lemma ChainedLast(e: seq<Gej>, zr: seq<Fe>, tz: seq<int>, ps: seq<PointState>, pts: seq<CurvePoint>, np: nat)
    requires np > 0 && Chained(e, zr, tz, ps, pts, np)
    ensures |e| == TABLE_A * np && e[TABLE_A * np - 1].z.v != 0 && e[TABLE_A * np - 1].z.mag <= MAX_MUL_MAGNITUDE
  {
    hide M;
    SmallResidues();
    ChainAt(e, zr, tz, TablePoints(ps, pts, np), TABLE_A * np - 1);
  }

  ghost predicate TableEntries(t: seq<Ge>, z: int, pts: seq<CurvePoint>)
  {
    |t| == |pts| && forall k :: 0 <= k < |t| ==> TableEntry(t[k], z, pts[k])
  }

  /** Fills preA with the odd multiples of all selected inputs, over one common z. */
  method BuildTables(prej: array<Gej>, zr: array<Fe>, preA: array<Ge>, a: seq<Gej>, ps: seq<PointState>,
      ghost pts: seq<CurvePoint>)
    returns (z: Fe)
    requires CurveFacts() && prej != zr as object && prej != preA as object && zr != preA as object
    requires TABLE_A * |ps| <= prej.Length && TABLE_A * |ps| <= zr.Length && TABLE_A * |ps| <= preA.Length
    requires RepAll(a, pts) && Positions(ps, |pts|)
    requires forall j :: 0 <= j < |ps| ==> pts[ps[j].inputPos] != Infinity
    modifies prej, zr, preA
    ensures z.v != 0 && z.mag <= MAX_MUL_MAGNITUDE
    ensures TableEntries(preA[..TABLE_A * |ps|], z.v, TablePoints(ps, pts, |ps|))
  {
    hide CurveFacts, Rep, Chained, Chain, M, FeMul, Mul, OddMultiples, TableEntry, TablePoints, OnCurve;
    OrderIs();
    if |ps| > 0 {
      ghost var p := pts[ps[0].inputPos];
      RepFacts(a[ps[0].inputPos], 1, p);
      ghost var tz := OddMultiplesTable(TABLE_A, prej, zr, 0, a[ps[0].inputPos], p);
      assert prej[0..0 + TABLE_A] == prej[..TABLE_A] && zr[0..0 + TABLE_A] == zr[..TABLE_A];
      FirstTable(prej[..TABLE_A], zr[..TABLE_A], tz, ps, pts);
      for np := 1 to |ps|
        invariant Chained(prej[..TABLE_A * np], zr[..TABLE_A * np], tz, ps, pts, np)
      {
        tz := ChainTable(prej, zr, a[ps[np].inputPos], np, tz, ps, pts);
      }
      ghost var n := TABLE_A * |ps|;
      ChainedAll(prej[..n], zr[..n], tz, ps, pts);
      z := GlobalzSetTable(TABLE_A * |ps|, preA, prej, zr, tz, TablePoints(ps, pts, |ps|));
    } else {
      z := FeSetInt(1);
    }
  }

  lemma ChainedAll(e: seq<Gej>, zr: seq<Fe>, tz: seq<int>, ps: seq<PointState>, pts: seq<CurvePoint>)
    requires |ps| > 0 && Chained(e, zr, tz, ps, pts, |ps|)
    ensures Chain(e, zr, tz, TablePoints(ps, pts, |ps|)) && |e| == TABLE_A * |ps| == |tz|
    ensures M(tz[|e| - 1]) == M(e[|e| - 1].z.v)
  {
    hide M;
  }

  ghost predicate LambdaEntries(t: seq<Ge>, z: int, pts: seq<CurvePoint>)
  {
    |t| == |pts| && forall k :: 0 <= k < |t| ==> TableEntry(t[k], z, Mul(LAMBDA, pts[k]))
  }

  /** The second table: every entry under the endomorphism. */
  method BuildLambdaTables(preALam: array<Ge>, preA: array<Ge>, no: nat, ghost z: int, ghost pts: seq<CurvePoint>)
    requires Cyclic() && preA != preALam && TABLE_A * no <= preA.Length && TABLE_A * no <= preALam.Length
    requires CurveFacts() && TableEntries(preA[..TABLE_A * no], z, pts)
    modifies preALam
    ensures LambdaEntries(preALam[..TABLE_A * no], z, pts)
  {
    hide Cyclic, TableEntry, Mul, GeMulLambda, CurveFacts, OnCurve;
    for np := 0 to no
      invariant forall k :: 0 <= k < TABLE_A * np ==> TableEntry(preALam[k], z, Mul(LAMBDA, pts[k]))
    {
      for i := 0 to TABLE_A
        invariant forall k :: 0 <= k < TABLE_A * np + i ==> TableEntry(preALam[k], z, Mul(LAMBDA, pts[k]))
      {
        assert TableEntry(preA[..TABLE_A * no][TABLE_A * np + i], z, pts[TABLE_A * np + i]);
        LambdaEntry(preA[np * TABLE_A + i], z, pts[TABLE_A * np + i]);
        preALam[np * TABLE_A + i] := GeMulLambda(preA[np * TABLE_A + i]);
      }
    }
  }

  lemma LambdaEntry(a: Ge, z: int, p: CurvePoint)
    requires Cyclic() && CurveFacts() && TableEntry(a, z, p)
    ensures a.x.mag <= MAX_MUL_MAGNITUDE && TableEntry(GeMulLambda(a), z, Mul(LAMBDA, p))
  {
    hide M, Mul, CurveFacts, Cyclic, OnCurve;
    OrderIs();
    RepFacts(GejSetGe(a), z, p);
    MulLambdaRep(a, z, p);
    assert LAMBDA % N != 0;
    NotMultipleOfN(LAMBDA);
    MulNonzero(LAMBDA, p);
  }

  // ---- the interleaved loop ----

  /** Negating y in a table entry. */
  lemma FlipRep(g: Ge, s: int, p: CurvePoint)
    requires RepGe(g, s, p) && g.y.mag <= 1
    ensures RepGe(g.(y := FeNegate(g.y, 1)), s, Neg(p))
  {
    hide M, FeNegate;
    if p.Affine? {
      NegateY(g.y, 1 * s, p, 1);
    }
  }

  /** The table index of an odd digit. */
  lemma DigitIndex(n: int, w: nat)
    requires w >= 2 && n != 0 && SparseDigit(n, w)
    ensures n > 0 ==> 0 <= (n - 1) / 2 < TableSize(w) && 2 * ((n - 1) / 2) + 1 == n
    ensures n < 0 ==> 0 <= (-n - 1) / 2 < TableSize(w) && 2 * ((-n - 1) / 2) + 1 == -n
  {
    hide Pow2;
    Pow2Step(w - 1);
  }

  /** ECMULT_TABLE_GET_GE */
  method TableGetGe(pre: array<Ge>, off: nat, n: int, ghost z: int, ghost q: CurvePoint) returns (r: Ge)
    requires CurveFacts() && n != 0 && SparseDigit(n, WINDOW_A) && off + TABLE_A <= pre.Length
    requires forall m :: 0 <= m < TABLE_A ==> TableEntry(pre[off + m], z, Mul(2 * m + 1, q))
    ensures RepGe(r, z, Mul(n, q))
  {
    hide CurveFacts, Mul, RepGe, Neg, OnCurve;
    DigitIndex(n, WINDOW_A);
    assert TableSize(WINDOW_A) == TABLE_A;
    if n > 0 {
      assert TableEntry(pre[off + (n - 1) / 2], z, Mul(2 * ((n - 1) / 2) + 1, q));
      r := pre[off + (n - 1) / 2];
    } else {
      assert TableEntry(pre[off + (-n - 1) / 2], z, Mul(2 * ((-n - 1) / 2) + 1, q));
      r := pre[off + (-n - 1) / 2];
      FlipRep(r, z, Mul(-n, q));
      MulNeg(-n, q);
      r := r.(y := FeNegate(r.y, 1));
    }
  }

  /** ECMULT_TABLE_GET_GE_STORAGE */
  method TableGetGeStorage(pre: array<GeStorage>, n: int, w: nat, ghost q: CurvePoint) returns (r: Ge)
    requires CurveFacts() && w >= 2 && n != 0 && SparseDigit(n, w) && pre.Length == TableSize(w) && IsTable(pre[..], q)
    ensures RepGe(r, 1, Mul(n, q))
  {
    hide CurveFacts, Mul, RepGe, Neg, Stores, TableSize, OnCurve;
    DigitIndex(n, w);
    if n > 0 {
      StoredRep(pre[..][(n - 1) / 2], Mul(2 * ((n - 1) / 2) + 1, q));
      r := GeFromStorage(pre[(n - 1) / 2]);
    } else {
      StoredRep(pre[..][(-n - 1) / 2], Mul(2 * ((-n - 1) / 2) + 1, q));
      r := GeFromStorage(pre[(-n - 1) / 2]);
      FlipRep(r, 1, Mul(-n, q));
      MulNeg(-n, q);
      r := r.(y := FeNegate(r.y, 1));
    }
  }

  /** The eight entries of input np in a combined table, for the multiples of f times the input. */
  ghost predicate TableFor(pre: seq<Ge>, np: nat, z: int, q: CurvePoint)
  {
    && TABLE_A * np + TABLE_A <= |pre|
    && forall m :: 0 <= m < TABLE_A ==> TableEntry(pre[TABLE_A * np + m], z, Mul(2 * m + 1, q))
  }

  lemma EntriesFor(pre: seq<Ge>, z: int, ps: seq<PointState>, pts: seq<CurvePoint>, np: nat)
    requires Positions(ps, |pts|) && np < |ps| && TableEntries(pre, z, TablePoints(ps, pts, |ps|))
    ensures TableFor(pre, np, z, pts[ps[np].inputPos])
  {
    hide TableEntry, Mul, TablePoints, OnCurve;
    var t := TablePoints(ps, pts, |ps|);
    forall m | 0 <= m < TABLE_A
      ensures TableEntry(pre[TABLE_A * np + m], z, Mul(2 * m + 1, pts[ps[np].inputPos]))
    {
      TablePointAt(ps, pts, |ps|, np, m);
      assert TableEntry(pre[TABLE_A * np + m], z, t[TABLE_A * np + m]);
    }
  }

  lemma LambdaFor(pre: seq<Ge>, z: int, ps: seq<PointState>, pts: seq<CurvePoint>, np: nat)
    requires CurveFacts()
    requires Positions(ps, |pts|) && np < |ps| && LambdaEntries(pre, z, TablePoints(ps, pts, |ps|))
    ensures TableFor(pre, np, z, Mul(LAMBDA, pts[ps[np].inputPos]))
  {
    hide TableEntry, Mul, TablePoints, CurveFacts, OnCurve;
    var t, p := TablePoints(ps, pts, |ps|), pts[ps[np].inputPos];
    forall m | 0 <= m < TABLE_A
      ensures TableEntry(pre[TABLE_A * np + m], z, Mul(2 * m + 1, Mul(LAMBDA, p)))
    {
      TablePointAt(ps, pts, |ps|, np, m);
      MulMul(LAMBDA, 2 * m + 1, p);
      MulMul(2 * m + 1, LAMBDA, p);
      assert LAMBDA * (2 * m + 1) == (2 * m + 1) * LAMBDA;
      assert TableEntry(pre[TABLE_A * np + m], z, Mul(LAMBDA, t[TABLE_A * np + m]));
    }
  }

  /** Adds digit i of one string of input np, if the string reaches that far and the digit is not zero. */
  method AddDigit(r: Gej, pre: array<Ge>, np: nat, d: seq<int>, bits: nat, i: nat, ghost z: int, ghost sum: CurvePoint,
      ghost q: CurvePoint)
    returns (r': Gej)
    requires CurveFacts() && Rep(r, z, sum) && TableFor(pre[..], np, z, q)
    requires bits <= |d| && IsSparse(d, WINDOW_A) && forall k :: bits <= k < |d| ==> d[k] == 0
    ensures Rep(r', z, CurveAdd(sum, Mul(Digit(d, i), q)))
  {
    hide CurveFacts, CurveAdd, Mul, Rep, RepGe, TableEntry, OnCurve;
    if i < bits && d[i] != 0 {
      var n := d[i];
      forall m | 0 <= m < TABLE_A
        ensures TableEntry(pre[np * TABLE_A + m], z, Mul(2 * m + 1, q))
      {
        assert pre[..][TABLE_A * np + m] == pre[np * TABLE_A + m];
      }
      var tmpa := TableGetGe(pre, np * TABLE_A, n, z, q);
      var ignore;
      r', ignore := GejAddGeVar(r, tmpa, false, z, sum, Mul(n, q));
    } else {
      r' := r;
      MulOne(q);
      AddInfinity(sum);
    }
  }

  lemma ColumnPair(ps: seq<PointState>, pts: seq<CurvePoint>, np: nat, i: nat, acc: CurvePoint)
    requires CurveFacts() && Positions(ps, |pts|) && np < |ps|
    ensures CurveAdd(acc, Column(Streams(ps[..np + 1], pts), i))
      == CurveAdd(CurveAdd(CurveAdd(acc, Column(Streams(ps[..np], pts), i)),
        Mul(Digit(ps[np].wnaf1, i), pts[ps[np].inputPos])),
           Mul(Digit(ps[np].wnafLam, i), Mul(LAMBDA, pts[ps[np].inputPos])))
  {
    hide CurveFacts, CurveAdd, Mul, Streams, Digit, Column, OnCurve;
    StreamsStep(ps, pts, np);
    var p := pts[ps[np].inputPos];
    ColumnTwo(Streams(ps[..np], pts), Stream(ps[np].wnaf1, p), Stream(ps[np].wnafLam, Mul(LAMBDA, p)), i, acc);
  }

  /** Two more strings add their digits to a column. */
  lemma ColumnTwo(s: seq<Stream>, s1: Stream, s2: Stream, i: nat, acc: CurvePoint)
    requires CurveFacts()
    ensures CurveAdd(acc, Column(s + [s1, s2], i))
      == CurveAdd(CurveAdd(CurveAdd(acc, Column(s, i)), Mul(Digit(s1.digits, i), s1.point)),
        Mul(Digit(s2.digits, i), s2.point))
  {
    hide CurveFacts, CurveAdd, Mul, Digit, OnCurve;
    var t := s + [s1, s2];
    assert t[..|s| + 1] == s + [s1] && t[..|s| + 1][..|s|] == s;
    var x, y, c := Mul(Digit(s1.digits, i), s1.point), Mul(Digit(s2.digits, i), s2.point), Column(s, i);
    assert Column(s + [s1], i) == CurveAdd(c, x);
    assert Column(t, i) == CurveAdd(CurveAdd(c, x), y);
    AddAssoc(acc, CurveAdd(c, x), y);
    AddAssoc(acc, c, x);
  }

  /** Adds the digits at position i of all selected inputs. */
  method AddColumn(r: Gej, preA: array<Ge>, preALam: array<Ge>, ps: seq<PointState>, i: nat, ghost z: int,
      ghost acc: CurvePoint, ghost pts: seq<CurvePoint>)
    returns (r': Gej)
    requires CurveFacts() && Rep(r, z, acc) && Positions(ps, |pts|)
    requires forall j :: 0 <= j < |ps| ==> Digits(ps[j])
    requires TABLE_A * |ps| <= preA.Length && TableEntries(preA[..TABLE_A * |ps|], z, TablePoints(ps, pts, |ps|))
    requires TABLE_A * |ps| <= preALam.Length && LambdaEntries(preALam[..TABLE_A * |ps|], z, TablePoints(ps, pts, |ps|))
    ensures Rep(r', z, CurveAdd(acc, Column(Streams(ps, pts), i)))
  {
    hide CurveFacts, CurveAdd, Mul, Rep, Streams, TableEntries, LambdaEntries, TableFor, TablePoints, Digit, IsSparse,
      OnCurve;
    r' := r;
    ghost var a, l := preA[..TABLE_A * |ps|], preALam[..TABLE_A * |ps|];
    ColumnNone(ps, pts, i, acc);
    for np := 0 to |ps|
      invariant Rep(r', z, CurveAdd(acc, Column(Streams(ps[..np], pts), i)))
    {
      var e := ps[np];
      ghost var p, sum := pts[e.inputPos], CurveAdd(acc, Column(Streams(ps[..np], pts), i));
      EntriesFor(a, z, ps, pts, np);
      LambdaFor(l, z, ps, pts, np);
      Widen(a, preA[..], np, z, p);
      Widen(l, preALam[..], np, z, Mul(LAMBDA, p));
      r' := AddDigit(r', preA, np, e.wnaf1, e.bits1, i, z, sum, p);
      r' := AddDigit(r', preALam, np, e.wnafLam, e.bitsLam, i, z, CurveAdd(sum, Mul(Digit(e.wnaf1, i), p)),
        Mul(LAMBDA, p));
      ColumnPair(ps, pts, np, i, acc);
    }
    assert ps[..|ps|] == ps;
  }

  lemma ColumnNone(ps: seq<PointState>, pts: seq<CurvePoint>, i: nat, acc: CurvePoint)
    requires Positions(ps, |pts|)
    ensures CurveAdd(acc, Column(Streams(ps[..0], pts), i)) == acc
  {
    hide CurveAdd, Mul, OnCurve;
    assert Streams(ps[..0], pts) == [];
    AddInfinity(acc);
  }

  lemma Widen(a: seq<Ge>, b: seq<Ge>, np: nat, z: int, q: CurvePoint)
    requires TableFor(a, np, z, q) && |a| <= |b| && b[..|a|] == a
    ensures TableFor(b, np, z, q)
  {
    hide TableEntry, Mul, OnCurve;
    forall m | 0 <= m < TABLE_A
      ensures TableEntry(b[TABLE_A * np + m], z, Mul(2 * m + 1, q))
    {
      assert b[TABLE_A * np + m] == a[TABLE_A * np + m];
    }
  }

  /** Adds digit i of one of the generator's strings. */
  method AddGDigit(r: Gej, pre: array?<GeStorage>, d: seq<int>, bits: nat, i: nat, w: nat, Z: Fe,
      ghost sum: CurvePoint, ghost q: CurvePoint)
    returns (r': Gej)
    requires CurveFacts() && Rep(r, Z.v, sum) && Z.v != 0 && Z.mag <= MAX_MUL_MAGNITUDE && w >= 2
    requires bits > 0 ==> pre != null && pre.Length == TableSize(w) && IsTable(pre[..], q)
    requires bits <= |d| && IsSparse(d, w) && forall k :: bits <= k < |d| ==> d[k] == 0
    ensures Rep(r', Z.v, CurveAdd(sum, Mul(Digit(d, i), q)))
  {
    hide CurveFacts, CurveAdd, Mul, Rep, RepGe, IsTable, TableSize, OnCurve;
    if i < bits && d[i] != 0 {
      var tmpa := TableGetGeStorage(pre, d[i], w, q);
      r' := GejAddZinvVar(r, tmpa, Z, sum, Mul(d[i], q));
    } else {
      r' := r;
      MulOne(q);
      AddInfinity(sum);
    }
  }

  /** The generator's two digit strings, with nothing at or above position `bits`. */
  datatype GState = GState(wnaf1: seq<int>, bits1: nat, wnaf128: seq<int>, bits128: nat)

  ghost predicate GDigits(g: GState, w: nat)
    requires w >= 2
  {
    && g.bits1 <= |g.wnaf1| && g.bits128 <= |g.wnaf128|
    && IsSparse(g.wnaf1, w) && IsSparse(g.wnaf128, w)
    && (forall i :: g.bits1 <= i < |g.wnaf1| ==> g.wnaf1[i] == 0)
    && (forall i :: g.bits128 <= i < |g.wnaf128| ==> g.wnaf128[i] == 0)
  }

  ghost function GStream1(g: GState): Stream
  {
    Stream(g.wnaf1, G())
  }

  ghost function GStream128(g: GState): Stream
  {
    Stream(g.wnaf128, Mul(TWO_128, G()))
  }

  /** The generator's contribution. */
  ghost function GTerm(ng: Option<Scalar>): CurvePoint
  {
    if ng.None? then Infinity else Mul(ng.value, G())
  }

  ghost function AllStreams(ps: seq<PointState>, pts: seq<CurvePoint>, g: GState): seq<Stream>
    requires Positions(ps, |pts|)
  {
    Streams(ps, pts) + [GStream1(g), GStream128(g)]
  }

  /** Splits and recodes the generator's scalar, when there is one. */
  method RecodeG(ng: Option<Scalar>, w: nat) returns (g: GState)
    requires CurveFacts() && 2 <= w <= 31
    ensures GDigits(g, w)
    ensures ng.None? ==> g.bits1 == 0 && g.bits128 == 0
    ensures CurveAdd(Mul(Eval(g.wnaf1, 2), G()), Mul(Eval(g.wnaf128, 2), Mul(TWO_128, G()))) == GTerm(ng)
  {
    hide CurveFacts, CurveAdd, Mul, IsSparse, Congruent, Eval, OnCurve;
    if ng.None? {
      g := GState([], 0, [], 0);
      NoG(w);
      return;
    }
    var (ng1, ng128) := Split128(ng.value);
    var d1, b1 := Recode(ng1, 129, w);
    var d128, b128 := Recode(ng128, 129, w);
    g := GState(d1, b1, d128, b128);
    GRecombine(d1, d128, ng.value, ng1, ng128);
  }

  lemma NoG(w: nat)
    requires w >= 2
    ensures GDigits(GState([], 0, [], 0), w)
    ensures CurveAdd(Mul(Eval([], 2), G()), Mul(Eval([], 2), Mul(TWO_128, G()))) == GTerm(None)
  {
    hide Mul, OnCurve;
    MulOne(G());
    MulOne(Mul(TWO_128, G()));
    AddInfinity(Infinity);
  }

  lemma GRecombine(d1: seq<int>, d128: seq<int>, k: Scalar, k1: Scalar, k128: Scalar)
    requires CurveFacts() && k == k1 + TWO_128 * k128
    requires Congruent(Eval(d1, 2), k1, N) && Congruent(Eval(d128, 2), k128, N)
    ensures CurveAdd(Mul(Eval(d1, 2), G()), Mul(Eval(d128, 2), Mul(TWO_128, G()))) == Mul(k, G())
  {
    hide CurveFacts, CurveAdd, Mul, Eval, Congruent, G, OnCurve;
    var x, y := Eval(d1, 2), Eval(d128, 2);
    MulMul(y, TWO_128, G());
    MulAdd(x, y * TWO_128, G());
    CongruentSelf(TWO_128, N);
    CongruentMul(y, k128, TWO_128, TWO_128, N);
    CongruentAdd(x, k1, y * TWO_128, k128 * TWO_128, N);
    MulCongruent(x + y * TWO_128, k, G());
  }

  lemma {:induction false} StreamsZero(ps: seq<PointState>, pts: seq<CurvePoint>, bits: nat)
    requires Positions(ps, |pts|)
    requires forall j :: 0 <= j < |ps| ==> Digits(ps[j]) && ps[j].bits1 <= bits && ps[j].bitsLam <= bits
    ensures forall j :: 0 <= j < 2 * |ps| ==> ZeroFrom(Streams(ps, pts)[j].digits, bits)
  {
    hide IsSparse, Mul, OnCurve;
    if ps != [] {
      StreamsZero(ps[..|ps| - 1], pts, bits);
    }
  }

  ghost predicate ZeroFrom(d: seq<int>, bits: nat)
  {
    forall k :: bits <= k < |d| ==> d[k] == 0
  }

  /** Above the longest string nothing has been accumulated. */
  lemma LoopStart(ps: seq<PointState>, pts: seq<CurvePoint>, g: GState, bits: nat, w: nat)
    requires w >= 2 && Positions(ps, |pts|) && GDigits(g, w) && g.bits1 <= bits && g.bits128 <= bits
    requires forall j :: 0 <= j < |ps| ==> Digits(ps[j]) && ps[j].bits1 <= bits && ps[j].bitsLam <= bits
    ensures Horner(AllStreams(ps, pts, g), 2, bits) == Infinity
  {
    hide IsSparse, Mul, CurveAdd, Horner, Streams, Digits, OnCurve;
    StreamsZero(ps, pts, bits);
    var all := AllStreams(ps, pts, g);
    forall j | 0 <= j < |all|
      ensures ZeroFrom(all[j].digits, bits)
    {
      if j < 2 * |ps| { assert all[j] == Streams(ps, pts)[j]; }
    }
    HornerTop(all, 2, bits);
  }

  /** One round: doubling and adding all digits at position i. */
  lemma LoopStep(s: seq<Stream>, s1: Stream, s2: Stream, i: nat, h: CurvePoint)
    requires CurveFacts() && h == Horner(s + [s1, s2], 2, i + 1)
    ensures CurveAdd(CurveAdd(CurveAdd(CurveAdd(h, h), Column(s, i)), Mul(Digit(s1.digits, i), s1.point)),
      Mul(Digit(s2.digits, i), s2.point))
      == Horner(s + [s1, s2], 2, i)
  {
    hide CurveFacts, CurveAdd, Mul, Digit, Column, Horner, OnCurve;
    Doubling(h);
    ColumnTwo(s, s1, s2, i, Mul(2, h));
    HornerStep(s + [s1, s2], 2, i);
  }

  /** At the bottom all strings have been accumulated in full. */
  lemma LoopEnd(ps: seq<PointState>, pts: seq<CurvePoint>, g: GState, bits: nat, na: seq<Scalar>, ng: Option<Scalar>)
    requires CurveFacts() && |na| == |pts| && Selected(ps, bits, |na|, na, pts)
    requires CurveAdd(Mul(Eval(g.wnaf1, 2), G()), Mul(Eval(g.wnaf128, 2), Mul(TWO_128, G()))) == GTerm(ng)
    ensures Horner(AllStreams(ps, pts, g), 2, 0) == CurveAdd(MultiSum(na, pts), GTerm(ng))
  {
    hide CurveFacts, CurveAdd, Mul, Horner, MultiSum, Streams, Tail, Eval, G, GTerm, OnCurve;
    var s := Streams(ps, pts);
    var s1, s2 := GStream1(g), GStream128(g);
    assert s + [s1, s2] == (s + [s1]) + [s2];
    HornerExtend(s, s1, 2, 0);
    HornerExtend(s + [s1], s2, 2, 0);
    TailStep(g.wnaf1, 2, 0);
    TailStep(g.wnaf128, 2, 0);
    AddAssoc(Horner(s, 2, 0), Mul(Eval(g.wnaf1, 2), G()), Mul(Eval(g.wnaf128, 2), Mul(TWO_128, G())));
    assert na[..|na|] == na && pts[..|pts|] == pts;
  }

  /** The doublings and additions, all relative to the common z coordinate Z. */
  method Interleave(ctx: EcmultContext, preA: array<Ge>, preALam: array<Ge>, ps: seq<PointState>, g: GState, bits: nat,
      Z: Fe, ghost pts: seq<CurvePoint>)
    returns (r: Gej)
    requires CurveFacts() && ctx.Valid() && (g.bits1 > 0 || g.bits128 > 0 ==> ctx.IsBuilt())
    requires Positions(ps, |pts|) && GDigits(g, ctx.windowG) && g.bits1 <= bits && g.bits128 <= bits
    requires forall j :: 0 <= j < |ps| ==> Digits(ps[j]) && ps[j].bits1 <= bits && ps[j].bitsLam <= bits
    requires Z.v != 0 && Z.mag <= MAX_MUL_MAGNITUDE
    requires TABLE_A * |ps| <= preA.Length && TableEntries(preA[..TABLE_A * |ps|], Z.v, TablePoints(ps, pts, |ps|))
    requires TABLE_A * |ps| <= preALam.Length
      && LambdaEntries(preALam[..TABLE_A * |ps|], Z.v, TablePoints(ps, pts, |ps|))
    ensures Rep(r, Z.v, Horner(AllStreams(ps, pts, g), 2, 0))
  {
    hide CurveFacts, CurveAdd, Mul, Rep, Streams, TableEntries, LambdaEntries, TablePoints, Digit, IsSparse, Horner,
      Digits, IsTable, TableSize, G, OnCurve;
    ghost var s, all := Streams(ps, pts), AllStreams(ps, pts, g);
    r := GejSetInfinity();
    InfinityRep(Z.v);
    LoopStart(ps, pts, g, bits, ctx.windowG);
    var i := bits;
    while i > 0
      invariant 0 <= i <= bits && Rep(r, Z.v, Horner(all, 2, i))
    {
      i := i - 1;
      ghost var h := Horner(all, 2, i + 1);
      var ignore;
      r, ignore := GejDoubleVar(r, false, Z.v, h);
      r := AddColumn(r, preA, preALam, ps, i, Z.v, CurveAdd(h, h), pts);
      ghost var c := CurveAdd(CurveAdd(h, h), Column(s, i));
      r := AddGDigit(r, ctx.preG, g.wnaf1, g.bits1, i, ctx.windowG, Z, c, G());
      r := AddGDigit(r, ctx.preG128, g.wnaf128, g.bits128, i, ctx.windowG, Z, CurveAdd(c, Mul(Digit(g.wnaf1, i), G())),
        Mul(TWO_128, G()));
      LoopStep(s, GStream1(g), GStream128(g), i, h);
    }
  }

  /** Multiplying z by Z leaves the isomorphic curve. */
  lemma LeaveIsomorphism(r: Gej, Z: Fe, p: CurvePoint)
    requires Rep(r, Z.v, p) && Z.mag <= MAX_MUL_MAGNITUDE
    ensures r.infinity ==> Rep(r, 1, p)
    ensures !r.infinity ==> Rep(r.(z := FeMul(r.z, Z)), 1, p)
  {
    hide M;
    if !r.infinity {
      var z := FeMul(r.z, Z);
      Idempotent(r.z.v * Z.v);
      assert z.v * 1 == z.v;
      Rebase(r.x, r.y, r.z.v * Z.v, z.v * 1, p);
    }
  }

  /** secp256k1_ecmult_strauss_wnaf: the sum of na[i]*a[i], plus ng*G when ng is given. */
  method StraussWnaf(ctx: EcmultContext, prej: array<Gej>, zr: array<Fe>, preA: array<Ge>, preALam: array<Ge>,
      state: array<PointState>,
      a: seq<Gej>, na: seq<Scalar>, ng: Option<Scalar>, ghost pts: seq<CurvePoint>)
    returns (r: Gej)
    requires CurveFacts() && Cyclic() && ctx.Valid() && (ng.Some? ==> ctx.IsBuilt())
    requires |a| == |na| == |pts| && RepAll(a, pts)
    requires prej.Length >= TABLE_A * |a| && zr.Length >= TABLE_A * |a|
    requires preA.Length >= TABLE_A * |a| && preALam.Length >= TABLE_A * |a| && state.Length >= |a|
    requires prej != preA as object && zr != preA as object && prej != zr as object && preA != preALam
    requires state != prej as object && state != zr as object && state != preA as object && state != preALam as object
    modifies prej, zr, preA, preALam, state
    ensures Rep(r, 1, CurveAdd(MultiSum(na, pts), GTerm(ng)))
  {
    hide CurveFacts, Cyclic, CurveAdd, Mul, Rep, Streams, TableEntries, LambdaEntries, TablePoints, IsSparse,
      Horner, Digits,
      IsTable, TableSize, G, GTerm, MultiSum, Eval, GDigits;
    var no, bits := SelectPoints(state, a, na, pts);
    var ps := state[..no];
    SelectedFacts(ps, bits, na, pts);
    ghost var sel := bits;
    var Z := BuildTables(prej, zr, preA, a, ps, pts);
    BuildLambdaTables(preALam, preA, no, Z.v, TablePoints(ps, pts, no));
    var g := RecodeG(ng, ctx.windowG);
    if g.bits1 > bits {
      bits := g.bits1;
    }
    if g.bits128 > bits {
      bits := g.bits128;
    }
    r := Interleave(ctx, preA, preALam, ps, g, bits, Z, pts);
    LoopEnd(ps, pts, g, sel, na, ng);
    RepFacts(r, Z.v, Horner(AllStreams(ps, pts, g), 2, 0));
    LeaveIsomorphism(r, Z, Horner(AllStreams(ps, pts, g), 2, 0));
    if !r.infinity {
      r := r.(z := FeMul(r.z, Z));
    }
  }

  lemma SelectedFacts(ps: seq<PointState>, bits: nat, na: seq<Scalar>, pts: seq<CurvePoint>)
    requires |na| == |pts| && Selected(ps, bits, |na|, na, pts)
    ensures Positions(ps, |pts|)
    ensures forall j :: 0 <= j < |ps| ==> Digits(ps[j]) && ps[j].bits1 <= bits && ps[j].bitsLam <= bits
    ensures forall j :: 0 <= j < |ps| ==> pts[ps[j].inputPos] != Infinity
  {
    hide Digits, Horner, Streams, MultiSum, OnCurve;
  }

  /** secp256k1_ecmult: na*a, plus ng*G when ng is given. */
  method Ecmult(ctx: EcmultContext, a: Gej, na: Scalar, ng: Option<Scalar>, ghost p: CurvePoint) returns (r: Gej)
    requires CurveFacts() && Cyclic() && ctx.Valid() && (ng.Some? ==> ctx.IsBuilt())
    requires Rep(a, 1, p)
    ensures Rep(r, 1, CurveAdd(Mul(na, p), GTerm(ng)))
  {
    hide CurveFacts, Cyclic, CurveAdd, Mul, Rep, GTerm, OnCurve;
    var infinity := GejSetInfinity();
    var prej := new Gej[TABLE_A](_ => infinity);
    var zr := new Fe[TABLE_A](_ => FeSetInt(1));
    var preA := new Ge[TABLE_A](_ => ConstG());
    var preALam := new Ge[TABLE_A](_ => ConstG());
    var state := new PointState[1](_ => PointState(0, [], 0, [], 0));
    r := StraussWnaf(ctx, prej, zr, preA, preALam, state, [a], [na], ng, [p]);
    SingleSum(na, p);
  }

  lemma SingleSum(k: int, p: CurvePoint)
    ensures MultiSum([k], [p]) == Mul(k, p)
  {
    hide Mul, OnCurve;
    assert MultiSum([], []) == Infinity;
    assert [k][..0] == [] && [p][..0] == [];
    AddInfinity(Mul(k, p));
  }
}
