/**
 * Multiplication of the generator, secp256k1_ecmult_gen: a table of multiples of G at every digit
 * position, each position shifted by a point U_j of unknown logarithm where the U_j add up to
 * infinity, and a blinded scalar.
 */
module GeneratorComb {
  import opened Arith
  import opened Scalars
  import opened WnafFixed
  import opened Field
  import opened Curve
  import opened Jacobian
  import opened BatchInverse
  import opened Tables
  import opened Generator
  import opened Sums

  /** ECMULT_GEN_PREC_B */
  predicate PrecBits(b: nat)
  {
    b == 2 || b == 4 || b == 8
  }

  /** ECMULT_GEN_PREC_N */
  function PrecN(b: nat): (n: nat)
    requires PrecBits(b)
    ensures b * n == 256 && n > 2
  {
    256 / b
  }

  /** U_j */
  ghost function Offset(u: CurvePoint, n: nat, j: nat): CurvePoint
    requires n > 0
  {
    if j < n - 1 then Mul(Pow2(j), u) else Mul(1 - Pow2(n - 1), u)
  }

  /** U_0 + ... + U_(j-1) */
  ghost function OffsetSum(u: CurvePoint, n: nat, j: nat): CurvePoint
    requires n > 0
  {
    if j == 0 then Infinity else CurveAdd(OffsetSum(u, n, j - 1), Offset(u, n, j - 1))
  }

  lemma {:induction false} OffsetPrefix(u: CurvePoint, n: nat, j: nat)
    requires CurveFacts() && 0 < n && j < n
    ensures OffsetSum(u, n, j) == Mul(Pow2(j) - 1, u)
  {
    hide CurveFacts, CurveAdd, Mul, Pow2, OnCurve;
    Pow2Small();
    MulOne(u);
    if j > 0 {
      OffsetPrefix(u, n, j - 1);
      MulAdd(Pow2(j - 1) - 1, Pow2(j - 1), u);
      Pow2Step(j);
    }
  }

  /** The offsets cancel. */
  lemma OffsetsCancel(u: CurvePoint, n: nat)
    requires CurveFacts() && 0 < n
    ensures OffsetSum(u, n, n) == Infinity
  {
    hide CurveFacts, CurveAdd, Mul, Pow2, OnCurve;
    OffsetPrefix(u, n, n - 1);
    MulAdd(Pow2(n - 1) - 1, 1 - Pow2(n - 1), u);
    MulOne(u);
  }

  /** prec[j][i]: i * PREC_G^j * G + U_j */
  ghost function CombPoint(u: CurvePoint, b: nat, j: nat, i: nat): CurvePoint
    requires PrecBits(b)
  {
    CurveAdd(Offset(u, PrecN(b), j), Mul(i * Pow2(b * j), G()))
  }

  /** None of the table entries is infinity, which has no stored form. */
  ghost predicate Suitable(u: CurvePoint, b: nat)
    requires PrecBits(b)
  {
    forall j: nat, i: nat :: j < PrecN(b) && i < Pow2(b) ==> CombPoint(u, b, j, i) != Infinity
  }

  /** The bits of s below position o. */
  function Low(s: nat, o: nat): int
  {
    s - Pow2(o) * (s / Pow2(o))
  }

  lemma LowStep(s: nat, o: nat, count: nat)
    ensures Low(s, o + count) == Low(s, o) + Bits(s, o, count) * Pow2(o)
  {
    hide Pow2, Bits;
    BitsSplit(s, o, count);
    Pow2Add(o, count);
    var q := s / Pow2(o + count);
    MulDist(Pow2(o), Bits(s, o, count), Pow2(count) * q);
    MulAssoc(Pow2(o), Pow2(count), q);
    Swap(Pow2(o), Bits(s, o, count));
  }

  lemma LowAll(s: Scalar)
    ensures Low(s, 256) == s && Low(s, 0) == 0
  {
    hide Pow2;
    OrderBits();
    DivSmall(s, 256);
    Pow2Small();
  }

  /** What r holds before position j is added. */
  ghost function Partial(u: CurvePoint, b: nat, blind: int, gnb: nat, j: nat): CurvePoint
    requires PrecBits(b)
  {
    CurveAdd(Mul(Low(gnb, b * j) - blind, G()), OffsetSum(u, PrecN(b), j))
  }

  lemma PartialStep(u: CurvePoint, b: nat, blind: int, gnb: nat, j: nat)
    requires CurveFacts() && PrecBits(b)
    ensures CurveAdd(Partial(u, b, blind, gnb, j), CombPoint(u, b, j, Bits(gnb, b * j, b)))
      == Partial(u, b, blind, gnb, j + 1)
  {
    hide CurveFacts, CurveAdd, Mul, Pow2, Bits, Low, Offset, G, OnCurve;
    var k, m := Low(gnb, b * j) - blind, Bits(gnb, b * j, b) * Pow2(b * j);
    LowStep(gnb, b * j, b);
    assert b * j + b == b * (j + 1);
    MulAdd(k, m, G());
    var o, x := Offset(u, PrecN(b), j), Mul(m, G());
    assert OffsetSum(u, PrecN(b), j + 1) == CurveAdd(OffsetSum(u, PrecN(b), j), o);
    Commute(o, x);
    Interchange(Mul(k, G()), OffsetSum(u, PrecN(b), j), x, o);
  }

  lemma PartialEnds(u: CurvePoint, b: nat, blind: Scalar, gnb: Scalar, gn: Scalar)
    requires CurveFacts() && PrecBits(b) && gnb == ScalarAdd(gn, blind)
    ensures Partial(u, b, blind, gnb, 0) == Mul(-(blind as int), G())
    ensures Partial(u, b, blind, gnb, PrecN(b)) == Mul(gn, G())
  {
    hide CurveFacts, CurveAdd, Mul, Low, Offset, G, Congruent, OnCurve;
    LowAll(gnb);
    assert b * 0 == 0;
    AddInfinity(Mul(-(blind as int), G()));
    OffsetsCancel(u, PrecN(b));
    AddInfinity(Mul(gnb - blind, G()));
    Unblind(gn, blind, gnb);
    MulCongruent(gnb - blind, gn, G());
  }

  lemma Unblind(gn: Scalar, blind: Scalar, gnb: Scalar)
    requires gnb == ScalarAdd(gn, blind)
    ensures Congruent(gnb - blind, gn, N)
  {
    var q := (gn + blind) / N;
    assert N * -q == -(N * q);
    CongruentBy(gnb - blind, gn, N, -q);
  }

  /** Every field of `b` bits lies within one 32-bit limb. */
  lemma LimbField(b: nat, j: nat)
    requires PrecBits(b) && j < PrecN(b)
    ensures j * b == b * j && j * b + b <= 256 && j * b / 32 == (j * b + b - 1) / 32
  {
    if b == 2 { } else if b == 4 { } else { }
  }

  /** secp256k1_ecmult_gen_context */
  class EcmultGenContext {
    const precB: nat
    ghost const u: CurvePoint
    var prec: array2?<GeStorage>
    var blind: Scalar
    var initial: Gej

    /** The table is in place. */
    ghost predicate HasTable()
      reads this, prec
    {
      && PrecBits(precB)
      && prec != null && prec.Length0 == PrecN(precB) && prec.Length1 == Pow2(precB)
      && StoredRows(prec, u, precB, Pow2(precB), PrecN(precB))
    }

    /** ... and the starting point is minus the blinding value times G. */
    ghost predicate Valid()
      reads this, prec
    {
      HasTable() && Rep(initial, 1, Mul(-(blind as int), G()))
    }

    /** secp256k1_ecmult_gen: gn*G, whatever the blinding. */
    method EcmultGen(gn: Scalar) returns (r: Gej)
      requires CurveFacts() && Valid()
      ensures Rep(r, 1, Mul(gn, G()))
    {
      hide CurveFacts, CurveAdd, Mul, Rep, RepGe, Stores, CombPoint, Pow2, Bits, Partial, G, OnCurve;
      r := initial;
      var gnb := ScalarAdd(gn, blind);
      SmallResidues();
      var adds := GeStorage(0, 0);
      PartialEnds(u, precB, blind, gnb, gn);
      for j := 0 to PrecN(precB)
        invariant Rep(r, 1, Partial(u, precB, blind, gnb, j))
      {
        LimbField(precB, j);
        var bits := GetBits(gnb, j * precB, precB);
        for i := 0 to Pow2(precB)
          invariant i > bits ==> adds == prec[j, bits]
        {
          adds := if i == bits then prec[j, i] else adds;
        }
        var add := GeFromStorage(adds);
        StoredRep(adds, CombPoint(u, precB, j, bits));
        PartialStep(u, precB, blind, gnb, j);
        r := GejAddGe(r, add, 1, Partial(u, precB, blind, gnb, j), CombPoint(u, precB, j, bits));
      }
    }

    /**
     * secp256k1_ecmult_gen_blind. The two nonzero values s and b stand for what the random number
     * generator delivers; reset is the call without a seed.
     */
    method Blind(reset: bool, s: Fe, b: Scalar)
      requires CurveFacts() && HasTable() && (!reset ==> Valid())
      requires s.mag <= 1 && s.v != 0 && b != 0
      modifies this`blind, this`initial
      ensures Valid() && blind == Negate(b)
    {
      hide CurveFacts, CurveAdd, Mul, Rep, RepGe, G, IsPrime, Neg, Negate, OnCurve;
      Prime();
      if reset {
        ConstGRep();
        FromRepGe(ConstG(), 1, G());
        NegOfG();
        initial := GejSetGe(ConstG());
        RepFacts(initial, 1, G());
        NegRep(initial, 1, G());
        initial := GejNeg(initial);
        blind := 1;
      }
      initial := GejRescale(initial, s, 1, Mul(-(blind as int), G()));
      var gb := EcmultGen(b);
      MinusNegate(b);
      var negB := Negate(b);
      blind := negB;
      initial := gb;
    }

    /** secp256k1_ecmult_gen_context_init */
    constructor (precB: nat, ghost u: CurvePoint)
      requires PrecBits(precB)
      ensures this.precB == precB && this.u == u && prec == null
    {
      SmallResidues();
      this.precB := precB;
      this.u := u;
      prec := null;
      blind := 0;
      initial := Gej(Fe(0, 0), Fe(0, 0), Fe(0, 0), true);
    }

    /**
     * secp256k1_ecmult_gen_context_build. nums is the point with no known logarithm; u is nums + G.
     */
    method Build(nums: Ge, ghost numsPoint: CurvePoint, s: Fe, b: Scalar)
      requires CurveFacts() && PrecBits(precB) && (prec != null ==> Valid())
      requires RepGe(nums, 1, numsPoint) && u == CurveAdd(numsPoint, G()) && Suitable(u, precB)
      requires s.mag <= 1 && s.v != 0 && b != 0
      modifies this
      ensures Valid()
      ensures old(prec) != null ==> prec == old(prec) && blind == old(blind) && initial == old(initial)
      ensures old(prec) == null ==> blind == Negate(b)
    {
      hide CurveFacts, CurveAdd, Mul, Rep, RepGe, G, Stores, CombPoint, Suitable, Pow2, OnCurve;
      if prec != null {
        return;
      }
      ConstGRep();
      var ignore;
      var numsGej := GejSetGe(nums);
      FromRepGe(nums, 1, numsPoint);
      numsGej, ignore := GejAddGeVar(numsGej, ConstG(), false, 1, numsPoint, G());
      var table := BuildTable(precB, numsGej, u);
      prec := table;
      Blind(true, s, b);
    }
  }

  lemma NegOfG()
    requires CurveFacts()
    ensures Mul(-1, G()) == Neg(G())
  {
    MulOne(G());
  }

  lemma MinusNegate(b: Scalar)
    requires CurveFacts()
    ensures Mul(-(Negate(b) as int), G()) == Mul(b, G())
  {
    hide CurveFacts, Mul, G, OnCurve;
    CongruentBy(-(Negate(b) as int), b, N, if b == 0 then 0 else -1);
    MulCongruent(-(Negate(b) as int), b, G());
  }

  // ---- building the table ----

  ghost predicate RowsFilled(precj: seq<Gej>, u: CurvePoint, b: nat, g: nat, rows: nat)
    requires PrecBits(b)
  {
    forall j: nat, i: nat :: j < rows && i < g ==> RowEntry(precj, u, b, g, j, i)
  }

  ghost predicate RowEntry(precj: seq<Gej>, u: CurvePoint, b: nat, g: nat, j: nat, i: nat)
    requires PrecBits(b)
  {
    0 <= j * g + i < |precj| && Rep(precj[j * g + i], 1, CombPoint(u, b, j, i))
  }

  lemma CellIndex(j: nat, i: nat, g: nat, rows: nat)
    requires j < rows && i < g
    ensures 0 <= j * g && j * g + i < rows * g && j * g + g <= rows * g
  {
    MulMono(g, j + 1, rows);
    MulDist(g, j, 1);
  }

  /** One row: numsbase, numsbase + gbase, ..., with the rows before it untouched. */
  method FillRow(precj: array<Gej>, j: nat, b: nat, g: nat, numsbase: Gej, gbase: Gej, ghost u: CurvePoint)
    requires CurveFacts() && PrecBits(b) && j < PrecN(b) && g == Pow2(b) && precj.Length == PrecN(b) * g
    requires Rep(numsbase, 1, Offset(u, PrecN(b), j)) && Rep(gbase, 1, Mul(Pow2(b * j), G()))
    requires RowsFilled(precj[..], u, b, g, j)
    modifies precj
    ensures RowsFilled(precj[..], u, b, g, j + 1)
  {
    hide CurveFacts, CurveAdd, Mul, Rep, G, CombPoint, Offset, Pow2, RowsFilled, OnCurve;
    CellIndex(j, 0, g, PrecN(b)) by { PowPositive(b); }
    ghost var before := precj[..];
    var off := j * g;
    CombStart(u, b, j);
    precj[off] := numsbase;
    PowPositive(b);
    for i := 1 to g
      invariant precj[..off] == before[..off]
      invariant forall k :: 0 <= k < i ==> Rep(precj[off + k], 1, CombPoint(u, b, j, k))
    {
      CombStep(u, b, j, i);
      var ignore;
      precj[off + i], ignore := GejAddVar(precj[off + i - 1], gbase, false, 1, CombPoint(u, b, j, i - 1),
        Mul(Pow2(b * j), G()));
    }
    RowDone(before, precj[..], u, b, g, j);
  }

  lemma PowPositive(b: nat)
    requires b > 0
    ensures Pow2(b) >= 2
  {
  }

  lemma CombStart(u: CurvePoint, b: nat, j: nat)
    requires PrecBits(b)
    ensures CombPoint(u, b, j, 0) == Offset(u, PrecN(b), j)
  {
    hide CurveAdd, Mul, Offset, Pow2, OnCurve;
    assert 0 * Pow2(b * j) == 0;
    MulOne(G());
    AddInfinity(Offset(u, PrecN(b), j));
  }

  lemma CombStep(u: CurvePoint, b: nat, j: nat, i: nat)
    requires CurveFacts() && PrecBits(b) && i > 0
    ensures CurveAdd(CombPoint(u, b, j, i - 1), Mul(Pow2(b * j), G())) == CombPoint(u, b, j, i)
  {
    hide CurveFacts, CurveAdd, Mul, Offset, Pow2, G, OnCurve;
    var p := Pow2(b * j);
    MulAdd((i - 1) * p, p, G());
    MulDist(p, i, 1);
    Swap(p, i);
    Swap(p, i - 1);
    AddAssoc(Offset(u, PrecN(b), j), Mul((i - 1) * p, G()), Mul(p, G()));
  }

  lemma RowDone(before: seq<Gej>, precj: seq<Gej>, u: CurvePoint, b: nat, g: nat, j: nat)
    requires PrecBits(b) && j < PrecN(b) && |precj| == |before| == PrecN(b) * g && g > 0
      && RowsFilled(before, u, b, g, j)
    requires 0 <= j * g && j * g + g <= |precj| && precj[..j * g] == before[..j * g]
    requires forall k :: 0 <= k < g ==> Rep(precj[j * g + k], 1, CombPoint(u, b, j, k))
    ensures RowsFilled(precj, u, b, g, j + 1)
  {
    hide Rep, CombPoint, Pow2, OnCurve;
    forall r: nat, i: nat | r < j + 1 && i < g
      ensures RowEntry(precj, u, b, g, r, i)
    {
      if r < j {
        assert RowEntry(before, u, b, g, r, i);
        CellIndex(r, i, g, j);
        assert precj[..j * g][r * g + i] == before[..j * g][r * g + i];
      }
    }
  }

  lemma NextOffset(u: CurvePoint, n: nat, j: nat)
    requires CurveFacts() && n > 2 && j + 1 < n
    ensures var twice := CurveAdd(Offset(u, n, j), Offset(u, n, j));
      Offset(u, n, j + 1) == if j == n - 2 then CurveAdd(Neg(twice), u) else twice
  {
    hide CurveFacts, CurveAdd, Mul, Pow2, Neg, OnCurve;
    DoubledPower(j, u);
    if j == n - 2 {
      MulNeg(Pow2(j + 1), u);
      MulOne(u);
      MulAdd(-Pow2(j + 1), 1, u);
    }
  }

  lemma FirstOffset(u: CurvePoint, n: nat)
    requires n > 2
    ensures Offset(u, n, 0) == u
  {
    hide CurveAdd, Mul, OnCurve;
    MulOne(u);
    assert Pow2(0) == 1;
  }

  /** gbase is multiplied by PREC_G. */
  method NextBase(gbase: Gej, b: nat, ghost j: nat) returns (r: Gej)
    requires CurveFacts() && Rep(gbase, 1, Mul(Pow2(b * j), G()))
    ensures Rep(r, 1, Mul(Pow2(b * (j + 1)), G()))
  {
    hide CurveFacts, CurveAdd, Mul, Rep, Pow2, G, OnCurve;
    r := gbase;
    for i := 0 to b
      invariant Rep(r, 1, Mul(Pow2(b * j + i), G()))
    {
      DoubledPower(b * j + i, G());
      var ignore;
      r, ignore := GejDoubleVar(r, false, 1, Mul(Pow2(b * j + i), G()));
    }
    MulDist(b, j, 1);
  }

  /** numsbase is doubled, and replaced by the closing offset before the last row. */
  method NextNums(numsbase: Gej, numsGej: Gej, n: nat, j: nat, ghost u: CurvePoint) returns (r: Gej)
    requires CurveFacts() && n > 2 && j < n && Rep(numsbase, 1, Offset(u, n, j)) && Rep(numsGej, 1, u)
    ensures j + 1 < n ==> Rep(r, 1, Offset(u, n, j + 1))
  {
    hide CurveFacts, CurveAdd, Mul, Rep, Pow2, Offset, Neg, OnCurve;
    var ignore;
    ghost var twice := CurveAdd(Offset(u, n, j), Offset(u, n, j));
    r, ignore := GejDoubleVar(numsbase, false, 1, Offset(u, n, j));
    if j + 1 < n { NextOffset(u, n, j); }
    if j == n - 2 {
      RepFacts(r, 1, twice);
      NegRep(r, 1, twice);
      r := GejNeg(r);
      r, ignore := GejAddVar(r, numsGej, false, 1, Neg(twice), u);
    }
  }

  /** All rows, in Jacobian coordinates. */
  method BuildRows(b: nat, numsGej: Gej, ghost u: CurvePoint) returns (precj: array<Gej>)
    requires CurveFacts() && PrecBits(b) && Rep(numsGej, 1, u)
    ensures fresh(precj) && precj.Length == PrecN(b) * Pow2(b) && RowsFilled(precj[..], u, b, Pow2(b), PrecN(b))
  {
    hide CurveFacts, CurveAdd, Mul, Rep, Pow2, Offset, G, RowsFilled, OnCurve;
    var n, g := PrecN(b), Pow2(b);
    MulMono(g, 0, n);
    var infinity := GejSetInfinity();
    precj := new Gej[n * g](_ => infinity);
    ConstGRep();
    FromRepGe(ConstG(), 1, G());
    var gbase, numsbase := GejSetGe(ConstG()), numsGej;
    FirstOffset(u, n);
    Pow2Small();
    MulOne(G());
    assert b * 0 == 0;
    NoRows(precj[..], u, b, g);
    for j := 0 to n
      invariant Rep(gbase, 1, Mul(Pow2(b * j), G()))
      invariant j < n ==> Rep(numsbase, 1, Offset(u, n, j))
      invariant RowsFilled(precj[..], u, b, g, j)
    {
      FillRow(precj, j, b, g, numsbase, gbase, u);
      gbase := NextBase(gbase, b, j);
      numsbase := NextNums(numsbase, numsGej, n, j, u);
    }
  }

  lemma NoRows(precj: seq<Gej>, u: CurvePoint, b: nat, g: nat)
    requires PrecBits(b)
    ensures RowsFilled(precj, u, b, g, 0)
  {
  }

  ghost function CombPoints(u: CurvePoint, b: nat, g: nat, len: nat): (pts: seq<CurvePoint>)
    requires PrecBits(b) && g > 0
    ensures |pts| == len && forall k :: 0 <= k < len ==> pts[k] == CombCell(u, b, g, k)
  {
    seq(len, k requires 0 <= k => CombCell(u, b, g, k))
  }

  ghost function CombCell(u: CurvePoint, b: nat, g: nat, k: nat): CurvePoint
    requires PrecBits(b) && g > 0
  {
    QuotientNonNegative(k, g);
    CombPoint(u, b, k / g, k % g)
  }

  lemma CellAt(u: CurvePoint, b: nat, g: nat, j: nat, i: nat)
    requires PrecBits(b) && i < g && 0 <= j * g + i
    ensures CombCell(u, b, g, j * g + i) == CombPoint(u, b, j, i)
  {
    hide CombPoint;
    Swap(j, g);
    DivModUnique(j * g + i, g, j, i);
  }

  lemma RowsToCells(precj: seq<Gej>, u: CurvePoint, b: nat, g: nat, k: nat)
    requires PrecBits(b) && g > 0 && |precj| == PrecN(b) * g && RowsFilled(precj, u, b, g, PrecN(b)) && k < |precj|
    ensures Rep(precj[k], 1, CombCell(u, b, g, k)) && k / g < PrecN(b)
  {
    hide Rep, CombPoint, Pow2, PrecN, OnCurve;
    var j, i := RowOf(k, g, PrecN(b));
    assert RowEntry(precj, u, b, g, j, i);
  }

  lemma RowOf(k: nat, g: nat, rows: nat) returns (j: nat, i: nat)
    requires g > 0 && k < rows * g
    ensures j == k / g && i == k % g && j < rows && i < g && k == j * g + i
  {
    QuotientNonNegative(k, g);
    j, i := k / g, k % g;
    Swap(j, g);
    RowBelow(k, g, rows, j);
  }

  lemma RowBelow(k: int, g: int, rows: int, j: int)
    requires g > 0 && j * g <= k < rows * g
    ensures j < rows
  {
    if rows <= j {
      MulMono(g, rows, j);
      Swap(g, rows);
      Swap(g, j);
    }
  }

  lemma SmallTable(b: nat)
    requires PrecBits(b)
    ensures 0 < PrecN(b) * Pow2(b) <= SIZE_MAX
  {
    if b == 8 {
      assert Pow2(8) == 256;
    } else if b == 4 {
      assert Pow2(4) == 16;
    } else {
      assert Pow2(2) == 4;
    }
  }

  ghost predicate GeEntry(prec: seq<Ge>, u: CurvePoint, b: nat, g: nat, j: nat, i: nat)
    requires PrecBits(b)
  {
    0 <= j * g + i < |prec| && RepGe(prec[j * g + i], 1, CombPoint(u, b, j, i))
  }

  ghost predicate Normalized(prec: seq<Ge>, u: CurvePoint, b: nat, g: nat)
    requires PrecBits(b)
  {
    forall j: nat, i: nat :: j < PrecN(b) && i < g ==> GeEntry(prec, u, b, g, j, i)
  }

  /** Brings all entries to affine coordinates with one inversion. */
  method NormalizeRows(b: nat, precj: array<Gej>, ghost u: CurvePoint) returns (prec: array<Ge>)
    requires CurveFacts() && PrecBits(b) && Suitable(u, b) && precj.Length == PrecN(b) * Pow2(b)
    requires RowsFilled(precj[..], u, b, Pow2(b), PrecN(b))
    ensures fresh(prec) && Normalized(prec[..], u, b, Pow2(b))
  {
    hide CurveFacts, CurveAdd, Mul, Rep, RepGe, Pow2, G, RowsFilled, CombPoint, CombCell, IsPrime, Suitable,
      CombPoints, OnCurve;
    Prime();
    SmallTable(b);
    ghost var g, len := Pow2(b), precj.Length;
    ghost var pts := CombPoints(u, b, g, len);
    forall k | 0 <= k < len
      ensures Rep(precj[k], 1, pts[k]) && pts[k].Affine?
    {
      RowsToCells(precj[..], u, b, g, k);
      CellFinite(u, b, g, k);
    }
    prec := new Ge[precj.Length](_ => ConstG());
    GeSetAllGejVar(prec, precj, precj.Length, pts);
    forall j: nat, i: nat | j < PrecN(b) && i < g
      ensures GeEntry(prec[..], u, b, g, j, i)
    {
      CellIndex(j, i, g, PrecN(b));
      CellAt(u, b, g, j, i);
      assert RepGe(prec[j * g + i], 1, pts[j * g + i]);
    }
  }

  lemma CellFinite(u: CurvePoint, b: nat, g: nat, k: nat)
    requires PrecBits(b) && g == Pow2(b) && Suitable(u, b) && k / g < PrecN(b)
    ensures CombCell(u, b, g, k) != Infinity
  {
    hide CombPoint, Pow2;
    QuotientNonNegative(k, g);
  }

  ghost predicate StoredRows(table: array2<GeStorage>, u: CurvePoint, b: nat, g: nat, rows: nat)
    requires PrecBits(b) && rows <= table.Length0 && g <= table.Length1
    reads table
  {
    forall j: nat, i: nat :: j < rows && i < g ==> Stores(table[j, i], CombPoint(u, b, j, i))
  }

  /** Stores row j; the rows before it stay. */
  method StoreRow(table: array2<GeStorage>, row: seq<Ge>, j: nat, b: nat, ghost u: CurvePoint)
    requires PrecBits(b) && Suitable(u, b) && j < PrecN(b) == table.Length0 && |row| == Pow2(b) == table.Length1
    requires forall i :: 0 <= i < |row| ==> RepGe(row[i], 1, CombPoint(u, b, j, i))
    requires StoredRows(table, u, b, Pow2(b), j)
    modifies table
    ensures StoredRows(table, u, b, Pow2(b), j + 1)
  {
    hide RepGe, Pow2, CombPoint, Stores, Suitable;
    for i := 0 to |row|
      invariant StoredRows(table, u, b, |row|, j)
      invariant forall c: nat :: c < i ==> Stores(table[j, c], CombPoint(u, b, j, c))
    {
      EntryFinite(u, b, j, i);
      FiniteGe(row[i], CombPoint(u, b, j, i));
      table[j, i] := GeToStorage(row[i]);
    }
  }

  /** The whole table: rows, one batch normalization, storage. */
  method BuildTable(b: nat, numsGej: Gej, ghost u: CurvePoint) returns (table: array2<GeStorage>)
    requires CurveFacts() && PrecBits(b) && Rep(numsGej, 1, u) && Suitable(u, b)
    ensures fresh(table) && table.Length0 == PrecN(b) && table.Length1 == Pow2(b)
    ensures StoredRows(table, u, b, Pow2(b), PrecN(b))
  {
    hide CurveFacts, CurveAdd, Mul, Rep, RepGe, Pow2, G, RowsFilled, CombPoint, Stores, Normalized, Suitable,
      StoredRows, OnCurve;
    var precj := BuildRows(b, numsGej, u);
    var prec := NormalizeRows(b, precj, u);
    PowPositive(b);
    table := StoreRows(b, prec[..], u);
  }

  method StoreRows(b: nat, prec: seq<Ge>, ghost u: CurvePoint) returns (table: array2<GeStorage>)
    requires PrecBits(b) && Suitable(u, b) && Normalized(prec, u, b, Pow2(b)) && Pow2(b) > 0
    ensures fresh(table) && table.Length0 == PrecN(b) && table.Length1 == Pow2(b)
    ensures StoredRows(table, u, b, Pow2(b), PrecN(b))
  {
    hide Mul, RepGe, Pow2, G, CombPoint, Stores, Normalized, Suitable, StoredRows, PrecN, OnCurve;
    var n, g := PrecN(b), Pow2(b);
    SmallResidues();
    var zero := GeStorage(0, 0);
    table := new GeStorage[n, g]((_, _) => zero);
    NoStoredRows(table, u, b, g);
    for j := 0 to n
      invariant StoredRows(table, u, b, g, j)
    {
      RowAt(prec, u, b, g, j);
      StoreRow(table, prec[j * g..j * g + g], j, b, u);
    }
  }

  lemma NoStoredRows(table: array2<GeStorage>, u: CurvePoint, b: nat, g: nat)
    requires PrecBits(b) && g <= table.Length1
    ensures StoredRows(table, u, b, g, 0)
  {
  }

  lemma RowAt(prec: seq<Ge>, u: CurvePoint, b: nat, g: nat, j: nat)
    requires PrecBits(b) && g > 0 && Normalized(prec, u, b, g) && j < PrecN(b)
    ensures 0 <= j * g && j * g + g <= |prec|
    ensures forall i :: 0 <= i < g ==> RepGe(prec[j * g..j * g + g][i], 1, CombPoint(u, b, j, i))
  {
    hide CombPoint, RepGe, Normalized;
    EntryAt(prec, u, b, g, j, 0);
    EntryAt(prec, u, b, g, j, g - 1);
    CellIndex(j, 0, g, PrecN(b));
    forall i | 0 <= i < g
      ensures RepGe(prec[j * g..j * g + g][i], 1, CombPoint(u, b, j, i))
    {
      EntryAt(prec, u, b, g, j, i);
    }
  }

  lemma EntryAt(prec: seq<Ge>, u: CurvePoint, b: nat, g: nat, j: nat, i: nat)
    requires PrecBits(b) && Normalized(prec, u, b, g) && j < PrecN(b) && i < g
    ensures 0 <= j * g + i < |prec| && RepGe(prec[j * g + i], 1, CombPoint(u, b, j, i))
  {
    hide CombPoint, RepGe;
    assert GeEntry(prec, u, b, g, j, i);
  }

  lemma EntryFinite(u: CurvePoint, b: nat, j: nat, i: nat)
    requires PrecBits(b) && Suitable(u, b) && j < PrecN(b) && i < Pow2(b)
    ensures CombPoint(u, b, j, i) != Infinity
  {
    hide CombPoint;
  }

  lemma FiniteGe(g: Ge, p: CurvePoint)
    requires RepGe(g, 1, p) && p.Affine?
    ensures !g.infinity && Stores(GeToStorage(g), p)
  {
    AffineValues(g, p);
  }
}
