/** The generator and the verification context: tables of odd multiples of G and of 2^128*G. */
module Generator {
  import opened Arith
  import opened Scalars
  import opened Field
  import opened Curve
  import opened Jacobian
  import opened Tables
  import opened Sums

  const GX: int := 0x79BE667EF9DCBBAC55A06295CE870B07029BFCDB2DCE28D959F2815B16F81798
  const GY: int := 0x483ADA7726A3C4655DA4FBFC0E1108A8FD17B448A68554199C47D08FFB10D4B8
  const G_QUOTIENT: int := 0x1B888E01A06E974017A28A5B4DA436169761C9730B7AEEDF75FC60F6A33CFC7792FE74711F025D590B10E57F1B3A7CE38FFC4C885C515894B45C19C9F413E5E9

  lemma GeneratorOnCurve()
    ensures M(GX) == GX && M(GY) == GY && OnCurve(Affine(GX, GY))
  {
    hide M;
    ResidueRange(GX);
    ResidueRange(GY);
    GeneratorEquation();
    AddMultiple(GY * GY, G_QUOTIENT);
    EquationIs(GX, GY);
  }

  lemma GeneratorEquation()
    ensures GX * GX * GX + B == GY * GY + P * G_QUOTIENT
  {
  }

  predicate IsGenerator(p: Point)
  {
    p.Affine? && p.x == GX && p.y == GY
  }

  ghost predicate IsBase(p: CurvePoint)
  {
    p.Affine? && forall q: CurvePoint :: IsGenerator(q) ==> p == q
  }

  type Base = p: CurvePoint | IsBase(p) witness (GeneratorOnCurve(); Affine(GX, GY))

  /** The base point, whose coordinates are known only where GeneratorIs is called. */
  const BASE: Base

  /** secp256k1_ge_const_g, as a point. */
  function G(): (g: CurvePoint)
    ensures g.Affine?
  {
    BASE
  }

  lemma GeneratorIs()
    ensures IsGenerator(G())
  {
    GeneratorOnCurve();
    assert IsGenerator(Affine(GX, GY));
  }

  /** secp256k1_ge_const_g, as coordinates. */
  function ConstG(): (g: Ge)
    ensures g.x.mag == 1 && g.y.mag == 1 && !g.infinity
  {
    GeneratorOnCurve();
    Ge(Fe(GX, 1), Fe(GY, 1), false)
  }

  lemma ConstGRep()
    ensures RepGe(ConstG(), 1, G())
  {
    GeneratorIs();
    UnitRep(ConstG(), G());
  }

  lemma UnitRep(g: Ge, p: CurvePoint)
    requires p.Affine? && !g.infinity && g.x.v == p.x && g.y.v == p.y
    requires g.x.mag <= MAX_MUL_MAGNITUDE && g.y.mag <= MAX_MUL_MAGNITUDE
    ensures RepGe(g, 1, p)
  {
    hide M;
    SmallResidues();
    assert p.x * ((1 * 1) * (1 * 1)) == p.x && p.y * ((1 * 1) * ((1 * 1) * (1 * 1))) == p.y;
  }

  /** A stored entry, read back. */
  lemma StoredRep(e: GeStorage, p: CurvePoint)
    requires Stores(e, p)
    ensures RepGe(GeFromStorage(e), 1, p) && GeFromStorage(e).y.mag == 1
  {
    UnitRep(GeFromStorage(e), p);
  }

  /** ECMULT_TABLE_SIZE */
  function TableSize(w: nat): (n: nat)
    requires w >= 2
    ensures n > 0
  {
    Pow2(w - 2)
  }

  ghost predicate IsTable(t: seq<GeStorage>, p: CurvePoint)
  {
    forall k :: 0 <= k < |t| ==> Stores(t[k], Mul(2 * k + 1, p))
  }

  lemma TableFits(w: nat)
    requires 2 <= w <= 24
    ensures 2 * TableSize(w) + 1 < N
  {
    hide Pow2;
    OrderIs();
    Pow2Mono(w - 2, 32);
    PowerValues();
  }

  /** secp256k1_ecmult_context, built with ECMULT_WINDOW_SIZE = windowG. */
  class EcmultContext {
    const windowG: nat
    var preG: array?<GeStorage>
    var preG128: array?<GeStorage>

    ghost predicate Valid()
      reads this, preG, preG128
    {
      && 2 <= windowG <= 24
      && (preG == null <==> preG128 == null)
      && (preG != null && preG128 != null ==>
        && preG.Length == preG128.Length == TableSize(windowG)
        && IsTable(preG[..], G())
        && IsTable(preG128[..], Mul(TWO_128, G())))
    }

    /** secp256k1_ecmult_context_init */
    constructor (w: nat)
      requires 2 <= w <= 24
      ensures Valid() && !IsBuilt() && windowG == w
    {
      windowG := w;
      preG := null;
      preG128 := null;
    }

    predicate IsBuilt()
      reads this
    {
      preG != null
    }

    /** secp256k1_ecmult_context_build */
    method Build()
      requires CurveFacts() && Valid()
      modifies this
      ensures Valid() && IsBuilt()
      ensures old(IsBuilt()) ==> preG == old(preG) && preG128 == old(preG128)
    {
      hide CurveFacts, Rep, RepGe, Mul, IsTable, CurveAdd, TableSize, OnCurve;
      if preG != null {
        return;
      }
      ConstGRep();
      var gj := GejSetGe(ConstG());
      FromRepGe(ConstG(), 1, G());
      var size := TableSize(windowG);
      TableFits(windowG);
      SmallResidues();
      var zero := GeStorage(0, 0);
      var g1 := new GeStorage[size](_ => zero);
      OddMultiplesTableStorage(g1, gj, G());
      assert IsTable(g1[..], G()) by { IsTableFrom(g1, G()); }
      var g128j := DoubleTimes(gj, 128, G());
      PowerValues();
      var g2 := new GeStorage[size](_ => zero);
      OddMultiplesTableStorage(g2, g128j, Mul(TWO_128, G()));
      IsTableFrom(g2, Mul(TWO_128, G()));
      preG := g1;
      preG128 := g2;
    }
  }

  lemma IsTableFrom(a: array<GeStorage>, p: CurvePoint)
    requires forall k :: 0 <= k < a.Length ==> Stores(a[k], Mul(2 * k + 1, p))
    ensures IsTable(a[..], p)
  {
  }

  /** Doubles a n times. */
  method DoubleTimes(a: Gej, n: nat, ghost p: CurvePoint) returns (r: Gej)
    requires CurveFacts() && Rep(a, 1, p) && !a.infinity
    ensures Rep(r, 1, Mul(Pow2(n), p)) && !r.infinity
  {
    hide CurveFacts, Rep, Mul, Pow2, CurveAdd, OnCurve;
    r := a;
    Pow2Small();
    MulOne(p);
    for i := 0 to n
      invariant Rep(r, 1, Mul(Pow2(i), p)) && !r.infinity
    {
      DoubledPower(i, p);
      var ignore;
      r, ignore := GejDoubleVar(r, false, 1, Mul(Pow2(i), p));
    }
  }
}
