/** The map (x, y) -> (beta x, y) on the curve, which is compatible with the chord-and-tangent law. */
module EndoMap {
  import opened Arith
  import opened Field
  import opened Curve

  const BETA_VALUE: int := 0x7AE96A2B657C07106E64479EAC3434E99CF0497512F58995C1396C28719501EE

  predicate IsBeta(b: int)
  {
    b == BETA_VALUE
  }

  ghost predicate IsRoot(b: int)
  {
    forall v: int :: IsBeta(v) ==> b == v
  }

  type Root = b: int | IsRoot(b) witness BETA_VALUE

  /** The cube root of one, of which nothing is known until BetaIs is called. */
  const BETA: Root

  lemma BetaIs()
    ensures BETA == BETA_VALUE
  {
    assert IsBeta(BETA_VALUE);
  }

  function Endo(p: CurvePoint): CurvePoint
  {
    match p
    case Infinity => Infinity
    case Affine(x, y) =>
      EndoOnCurve(x, y);
      Affine(M(BETA * x), y)
  }

  lemma BetaCube()
    ensures M(BETA * BETA * BETA) == 1
  {
    hide M;
    BetaIs();
    assert BETA * BETA * BETA == P * BETA_CUBE_QUOTIENT + 1;
    AddMultiple(1, BETA_CUBE_QUOTIENT);
    SmallResidues();
  }

  const BETA_CUBE_QUOTIENT: int := 0x1C5561A92FCEF40FFD987005D9737CFE85A78C7E6BA77875579AEEF843C66A0B755D1035589264211B09D98057ECA56D743B7D941302C88BD2A8F620B638E179

  lemma ResidueBeta()
    ensures M(BETA) == BETA && BETA != 0
  {
    BetaIs();
    ResidueRange(BETA);
  }

  lemma EndoOnCurve(x: Residue, y: Residue)
    requires OnCurve(Affine(x, y))
    ensures M(M(BETA * x)) == M(BETA * x) && OnCurve(Affine(M(BETA * x), y))
  {
    hide M;
    Idempotent(BETA * x);
    var z := BETA * x;
    EquationIs(x, y);
    EquationIs(M(z), y);
    Cong(M(z), z, M(z), z);
    Cong(M(z) * M(z), z * z, M(z), z);
    CubeOfProduct(BETA, x);
    BetaCube();
    SmallResidues();
    Cong(BETA * BETA * BETA, 1, x * x * x, x * x * x);
    Cong(M(z) * M(z) * M(z), x * x * x, B, B);
  }

  lemma CubeOfProduct(b: int, x: int)
    ensures (b * x) * (b * x) * (b * x) == (b * b * b) * (x * x * x)
  {
    SquareProduct(b, x);
    CrossProduct(b * b, x * x, b, x);
  }

  // ---- any valid slope gives the sum ----

  lemma UniqueSlope(p: CurvePoint, q: CurvePoint, l: int, k: int)
    requires IsPrime(P) && p.Affine? && q.Affine? && !Opposite(p, q) && IsSlope(p, q, l) && IsSlope(p, q, k)
    ensures M(l) == M(k)
  {
    hide IsPrime, OnCurve;
    if p.x != q.x {
      var d := q.x - p.x;
      Distinct(p.x, q.x);
      Swap(l, d);
      Swap(k, d);
      Cancel(d, l, k);
    } else {
      SmallResidues();
      var s := p.y + q.y;
      Swap(l, s);
      Swap(k, s);
      Cancel(s, l, k);
    }
  }

  lemma SumBySlope(p: CurvePoint, q: CurvePoint, k: int)
    requires IsPrime(P) && p.Affine? && q.Affine? && !Opposite(p, q) && IsSlope(p, q, k)
    ensures CurveAdd(p, q).Affine?
    ensures CurveAdd(p, q).x == M(ThirdX(p, q, k)) && CurveAdd(p, q).y == M(ThirdY(p, q, k))
  {
    hide IsPrime, Slope, IsSlope, OnCurve, CurveAdd;
    SlopeLaw(p, q);
    var l := Slope(p, q);
    UniqueSlope(p, q, l, k);
    SumOnCurve(p, q);
    Cong(l, k, l, k);
    Cong(l * l, k * k, p.x, p.x);
    Cong(l * l - p.x, k * k - p.x, q.x, q.x);
    var x, x' := ThirdX(p, q, l), ThirdX(p, q, k);
    Cong(p.x, p.x, x, x');
    Cong(l, k, p.x - x, p.x - x');
    Cong(l * (p.x - x), k * (p.x - x'), p.y, p.y);
  }

  // ---- the map is additive ----

  lemma EndoNeg(p: CurvePoint)
    ensures Endo(Neg(p)) == Neg(Endo(p))
  {
  }

  lemma SameXUnderEndo(x: Residue, z: Residue)
    requires IsPrime(P)
    ensures M(BETA * x) == M(BETA * z) <==> x == z
  {
    hide IsPrime;
    ResidueBeta();
    if M(BETA * x) == M(BETA * z) { Cancel(BETA, x, z); }
  }

  /** Under the map, the slope is multiplied by beta squared, the inverse of beta. */
  lemma EndoSlope(p: CurvePoint, q: CurvePoint, l: int, e: CurvePoint, f: CurvePoint, b: int)
    requires p.Affine? && q.Affine? && IsSlope(p, q, l) && e == Endo(p) && f == Endo(q) && b == BETA
    ensures IsSlope(e, f, b * b * l)
  {
    hide OnCurve;
    Idempotent(b * p.x);
    Idempotent(b * q.x);
    BetaCube();
    ScaledSlope(b, l, p.x, q.x, q.y - p.y, e.x, f.x);
    ScaledSum(b, l, p.x, q.x, p.y + q.y, e.x, f.x);
  }

  /** k (x2' - x1') = b^3 l (x2 - x1), for k = b^2 l. */
  lemma ScaledSlope(b: int, l: int, x1: int, x2: int, d: int, x1': int, x2': int)
    requires M(b * b * b) == 1 && M(l * (x2 - x1)) == M(d) && M(x1') == M(b * x1) && M(x2') == M(b * x2)
    ensures M(b * b * l * (x2' - x1')) == M(d)
  {
    SmallResidues();
    var k := b * b * l;
    Cong(x2', b * x2, x1', b * x1);
    Cong(k, k, x2' - x1', b * x2 - b * x1);
    ScaledChord(b, l, x1, x2);
    Cong(b * b * b, 1, l * (x2 - x1), d);
  }

  /** k (y1 + y2) = b^2 (x1^2 + x1 x2 + x2^2), for k = b^2 l. */
  lemma ScaledSum(b: int, l: int, x1: int, x2: int, y: int, x1': int, x2': int)
    requires M(l * y) == M(x1 * x1 + x1 * x2 + x2 * x2) && M(x1') == M(b * x1) && M(x2') == M(b * x2)
    ensures M(b * b * l * y) == M(x1' * x1' + x1' * x2' + x2' * x2')
  {
    Cong(b * b, b * b, l * y, x1 * x1 + x1 * x2 + x2 * x2);
    var u, v := b * x1, b * x2;
    Cong(x1', u, x1', u);
    Cong(x1', u, x2', v);
    Cong(x2', v, x2', v);
    Cong(x1' * x1', u * u, x1' * x2', u * v);
    Cong(x1' * x1' + x1' * x2', u * u + u * v, x2' * x2', v * v);
    ScaledSquares(b, x1, x2);
    MulAssoc(b * b, l, y);
  }

  lemma ScaledChord(b: int, l: int, x: int, z: int)
    ensures (b * b * l) * (b * z - b * x) == (b * b * b) * (l * (z - x))
  {
    assert b * z - b * x == b * (z - x) by { MulDist(b, z, x); }
    CrossProduct(b * b, l, b, z - x);
  }

  lemma ScaledSquares(b: int, x: int, z: int)
    ensures (b * x) * (b * x) + (b * x) * (b * z) + (b * z) * (b * z) == (b * b) * (x * x + x * z + z * z)
  {
    CrossProduct(b, x, b, x);
    CrossProduct(b, x, b, z);
    CrossProduct(b, z, b, z);
    MulDist(b * b, x * x, x * z);
    MulDist(b * b, x * x + x * z, z * z);
  }

  /** The third point moves along: its x is multiplied by beta, its y stays. */
  lemma EndoThird(p: CurvePoint, q: CurvePoint, l: int, e: CurvePoint, f: CurvePoint, b: int)
    requires p.Affine? && q.Affine? && e == Endo(p) && f == Endo(q) && b == BETA
    ensures M(ThirdX(e, f, b * b * l)) == M(b * ThirdX(p, q, l)) && M(ThirdY(e, f, b * b * l)) == M(ThirdY(p, q, l))
  {
    hide OnCurve;
    Idempotent(b * p.x);
    Idempotent(b * q.x);
    BetaCube();
    var x3, x3' := ThirdX(p, q, l), ThirdX(e, f, b * b * l);
    ScaledThirdX(b, l, p.x, q.x, e.x, f.x);
    SmallResidues();
    ScaledThirdY(b, l, p.x, x3, p.y, e.x, x3');
  }

  lemma ScaledThirdX(b: int, l: int, x1: int, x2: int, x1': int, x2': int)
    requires M(b * b * b) == 1 && M(x1') == M(b * x1) && M(x2') == M(b * x2)
    ensures M((b * b * l) * (b * b * l) - x1' - x2') == M(b * (l * l - x1 - x2))
  {
    SmallResidues();
    var k, s := b * b * l, b * (l * l);
    Cong(b * b * b, 1, s, s);
    ScaledSlopeSquare(b, l);
    Cong(k * k, s, x1', b * x1);
    Cong(k * k - x1', s - b * x1, x2', b * x2);
    MulDist(b, l * l, x1);
    MulDist(b, l * l - x1, x2);
  }

  lemma ScaledThirdY(b: int, l: int, x1: int, x3: int, y: int, x1': int, x3': int)
    requires M(b * b * b) == 1 && M(x1') == M(b * x1) && M(x3') == M(b * x3)
    ensures M(b * b * l * (x1' - x3') - y) == M(l * (x1 - x3) - y)
  {
    SmallResidues();
    ScaledSlope(b, l, x3, x1, l * (x1 - x3), x3', x1');
    Cong(b * b * l * (x1' - x3'), l * (x1 - x3), y, y);
  }

  lemma ScaledSlopeSquare(b: int, l: int)
    ensures (b * b * l) * (b * b * l) == (b * b * b) * (b * (l * l))
  {
    CrossProduct(b * b, l, b * b, l);
    MulAssoc(b * b, b, b);
    MulAssoc(b * b * b, b, l * l);
  }

  lemma EndoAdd(p: CurvePoint, q: CurvePoint)
    requires IsPrime(P)
    ensures Endo(CurveAdd(p, q)) == CurveAdd(Endo(p), Endo(q))
  {
    hide IsPrime, IsSlope, Slope, CurveAdd, OnCurve;
    if p.Infinity? {
      AddInfinity(q);
      AddInfinity(Endo(q));
    } else if q.Infinity? {
      AddInfinity(p);
      AddInfinity(Endo(p));
    } else {
      var e, f := Endo(p), Endo(q);
      SameXUnderEndo(p.x, q.x);
      SumOnCurve(p, q);
      SumOnCurve(e, f);
      if !Opposite(p, q) {
        SlopeLaw(p, q);
        var l := Slope(p, q);
        var k := BETA * BETA * l;
        EndoSlope(p, q, l, e, f, BETA);
        SumBySlope(e, f, k);
        SumBySlope(p, q, l);
        EndoThird(p, q, l, e, f, BETA);
        var x3 := ThirdX(p, q, l);
        Idempotent(x3);
        Cong(BETA, BETA, M(x3), x3);
      }
    }
  }

  lemma {:induction false} EndoMul(k: int, p: CurvePoint)
    requires IsPrime(P)
    ensures Endo(Mul(k, p)) == Mul(k, Endo(p))
    decreases if k < 0 then -k else k
  {
    hide IsPrime, CurveAdd, Neg, OnCurve, Endo;
    if k == 0 {
      EndoInfinity();
    } else if k > 0 {
      EndoMul(k - 1, p);
      EndoAdd(p, Mul(k - 1, p));
    } else {
      EndoMul(k + 1, p);
      EndoNeg(p);
      EndoAdd(Neg(p), Mul(k + 1, p));
    }
  }

  lemma EndoInfinity()
    ensures Endo(Infinity) == Infinity
  {
  }
}
