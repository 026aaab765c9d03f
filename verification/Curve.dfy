/**
 * The affine chord-and-tangent law on y^2 = x^3 + 7 and integer multiples under it. Everything
 * here is specification: the coordinate formulas of group_impl.h are proved against it.
 */
module Curve {
  import opened Arith
  import opened Scalars
  import opened Field

  const B: int := 7

  datatype Point = Infinity | Affine(x: Residue, y: Residue)

  // The cubic equation would otherwise be unfolded for every point in sight, so it is a constant
  // of which nothing is known until EquationIs is called.

  predicate IsAnswer(x: int, y: int, b: bool)
  {
    b <==> M(y * y) == M(x * x * x + B)
  }

  ghost predicate IsEquation(f: (int, int) -> bool)
  {
    forall x: int, y: int, b: bool :: IsAnswer(x, y, b) ==> f(x, y) == b
  }

  type Equation = f: (int, int) -> bool | IsEquation(f)
    witness (x: int, y: int) => M(y * y) == M(x * x * x + B)

  const EQUATION: Equation

  lemma EquationIs(x: int, y: int)
    ensures EQUATION(x, y) <==> M(y * y) == M(x * x * x + B)
  {
    assert IsAnswer(x, y, M(y * y) == M(x * x * x + B));
  }

  predicate OnCurve(p: Point)
  {
    p.Affine? ==> EQUATION(p.x, p.y)
  }

  type CurvePoint = p: Point | OnCurve(p) witness Infinity

  lemma InfinityOnCurve()
    ensures OnCurve(Infinity)
  {
  }

  function Neg(p: CurvePoint): (r: CurvePoint)
  {
    match p
    case Infinity => Infinity
    case Affine(x, y) =>
      NegOnCurve(x, y);
      Idempotent(0 - y);
      Affine(x, M(0 - y))
  }

  lemma NegOnCurve(x: Residue, y: Residue)
    requires OnCurve(Affine(x, y))
    ensures M(M(0 - y)) == M(0 - y) && OnCurve(Affine(x, M(0 - y)))
  {
    hide M;
    Idempotent(0 - y);
    Cong(M(0 - y), 0 - y, M(0 - y), 0 - y);
    NegSquare(y);
    EquationIs(x, y);
    EquationIs(x, M(0 - y));
  }

  lemma NegSquare(y: int)
    ensures (0 - y) * (0 - y) == y * y
  {
  }

  predicate Opposite(p: Point, q: Point)
    requires p.Affine? && q.Affine?
  {
    p.x == q.x && M(p.y + q.y) == 0
  }

  /** Slope of the chord through p and q, or of the tangent when they share x. */
  ghost function Slope(p: Point, q: Point): int
    requires p.Affine? && q.Affine?
  {
    if p.x != q.x then (q.y - p.y) * Inv(q.x - p.x)
    else 3 * (p.x * p.x) * Inv(2 * p.y)
  }

  ghost function ThirdX(p: Point, q: Point, l: int): int
    requires p.Affine? && q.Affine?
  {
    l * l - p.x - q.x
  }

  ghost function ThirdY(p: Point, q: Point, l: int): int
    requires p.Affine? && q.Affine?
  {
    l * (p.x - ThirdX(p, q, l)) - p.y
  }

  ghost function ChordTangent(p: Point, q: Point): Point
  {
    if p.Infinity? then q
    else if q.Infinity? then p
    else if Opposite(p, q) then Infinity
    else
      var l := Slope(p, q);
      Idempotent(ThirdX(p, q, l));
      Idempotent(ThirdY(p, q, l));
      Affine(M(ThirdX(p, q, l)), M(ThirdY(p, q, l)))
  }

  /** The curve sum. By SumOnCurve the second branch is never taken when p is prime. */
  ghost function CurveAdd(p: CurvePoint, q: CurvePoint): CurvePoint
  {
    var s := ChordTangent(p, q);
    if OnCurve(s) then s else Infinity
  }

  /** l is the slope that both expressions for it agree on. */
  ghost predicate IsSlope(p: Point, q: Point, l: int)
    requires p.Affine? && q.Affine?
  {
    && M(l * (q.x - p.x)) == M(q.y - p.y)
    && M(l * (p.y + q.y)) == M(p.x * p.x + p.x * q.x + q.x * q.x)
  }

  lemma ChordSlope(p: CurvePoint, q: CurvePoint)
    requires IsPrime(P) && p.Affine? && q.Affine? && p.x != q.x
    ensures IsSlope(p, q, Slope(p, q))
  {
    hide IsPrime, Inv, M;
    var d, e, l := q.x - p.x, q.y - p.y, Slope(p, q);
    Distinct(p.x, q.x);
    InvLaw(d);
    SmallResidues();
    SmallResidues();
    Cong(e, e, d * Inv(d), 1);
    ChordFirst(e, d, Inv(d));
    // (y2 - y1)(y2 + y1) = x2^3 - x1^3 = d (x1^2 + x1 x2 + x2^2)
    EquationIs(p.x, p.y);
    EquationIs(q.x, q.y);
    Cong(q.y * q.y, q.x * q.x * q.x + B, p.y * p.y, p.x * p.x * p.x + B);
    var s, t := p.y + q.y, p.x * p.x + p.x * q.x + q.x * q.x;
    Cong(l * d, e, s, s);
    SquareDifference(p.y, q.y);
    CubeDifference(p.x, q.x);
    ChordSecond(l, d, s);
    Cancel(d, l * s, t);
  }

  lemma Distinct(x: Residue, y: Residue)
    requires x != y
    ensures M(y - x) != 0
  {
    ResidueRange(x);
    ResidueRange(y);
    MIs(y - x);
    DistinctModulo(x, y, P);
  }

  lemma DistinctModulo(x: int, y: int, m: int)
    requires 0 <= x < m && 0 <= y < m && x != y
    ensures (y - x) % m != 0
  {
    if y > x { DivModUnique(y - x, m, 0, y - x); } else { DivModUnique(y - x, m, -1, y - x + m); }
  }

  lemma ChordFirst(e: int, d: int, i: int)
    ensures e * (d * i) == (e * i) * d
  {
  }

  lemma ChordSecond(l: int, d: int, s: int)
    ensures (l * d) * s == d * (l * s)
  {
  }

  lemma SquareDifference(a: int, b: int)
    ensures (b - a) * (a + b) == b * b - a * a
  {
  }

  lemma CubeDifference(a: int, b: int)
    ensures (b - a) * (a * a + a * b + b * b) == b * b * b - a * a * a
  {
    var d := b - a;
    MulDist(d, a * a + a * b, b * b);
    MulDist(d, a * a, a * b);
    assert d * (a * a) == b * (a * a) - a * (a * a);
    assert d * (a * b) == b * (a * b) - a * (a * b);
    assert d * (b * b) == b * (b * b) - a * (b * b);
  }

  lemma TangentSlope(p: CurvePoint, q: CurvePoint)
    requires IsPrime(P) && p.Affine? && q.Affine? && p.x == q.x && !Opposite(p, q)
    ensures p == q && IsSlope(p, q, Slope(p, q))
  {
    hide IsPrime, Inv, M;
    SmallResidues();
    // y1^2 = y2^2 and y1 + y2 is not zero, so y1 = y2.
    SquareDifference(p.y, q.y);
    EquationIs(p.x, p.y);
    EquationIs(q.x, q.y);
    Cong(q.y * q.y, p.y * p.y, p.y * p.y, p.y * p.y);
    Cancel(p.y + q.y, q.y - p.y, 0) by {
      assert (p.y + q.y) * (q.y - p.y) == q.y * q.y - p.y * p.y;
      assert (p.y + q.y) * 0 == 0;
    }
    Same(p.y, q.y);
    InvLaw(2 * p.y);
    SmallResidues();
    var t, l := 3 * (p.x * p.x), Slope(p, q);
    Cong(t, t, (2 * p.y) * Inv(2 * p.y), 1);
    ChordFirst(t, 2 * p.y, Inv(2 * p.y));
    assert l * (q.x - p.x) == 0 by { assert q.x - p.x == 0; }
  }

  lemma Same(x: Residue, y: Residue)
    requires M(y - x) == 0
    ensures x == y
  {
    if x != y { Distinct(x, y); }
  }

  lemma SlopeLaw(p: CurvePoint, q: CurvePoint)
    requires IsPrime(P) && p.Affine? && q.Affine? && !Opposite(p, q)
    ensures IsSlope(p, q, Slope(p, q))
  {
    if p.x != q.x { ChordSlope(p, q); } else { TangentSlope(p, q); }
  }

  /** The line of slope l through p meets the cubic in p, q and the third point, counted properly. */
  lemma SumOnCurve(p: CurvePoint, q: CurvePoint)
    requires IsPrime(P)
    ensures OnCurve(ChordTangent(p, q)) && CurveAdd(p, q) == ChordTangent(p, q)
  {
    hide IsPrime, M, Slope;
    if p.Affine? && q.Affine? && !Opposite(p, q) {
      SlopeLaw(p, q);
      var l := Slope(p, q);
      var x3, y3 := ThirdX(p, q, l), ThirdY(p, q, l);
      EquationIs(p.x, p.y);
      EquationIs(M(x3), M(y3));
      ThirdOnCurve(p.x, p.y, q.x, q.y, l, x3, y3);
      Idempotent(x3);
      Idempotent(y3);
      Cong(M(y3), y3, M(y3), y3);
      Cong(M(x3), x3, M(x3), x3);
      Cong(M(x3) * M(x3), x3 * x3, M(x3), x3);
      Cong(M(x3) * M(x3) * M(x3), x3 * x3 * x3, B, B);
    }
  }

  lemma ThirdOnCurve(x1: int, y1: int, x2: int, y2: int, l: int, x3: int, y3: int)
    requires M(y1 * y1) == M(x1 * x1 * x1 + B)
    requires M(l * (x2 - x1)) == M(y2 - y1)
    requires M(l * (y1 + y2)) == M(x1 * x1 + x1 * x2 + x2 * x2)
    requires x3 == l * l - x1 - x2 && y3 == l * (x1 - x3) - y1
    ensures M(y3 * y3) == M(x3 * x3 * x3 + B)
  {
    hide M;
    var t := x1 * x1 + x1 * x2 + x2 * x2;
    var c1 := t - 2 * (l * y1) + (l * l) * (x1 - x2);
    LinearCoefficient(x1, y1, x2, l, x3, y3, t, c1);
    // c1 = (t - l(y1 + y2)) + l((y2 - y1) - l(x2 - x1)) vanishes
    var a, b := y2 - y1, l * (x2 - x1);
    SmallResidues();
    CoefficientSplit(x1, y1, x2, y2, l, t, c1);
    Cong(t, l * (y1 + y2), l * (a - b), 0) by {
      Cong(a, b, b, b);
      Cong(l, l, a - b, 0);
      assert l * 0 == 0;
    }
    Cong(l * (y1 + y2), l * (y1 + y2), l * (y1 + y2), l * (y1 + y2));
    Cong(t + l * (a - b), l * (y1 + y2) + 0, l * (y1 + y2), l * (y1 + y2));
    assert M(c1) == M(0);
    Cong(c1, 0, x3 - x1, x3 - x1);
    assert 0 * (x3 - x1) == 0;
    // y3^2 - x3^3 - 7 = (y1^2 - x1^3 - 7) - c1 (x3 - x1)
    Cong(y1 * y1, x1 * x1 * x1 + B, c1 * (x3 - x1), 0);
    var r := x3 * x3 * x3 - x1 * x1 * x1;
    Cong(y1 * y1 - c1 * (x3 - x1), x1 * x1 * x1 + B - 0, r, r);
  }

  lemma CoefficientSplit(x1: int, y1: int, x2: int, y2: int, l: int, t: int, c1: int)
    requires c1 == t - 2 * (l * y1) + (l * l) * (x1 - x2)
    ensures c1 == (t + l * ((y2 - y1) - l * (x2 - x1))) - l * (y1 + y2)
  {
    MulDist(l, y2 - y1, l * (x2 - x1));
    MulDist(l, y2, y1);
    MulAssoc(l, l, x2 - x1);
    MulDist(l * l, x1, x2);
    MulDist(l * l, x2, x1);
  }

  lemma LinearCoefficient(x1: int, y1: int, x2: int, l: int, x3: int, y3: int, t: int, c1: int)
    requires t == x1 * x1 + x1 * x2 + x2 * x2
    requires c1 == t - 2 * (l * y1) + (l * l) * (x1 - x2)
    requires x3 == l * l - x1 - x2 && y3 == l * (x1 - x3) - y1
    ensures y3 * y3 == (y1 * y1 - c1 * (x3 - x1)) + (x3 * x3 * x3 - x1 * x1 * x1)
  {
    var e := x3 - x1;
    // y3 = -(l e + y1)
    assert y3 == 0 - (l * e + y1) by { MulDist(l, x1, x3); MulDist(l, x3, x1); }
    assert y3 * y3 == (l * l) * (e * e) + 2 * ((l * y1) * e) + y1 * y1 by { SquareOfLine(l, e, y1, y3); }
    // x3^3 - x1^3 = e (x3^2 + x3 x1 + x1^2)
    CubeDifference(x1, x3);
    var u := x1 * x1 + x1 * x3 + x3 * x3;
    // what remains is e times (l^2 e + 2 l y1 + c1 - u), which vanishes
    MulAssoc(l * l, e, e);
    MulAssoc(2, l * y1, e);
    assert u - c1 == (l * l) * e + 2 * (l * y1) by { Remaining(x1, x2, x3, l * l, t, u); }
    FactorOut(e, u, c1, (l * l) * e, 2 * (l * y1));
  }

  lemma FactorOut(e: int, u: int, c: int, a: int, b: int)
    requires u - c == a + b
    ensures e * u - c * e == a * e + b * e
  {
    MulDist(e, u, c);
    MulDist(e, a, b);
  }

  lemma SquareOfLine(l: int, e: int, y: int, s: int)
    requires s == 0 - (l * e + y)
    ensures s * s == (l * l) * (e * e) + 2 * ((l * y) * e) + y * y
  {
    var a := l * e;
    assert s * s == a * a + 2 * (a * y) + y * y;
    assert a * a == (l * l) * (e * e);
    assert a * y == (l * y) * e;
  }

  lemma Remaining(x1: int, x2: int, x3: int, ll: int, t: int, u: int)
    requires x3 == ll - x1 - x2
    requires t == x1 * x1 + x1 * x2 + x2 * x2 && u == x1 * x1 + x1 * x3 + x3 * x3
    ensures u - t - ll * (x1 - x2) == ll * (x3 - x1)
  {
    assert ll == x1 + x2 + x3;
    assert ll * (x3 - x2) == (x1 + x2 + x3) * (x3 - x2);
    assert (x1 + x2 + x3) * (x3 - x2) == x1 * x3 + x3 * x3 - x1 * x2 - x2 * x2;
    MulDist(ll, x1, x2);
    MulDist(ll, x3, x1);
    MulDist(ll, x3, x2);
  }

  // ---- group laws ----

  lemma {:induction false} NegLaw(p: CurvePoint)
    requires IsPrime(P)
    ensures CurveAdd(p, Neg(p)) == Infinity && CurveAdd(Neg(p), p) == Infinity
  {
    hide IsPrime, M, Slope, Inv;
    if p.Affine? {
      Idempotent(0 - p.y);
      Cong(p.y, p.y, M(0 - p.y), 0 - p.y);
      Cong(M(0 - p.y), 0 - p.y, p.y, p.y);
      SmallResidues();
    }
  }

  lemma Commutes(p: CurvePoint, q: CurvePoint)
    requires IsPrime(P)
    ensures CurveAdd(p, q) == CurveAdd(q, p)
  {
    hide IsPrime, M, Slope, IsSlope;
    if p.Affine? && q.Affine? && !Opposite(p, q) {
      SlopeLaw(p, q);
      SlopeLaw(q, p);
      SameSlope(p, q, Slope(p, q), Slope(q, p));
      SameThird(p, q, Slope(p, q), Slope(q, p));
    }
  }

  lemma SameSlope(p: CurvePoint, q: CurvePoint, l: int, k: int)
    requires IsPrime(P) && p.Affine? && q.Affine? && !Opposite(p, q)
    requires IsSlope(p, q, l) && IsSlope(q, p, k)
    ensures M(l) == M(k)
  {
    hide IsPrime, M;
    if p.x != q.x {
      Distinct(p.x, q.x);
      ReversedChord(q.x - p.x, q.y - p.y, l, k);
    } else {
      SmallResidues();
      var s := p.y + q.y;
      assert q.y + p.y == s && p.x * p.x == q.x * q.x == p.x * q.x;
      Swap(s, l);
      Swap(s, k);
      Cancel(s, l, k);
    }
  }

  lemma ReversedChord(d: int, e: int, l: int, k: int)
    requires IsPrime(P) && M(d) != 0 && M(l * d) == M(e) && M(k * (0 - d)) == M(0 - e)
    ensures M(l) == M(k)
  {
    hide IsPrime, M;
    Cong(0, 0, k * (0 - d), 0 - e);
    assert 0 - k * (0 - d) == d * k;
    Swap(l, d);
    Cancel(d, l, k);
  }

  lemma SameThird(p: CurvePoint, q: CurvePoint, l: int, k: int)
    requires p.Affine? && q.Affine? && M(l) == M(k) && IsSlope(p, q, l)
    ensures M(ThirdX(p, q, l)) == M(ThirdX(q, p, k))
    ensures M(ThirdY(p, q, l)) == M(ThirdY(q, p, k))
  {
    hide M;
    var x3, x3' := ThirdX(p, q, l), ThirdX(q, p, k);
    Cong(l, k, l, k);
    Cong(l * l, k * k, p.x + q.x, p.x + q.x);
    Cong(q.x, q.x, x3, x3');
    Cong(l, k, q.x - x3, q.x - x3');
    Cong(l * (q.x - x3), k * (q.x - x3'), q.y, q.y);
    // l (x1 - x3) - y1 and l (x2 - x3) - y2 differ by (y2 - y1) - l (x2 - x1)
    var a, b := q.y - p.y, l * (q.x - p.x);
    Cong(l * (q.x - x3) - q.y, l * (q.x - x3) - q.y, a, b);
    Cong(l * (q.x - x3) - q.y + a, l * (q.x - x3) - q.y + b, b, b);
    MulDist(l, q.x, p.x);
    MulDist(l, q.x, x3);
    MulDist(l, p.x, x3);
  }

  /** p + (q + r) == (p + q) + r */
  ghost predicate Associates(p: CurvePoint, q: CurvePoint, r: CurvePoint)
  {
    CurveAdd(p, CurveAdd(q, r)) == CurveAdd(CurveAdd(p, q), r)
  }

  /** k*p for any integer k. */
  ghost function Mul(k: int, p: CurvePoint): CurvePoint
    decreases if k < 0 then -k else k, p
  {
    if k == 0 then Infinity
    else if k > 0 then CurveAdd(p, Mul(k - 1, p))
    else CurveAdd(Neg(p), Mul(k + 1, p))
  }

  /** N*p is infinity. */
  ghost predicate Annihilated(p: CurvePoint)
  {
    Mul(N, p) == Infinity
  }

  /** p is prime, and the chord-and-tangent law is associative. */
  ghost predicate GroupFacts()
  {
    && IsPrime(P)
    && (forall p: CurvePoint, q: CurvePoint, r: CurvePoint :: Associates(p, q, r))
  }

  /**
   * What is taken for granted about secp256k1: the above, n is prime, and n times any point is
   * infinity. Closure, commutativity, identity and inverses are proved here.
   */
  ghost predicate CurveFacts(): (b: bool)
    ensures b ==> GroupFacts()
  {
    && GroupFacts()
    && IsPrime(N)
    && (forall p: CurvePoint :: Annihilated(p))
  }

  /** (p + q) + (r + s) == (p + r) + (q + s) */
  lemma Interchange(p: CurvePoint, q: CurvePoint, r: CurvePoint, s: CurvePoint)
    requires GroupFacts()
    ensures CurveAdd(CurveAdd(p, q), CurveAdd(r, s)) == CurveAdd(CurveAdd(p, r), CurveAdd(q, s))
  {
    hide CurveAdd, IsPrime, OnCurve;
    assert Associates(p, q, CurveAdd(r, s));
    assert Associates(q, r, s);
    Commutes(q, r);
    assert Associates(r, q, s);
    assert Associates(p, r, CurveAdd(q, s));
  }

  lemma AddAssoc(p: CurvePoint, q: CurvePoint, r: CurvePoint)
    requires GroupFacts()
    ensures CurveAdd(p, CurveAdd(q, r)) == CurveAdd(CurveAdd(p, q), r)
  {
    hide CurveAdd, IsPrime, OnCurve;
    assert Associates(p, q, r);
  }

  lemma AddInfinity(p: CurvePoint)
    ensures CurveAdd(p, Infinity) == p && CurveAdd(Infinity, p) == p
  {
  }

  lemma NegCancels(p: CurvePoint, q: CurvePoint)
    requires GroupFacts()
    ensures CurveAdd(p, CurveAdd(Neg(p), q)) == q
    ensures CurveAdd(Neg(p), CurveAdd(p, q)) == q
  {
    hide CurveAdd, IsPrime, Neg, OnCurve;
    NegLaw(p);
    AddAssoc(p, Neg(p), q);
    AddAssoc(Neg(p), p, q);
    AddInfinity(q);
  }

  lemma MulStep(k: int, p: CurvePoint)
    requires GroupFacts()
    ensures Mul(k + 1, p) == CurveAdd(p, Mul(k, p))
    ensures Mul(k - 1, p) == CurveAdd(Neg(p), Mul(k, p))
  {
    hide CurveAdd, IsPrime, Neg, OnCurve;
    if k < 0 {
      NegCancels(p, Mul(k + 1, p));
    } else if k > 0 {
      NegCancels(p, Mul(k - 1, p));
    }
  }

  lemma {:induction false} MulAdd(j: int, k: int, p: CurvePoint)
    requires GroupFacts()
    ensures Mul(j + k, p) == CurveAdd(Mul(j, p), Mul(k, p))
    decreases if j < 0 then -j else j
  {
    hide CurveAdd, IsPrime, Neg, OnCurve;
    if j == 0 {
      AddInfinity(Mul(k, p));
    } else if j > 0 {
      MulAdd(j - 1, k, p);
      MulStep(j + k - 1, p);
      AddAssoc(p, Mul(j - 1, p), Mul(k, p));
    } else {
      MulAdd(j + 1, k, p);
      MulStep(j + k + 1, p);
      AddAssoc(Neg(p), Mul(j + 1, p), Mul(k, p));
    }
  }

  lemma MulOne(p: CurvePoint)
    ensures Mul(1, p) == p && Mul(0, p) == Infinity && Mul(-1, p) == Neg(p)
  {
    hide CurveAdd, Neg, OnCurve;
    AddInfinity(p);
    AddInfinity(Neg(p));
  }

  lemma MulNeg(k: int, p: CurvePoint)
    requires GroupFacts()
    ensures Mul(-k, p) == Neg(Mul(k, p))
  {
    hide CurveAdd, IsPrime, Neg, Mul, OnCurve;
    MulAdd(k, -k, p);
    MulOne(p);
    var q, r := Mul(k, p), Mul(-k, p);
    NegCancels(q, r);
    AddInfinity(Neg(q));
  }

  lemma {:induction false} MulMul(j: int, k: int, p: CurvePoint)
    requires GroupFacts()
    ensures Mul(j, Mul(k, p)) == Mul(j * k, p)
    decreases if j < 0 then -j else j
  {
    hide CurveAdd, IsPrime, Neg, OnCurve;
    if j == 0 {
    } else if j > 0 {
      MulMul(j - 1, k, p);
      MulAdd(k, (j - 1) * k, p);
      MulDist(k, j, 1);
    } else {
      MulMul(j + 1, k, p);
      MulNeg(k, p);
      MulAdd(-k, (j + 1) * k, p);
      MulDist(k, j, 1);
    }
  }

  lemma {:induction false} MulSum(k: int, p: CurvePoint, q: CurvePoint)
    requires GroupFacts()
    ensures Mul(k, CurveAdd(p, q)) == CurveAdd(Mul(k, p), Mul(k, q))
    decreases if k < 0 then -k else k
  {
    hide CurveAdd, IsPrime, Neg, OnCurve;
    InfinityOnCurve();
    if k == 0 {
      AddInfinity(Infinity);
    } else if k > 0 {
      MulSum(k - 1, p, q);
      Interchange(p, q, Mul(k - 1, p), Mul(k - 1, q));
    } else {
      MulSum(k + 1, p, q);
      NegSum(p, q);
      Interchange(Neg(p), Neg(q), Mul(k + 1, p), Mul(k + 1, q));
    }
  }

  lemma NegSum(p: CurvePoint, q: CurvePoint)
    requires GroupFacts()
    ensures Neg(CurveAdd(p, q)) == CurveAdd(Neg(p), Neg(q))
  {
    hide CurveAdd, IsPrime, Neg, OnCurve;
    var s, t := CurveAdd(p, q), CurveAdd(Neg(p), Neg(q));
    Interchange(p, q, Neg(p), Neg(q));
    NegLaw(p);
    NegLaw(q);
    AddInfinity(Infinity);
    NegCancels(s, t);
    AddInfinity(Neg(s));
  }

  lemma {:induction false} MulInfinity(k: int)
    ensures Mul(k, Infinity) == Infinity
    decreases if k < 0 then -k else k
  {
    if k > 0 {
      MulInfinity(k - 1);
    } else if k < 0 {
      MulInfinity(k + 1);
    }
  }

  /** Multiples only depend on the scalar modulo the group order. */
  lemma MulCongruent(j: int, k: int, p: CurvePoint)
    requires CurveFacts() && Congruent(j, k, N)
    ensures Mul(j, p) == Mul(k, p)
  {
    hide CurveAdd, IsPrime, Neg, Mul, OnCurve;
    var c: int :| j == k + N * c;
    MulAdd(k, N * c, p);
    assert N * c == c * N;
    MulMul(c, N, p);
    assert Annihilated(p);
    MulInfinity(c);
    AddInfinity(Mul(k, p));
  }

  lemma NotMultipleOfN(k: int)
    requires k % N != 0
    ensures !Congruent(k, 0, N)
  {
    if Congruent(k, 0, N) {
      var c: int :| k == 0 + N * c;
      DivModUnique(k, N, c, 0);
    }
  }

  lemma UnitModN(k: int) returns (b: int)
    requires IsPrime(N) && !Congruent(k, 0, N)
    ensures Congruent(b * k, 1, N)
  {
    hide IsPrime, Congruent;
    CongruentMod(k, N);
    b := InverseExists(k, N);
    var q := (k * b) / N;
    Swap(b, k);
    CongruentBy(b * k, 1, N, q);
  }

  /** A finite point has order exactly n, because n is prime. */
  lemma MulNonzero(k: int, p: CurvePoint)
    requires CurveFacts() && p != Infinity && !Congruent(k, 0, N)
    ensures Mul(k, p) != Infinity
  {
    hide CurveAdd, IsPrime, Neg, Mul, OnCurve, Congruent, GroupFacts;
    var b := UnitModN(k);
    MulMul(b, k, p);
    MulCongruent(b * k, 1, p);
    MulOne(p);
    MulInfinity(b);
  }

  /** No finite point is its own opposite: y is never zero on the curve. */
  lemma NoTwoTorsion(p: CurvePoint)
    requires CurveFacts() && p.Affine?
    ensures M(2 * p.y) != 0
  {
    hide IsPrime, Neg, CurveAdd, OnCurve;
    OrderIs();
    if M(2 * p.y) == 0 {
      assert 2 % N == 2;
      NotMultipleOfN(2);
      MulNonzero(2, p);
      assert Mul(2, p) == CurveAdd(p, CurveAdd(p, Mul(0, p)));
      AddInfinity(p);
      DoubleOpposite(p);
    }
  }

  lemma DoubleOpposite(p: CurvePoint)
    requires p.Affine? && M(2 * p.y) == 0
    ensures CurveAdd(p, p) == Infinity
  {
  }

  lemma Prime()
    requires GroupFacts()
    ensures IsPrime(P)
  {
  }

  lemma Commute(p: CurvePoint, q: CurvePoint)
    requires GroupFacts()
    ensures CurveAdd(p, q) == CurveAdd(q, p)
  {
    Prime();
    hide GroupFacts, CurveAdd, OnCurve;
    Commutes(p, q);
  }
}
