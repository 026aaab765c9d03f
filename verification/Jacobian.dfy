/**
 * Jacobian coordinates: doubling and the four additions of src/secp256k1/src/group_impl.h.
 *
 * A coordinate triple is read relative to a scale s: (x, y, z) stands for the affine point
 * (x/(zs)^2, y/(zs)^3). With s = 1 this is the usual reading; with another s it is the reading on
 * the isomorphic curve y^2 = x^3 + 7 s^6, where points whose true z coordinate is s can be handled
 * as if they were affine. None of the formulas mentions the constant 7, so each is proved once
 * for every s.
 */
module Jacobian {
  import opened Arith
  import opened Field
  import opened Curve

  /** secp256k1_ge: affine coordinates. */
  datatype Ge = Ge(x: Fe, y: Fe, infinity: bool)

  /** secp256k1_gej: Jacobian coordinates. */
  datatype Gej = Gej(x: Fe, y: Fe, z: Fe, infinity: bool)

  predicate Bounded(a: Gej)
  {
    && a.x.mag <= MAX_MUL_MAGNITUDE
    && a.y.mag <= MAX_MUL_MAGNITUDE
    && a.z.mag <= MAX_MUL_MAGNITUDE
  }

  /** The coordinates x and y stand for the point p when its z coordinate, scale included, is w. */
  predicate Coordinates(x: Fe, y: Fe, w: int, p: Point)
    requires p.Affine?
  {
    && M(w) != 0
    && Is(x, p.x * (w * w))
    && Is(y, p.y * (w * (w * w)))
  }

  /** a stands for p relative to the scale s. */
  predicate Rep(a: Gej, s: int, p: Point)
  {
    && Bounded(a)
    && a.infinity == p.Infinity?
    && (p.Affine? ==> Coordinates(a.x, a.y, a.z.v * s, p))
  }

  function GejSetInfinity(): Gej
  {
    SmallResidues();
    Gej(Fe(0, 0), Fe(0, 0), Fe(0, 0), true)
  }

  function GejSetGe(a: Ge): Gej
  {
    Gej(a.x, a.y, FeSetInt(1), a.infinity)
  }

  predicate RepGe(a: Ge, s: int, p: Point)
  {
    Rep(GejSetGe(a), s, p)
  }

  /** The reading is a function of the coordinates. */
  lemma RepUnique(a: Gej, s: int, p: CurvePoint, q: CurvePoint)
    requires IsPrime(P) && Rep(a, s, p) && Rep(a, s, q)
    ensures p == q
  {
    hide IsPrime, M;
    if p.Affine? {
      var w := a.z.v * s;
      NonzeroProduct(w, w);
      NonzeroProduct(w, w * w);
      Swap(p.x, w * w);
      Swap(q.x, w * w);
      Cancel(w * w, p.x, q.x);
      Swap(p.y, w * (w * w));
      Swap(q.y, w * (w * w));
      Cancel(w * (w * w), p.y, q.y);
    }
  }

  /** Coordinates may be read with any z congruent to the given one. */
  lemma Rebase(x: Fe, y: Fe, u: int, w: int, p: Point)
    requires p.Affine? && M(u) == M(w) && M(u) != 0
    requires Is(x, p.x * (u * u)) && Is(y, p.y * (u * (u * u)))
    ensures Coordinates(x, y, w, p)
  {
    hide M;
    Cong(u, w, u, w);
    Cong(p.x, p.x, u * u, w * w);
    Cong(u, w, u * u, w * w);
    Cong(p.y, p.y, u * (u * u), w * (w * w));
  }

  lemma RepFacts(e: Gej, s: int, p: CurvePoint)
    requires Rep(e, s, p)
    ensures e.infinity == p.Infinity? && Bounded(e)
  {
  }

  lemma InfinityRep(s: int)
    ensures Rep(GejSetInfinity(), s, Infinity)
  {
  }

  lemma FromRepGe(g: Ge, s: int, p: CurvePoint)
    requires RepGe(g, s, p)
    ensures Rep(GejSetGe(g), s, p) && GejSetGe(g).infinity == g.infinity == p.Infinity?
    ensures g.x.mag <= MAX_MUL_MAGNITUDE && g.y.mag <= MAX_MUL_MAGNITUDE
  {
  }

  // ---- doubling ----

  lemma DoublePolynomials(x: int, y: int, l: int, w: int, u: int)
    requires u == 2 * (y * ((w * w) * (w * w)))
    ensures (x * (w * w)) * ((y * (w * (w * w))) * (y * (w * (w * w)))) * 4 == x * (u * u)
    ensures var yy := 2 * ((y * (w * (w * w))) * (y * (w * (w * w)))); (yy * yy) * 2 == y * (u * (u * u))
  {
    var ww := w * w;
    var v := y * (ww * ww);
    var c := y * (w * ww);
    assert u == 2 * v;
    assert c * c == (y * y) * (ww * (ww * ww)) by { SquareCube(y, w, ww); }
    var n := ww * (ww * ww);
    assert v * v == (y * y) * ((ww * ww) * (ww * ww)) by { SquareProduct(y, ww * ww); }
    assert (x * ww) * (c * c) == x * (v * v) by { Regroup1(x, ww, y * y, n); }
    assert u * u == 4 * (v * v);
    assert x * (u * u) == (x * (v * v)) * 4;
    assert (c * c) * (c * c) == y * (v * (v * v)) by { QuarticCube(y, ww, n, c, v); }
    assert u * (u * u) == 8 * (v * (v * v));
    assert (2 * (c * c)) * (2 * (c * c)) * 2 == 8 * ((c * c) * (c * c));
  }

  lemma SquareCube(y: int, w: int, ww: int)
    requires ww == w * w
    ensures (y * (w * ww)) * (y * (w * ww)) == (y * y) * (ww * (ww * ww))
  {
    SquareProduct(y, w * ww);
    SquareProduct(w, ww);
  }

  lemma Regroup1(x: int, ww: int, yy: int, n: int)
    requires n == ww * (ww * ww)
    ensures (x * ww) * (yy * n) == x * (yy * ((ww * ww) * (ww * ww)))
  {
    assert ww * n == (ww * ww) * (ww * ww);
    assert (x * ww) * (yy * n) == x * (yy * (ww * n));
  }

  lemma QuarticCube(y: int, ww: int, n: int, c: int, v: int)
    requires n == ww * (ww * ww) && c * c == (y * y) * n && v == y * (ww * ww)
    ensures (c * c) * (c * c) == y * (v * (v * v))
  {
    SquareProduct(y * y, n);
    SquareProduct(y, ww * ww);
    assert n * n == (ww * ww) * ((ww * ww) * (ww * ww)) by { SquareProduct(ww, ww * ww); }
    var f := ww * ww;
    assert v * (v * v) == (y * f) * ((y * y) * (f * f));
    assert (y * f) * ((y * y) * (f * f)) == (y * (y * y)) * (f * (f * f)) by { CrossProduct(y, f, y * y, f * f); }
    assert y * ((y * (y * y)) * (f * (f * f))) == ((y * y) * (y * y)) * (f * (f * f));
  }

  lemma TangentNumerator(p: CurvePoint, l: int, w: int, x: Fe)
    requires p.Affine? && IsSlope(p, p, l) && Is(x, p.x * (w * w)) && x.mag <= MAX_MUL_MAGNITUDE
    ensures Is(FeMulInt(FeSqr(x), 3), l * (2 * (p.y * ((w * w) * (w * w)))))
  {
    hide M;
    var ww := w * w;
    IsSqr(x, p.x * ww);
    IsMulInt(FeSqr(x), (p.x * ww) * (p.x * ww), 3);
    SquareProduct(p.x, ww);
    var f := ww * ww;
    var xx := p.x * p.x;
    Cong(l * (p.y + p.y), xx + xx + xx, f, f);
    assert 3 * (xx * f) == (xx + xx + xx) * f;
    assert (l * (p.y + p.y)) * f == l * (2 * (p.y * f)) by { TangentRegroup(l, p.y, f); }
  }

  lemma TangentRegroup(l: int, y: int, f: int)
    ensures (l * (y + y)) * f == l * (2 * (y * f))
  {
    MulAssoc(l, y + y, f);
    assert (y + y) * f == 2 * (y * f);
  }

  lemma DoubleX(x: int, l: int, u: int, a: int)
    requires a * 4 == x * (u * u)
    ensures 0 - 4 * (2 * a) + (l * u) * (l * u) == (l * l - x - x) * (u * u)
  {
    SquareProduct(l, u);
    MulDist(u * u, l * l, x + x);
  }

  lemma DoubleY(x: int, y: int, l: int, u: int, a: int, x3: int)
    requires a * 4 == x * (u * u) && x3 == l * l - x - x
    ensures (l * u) * (6 * (2 * a) + (0 - (l * u) * (l * u))) + (0 - y * (u * (u * u)))
      == (l * (x - x3) - y) * (u * (u * u))
  {
    SquareProduct(l, u);
    var uu := u * u;
    assert 6 * (2 * a) - (l * u) * (l * u) == (x - x3) * uu by {
      assert 6 * (2 * a) == (3 * x) * uu;
      MulDist(uu, 3 * x, l * l);
    }
    CrossProduct(l, u, x - x3, uu);
    MulDist(u * uu, l * (x - x3), y);
  }

  /** The tangent formula, in the coordinates of a finite point. */
  lemma DoubleFormula(x: Fe, y: Fe, z: Fe, s: int, p: CurvePoint)
    requires CurveFacts() && p.Affine? && Coordinates(x, y, z.v * s, p)
    requires x.mag <= MAX_MUL_MAGNITUDE && y.mag <= MAX_MUL_MAGNITUDE && z.mag <= MAX_MUL_MAGNITUDE
    ensures var t1 := FeMulInt(FeSqr(x), 3); var t2 := FeSqr(t1);
      var t3 := FeMul(FeMulInt(FeSqr(y), 2), x); var t4 := FeMulInt(FeSqr(FeMulInt(FeSqr(y), 2)), 2);
      var rz := FeMulInt(FeMul(z, y), 2);
      var rx := FeAdd(FeNegate(FeMulInt(t3, 4), 4), t2);
      var ry := FeAdd(FeMul(t1, FeAdd(FeMulInt(t3, 6), FeNegate(t2, 1))), FeNegate(t4, 2));
      CurveAdd(p, p).Affine? && Coordinates(rx, ry, rz.v * s, CurveAdd(p, p))
  {
    hide M, IsPrime, CurveAdd, Slope, Inv, OnCurve;
    var w := z.v * s;
    var ww := w * w;
    var u := 2 * (p.y * (ww * ww));
    NoTwoTorsion(p);
    assert p.y + p.y == 2 * p.y;
    SmallResidues();
    DoubleFinite(p);
    var l := Slope(p, p);
    var c, a := p.y * (w * ww), (p.x * ww) * ((p.y * (w * ww)) * (p.y * (w * ww)));
    DoublePolynomials(p.x, p.y, l, w, u);
    // the intermediate values
    TangentNumerator(p, l, w, x);
    var t1 := FeMulInt(FeSqr(x), 3);
    IsSqr(t1, l * u);
    var t2 := FeSqr(t1);
    IsSqr(y, c);
    IsMulInt(FeSqr(y), c * c, 2);
    var y2 := FeMulInt(FeSqr(y), 2);
    IsSqr(y2, 2 * (c * c));
    IsMulInt(FeSqr(y2), (2 * (c * c)) * (2 * (c * c)), 2);
    var t4 := FeMulInt(FeSqr(y2), 2);
    assert Is(t4, p.y * (u * (u * u)));
    IsMul(y2, 2 * (c * c), x, p.x * ww);
    var t3 := FeMul(y2, x);
    assert (2 * (c * c)) * (p.x * ww) == 2 * a;
    // x
    IsMulInt(t3, 2 * a, 4);
    IsNegate(FeMulInt(t3, 4), 4 * (2 * a), 4);
    IsAdd(FeNegate(FeMulInt(t3, 4), 4), 0 - 4 * (2 * a), t2, (l * u) * (l * u));
    var rx := FeAdd(FeNegate(FeMulInt(t3, 4), 4), t2);
    DoubleX(p.x, l, u, a);
    // y
    IsNegate(t2, (l * u) * (l * u), 1);
    IsMulInt(t3, 2 * a, 6);
    var t5 := FeAdd(FeMulInt(t3, 6), FeNegate(t2, 1));
    IsAdd(FeMulInt(t3, 6), 6 * (2 * a), FeNegate(t2, 1), 0 - (l * u) * (l * u));
    IsMul(t1, l * u, t5, 6 * (2 * a) + (0 - (l * u) * (l * u)));
    IsNegate(t4, p.y * (u * (u * u)), 2);
    var ry := FeAdd(FeMul(t1, t5), FeNegate(t4, 2));
    IsAdd(FeMul(t1, t5), (l * u) * (6 * (2 * a) + (0 - (l * u) * (l * u))), FeNegate(t4, 2), 0 - p.y * (u * (u * u)));
    DoubleY(p.x, p.y, l, u, a, ThirdX(p, p, l));
    // z
    DoubleZ(y, z, s, p, w, u);
    var rz := FeMulInt(FeMul(z, y), 2);
    SumCoordinates(rx, ry, u, rz.v * s, p, p, l);
  }

  lemma DoubleFinite(p: CurvePoint)
    requires IsPrime(P) && p.Affine? && M(p.y + p.y) != 0
    ensures !Opposite(p, p)
    ensures IsSlope(p, p, Slope(p, p))
  {
    SlopeLaw(p, p);
  }

  lemma DoubleZ(y: Fe, z: Fe, s: int, p: CurvePoint, w: int, u: int)
    requires IsPrime(P) && p.Affine? && w == z.v * s && M(w) != 0 && M(2 * p.y) != 0
    requires y.mag <= MAX_MUL_MAGNITUDE && z.mag <= MAX_MUL_MAGNITUDE && Is(y, p.y * (w * (w * w)))
    requires u == 2 * (p.y * ((w * w) * (w * w)))
    ensures M(FeMulInt(FeMul(z, y), 2).v * s) == M(u) != 0
  {
    hide M, IsPrime;
    var c := p.y * (w * (w * w));
    IsSelf(z);
    IsMul(z, z.v, y, c);
    IsMulInt(FeMul(z, y), z.v * c, 2);
    var rz := FeMulInt(FeMul(z, y), 2);
    Idempotent(2 * (z.v * c));
    Cong(rz.v, 2 * (z.v * c), s, s);
    assert (2 * (z.v * c)) * s == 2 * (c * w) by { assert (2 * (z.v * c)) * s == 2 * (c * (z.v * s)); }
    var ww := w * w;
    assert c * w == p.y * (ww * ww) by { assert (w * ww) * w == ww * ww; MulAssoc(p.y, w * ww, w); }
    assert u == (2 * p.y) * (ww * ww);
    NonzeroProduct(w, w);
    NonzeroProduct(ww, ww);
    NonzeroProduct(2 * p.y, ww * ww);
  }

  /** The third point on the line of slope l, in coordinates with z congruent to u. */
  lemma SumCoordinates(rx: Fe, ry: Fe, u: int, w: int, p: CurvePoint, q: CurvePoint, l: int)
    requires IsPrime(P) && p.Affine? && q.Affine? && !Opposite(p, q) && l == Slope(p, q)
    requires M(w) == M(u) != 0
    requires Is(rx, ThirdX(p, q, l) * (u * u)) && Is(ry, ThirdY(p, q, l) * (u * (u * u)))
    ensures CurveAdd(p, q).Affine? && Coordinates(rx, ry, w, CurveAdd(p, q))
  {
    hide M, IsPrime, Slope, IsSlope;
    SumOnCurve(p, q);
    var r := CurveAdd(p, q);
    var x3, y3 := ThirdX(p, q, l), ThirdY(p, q, l);
    assert r == Affine(M(x3), M(y3));
    Idempotent(x3);
    Idempotent(y3);
    Cong(x3, r.x, u * u, u * u);
    Cong(y3, r.y, u * (u * u), u * (u * u));
    Rebase(rx, ry, u, w, r);
  }

  method GejDoubleNonzero(a: Gej, ghost s: int, ghost p: CurvePoint) returns (r: Gej)
    requires CurveFacts() && Rep(a, s, p) && !a.infinity
    ensures Rep(r, s, CurveAdd(p, p)) && !r.infinity
    ensures Is(r.z, 2 * (a.z.v * a.y.v))
    ensures r.x.mag <= 6 && r.y.mag <= 4 && r.z.mag <= 2
  {
    hide M, CurveFacts, CurveAdd, OnCurve;
    r := a;
    var z := FeMul(a.z, a.y);
    z := FeMulInt(z, 2);
    var t1 := FeSqr(a.x);
    t1 := FeMulInt(t1, 3);
    var t2 := FeSqr(t1);
    var t3 := FeSqr(a.y);
    t3 := FeMulInt(t3, 2);
    var t4 := FeSqr(t3);
    t4 := FeMulInt(t4, 2);
    t3 := FeMul(t3, a.x);
    var x := t3;
    x := FeMulInt(x, 4);
    x := FeNegate(x, 4);
    x := FeAdd(x, t2);
    t2 := FeNegate(t2, 1);
    t3 := FeMulInt(t3, 6);
    t3 := FeAdd(t3, t2);
    var y := FeMul(t1, t3);
    t2 := FeNegate(t4, 2);
    y := FeAdd(y, t2);
    r := Gej(x, y, z, false);
    DoubleFormula(a.x, a.y, a.z, s, p);
    IsSelf(a.z);
    IsSelf(a.y);
    IsMul(a.z, a.z.v, a.y, a.y.v);
    IsMulInt(FeMul(a.z, a.y), a.z.v * a.y.v, 2);
  }

  /**
   * secp256k1_gej_double_var. When wanted, rzr is the factor by which z grew; infinity counts as
   * an implicit z of 0.
   */
  method GejDoubleVar(a: Gej, wantRatio: bool, ghost s: int, ghost p: CurvePoint) returns (r: Gej, rzr: Fe)
    requires CurveFacts() && Rep(a, s, p)
    ensures Rep(r, s, CurveAdd(p, p))
    ensures wantRatio && !r.infinity ==> Is(r.z, a.z.v * rzr.v)
    ensures rzr.mag <= 2
    ensures !a.infinity ==> !r.infinity && r.x.mag <= 6 && r.y.mag <= 4 && r.z.mag <= 2
  {
    hide M, CurveFacts, CurveAdd, OnCurve;
    rzr := FeSetInt(1);
    if a.infinity {
      r := a;
      AddInfinity(p);
      return;
    }
    if wantRatio {
      rzr := a.y;
      rzr := FeNormalizeWeak(rzr);
      rzr := FeMulInt(rzr, 2);
    }
    r := GejDoubleNonzero(a, s, p);
    DoubleRatio(a.z, a.y);
  }

  lemma DoubleRatio(z: Fe, y: Fe)
    ensures M(z.v * M(2 * y.v)) == M(2 * (z.v * y.v))
  {
    hide M;
    Idempotent(2 * y.v);
    Cong(z.v, z.v, M(2 * y.v), 2 * y.v);
    assert z.v * (2 * y.v) == 2 * (z.v * y.v);
  }

  // ---- addition by the chord ----

  /** The x of the sum as all chord additions compute it. */
  function ChordX(h3: Fe, i2: Fe, t: Fe): Fe
    requires t.mag <= 1 && h3.mag <= 1 && i2.mag <= 1
  {
    FeAdd(FeNegate(FeAdd(FeMulInt(t, 2), h3), 3), i2)
  }

  /** The y of the sum as all chord additions compute it. */
  function ChordY(x: Fe, h3: Fe, i: Fe, t: Fe, s1: Fe): Fe
    requires x.mag <= 5 && t.mag <= 1 && h3.mag <= 1 && s1.mag <= 1 && i.mag <= 3
  {
    FeAdd(FeMul(FeAdd(FeNegate(x, 5), t), i), FeNegate(FeMul(h3, s1), 1))
  }

  lemma ChordPolynomials(x1: int, d: int, w: int, u: int)
    requires u == d * (w * (w * w))
    ensures (x1 * (w * w)) * ((d * (w * w)) * (d * (w * w))) == x1 * (u * u)
    ensures (d * (w * w)) * ((d * (w * w)) * (d * (w * w))) == d * (u * u)
    ensures w * (d * (w * w)) == u
  {
    var ww := w * w;
    SquareProduct(d, ww);
    SquareProduct(d, w * ww);
    SquareProduct(w, ww);
    var n, f := ww * (ww * ww), (d * d) * (ww * ww);
    assert ww * f == (d * d) * n by { assert ww * f == (d * d) * (ww * (ww * ww)); }
    MulAssoc(x1, ww, f);
    MulAssoc(d, ww, f);
  }

  lemma ChordXValue(x1: int, x2: int, l: int, uu: int, u: int)
    requires uu == u * u
    ensures 0 - (2 * (x1 * uu) + (x2 - x1) * uu) + (l * u) * (l * u) == (l * l - x1 - x2) * uu
  {
    SquareProduct(l, u);
    MulDist(uu, x2, x1);
    MulDist(uu, l * l, x1 + x2);
  }

  lemma ChordYValue(x1: int, y1: int, d: int, l: int, u: int, uu: int, w3: int, x3: int)
    requires uu == u * u && u == d * w3
    ensures (0 - x3 * uu + x1 * uu) * (l * u) + (0 - (d * uu) * (y1 * w3)) == (l * (x1 - x3) - y1) * (u * uu)
  {
    assert 0 - x3 * uu + x1 * uu == (x1 - x3) * uu by { MulDist(uu, x1, x3); }
    CrossProduct(x1 - x3, uu, l, u);
    CrossProduct(d, uu, y1, w3);
    CrossProduct(d, y1, uu, w3);
    CrossProduct(d, w3, uu, y1);
    assert (d * uu) * (y1 * w3) == y1 * (u * uu) by { assert (d * uu) * (y1 * w3) == y1 * ((d * w3) * uu); }
    MulDist(u * uu, l * (x1 - x3), y1);
  }

  /**
   * Two finite points with different x. u1, s1 are the coordinates of the first over the common
   * z coordinate w, and h, i the differences to those of the second.
   */
  lemma ChordFormula(p: CurvePoint, q: CurvePoint, w: int, u1: Fe, s1: Fe, h: Fe, i: Fe, w': int)
    requires IsPrime(P) && p.Affine? && q.Affine? && p.x != q.x && M(w) != 0
    requires u1.mag <= 1 && s1.mag <= 1 && h.mag <= 3 && i.mag <= 3
    requires Is(u1, p.x * (w * w)) && Is(s1, p.y * (w * (w * w)))
    requires Is(h, (q.x - p.x) * (w * w)) && Is(i, (q.y - p.y) * (w * (w * w)))
    requires M(w') == M(w * h.v)
    ensures var h2 := FeSqr(h); var h3 := FeMul(h, h2); var t := FeMul(u1, h2);
      var rx := ChordX(h3, FeSqr(i), t); var ry := ChordY(rx, h3, i, t, s1);
      CurveAdd(p, q).Affine? && Coordinates(rx, ry, w', CurveAdd(p, q))
  {
    hide M, IsPrime, CurveAdd, Slope, Inv, IsSlope, OnCurve;
    var d, e, ww, l := q.x - p.x, q.y - p.y, w * w, Slope(p, q);
    var w3 := w * ww;
    var u := d * w3;
    var uu := u * u;
    ChordRatio(p, q, w, l, h, i, w', u);
    ChordPolynomials(p.x, d, w, u);
    IsSqr(h, d * ww);
    var h2 := FeSqr(h);
    IsMul(h, d * ww, h2, (d * ww) * (d * ww));
    var h3 := FeMul(h, h2);
    IsMul(u1, p.x * ww, h2, (d * ww) * (d * ww));
    var t := FeMul(u1, h2);
    IsSqr(i, l * u);
    var i2 := FeSqr(i);
    // x
    IsMulInt(t, p.x * uu, 2);
    IsAdd(FeMulInt(t, 2), 2 * (p.x * uu), h3, d * uu);
    IsNegate(FeAdd(FeMulInt(t, 2), h3), 2 * (p.x * uu) + d * uu, 3);
    var rx := ChordX(h3, i2, t);
    IsAdd(FeNegate(FeAdd(FeMulInt(t, 2), h3), 3), 0 - (2 * (p.x * uu) + d * uu), i2, (l * u) * (l * u));
    ChordXValue(p.x, q.x, l, uu, u);
    // y
    var x3 := ThirdX(p, q, l);
    IsNegate(rx, x3 * uu, 5);
    IsAdd(FeNegate(rx, 5), 0 - x3 * uu, t, p.x * uu);
    var y := FeAdd(FeNegate(rx, 5), t);
    IsMul(y, 0 - x3 * uu + p.x * uu, i, l * u);
    IsMul(h3, d * uu, s1, p.y * w3);
    IsNegate(FeMul(h3, s1), (d * uu) * (p.y * w3), 1);
    var ry := ChordY(rx, h3, i, t, s1);
    IsAdd(FeMul(y, i), (0 - x3 * uu + p.x * uu) * (l * u), FeNegate(FeMul(h3, s1), 1), 0 - (d * uu) * (p.y * w3));
    ChordYValue(p.x, p.y, d, l, u, uu, w3, x3);
    SumCoordinates(rx, ry, u, w', p, q, l);
  }

  lemma ChordRatio(p: CurvePoint, q: CurvePoint, w: int, l: int, h: Fe, i: Fe, w': int, u: int)
    requires IsPrime(P) && p.Affine? && q.Affine? && p.x != q.x && M(w) != 0 && l == Slope(p, q)
    requires Is(h, (q.x - p.x) * (w * w)) && Is(i, (q.y - p.y) * (w * (w * w)))
    requires M(w') == M(w * h.v) && u == (q.x - p.x) * (w * (w * w))
    ensures Is(i, l * u) && M(w') == M(u) != 0
  {
    hide M, IsPrime, Slope, Inv;
    SlopeLaw(p, q);
    var d, w3 := q.x - p.x, w * (w * w);
    Cong(l * d, q.y - p.y, w3, w3);
    MulAssoc(l, d, w3);
    Idempotent(d * (w * w));
    Cong(w, w, h.v, d * (w * w));
    assert w * (d * (w * w)) == u;
    Distinct(p.x, q.x);
    NonzeroProduct(w, w);
    NonzeroProduct(w, w * w);
    NonzeroProduct(d, w3);
  }

  /** h vanishes exactly when the points share x; then i vanishes exactly when they are equal. */
  lemma Comparison(p: CurvePoint, q: CurvePoint, w: int, h: Fe, i: Fe)
    requires IsPrime(P) && p.Affine? && q.Affine? && M(w) != 0
    requires Is(h, (q.x - p.x) * (w * w)) && Is(i, (q.y - p.y) * (w * (w * w)))
    ensures h.v == 0 <==> p.x == q.x
    ensures i.v == 0 <==> p.y == q.y
    ensures h.v == 0 && i.v != 0 ==> CurveAdd(p, q) == Infinity
  {
    hide M, IsPrime;
    SmallResidues();
    NonzeroProduct(w, w);
    NonzeroProduct(w, w * w);
    ZeroDifference(p.x, q.x, w * w);
    ZeroDifference(p.y, q.y, w * (w * w));
    if p.x == q.x && p.y != q.y {
      SquareDifference(p.y, q.y);
      EquationIs(p.x, p.y);
      EquationIs(q.x, q.y);
      Cong(q.y * q.y, p.y * p.y, p.y * p.y, p.y * p.y);
      Distinct(p.y, q.y);
      NoZeroDivisors(q.y - p.y, p.y + q.y);
    }
  }

  lemma ZeroDifference(x: Residue, y: Residue, w: int)
    requires IsPrime(P) && M(w) != 0
    ensures M((y - x) * w) == 0 <==> x == y
  {
    hide M, IsPrime;
    SmallResidues();
    if x == y {
      assert (y - x) * w == 0 by { assert y - x == 0; }
    } else {
      Distinct(x, y);
      NonzeroProduct(y - x, w);
    }
  }

  /** x and y brought from their own z coordinate to the product with the other one's. */
  lemma CrossScale(x: Fe, y: Fe, w: int, p: Point, z: Fe, w': int)
    requires p.Affine? && M(w) != 0 && Is(x, p.x * (w * w)) && Is(y, p.y * (w * (w * w)))
    requires x.mag <= MAX_MUL_MAGNITUDE && y.mag <= MAX_MUL_MAGNITUDE && z.mag <= MAX_MUL_MAGNITUDE
    requires w' == z.v * w
    ensures var zz := FeSqr(z); Is(FeMul(x, zz), p.x * (w' * w')) && Is(FeMul(FeMul(y, zz), z), p.y * (w' * (w' * w')))
  {
    hide M;
    IsSelf(z);
    IsSqr(z, z.v);
    var zz := FeSqr(z);
    var ww := w * w;
    IsMul(x, p.x * ww, zz, z.v * z.v);
    SquareProduct(z.v, w);
    assert (p.x * ww) * (z.v * z.v) == p.x * (w' * w') by { MulAssoc(p.x, ww, z.v * z.v); Swap(ww, z.v * z.v); }
    IsMul(y, p.y * (w * ww), zz, z.v * z.v);
    IsMul(FeMul(y, zz), (p.y * (w * ww)) * (z.v * z.v), z, z.v);
    ScaleCube(p.y, w, ww, z.v, w');
  }

  lemma ScaleCube(y: int, w: int, ww: int, z: int, w': int)
    requires w' == z * w && ww == w * w
    ensures ((y * (w * ww)) * (z * z)) * z == y * (w' * (w' * w'))
  {
    SquareProduct(z, w);
    CrossProduct(z, w, z * z, ww);
    assert w' * (w' * w') == (z * (z * z)) * (w * ww);
    assert ((y * (w * ww)) * (z * z)) * z == (y * (w * ww)) * (z * (z * z));
  }

  method GejAddVar(a: Gej, b: Gej, wantRatio: bool, ghost s: int, ghost p: CurvePoint, ghost q: CurvePoint)
      returns (r: Gej, rzr: Fe)
    requires CurveFacts() && Rep(a, s, p) && Rep(b, s, q)
    requires wantRatio ==> !a.infinity
    ensures Rep(r, s, CurveAdd(p, q))
    ensures wantRatio && !r.infinity ==> Is(r.z, a.z.v * rzr.v)
    ensures wantRatio && r.infinity ==> rzr.v == 0
    ensures rzr.mag <= 2
  {
    hide M, CurveFacts, CurveAdd, Coordinates, OnCurve;
    rzr := FeSetInt(1);
    if a.infinity {
      AddInfinity(q);
      r := b;
      return;
    }
    if b.infinity {
      AddInfinity(p);
      IsSelf(a.z);
      assert a.z.v * rzr.v == a.z.v;
      r := a;
      return;
    }
    r := a;
    var z22 := FeSqr(b.z);
    var z12 := FeSqr(a.z);
    var u1 := FeMul(a.x, z22);
    var u2 := FeMul(b.x, z12);
    var s1 := FeMul(a.y, z22);
    s1 := FeMul(s1, b.z);
    var s2 := FeMul(b.y, z12);
    s2 := FeMul(s2, a.z);
    var h := FeNegate(u1, 1);
    h := FeAdd(h, u2);
    var i := FeNegate(s1, 1);
    i := FeAdd(i, s2);
    ghost var w := (a.z.v * b.z.v) * s;
    Prime();
    Align(a, b, s, p, q, w);
    Difference(u1, u2, p.x, q.x, w * w);
    Difference(s1, s2, p.y, q.y, w * (w * w));
    Comparison(p, q, w, h, i);
    if FeNormalizesToZero(h) {
      if FeNormalizesToZero(i) {
        r, rzr := GejDoubleVar(a, wantRatio, s, p);
      } else {
        rzr := FeSetInt(0);
        r := a.(infinity := true);
      }
      return;
    }
    var i2 := FeSqr(i);
    var h2 := FeSqr(h);
    var h3 := FeMul(h, h2);
    ghost var h0 := h;
    h := FeMul(h, b.z);
    if wantRatio {
      rzr := h;
    }
    var z := FeMul(a.z, h);
    var t := FeMul(u1, h2);
    var x := t;
    x := FeMulInt(x, 2);
    x := FeAdd(x, h3);
    x := FeNegate(x, 3);
    x := FeAdd(x, i2);
    var y := FeNegate(x, 5);
    y := FeAdd(y, t);
    y := FeMul(y, i);
    h3 := FeMul(h3, s1);
    h3 := FeNegate(h3, 1);
    y := FeAdd(y, h3);
    r := Gej(x, y, z, false);
    ProductZ(a.z, b.z, h0, s, w);
    ChordFormula(p, q, w, u1, s1, h0, i, z.v * s);
    IsSelf(a.z);
    IsSelf(h);
    IsMul(a.z, a.z.v, h, h.v);
  }

  /** Both points over the common z coordinate. */
  lemma Align(a: Gej, b: Gej, s: int, p: CurvePoint, q: CurvePoint, w: int)
    requires IsPrime(P) && p.Affine? && q.Affine? && Rep(a, s, p) && Rep(b, s, q) && w == (a.z.v * b.z.v) * s
    ensures M(w) != 0
    ensures Is(FeMul(a.x, FeSqr(b.z)), p.x * (w * w)) && Is(FeMul(b.x, FeSqr(a.z)), q.x * (w * w))
    ensures Is(FeMul(FeMul(a.y, FeSqr(b.z)), b.z), p.y * (w * (w * w)))
    ensures Is(FeMul(FeMul(b.y, FeSqr(a.z)), a.z), q.y * (w * (w * w)))
  {
    hide M, IsPrime, FeMul, FeSqr, Is;
    CommonZ(a.z.v, b.z.v, s, w);
    var wa, wb := a.z.v * s, b.z.v * s;
    CrossScale(a.x, a.y, wa, p, b.z, w);
    CrossScale(b.x, b.y, wb, q, a.z, w);
    Factor(b.z.v, s);
    NonzeroProduct(b.z.v, wa);
  }

  lemma CommonZ(x: int, y: int, s: int, w: int)
    requires w == (x * y) * s
    ensures w == y * (x * s) && w == x * (y * s)
  {
    MulAssoc(x, y, s);
    Swap(x, y);
    MulAssoc(y, x, s);
  }

  lemma Factor(z: int, s: int)
    requires M(z * s) != 0
    ensures M(z) != 0 && M(s) != 0
  {
    hide M;
    SmallResidues();
    if M(z) == 0 {
      Cong(z, 0, s, s);
    }
    if M(s) == 0 {
      Cong(z, z, s, 0);
    }
  }

  lemma Difference(u1: Fe, u2: Fe, x1: int, x2: int, f: int)
    requires u1.mag <= 1 && u2.mag <= 1 && Is(u1, x1 * f) && Is(u2, x2 * f)
    ensures Is(FeAdd(FeNegate(u1, 1), u2), (x2 - x1) * f)
  {
    hide M;
    IsNegate(u1, x1 * f, 1);
    IsAdd(FeNegate(u1, 1), 0 - x1 * f, u2, x2 * f);
    MulDist(f, x2, x1);
  }

  lemma ProductZ(az: Fe, bz: Fe, h: Fe, s: int, w: int)
    requires w == (az.v * bz.v) * s && az.mag <= MAX_MUL_MAGNITUDE && bz.mag <= MAX_MUL_MAGNITUDE
      && h.mag <= MAX_MUL_MAGNITUDE
    ensures M(FeMul(az, FeMul(h, bz)).v * s) == M(w * h.v)
  {
    hide M;
    IsSelf(az);
    IsSelf(bz);
    IsSelf(h);
    IsMul(h, h.v, bz, bz.v);
    IsMul(az, az.v, FeMul(h, bz), h.v * bz.v);
    Idempotent(az.v * (h.v * bz.v));
    Cong(FeMul(az, FeMul(h, bz)).v, az.v * (h.v * bz.v), s, s);
    assert (az.v * (h.v * bz.v)) * s == w * h.v;
  }

  /** secp256k1_gej_add_ge_var: the second operand is affine relative to the scale s. */
  method GejAddGeVar(a: Gej, b: Ge, wantRatio: bool, ghost s: int, ghost p: CurvePoint, ghost q: CurvePoint)
      returns (r: Gej, rzr: Fe)
    requires CurveFacts() && Rep(a, s, p) && RepGe(b, s, q)
    requires wantRatio ==> !a.infinity
    ensures Rep(r, s, CurveAdd(p, q))
    ensures wantRatio && !r.infinity ==> Is(r.z, a.z.v * rzr.v)
    ensures wantRatio && r.infinity ==> rzr.v == 0
    ensures wantRatio && p.Affine? && q.Affine? && p.x != q.x ==> Is(rzr, b.x.v * (a.z.v * a.z.v) - a.x.v)
    ensures rzr.mag <= 3
  {
    hide M, CurveFacts, CurveAdd, Coordinates, OnCurve;
    rzr := FeSetInt(1);
    if a.infinity {
      AddInfinity(q);
      r := GejSetGe(b);
      return;
    }
    if b.infinity {
      AddInfinity(p);
      IsSelf(a.z);
      assert a.z.v * rzr.v == a.z.v;
      r := a;
      return;
    }
    r := a;
    var z12 := FeSqr(a.z);
    var u1 := FeNormalizeWeak(a.x);
    var u2 := FeMul(b.x, z12);
    var s1 := FeNormalizeWeak(a.y);
    var s2 := FeMul(b.y, z12);
    s2 := FeMul(s2, a.z);
    var h := FeNegate(u1, 1);
    h := FeAdd(h, u2);
    var i := FeNegate(s1, 1);
    i := FeAdd(i, s2);
    ghost var w := a.z.v * s;
    Prime();
    AlignMixed(a.x, a.y, a.z, b, s, w, p, q);
    Difference(u1, u2, p.x, q.x, w * w);
    Difference(s1, s2, p.y, q.y, w * (w * w));
    Comparison(p, q, w, h, i);
    if FeNormalizesToZero(h) {
      if FeNormalizesToZero(i) {
        r, rzr := GejDoubleVar(a, wantRatio, s, p);
      } else {
        rzr := FeSetInt(0);
        r := a.(infinity := true);
      }
      return;
    }
    var i2 := FeSqr(i);
    var h2 := FeSqr(h);
    var h3 := FeMul(h, h2);
    if wantRatio {
      rzr := h;
    }
    var z := FeMul(a.z, h);
    var t := FeMul(u1, h2);
    var x := t;
    x := FeMulInt(x, 2);
    x := FeAdd(x, h3);
    x := FeNegate(x, 3);
    x := FeAdd(x, i2);
    var y := FeNegate(x, 5);
    y := FeAdd(y, t);
    y := FeMul(y, i);
    h3 := FeMul(h3, s1);
    h3 := FeNegate(h3, 1);
    y := FeAdd(y, h3);
    r := Gej(x, y, z, false);
    RatioValue(a.x, a.z, b.x);
    MixedZ(a.z, h, s, w);
    ChordFormula(p, q, w, u1, s1, h, i, z.v * s);
    IsSelf(a.z);
    IsSelf(h);
    IsMul(a.z, a.z.v, h, h.v);
  }

  lemma RatioValue(x: Fe, z: Fe, bx: Fe)
    requires x.mag <= MAX_MUL_MAGNITUDE && z.mag <= MAX_MUL_MAGNITUDE && bx.mag <= MAX_MUL_MAGNITUDE
    ensures Is(FeAdd(FeNegate(FeNormalizeWeak(x), 1), FeMul(bx, FeSqr(z))), bx.v * (z.v * z.v) - x.v)
  {
    hide M;
    IsSelf(x);
    IsSelf(z);
    IsSelf(bx);
    IsSqr(z, z.v);
    IsMul(bx, bx.v, FeSqr(z), z.v * z.v);
    IsNegate(FeNormalizeWeak(x), x.v, 1);
    IsAdd(FeNegate(FeNormalizeWeak(x), 1), 0 - x.v, FeMul(bx, FeSqr(z)), bx.v * (z.v * z.v));
  }

  /** An affine second operand is brought to the first one's z coordinate. */
  lemma AlignMixed(x: Fe, y: Fe, z: Fe, b: Ge, s: int, w: int, p: CurvePoint, q: CurvePoint)
    requires p.Affine? && q.Affine? && Coordinates(x, y, w, p) && RepGe(b, s, q) && w == z.v * s
    requires x.mag <= MAX_MUL_MAGNITUDE && y.mag <= MAX_MUL_MAGNITUDE && z.mag <= MAX_MUL_MAGNITUDE
    ensures M(w) != 0 && M(s) != 0
    ensures Is(FeNormalizeWeak(x), p.x * (w * w)) && Is(FeNormalizeWeak(y), p.y * (w * (w * w)))
    ensures Is(FeMul(b.x, FeSqr(z)), q.x * (w * w))
    ensures Is(FeMul(FeMul(b.y, FeSqr(z)), z), q.y * (w * (w * w)))
  {
    hide M;
    assert 1 * s == s;
    Factor(z.v, s);
    CrossScale(b.x, b.y, s, q, z, w);
  }

  lemma MixedZ(z: Fe, h: Fe, s: int, w: int)
    requires w == z.v * s && z.mag <= MAX_MUL_MAGNITUDE && h.mag <= MAX_MUL_MAGNITUDE
    ensures M(FeMul(z, h).v * s) == M(w * h.v)
  {
    hide M;
    IsSelf(z);
    IsSelf(h);
    IsMul(z, z.v, h, h.v);
    Idempotent(z.v * h.v);
    Cong(FeMul(z, h).v, z.v * h.v, s, s);
    assert (z.v * h.v) * s == w * h.v;
  }

  /**
   * secp256k1_gej_add_zinv_var: relative to the scale s, the second operand is affine in the true
   * curve, so its z coordinate is 1/s, and s is what bzinv holds.
   */
  method GejAddZinvVar(a: Gej, b: Ge, bzinv: Fe, ghost p: CurvePoint, ghost q: CurvePoint) returns (r: Gej)
    requires CurveFacts() && Rep(a, bzinv.v, p) && RepGe(b, 1, q)
    requires bzinv.mag <= MAX_MUL_MAGNITUDE && bzinv.v != 0
    ensures Rep(r, bzinv.v, CurveAdd(p, q))
  {
    hide M, CurveFacts, CurveAdd, Coordinates, OnCurve;
    ghost var s := bzinv.v;
    if b.infinity {
      AddInfinity(p);
      r := a;
      return;
    }
    if a.infinity {
      var bzinv2 := FeSqr(bzinv);
      var bzinv3 := FeMul(bzinv2, bzinv);
      var x := FeMul(b.x, bzinv2);
      var y := FeMul(b.y, bzinv3);
      r := Gej(x, y, FeSetInt(1), b.infinity);
      AddInfinity(q);
      LiftAffine(b, bzinv, q);
      return;
    }
    r := a;
    var az := FeMul(a.z, bzinv);
    var z12 := FeSqr(az);
    var u1 := FeNormalizeWeak(a.x);
    var u2 := FeMul(b.x, z12);
    var s1 := FeNormalizeWeak(a.y);
    var s2 := FeMul(b.y, z12);
    s2 := FeMul(s2, az);
    var h := FeNegate(u1, 1);
    h := FeAdd(h, u2);
    var i := FeNegate(s1, 1);
    i := FeAdd(i, s2);
    ghost var w := az.v * 1;
    Prime();
    ZinvScale(a, bzinv, az, p);
    AlignMixed(a.x, a.y, az, b, 1, w, p, q);
    Difference(u1, u2, p.x, q.x, w * w);
    Difference(s1, s2, p.y, q.y, w * (w * w));
    Comparison(p, q, w, h, i);
    if FeNormalizesToZero(h) {
      if FeNormalizesToZero(i) {
        var rzr;
        r, rzr := GejDoubleVar(a, false, s, p);
      } else {
        r := a.(infinity := true);
      }
      return;
    }
    var i2 := FeSqr(i);
    var h2 := FeSqr(h);
    var h3 := FeMul(h, h2);
    var z := a.z;
    z := FeMul(z, h);
    var t := FeMul(u1, h2);
    var x := t;
    x := FeMulInt(x, 2);
    x := FeAdd(x, h3);
    x := FeNegate(x, 3);
    x := FeAdd(x, i2);
    var y := FeNegate(x, 5);
    y := FeAdd(y, t);
    y := FeMul(y, i);
    h3 := FeMul(h3, s1);
    h3 := FeNegate(h3, 1);
    y := FeAdd(y, h3);
    r := Gej(x, y, z, false);
    MixedZ(a.z, h, s, a.z.v * s);
    Cong(az.v, a.z.v * s, h.v, h.v);
    ChordFormula(p, q, w, u1, s1, h, i, z.v * s);
  }

  lemma ZinvScale(a: Gej, s: Fe, az: Fe, p: CurvePoint)
    requires p.Affine? && Rep(a, s.v, p) && s.mag <= MAX_MUL_MAGNITUDE && az == FeMul(a.z, s)
    ensures Coordinates(a.x, a.y, az.v * 1, p) && M(az.v) == M(a.z.v * s.v)
  {
    hide M;
    Idempotent(a.z.v * s.v);
    assert az.v * 1 == az.v;
    Rebase(a.x, a.y, a.z.v * s.v, az.v * 1, p);
  }

  lemma LiftAffine(b: Ge, s: Fe, q: CurvePoint)
    requires q.Affine? && RepGe(b, 1, q) && s.mag <= MAX_MUL_MAGNITUDE && s.v != 0
    ensures var s2 := FeSqr(s);
      Rep(Gej(FeMul(b.x, s2), FeMul(b.y, FeMul(s2, s)), FeSetInt(1), false), s.v, q)
  {
    hide M;
    assert 1 * 1 == 1 && 1 * s.v == s.v;
    IsSelf(s);
    IsSqr(s, s.v);
    IsMul(FeSqr(s), s.v * s.v, s, s.v);
    IsMul(b.x, q.x, FeSqr(s), s.v * s.v);
    IsMul(b.y, q.y, FeMul(FeSqr(s), s), (s.v * s.v) * s.v);
    assert (s.v * s.v) * s.v == s.v * (s.v * s.v);
  }

  // ---- negation, rescaling, conversions ----

  function GejNeg(a: Gej): Gej
    requires Bounded(a)
  {
    Gej(a.x, FeNegate(FeNormalizeWeak(a.y), 1), a.z, a.infinity)
  }

  function GeNeg(a: Ge): Ge
    requires a.y.mag <= MAX_MAGNITUDE
  {
    Ge(a.x, FeNegate(FeNormalizeWeak(a.y), 1), a.infinity)
  }

  lemma NegRep(a: Gej, s: int, p: CurvePoint)
    requires Rep(a, s, p)
    ensures Rep(GejNeg(a), s, Neg(p))
  {
    hide M;
    if p.Affine? {
      NegateY(FeNormalizeWeak(a.y), a.z.v * s, p, 1);
    }
  }

  lemma NegateY(y: Fe, w: int, p: CurvePoint, m: nat)
    requires p.Affine? && Is(y, p.y * (w * (w * w))) && y.mag <= m < MAX_MAGNITUDE
    ensures Neg(p).Affine? && Neg(p).x == p.x && Is(FeNegate(y, m), Neg(p).y * (w * (w * w)))
  {
    hide M;
    var n := w * (w * w);
    IsNegate(y, p.y * n, m);
    Idempotent(0 - p.y);
    Cong(Neg(p).y, 0 - p.y, n, n);
    assert (0 - p.y) * n == 0 - p.y * n;
  }

  lemma NegRepGe(a: Ge, s: int, p: CurvePoint)
    requires RepGe(a, s, p)
    ensures RepGe(GeNeg(a), s, Neg(p))
  {
    NegRep(GejSetGe(a), s, p);
  }

  /** secp256k1_gej_rescale: another representation of the same point. */
  method GejRescale(a: Gej, f: Fe, ghost s: int, ghost p: CurvePoint) returns (r: Gej)
    requires IsPrime(P) && Rep(a, s, p) && f.mag <= MAX_MUL_MAGNITUDE && f.v != 0
    ensures Rep(r, s, p) && r.infinity == a.infinity
    ensures Is(r.z, a.z.v * f.v) && r.x.mag <= 1 && r.y.mag <= 1 && r.z.mag <= 1
  {
    hide M, IsPrime, Coordinates;
    var zz := FeSqr(f);
    var x := FeMul(a.x, zz);
    var y := FeMul(a.y, zz);
    y := FeMul(y, f);
    var z := FeMul(a.z, f);
    r := Gej(x, y, z, a.infinity);
    if p.Affine? {
      RescaledCoordinates(a, f, s, p, z);
    }
    IsSelf(a.z);
    IsSelf(f);
    IsMul(a.z, a.z.v, f, f.v);
  }

  lemma RescaledCoordinates(a: Gej, f: Fe, s: int, p: CurvePoint, z: Fe)
    requires IsPrime(P) && p.Affine? && Rep(a, s, p) && f.mag <= MAX_MUL_MAGNITUDE && f.v != 0 && z == FeMul(a.z, f)
    ensures Coordinates(FeMul(a.x, FeSqr(f)), FeMul(FeMul(a.y, FeSqr(f)), f), z.v * s, p)
  {
    hide M, IsPrime;
    var w := a.z.v * s;
    SmallResidues();
    NonzeroProduct(f.v, w);
    CrossScale(a.x, a.y, w, p, f, f.v * w);
    Idempotent(a.z.v * f.v);
    Cong(z.v, a.z.v * f.v, s, s);
    assert (a.z.v * f.v) * s == f.v * w;
    Rebase(FeMul(a.x, FeSqr(f)), FeMul(FeMul(a.y, FeSqr(f)), f), f.v * w, z.v * s, p);
  }

  /** secp256k1_ge_set_gej_zinv */
  function GeSetGejZinv(a: Gej, zi: Fe): Ge
    requires Bounded(a) && zi.mag <= MAX_MUL_MAGNITUDE
  {
    var zi2 := FeSqr(zi);
    var zi3 := FeMul(zi2, zi);
    Ge(FeMul(a.x, zi2), FeMul(a.y, zi3), a.infinity)
  }

  /** Multiplying by f moves the z coordinate w to w f, whatever f is. */
  lemma ZinvCoordinates(a: Gej, zi: Fe, w: int, p: CurvePoint, w': int)
    requires p.Affine? && Bounded(a) && Coordinates(a.x, a.y, w, p) && zi.mag <= MAX_MUL_MAGNITUDE
    requires M(w') == M(w * zi.v) != 0
    ensures Coordinates(GeSetGejZinv(a, zi).x, GeSetGejZinv(a, zi).y, w', p)
  {
    hide M;
    var f: int := zi.v;
    IsSelf(zi);
    IsSqr(zi, f);
    var zi2 := FeSqr(zi);
    IsMul(zi2, f * f, zi, f);
    var zi3 := FeMul(zi2, zi);
    IsMul(a.x, p.x * (w * w), zi2, f * f);
    IsMul(a.y, p.y * (w * (w * w)), zi3, (f * f) * f);
    var u := w * f;
    SquareProduct(w, f);
    assert (p.x * (w * w)) * (f * f) == p.x * (u * u) by { MulAssoc(p.x, w * w, f * f); }
    CrossProduct(w, f, w * w, f * f);
    assert (p.y * (w * (w * w))) * ((f * f) * f) == p.y * (u * (u * u)) by { MulAssoc(p.y, w * (w * w), f * (f * f)); }
    Rebase(GeSetGejZinv(a, zi).x, GeSetGejZinv(a, zi).y, u, w', p);
  }

  // ---- the unified, constant-time addition ----

  function FeCmov(r: Fe, a: Fe, flag: bool): (c: Fe)
    ensures c.mag == if a.mag > r.mag then a.mag else r.mag
    ensures c.v == if flag then a.v else r.v
  {
    Fe(if flag then a.v else r.v, if a.mag > r.mag then a.mag else r.mag)
  }

  /** The numerator rr and denominator m of the slope, over powers of the common z coordinate w. */
  lemma UnifiedNumerators(p: CurvePoint, q: CurvePoint, w: int, u1: Fe, u2: Fe, s1: Fe, s2: Fe)
    requires p.Affine? && q.Affine?
    requires u1.mag <= 1 && u2.mag <= 1 && s1.mag <= 1 && s2.mag <= 1
    requires Is(u1, p.x * (w * w)) && Is(u2, q.x * (w * w))
    requires Is(s1, p.y * (w * (w * w))) && Is(s2, q.y * (w * (w * w)))
    ensures Is(FeAdd(u1, u2), (p.x + q.x) * (w * w))
    ensures Is(FeAdd(s1, s2), (p.y + q.y) * (w * (w * w)))
    ensures Is(FeAdd(FeSqr(FeAdd(u1, u2)), FeMul(u1, FeNegate(u2, 1))),
      (p.x * p.x + p.x * q.x + q.x * q.x) * ((w * w) * (w * w)))
    ensures Is(FeMulInt(s1, 2), (2 * p.y) * (w * (w * w)))
    ensures Is(FeAdd(FeNegate(u2, 1), u1), (p.x - q.x) * (w * w))
  {
    hide M;
    NumeratorX(p.x, q.x, w * w, u1, u2);
    NumeratorY(p.y, q.y, w * (w * w), s1, s2);
  }

  lemma NumeratorX(x1: int, x2: int, ww: int, u1: Fe, u2: Fe)
    requires u1.mag <= 1 && u2.mag <= 1 && Is(u1, x1 * ww) && Is(u2, x2 * ww)
    ensures Is(FeAdd(u1, u2), (x1 + x2) * ww)
    ensures Is(FeAdd(FeNegate(u2, 1), u1), (x1 - x2) * ww)
    ensures Is(FeAdd(FeSqr(FeAdd(u1, u2)), FeMul(u1, FeNegate(u2, 1))), (x1 * x1 + x1 * x2 + x2 * x2) * (ww * ww))
  {
    hide M;
    var t := FeAdd(u1, u2);
    IsAdd(u1, x1 * ww, u2, x2 * ww);
    MulDist(ww, x1, x2);
    IsSqr(t, (x1 + x2) * ww);
    IsNegate(u2, x2 * ww, 1);
    IsMul(u1, x1 * ww, FeNegate(u2, 1), 0 - x2 * ww);
    IsAdd(FeSqr(t), ((x1 + x2) * ww) * ((x1 + x2) * ww), FeMul(u1, FeNegate(u2, 1)), (x1 * ww) * (0 - x2 * ww));
    NumeratorValue(x1, x2, ww);
    IsAdd(FeNegate(u2, 1), 0 - x2 * ww, u1, x1 * ww);
  }

  lemma NumeratorY(y1: int, y2: int, w3: int, s1: Fe, s2: Fe)
    requires s1.mag <= 1 && s2.mag <= 1 && Is(s1, y1 * w3) && Is(s2, y2 * w3)
    ensures Is(FeAdd(s1, s2), (y1 + y2) * w3)
    ensures Is(FeMulInt(s1, 2), (2 * y1) * w3)
  {
    hide M;
    IsAdd(s1, y1 * w3, s2, y2 * w3);
    MulDist(w3, y1, y2);
    IsMulInt(s1, y1 * w3, 2);
    MulAssoc(2, y1, w3);
  }

  lemma NumeratorValue(x1: int, x2: int, ww: int)
    ensures ((x1 + x2) * ww) * ((x1 + x2) * ww) + (x1 * ww) * (0 - x2 * ww) == (x1 * x1 + x1 * x2 + x2 * x2) * (ww * ww)
  {
    var f := ww * ww;
    SquareProduct(x1 + x2, ww);
    CrossProduct(x1, ww, x2, ww);
    assert (x1 * ww) * (0 - x2 * ww) == 0 - (x1 * x2) * f;
    var a := (x1 + x2) * (x1 + x2);
    assert a == x1 * x1 + 2 * (x1 * x2) + x2 * x2;
    MulDist(f, a, x1 * x2);
  }

  /** Which of the two expressions for the slope is used, and when the sum is infinite. */
  lemma UnifiedCases(p: CurvePoint, q: CurvePoint, w: int, m: Fe, rr: Fe, rrAlt: Fe, mAlt: Fe, l: int)
    requires IsPrime(P) && p.Affine? && q.Affine? && M(w) != 0
    requires !Opposite(p, q) ==> l == Slope(p, q)
    requires Is(m, (p.y + q.y) * (w * (w * w)))
    requires Is(rr, (p.x * p.x + p.x * q.x + q.x * q.x) * ((w * w) * (w * w)))
    requires Is(rrAlt, (2 * p.y) * (w * (w * w))) && Is(mAlt, (p.x - q.x) * (w * w))
    ensures Opposite(p, q) ==> m.v == 0 && (rr.v == 0 ==> mAlt.v == 0)
    ensures !Opposite(p, q) && m.v == 0 ==> rr.v == 0 && p.x != q.x
    ensures !Opposite(p, q) && m.v != 0 ==>
      Is(rr, l * ((p.y + q.y) * ((w * w) * (w * w)))) && M((p.y + q.y) * ((w * w) * (w * w))) != 0
    ensures !Opposite(p, q) && m.v == 0 ==>
      Is(rrAlt, l * ((p.x - q.x) * (w * (w * w)))) && M((p.x - q.x) * (w * (w * w))) != 0
  {
    hide M, IsPrime, Slope, Inv;
    SmallResidues();
    var ww, w3, f := w * w, w * (w * w), (w * w) * (w * w);
    NonzeroProduct(w, w);
    NonzeroProduct(w, ww);
    NonzeroProduct(ww, ww);
    var y, t, d := p.y + q.y, p.x * p.x + p.x * q.x + q.x * q.x, p.x - q.x;
    if M(y) == 0 { Cong(y, 0, w3, w3); } else { NonzeroProduct(y, w3); NonzeroProduct(y, f); }
    if Opposite(p, q) {
      assert d * ww == 0 by { assert d == 0; }
    } else {
      SlopeLaw(p, q);
      Cong(l * y, t, f, f);
      MulAssoc(l, y, f);
      if M(y) == 0 {
        Cong(l, l, y, 0);
        Cong(t, 0, f, f);
        Distinct(q.x, p.x);
        NonzeroProduct(d, w3);
        // l (x1 - x2) = y1 - y2 = 2 y1
        Reverse(l, p.x, q.x, p.y, q.y);
        Cong(p.y - q.y, p.y - q.y, y, 0);
        assert (p.y - q.y) + y == 2 * p.y;
        Cong(l * d, 2 * p.y, w3, w3);
        MulAssoc(l, d, w3);
      }
    }
  }

  lemma Reverse(l: int, x1: int, x2: int, y1: int, y2: int)
    requires M(l * (x2 - x1)) == M(y2 - y1)
    ensures M(l * (x1 - x2)) == M(y1 - y2)
  {
    hide M;
    Cong(0, 0, l * (x2 - x1), y2 - y1);
    MulDist(l, x2, x1);
    MulDist(l, x1, x2);
  }

  /** The part of the formula that no longer depends on which expression was chosen. */
  lemma UnifiedFormula(p: CurvePoint, q: CurvePoint, w: int, l: int, v: int, t: Fe, rr: Fe, m: Fe, n: Fe, w': int)
    requires IsPrime(P) && p.Affine? && q.Affine? && !Opposite(p, q) && l == Slope(p, q)
    requires t.mag <= 2 && rr.mag <= 3 && m.mag <= 3 && n.mag <= 2
    requires M(v) != 0 && M(w') == M(2 * v)
    requires Is(t, (p.x + q.x) * (w * w)) && Is(rr, l * v)
    requires exists m0: int :: Is(m, m0) && w * m0 == v
    requires Is(n, (p.y + q.y) * (v * (v * v)))
    ensures var q0 := FeNegate(FeMul(FeSqr(m), t), 1);
      var x3 := FeNormalizeWeak(FeAdd(FeSqr(rr), q0));
      var y3 := FeAdd(FeMul(FeAdd(FeMulInt(x3, 2), q0), rr), n);
      CurveAdd(p, q).Affine?
        && Coordinates(FeMulInt(x3, 4), FeMulInt(FeNormalizeWeak(FeNegate(y3, 3)), 4), w', CurveAdd(p, q))
  {
    hide M, IsPrime, CurveAdd, Slope, Inv, IsSlope, OnCurve;
    var m0: int :| Is(m, m0) && w * m0 == v;
    var vv, b, y := v * v, p.x + q.x, p.y + q.y;
    var x := ThirdX(p, q, l);
    UnifiedX(b, w, l, v, m0, t, rr, m);
    var q0 := FeNegate(FeMul(FeSqr(m), t), 1);
    var x3 := FeNormalizeWeak(FeAdd(FeSqr(rr), q0));
    assert l * l - b == x;
    IsMulInt(x3, x * vv, 4);
    UnifiedYIs(b, y, l, v, x, x3, q0, rr, n);
    var g := (2 * (x * vv) + (0 - b * vv)) * (l * v) + y * (v * vv);
    var y3 := FeAdd(FeMul(FeAdd(FeMulInt(x3, 2), q0), rr), n);
    var ry := FeNormalizeWeak(FeNegate(y3, 3));
    UnifiedY(p, q, l, v, x, g);
    DoubledPowers(v, x, ThirdY(p, q, l));
    Nonzero2(v);
    SumCoordinates(FeMulInt(x3, 4), FeMulInt(ry, 4), 2 * v, w', p, q, l);
  }

  lemma DoubledPowers(v: int, x: int, y: int)
    ensures 4 * (x * (v * v)) == x * ((2 * v) * (2 * v))
    ensures y * (8 * (v * (v * v))) == y * ((2 * v) * ((2 * v) * (2 * v)))
  {
    assert (2 * v) * (2 * v) == 4 * (v * v);
    assert (2 * v) * (4 * (v * v)) == 8 * (v * (v * v));
  }

  lemma UnifiedX(b: int, w: int, l: int, v: int, m0: int, t: Fe, rr: Fe, m: Fe)
    requires t.mag <= 2 && rr.mag <= 3 && m.mag <= 3
    requires Is(t, b * (w * w)) && Is(rr, l * v) && Is(m, m0) && w * m0 == v
    ensures var q0 := FeNegate(FeMul(FeSqr(m), t), 1);
      Is(q0, 0 - b * (v * v)) && Is(FeAdd(FeSqr(rr), q0), (l * l - b) * (v * v))
  {
    hide M;
    var vv := v * v;
    IsSqr(m, m0);
    IsMul(FeSqr(m), m0 * m0, t, b * (w * w));
    SquareProduct(w, m0);
    assert (m0 * m0) * (b * (w * w)) == b * vv by { Regroup(m0 * m0, b, w * w); Swap(m0 * m0, b); }
    IsNegate(FeMul(FeSqr(m), t), b * vv, 1);
    var q0 := FeNegate(FeMul(FeSqr(m), t), 1);
    IsSqr(rr, l * v);
    SquareProduct(l, v);
    IsAdd(FeSqr(rr), (l * v) * (l * v), q0, 0 - b * vv);
    MulDist(vv, l * l, b);
  }

  lemma UnifiedYIs(b: int, y: int, l: int, v: int, x: int, x3: Fe, q0: Fe, rr: Fe, n: Fe)
    requires x3.mag <= 1 && q0.mag <= 2 && rr.mag <= 3 && n.mag <= 2
    requires Is(x3, x * (v * v)) && Is(q0, 0 - b * (v * v)) && Is(rr, l * v) && Is(n, y * (v * (v * v)))
    ensures var y3 := FeAdd(FeMul(FeAdd(FeMulInt(x3, 2), q0), rr), n);
      Is(FeMulInt(FeNormalizeWeak(FeNegate(y3, 3)), 4),
         4 * (0 - ((2 * (x * (v * v)) + (0 - b * (v * v))) * (l * v) + y * (v * (v * v)))))
  {
    hide M;
    var vv := v * v;
    IsMulInt(x3, x * vv, 2);
    IsAdd(FeMulInt(x3, 2), 2 * (x * vv), q0, 0 - b * vv);
    var e := FeAdd(FeMulInt(x3, 2), q0);
    IsMul(e, 2 * (x * vv) + (0 - b * vv), rr, l * v);
    IsAdd(FeMul(e, rr), (2 * (x * vv) + (0 - b * vv)) * (l * v), n, y * (v * vv));
    var y3 := FeAdd(FeMul(e, rr), n);
    var g := (2 * (x * vv) + (0 - b * vv)) * (l * v) + y * (v * vv);
    IsNegate(y3, g, 3);
    IsMulInt(FeNormalizeWeak(FeNegate(y3, 3)), 0 - g, 4);
  }

  lemma Nonzero2(v: int)
    requires IsPrime(P) && M(v) != 0
    ensures M(2 * v) != 0
  {
    hide M, IsPrime;
    assert M(2) != 0 by { ResidueRange(2); }
    NonzeroProduct(2, v);
  }

  /** -4 (l v^3 (2 x3 - x1 - x2) + (y1 + y2) v^3) is congruent to 8 v^3 times the y of the sum. */
  lemma UnifiedY(p: CurvePoint, q: CurvePoint, l: int, v: int, x: int, g: int)
    requires IsPrime(P) && p.Affine? && q.Affine? && !Opposite(p, q) && l == Slope(p, q) && x == ThirdX(p, q, l)
    requires g == (2 * (x * (v * v)) + (0 - (p.x + q.x) * (v * v))) * (l * v) + (p.y + q.y) * (v * (v * v))
    ensures M(4 * (0 - g)) == M(ThirdY(p, q, l) * (8 * (v * (v * v))))
  {
    hide M, IsPrime, Slope, Inv;
    SlopeLaw(p, q);
    var n := v * (v * v);
    var b, y := p.x + q.x, p.y + q.y;
    UnifiedYValue(b, y, l, v, x, g);
    var a, c := l * (q.x - p.x), q.y - p.y;
    // 8 (l (x1 - x3) - y1) + 4 (l (2 x3 - b) + y) = 4 ((y2 - y1) - l (x2 - x1))
    var k := ThirdY(p, q, l);
    assert 8 * k + 4 * (l * (2 * x - b) + y) == 4 * (c - a) by { UnifiedYSplit(l, p.x, q.x, x, p.y, q.y); }
    Shift(4 * c - 4 * a, 0, a, c, -4);
    Cong(8 * k + 4 * (l * (2 * x - b) + y), 0, 4 * (l * (2 * x - b) + y), 4 * (l * (2 * x - b) + y));
    Cong(8 * k, 0 - 4 * (l * (2 * x - b) + y), n, n);
    assert (8 * k) * n == k * (8 * n);
  }

  lemma UnifiedYSplit(l: int, x1: int, x2: int, x: int, y1: int, y2: int)
    ensures 8 * (l * (x1 - x) - y1) + 4 * (l * (2 * x - (x1 + x2)) + (y1 + y2)) == 4 * ((y2 - y1) - l * (x2 - x1))
  {
    assert l * (x1 - x) == l * x1 - l * x;
    assert l * (2 * x - (x1 + x2)) == 2 * (l * x) - l * x1 - l * x2;
    assert l * (x2 - x1) == l * x2 - l * x1;
  }

  lemma UnifiedYValue(b: int, y: int, l: int, v: int, x: int, g: int)
    requires g == (2 * (x * (v * v)) + (0 - b * (v * v))) * (l * v) + y * (v * (v * v))
    ensures 4 * (0 - g) == (0 - 4 * (l * (2 * x - b) + y)) * (v * (v * v))
  {
    var vv := v * v;
    var n := v * vv;
    var c := 2 * x - b;
    assert 2 * (x * vv) + (0 - b * vv) == c * vv by { MulDist(vv, 2 * x, b); }
    CrossProduct(c, vv, l, v);
    assert (c * vv) * (l * v) == (l * c) * n;
    assert g == (l * c + y) * n by { MulDist(n, l * c, y); }
    MulAssoc(0 - 4, l * c + y, n);
  }

  /** The chosen denominator m and the value n standing for M^3 Malt, whichever case applies. */
  lemma UnifiedChoice(p: CurvePoint, q: CurvePoint, w: int, m: Fe, rr: Fe, rrAlt: Fe, mAlt: Fe, degenerate: bool, n: Fe)
    returns (l: int, v: int, m0: int)
    requires IsPrime(P) && p.Affine? && q.Affine? && M(w) != 0
    requires m.mag <= 2 && mAlt.mag <= 3
    requires Is(m, (p.y + q.y) * (w * (w * w)))
    requires Is(rr, (p.x * p.x + p.x * q.x + q.x * q.x) * ((w * w) * (w * w)))
    requires Is(rrAlt, (2 * p.y) * (w * (w * w))) && Is(mAlt, (p.x - q.x) * (w * w))
    requires degenerate == (m.v == 0 && rr.v == 0)
    requires n.v == if degenerate then m.v else FeSqr(FeSqr(m)).v
    ensures !Opposite(p, q) ==> l == Slope(p, q)
    ensures Is(if degenerate then mAlt else m, m0)
    ensures w * m0 == v
    ensures Opposite(p, q) ==> M(m0) == 0
    ensures !Opposite(p, q) ==>
      M(v) != 0 && Is(if degenerate then rrAlt else rr, l * v) && Is(n, (p.y + q.y) * (v * (v * v)))
  {
    hide M, IsPrime, Slope;
    l := if Opposite(p, q) then 0 else Slope(p, q);
    SmallResidues();
    UnifiedCases(p, q, w, m, rr, rrAlt, mAlt, l);
    var ww, y, d := w * w, p.y + q.y, p.x - q.x;
    if degenerate {
      m0 := d * ww;
      v := d * (w * ww);
      assert w * m0 == v;
      if !Opposite(p, q) {
        assert M(y) == 0 by {
          NonzeroProduct(w, w);
          NonzeroProduct(w, ww);
          NoZeroDivisors(y, w * ww);
        }
        Cong(y, 0, v * (v * v), v * (v * v));
      }
    } else {
      m0 := y * (w * ww);
      v := y * (ww * ww);
      assert w * m0 == v by { assert w * (w * ww) == ww * ww; MulAssoc(y, w * ww, w); }
      IsSqr(m, m0);
      IsSqr(FeSqr(m), m0 * m0);
      SquareCube(y, w, ww);
      QuarticCube(y, ww, ww * (ww * ww), m0, v);
    }
  }

  lemma UnifiedZ(z: Fe, m: Fe, s: int, w: int, m0: int, v: int)
    requires IsPrime(P) && w == z.v * s && M(w) != 0 && w * m0 == v && Is(m, m0)
    requires z.mag <= MAX_MUL_MAGNITUDE && m.mag <= MAX_MUL_MAGNITUDE
    ensures FeMul(z, m).v == 0 <==> M(m0) == 0
    ensures M(FeMulInt(FeMul(z, m), 2).v * s) == M(2 * v)
  {
    hide M, IsPrime;
    SmallResidues();
    IsSelf(z);
    IsMul(z, z.v, m, m0);
    Factor(z.v, s);
    if M(m0) == 0 { Cong(z.v, z.v, m0, 0); assert z.v * 0 == 0; } else { NonzeroProduct(z.v, m0); }
    var f := FeMul(z, m);
    IsMulInt(f, z.v * m0, 2);
    Idempotent(2 * (z.v * m0));
    Cong(FeMulInt(f, 2).v, 2 * (z.v * m0), s, s);
    assert (2 * (z.v * m0)) * s == 2 * ((z.v * s) * m0);
  }

  lemma UnifiedFinite(a: Gej, b: Ge, s: int, p: CurvePoint, q: CurvePoint, u1: Fe, u2: Fe, s1: Fe, s2: Fe,
      degenerate: bool, rrAlt: Fe, mAlt: Fe, n: Fe)
    requires CurveFacts() && Rep(a, s, p) && RepGe(b, s, q) && p.Affine? && q.Affine?
    requires u1 == FeNormalizeWeak(a.x) && u2 == FeMul(b.x, FeSqr(a.z))
    requires s1 == FeNormalizeWeak(a.y) && s2 == FeMul(FeMul(b.y, FeSqr(a.z)), a.z)
    requires var m := FeAdd(s1, s2); var rr := FeAdd(FeSqr(FeAdd(u1, u2)), FeMul(u1, FeNegate(u2, 1)));
      && degenerate == (m.v == 0 && rr.v == 0)
      && rrAlt == FeCmov(FeMulInt(s1, 2), rr, !degenerate)
      && mAlt == FeCmov(FeAdd(FeNegate(u2, 1), u1), m, !degenerate)
      && n == FeCmov(FeSqr(FeSqr(mAlt)), m, degenerate)
    ensures FeMul(a.z, mAlt).v == 0 <==> CurveAdd(p, q) == Infinity
    ensures var q0 := FeNegate(FeMul(FeSqr(mAlt), FeAdd(u1, u2)), 1);
      var x3 := FeNormalizeWeak(FeAdd(FeSqr(rrAlt), q0));
      var y3 := FeAdd(FeMul(FeAdd(FeMulInt(x3, 2), q0), rrAlt), n);
      CurveAdd(p, q).Affine? ==> Coordinates(FeMulInt(x3, 4), FeMulInt(FeNormalizeWeak(FeNegate(y3, 3)), 4),
        FeMulInt(FeMul(a.z, mAlt), 2).v * s, CurveAdd(p, q))
  {
    hide M, CurveFacts, CurveAdd, Coordinates, IsSlope, Slope, OnCurve;
    var t, m, rr := FeAdd(u1, u2), FeAdd(s1, s2), FeAdd(FeSqr(FeAdd(u1, u2)), FeMul(u1, FeNegate(u2, 1)));
    var w := a.z.v * s;
    Prime();
    AlignMixed(a.x, a.y, a.z, b, s, w, p, q);
    UnifiedNumerators(p, q, w, u1, u2, s1, s2);
    var l, v, m0 := UnifiedChoice(p, q, w, m, rr, FeMulInt(s1, 2), FeAdd(FeNegate(u2, 1), u1), degenerate, n);
    UnifiedZ(a.z, mAlt, s, w, m0, v);
    if Opposite(p, q) {
      OppositeSum(p, q);
    } else {
      FiniteZ(w, m0, v);
      UnifiedFormula(p, q, w, l, v, t, rrAlt, mAlt, n, FeMulInt(FeMul(a.z, mAlt), 2).v * s);
    }
  }

  /** secp256k1_gej_add_ge: one formula for sums, doublings, cancellation and an infinite a. */
  method GejAddGe(a: Gej, b: Ge, ghost s: int, ghost p: CurvePoint, ghost q: CurvePoint) returns (r: Gej)
    requires CurveFacts() && Rep(a, s, p) && RepGe(b, s, q) && !b.infinity
    ensures Rep(r, s, CurveAdd(p, q))
  {
    hide M, CurveFacts, CurveAdd, Coordinates, FeMul, FeSqr, FeAdd, FeNegate, FeMulInt, FeNormalizeWeak, FeCmov,
      OnCurve;
    var zz := FeSqr(a.z);
    var u1 := FeNormalizeWeak(a.x);
    var u2 := FeMul(b.x, zz);
    var s1 := FeNormalizeWeak(a.y);
    var s2 := FeMul(b.y, zz);
    s2 := FeMul(s2, a.z);
    var t := u1;
    t := FeAdd(t, u2);
    var m := s1;
    m := FeAdd(m, s2);
    var rr := FeSqr(t);
    var mAlt := FeNegate(u2, 1);
    var tt := FeMul(u1, mAlt);
    rr := FeAdd(rr, tt);
    var degenerate := FeNormalizesToZero(m) && FeNormalizesToZero(rr);
    var rrAlt := s1;
    rrAlt := FeMulInt(rrAlt, 2);
    mAlt := FeAdd(mAlt, u1);
    rrAlt := FeCmov(rrAlt, rr, !degenerate);
    mAlt := FeCmov(mAlt, m, !degenerate);
    var n := FeSqr(mAlt);
    var q0 := FeMul(n, t);
    n := FeSqr(n);
    n := FeCmov(n, m, degenerate);
    t := FeSqr(rrAlt);
    var z := FeMul(a.z, mAlt);
    var infinity := FeNormalizesToZero(z) && !a.infinity;
    z := FeMulInt(z, 2);
    q0 := FeNegate(q0, 1);
    t := FeAdd(t, q0);
    t := FeNormalizeWeak(t);
    var x := t;
    t := FeMulInt(t, 2);
    t := FeAdd(t, q0);
    t := FeMul(t, rrAlt);
    t := FeAdd(t, n);
    var y := FeNegate(t, 3);
    y := FeNormalizeWeak(y);
    x := FeMulInt(x, 4);
    y := FeMulInt(y, 4);
    if p.Affine? {
      UnifiedFinite(a, b, s, p, q, u1, u2, s1, s2, degenerate, rrAlt, mAlt, n);
    } else {
      AddInfinity(q);
    }
    ghost var x0, y0, z0 := x, y, z;
    x := FeCmov(x, b.x, a.infinity);
    y := FeCmov(y, b.y, a.infinity);
    z := FeCmov(z, FeSetInt(1), a.infinity);
    r := Gej(x, y, z, infinity);
    if CurveAdd(p, q).Affine? {
      SameValues(if a.infinity then b.x else x0, if a.infinity then b.y else y0, x, y, z.v * s, CurveAdd(p, q));
    }
  }

  lemma SameValues(x: Fe, y: Fe, x': Fe, y': Fe, w: int, p: Point)
    requires p.Affine? && x.v == x'.v && y.v == y'.v && Coordinates(x, y, w, p)
    ensures Coordinates(x', y', w, p)
  {
  }

  lemma OppositeSum(p: CurvePoint, q: CurvePoint)
    requires p.Affine? && q.Affine? && Opposite(p, q)
    ensures CurveAdd(p, q) == Infinity
  {
  }

  lemma FiniteZ(w: int, m0: int, v: int)
    requires M(v) != 0 && w * m0 == v
    ensures M(m0) != 0
  {
    Factor(w, m0);
  }
}
