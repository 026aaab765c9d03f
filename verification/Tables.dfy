/**
 * Tables of odd multiples. The additions that fill a table are carried out on the isomorphic
 * curve where 2a is affine; the ratios between successive z coordinates are recorded so that all
 * entries, over any number of chained points, can be brought to one common z.
 */
module Tables {
  import opened Arith
  import opened Scalars
  import opened Field
  import opened Curve
  import opened Jacobian
  import opened AdditionChain
  import opened BatchInverse

  const WINDOW_A: nat := 5

  /** ECMULT_TABLE_SIZE(WINDOW_A) */
  const TABLE_A: nat := 8

  /** p, 3p, 5p, ..., (2n-1)p */
  ghost function OddMultiples(p: CurvePoint, n: nat): (r: seq<CurvePoint>)
    ensures |r| == n && forall i :: 0 <= i < n ==> r[i] == Mul(2 * i + 1, p)
  {
    seq(n, i => Mul(2 * i + 1, p))
  }

  /** The coordinates of e stand for p when read with z coordinate t; the z field is not used. */
  ghost predicate Entry(e: Gej, t: int, p: CurvePoint)
  {
    && p.Affine? && !e.infinity
    && e.x.mag <= MAX_MUL_MAGNITUDE && e.y.mag <= MAX_MUL_MAGNITUDE && e.z.mag <= MAX_MUL_MAGNITUDE
    && Coordinates(e.x, e.y, t, p)
  }

  /** tz lists the z coordinates of the entries, and zr their successive ratios. */
  ghost predicate Chain(e: seq<Gej>, zr: seq<Fe>, tz: seq<int>, pts: seq<CurvePoint>)
  {
    && |e| == |zr| == |tz| == |pts|
    && (forall k :: 0 <= k < |e| ==> Entry(e[k], tz[k], pts[k]))
    && (forall k :: 0 <= k < |e| ==> zr[k].mag <= 3)
    && (forall k :: 1 <= k < |e| ==> Ratio(tz, zr, k))
  }

  ghost predicate Ratio(tz: seq<int>, zr: seq<Fe>, k: nat)
    requires 1 <= k < |tz| && k < |zr|
  {
    Step(tz[k - 1], zr[k], tz[k])
  }

  ghost predicate Step(t0: int, ratio: Fe, t1: int)
  {
    M(t1) == M(t0 * ratio.v)
  }

  lemma ChainConcat(e: seq<Gej>, zr: seq<Fe>, tz: seq<int>, pts: seq<CurvePoint>,
      e': seq<Gej>, zr': seq<Fe>, tz': seq<int>, pts': seq<CurvePoint>)
    requires Chain(e, zr, tz, pts) && Chain(e', zr', tz', pts')
    requires |e| > 0 && |e'| > 0 ==> M(tz'[0]) == M(tz[|e| - 1] * zr'[0].v)
    ensures Chain(e + e', zr + zr', tz + tz', pts + pts')
  {
    hide M, Entry;
    forall k | 1 <= k < |e + e'|
      ensures Ratio(tz + tz', zr + zr', k)
    {
      if k < |e| {
        assert Ratio(tz, zr, k);
      } else if k > |e| {
        assert Ratio(tz', zr', k - |e|);
      }
    }
  }

  lemma AffineD(d: Gej, two: CurvePoint)
    requires two.Affine? && Rep(d, 1, two)
    ensures RepGe(Ge(d.x, d.y, false), d.z.v, two)
  {
    hide M;
    assert d.z.v * 1 == 1 * d.z.v;
  }

  lemma FirstEntry(a: Gej, dz: Fe, p: CurvePoint)
    requires IsPrime(P) && p.Affine? && Rep(a, 1, p) && dz.mag <= MAX_MUL_MAGNITUDE && M(dz.v) != 0
    ensures var g := GeSetGejZinv(a, dz); Rep(Gej(g.x, g.y, a.z, false), dz.v, p) && g.x.mag <= 1 && g.y.mag <= 1
  {
    hide M, IsPrime;
    var w := a.z.v * 1;
    NonzeroProduct(w, dz.v);
    assert w * dz.v == a.z.v * dz.v;
    ZinvCoordinates(a, dz, w, p, a.z.v * dz.v);
  }

  lemma NextOdd(p: CurvePoint, i: nat)
    requires CurveFacts() && p.Affine? && 1 <= i && 2 * i + 1 < N
    ensures CurveAdd(Mul(2 * (i - 1) + 1, p), CurveAdd(p, p)) == Mul(2 * i + 1, p)
    ensures Mul(2 * i + 1, p) != Infinity
  {
    hide CurveAdd, IsPrime, Mul, OnCurve;
    MulAdd(1, 1, p);
    MulOne(p);
    MulAdd(2 * (i - 1) + 1, 2, p);
    DivModUnique(2 * i + 1, N, 0, 2 * i + 1);
    NotMultipleOfN(2 * i + 1);
    MulNonzero(2 * i + 1, p);
  }

  lemma RatioStep(z0: Fe, ratio: Fe, z1: Fe, s: int)
    requires Is(z1, z0.v * ratio.v)
    ensures Step(z0.v * s, ratio, z1.v * s)
  {
    hide M;
    Idempotent(z0.v * ratio.v);
    Cong(z1.v, z0.v * ratio.v, s, s);
    assert (z0.v * ratio.v) * s == (z0.v * s) * ratio.v;
  }

  lemma LastZ(z: Fe, dz: Fe)
    requires z.mag <= MAX_MUL_MAGNITUDE && dz.mag <= MAX_MUL_MAGNITUDE
    ensures M(z.v * dz.v) == M(FeMul(z, dz).v)
  {
    hide M;
    Idempotent(z.v * dz.v);
  }

  lemma DoubledZ(d: Gej, two: CurvePoint)
    requires two.Affine? && Rep(d, 1, two)
    ensures M(d.z.v) != 0
  {
    assert d.z.v * 1 == d.z.v;
  }

  lemma IsEntry(e: Gej, s: int, p: CurvePoint)
    requires Rep(e, s, p) && p.Affine?
    ensures Entry(e, e.z.v * s, p)
  {
  }

  /** The doubling 2a is read as affine on the isomorphic curve, and a is scaled to live there. */
  lemma StartTable(a: Gej, d: Gej, p: CurvePoint)
    requires CurveFacts() && p.Affine? && Rep(a, 1, p) && Rep(d, 1, CurveAdd(p, p)) && !d.infinity
    ensures M(d.z.v) != 0 && RepGe(Ge(d.x, d.y, false), d.z.v, CurveAdd(p, p))
    ensures var g := GeSetGejZinv(a, d.z); var first := Gej(g.x, g.y, a.z, false);
      Rep(first, d.z.v, Mul(2 * (1 - 1) + 1, p)) && Mul(2 * (1 - 1) + 1, p).Affine?
        && Entry(first, a.z.v * d.z.v, Mul(2 * 0 + 1, p))
  {
    hide M, CurveAdd, Mul, Coordinates, IsPrime, GeSetGejZinv, OnCurve;
    DoubledZ(d, CurveAdd(p, p));
    AffineD(d, CurveAdd(p, p));
    FirstEntry(a, d.z, p);
    MulOne(p);
    var g := GeSetGejZinv(a, d.z);
    IsEntry(Gej(g.x, g.y, a.z, false), d.z.v, p);
  }

  lemma ChainExtend(e: seq<Gej>, zr: seq<Fe>, tz: seq<int>, p: CurvePoint, n: nat, e1: Gej, z1: Fe, t1: int)
    requires Chain(e, zr, tz, OddMultiples(p, n)) && z1.mag <= 3
    requires Entry(e1, t1, Mul(2 * n + 1, p)) && (n > 0 ==> Step(tz[n - 1], z1, t1))
    ensures Chain(e + [e1], zr + [z1], tz + [t1], OddMultiples(p, n + 1))
  {
    hide Step, Entry, Mul, OnCurve;
    assert OddMultiples(p, n + 1) == OddMultiples(p, n) + [Mul(2 * n + 1, p)];
    forall k | 1 <= k < n + 1
      ensures Ratio(tz + [t1], zr + [z1], k)
    {
      if k < n { assert Ratio(tz, zr, k); }
    }
  }

  lemma ChainLastZ(e: seq<Gej>, zr: seq<Fe>, tz: seq<int>, pts: seq<CurvePoint>, z: Fe)
    requires Chain(e, zr, tz, pts) && |e| > 0 && z.mag <= 3
    ensures Chain(e[|e| - 1 := e[|e| - 1].(z := z)], zr, tz, pts)
  {
    hide Ratio, Coordinates;
  }

  /** Doubles a and scales it to the isomorphic curve on which the doubling is affine. */
  method EnterIsomorphism(a: Gej, ghost p: CurvePoint) returns (d: Gej, first: Gej)
    requires CurveFacts() && Rep(a, 1, p) && !a.infinity
    ensures p.Affine? && CurveAdd(p, p).Affine? && Rep(d, 1, CurveAdd(p, p)) && !d.infinity
    ensures d.z.mag <= 2 && M(d.z.v) != 0 && RepGe(Ge(d.x, d.y, false), d.z.v, CurveAdd(p, p))
    ensures Rep(first, d.z.v, p) && first.z == a.z && Entry(first, a.z.v * d.z.v, p) && Mul(1, p) == p
  {
    hide M, CurveFacts, CurveAdd, Mul, Coordinates, GeSetGejZinv, Entry, Rep, RepGe, OnCurve;
    RepFacts(a, 1, p);
    var ignore;
    d, ignore := GejDoubleVar(a, false, 1, p);
    RepFacts(d, 1, CurveAdd(p, p));
    StartTable(a, d, p);
    var aGe := GeSetGejZinv(a, d.z);
    first := Gej(aGe.x, aGe.y, a.z, false);
    MulOne(p);
  }

  /** Adds 2a to entry i-1, giving entry i and the ratio of their z coordinates. */
  method NextMultiple(prej: array<Gej>, zr: array<Fe>, off: nat, i: nat, dGe: Ge, ghost s: int, ghost p: CurvePoint,
      ghost tz: seq<int>)
    returns (ghost tz': seq<int>)
    requires CurveFacts() && p.Affine? && 1 <= i && 2 * i + 1 < N && off + i < prej.Length && off + i < zr.Length
    requires RepGe(dGe, s, CurveAdd(p, p))
    requires Rep(prej[off + i - 1], s, Mul(2 * (i - 1) + 1, p)) && Mul(2 * (i - 1) + 1, p).Affine?
    requires |tz| == i && tz[i - 1] == prej[off + i - 1].z.v * s
    requires Chain(prej[off..off + i], zr[off..off + i], tz, OddMultiples(p, i))
    modifies prej, zr
    ensures prej[..off + i] == old(prej[..off + i]) && zr[..off + i] == old(zr[..off + i])
    ensures Rep(prej[off + i], s, Mul(2 * i + 1, p)) && Mul(2 * i + 1, p).Affine?
    ensures tz' == tz + [prej[off + i].z.v * s]
    ensures Chain(prej[off..off + i + 1], zr[off..off + i + 1], tz', OddMultiples(p, i + 1))
  {
    hide M, CurveFacts, CurveAdd, Mul, Coordinates, OddMultiples, Entry, Step, Rep, RepGe, Chain, OnCurve;
    NextOdd(p, i);
    ghost var before, entry := prej[off + i - 1], Mul(2 * i + 1, p);
    ghost var e0, zr0 := prej[off..off + i], zr[off..off + i];
    RepFacts(before, s, Mul(2 * (i - 1) + 1, p));
    prej[off + i], zr[off + i] := GejAddGeVar(prej[off + i - 1], dGe, true, s, Mul(2 * (i - 1) + 1, p), CurveAdd(p, p));
    RepFacts(prej[off + i], s, entry);
    IsEntry(prej[off + i], s, entry);
    RatioStep(before.z, zr[off + i], prej[off + i].z, s);
    tz' := tz + [prej[off + i].z.v * s];
    ChainExtend(e0, zr0, tz, p, i, prej[off + i], zr[off + i], prej[off + i].z.v * s);
    assert prej[off..off + i + 1] == e0 + [prej[off + i]] && zr[off..off + i + 1] == zr0 + [zr[off + i]];
  }

  /** secp256k1_ecmult_odd_multiples_table, writing n entries at offset off. */
  method OddMultiplesTable(n: nat, prej: array<Gej>, zr: array<Fe>, off: nat, a: Gej, ghost p: CurvePoint)
    returns (ghost tz: seq<int>)
    requires CurveFacts() && Rep(a, 1, p) && !a.infinity
    requires 0 < n && 2 * n < N && off + n <= prej.Length && off + n <= zr.Length
    modifies prej, zr
    ensures prej[..off] == old(prej[..off]) && zr[..off] == old(zr[..off])
    ensures Chain(prej[off..off + n], zr[off..off + n], tz, OddMultiples(p, n))
    ensures M(tz[n - 1]) == M(prej[off + n - 1].z.v)
    ensures M(tz[0]) == M(a.z.v * zr[off].v)
  {
    hide M, CurveFacts, CurveAdd, Mul, Coordinates, FeMul, OddMultiples, GeSetGejZinv, Entry, Step, Rep, RepGe, Chain,
      OnCurve;
    var d, first := EnterIsomorphism(a, p);
    var dGe := Ge(d.x, d.y, false);
    ghost var s := d.z.v;
    prej[off] := first;
    zr[off] := d.z;
    tz := [a.z.v * s];
    ChainStart(prej[off], d.z, a.z.v * s, p);
    assert prej[off..off + 1] == [prej[off]] && zr[off..off + 1] == [d.z];
    for i := 1 to n
      invariant prej[..off] == old(prej[..off]) && zr[..off] == old(zr[..off])
      invariant |tz| == i && zr[off] == d.z && tz[0] == a.z.v * s
      invariant Rep(prej[off + i - 1], s, Mul(2 * (i - 1) + 1, p)) && Mul(2 * (i - 1) + 1, p).Affine?
      invariant tz[i - 1] == prej[off + i - 1].z.v * s
      invariant Chain(prej[off..off + i], zr[off..off + i], tz, OddMultiples(p, i))
    {
      tz := NextMultiple(prej, zr, off, i, dGe, s, p, tz);
    }
    // Only the last entry's z is used, so only that one is moved off the isomorphic curve.
    var last := prej[off + n - 1];
    ghost var e0 := prej[off..off + n];
    RepFacts(last, s, Mul(2 * (n - 1) + 1, p));
    LastZ(last.z, d.z);
    ChainLastZ(e0, zr[off..off + n], tz, OddMultiples(p, n), FeMul(last.z, d.z));
    prej[off + n - 1] := last.(z := FeMul(last.z, d.z));
    assert prej[off..off + n] == e0[n - 1 := prej[off + n - 1]];
  }

  lemma ChainStart(e: Gej, z: Fe, t: int, p: CurvePoint)
    requires Entry(e, t, Mul(2 * 0 + 1, p)) && z.mag <= 3
    ensures Chain([e], [z], [t], OddMultiples(p, 1))
  {
    hide Entry;
  }

  /** The table entry r stands for p once Z is taken as its z coordinate. */
  ghost predicate TableEntry(r: Ge, z: int, p: CurvePoint)
  {
    p.Affine? && RepGe(r, z, p) && r.y.mag <= 1
  }

  lemma LastEntry(a: Gej, t: int, p: CurvePoint)
    requires Entry(a, t, p) && M(t) == M(a.z.v)
    ensures TableEntry(Ge(a.x, FeNormalizeWeak(a.y), false), a.z.v, p) && M(a.z.v) != 0
  {
    hide M;
    Rebase(a.x, a.y, t, 1 * a.z.v, p);
  }

  lemma ScaledEntry(a: Gej, t: int, p: CurvePoint, zs: Fe, z: int)
    requires Entry(a, t, p) && zs.mag <= 3 && M(t * zs.v) == M(z) != 0
    ensures TableEntry(GeSetGejZinv(a, zs), z, p)
  {
    hide M;
    ZinvCoordinates(a, zs, t, p, 1 * z);
  }

  lemma NextScale(t0: int, ratio: Fe, t1: int, zs: Fe, z: int)
    requires Step(t0, ratio, t1) && M(t1 * zs.v) == M(z) && ratio.mag <= MAX_MUL_MAGNITUDE
      && zs.mag <= MAX_MUL_MAGNITUDE
    ensures M(t0 * FeMul(zs, ratio).v) == M(z)
  {
    hide M;
    Idempotent(zs.v * ratio.v);
    Cong(t0, t0, FeMul(zs, ratio).v, zs.v * ratio.v);
    Cong(t1, t0 * ratio.v, zs.v, zs.v);
    assert t0 * (zs.v * ratio.v) == (t0 * ratio.v) * zs.v;
  }

  lemma ChainAt(e: seq<Gej>, zr: seq<Fe>, tz: seq<int>, pts: seq<CurvePoint>, k: nat)
    requires Chain(e, zr, tz, pts) && k < |e|
    ensures Entry(e[k], tz[k], pts[k]) && zr[k].mag <= 3
    ensures k > 0 ==> Step(tz[k - 1], zr[k], tz[k])
    ensures |e| == |zr| == |tz| == |pts|
    ensures Bounded(e[k])
  {
    if k > 0 { assert Ratio(tz, zr, k); }
  }

  /** secp256k1_ge_globalz_set_table_gej: scales all entries to the z coordinate of the last one. */
  method GlobalzSetTable(len: nat, r: array<Ge>, a: array<Gej>, zr: array<Fe>, ghost tz: seq<int>,
      ghost pts: seq<CurvePoint>)
    returns (globalz: Fe)
    requires len <= r.Length && len <= a.Length && len <= zr.Length
    requires Chain(a[..len], zr[..len], tz, pts)
    requires len > 0 ==> M(tz[len - 1]) == M(a[len - 1].z.v)
    modifies r
    ensures r[len..] == old(r[len..])
    ensures len > 0 ==> globalz.v != 0 && globalz.mag <= MAX_MUL_MAGNITUDE
    ensures |pts| == len && forall k :: 0 <= k < len ==> TableEntry(r[k], globalz.v, pts[k])
  {
    hide M, Chain, TableEntry, Entry, Step, GeSetGejZinv, FeMul, RepGe, Rep, OnCurve;
    globalz := FeSetInt(1);
    if len == 0 {
      ChainLength(a[..len], zr[..len], tz, pts);
      return;
    }
    ghost var s, ratios := a[..len], zr[..len];
    var i := len - 1;
    ChainAt(s, ratios, tz, pts, i);
    LastEntry(a[i], tz[i], pts[i]);
    r[i] := Ge(a[i].x, FeNormalizeWeak(a[i].y), false);
    globalz := a[i].z;
    SmallResidues();
    var zs := zr[i];
    while i > 0
      invariant 0 <= i < len && zs.mag <= 3
      invariant r[len..] == old(r[len..])
      invariant i == len - 1 ==> zs == zr[i]
      invariant i < len - 1 ==> M(tz[i] * zs.v) == M(globalz.v)
      invariant forall k :: i <= k < len ==> TableEntry(r[k], globalz.v, pts[k])
    {
      ChainAt(s, ratios, tz, pts, i);
      if i != len - 1 {
        NextScale(tz[i - 1], zr[i], tz[i], zs, globalz.v);
        zs := FeMul(zs, zr[i]);
      } else {
        FirstScale(tz[i - 1], zr[i], tz[i], globalz.v);
      }
      i := i - 1;
      ChainAt(s, ratios, tz, pts, i);
      ScaledEntry(a[i], tz[i], pts[i], zs, globalz.v);
      r[i] := GeSetGejZinv(a[i], zs);
    }
  }

  lemma ChainLength(e: seq<Gej>, zr: seq<Fe>, tz: seq<int>, pts: seq<CurvePoint>)
    requires Chain(e, zr, tz, pts)
    ensures |e| == |zr| == |tz| == |pts|
  {
  }

  lemma FirstScale(t0: int, ratio: Fe, t1: int, z: int)
    requires Step(t0, ratio, t1) && M(t1) == M(z)
    ensures M(t0 * ratio.v) == M(z)
  {
  }

  // ---- the table for G, kept in affine form ----

  /** secp256k1_ge_storage: canonical coordinates of a finite point. */
  datatype GeStorage = GeStorage(x: Residue, y: Residue)

  function GeFromStorage(a: GeStorage): Ge
  {
    Ge(Fe(a.x, 1), Fe(a.y, 1), false)
  }

  function GeToStorage(a: Ge): GeStorage
    requires !a.infinity
  {
    GeStorage(a.x.v, a.y.v)
  }

  predicate Stores(e: GeStorage, p: Point)
  {
    p == Affine(e.x, e.y)
  }

  /**
   * What a slot holds between the two passes: in y the y coordinate over w^3, and in x the ratio
   * to the next z, which also is (D - X) w^2 for the affine x coordinates D of 2a and X of the entry.
   */
  ghost predicate Saved(e: GeStorage, w: int, w': int, p: CurvePoint, two: CurvePoint)
  {
    && p.Affine? && two.Affine? && M(w) != 0
    && e.y == M(p.y * (w * (w * w)))
    && e.x == M((two.x - p.x) * (w * w))
    && M(w') == M(w * e.x)
  }

  lemma SaveEntry(pj: Gej, next: Gej, ratio: Fe, d: Gej, p: CurvePoint, two: CurvePoint)
    requires p.Affine? && two.Affine? && Rep(pj, d.z.v, p) && Rep(d, 1, two)
    requires Is(next.z, pj.z.v * ratio.v)
    requires Is(ratio, d.x.v * (pj.z.v * pj.z.v) - pj.x.v)
    ensures Saved(GeStorage(ratio.v, pj.y.v), pj.z.v * d.z.v, next.z.v * d.z.v, p, two)
  {
    hide M;
    var s: int := d.z.v;
    var z: int := pj.z.v;
    RatioStep(pj.z, ratio, next.z, s);
    assert s * 1 == s;
    Idempotent(two.x * (s * s));
    Idempotent(p.x * ((z * s) * (z * s)));
    SavedRatio(d.x.v, pj.x.v, two.x, p.x, z, s);
  }

  /** With x coordinates D s^2 and X (z s)^2, the recorded ratio is (D - X) (z s)^2. */
  lemma SavedRatio(dx: int, px: int, D: int, X: int, z: int, s: int)
    requires M(dx) == M(D * (s * s)) && M(px) == M(X * ((z * s) * (z * s)))
    ensures M(dx * (z * z) - px) == M((D - X) * ((z * s) * (z * s)))
  {
    hide M;
    var w := z * s;
    Cong(dx, D * (s * s), z * z, z * z);
    Cong(dx * (z * z), D * (s * s) * (z * z), px, X * (w * w));
    ScaleSquare(D, z, s);
    ProductDifference(D, X, w * w);
  }

  lemma ScaleSquare(x: int, z: int, s: int)
    ensures (x * (s * s)) * (z * z) == x * ((z * s) * (z * s))
  {
    SquareProduct(z, s);
    MulAssoc(x, s * s, z * z);
    Swap(s * s, z * z);
  }

  lemma ProductDifference(x: int, y: int, f: int)
    ensures (x - y) * f == x * f - y * f
  {
  }

  /** The second pass: from 1/w the entry's affine coordinates are recovered. */
  lemma RestoreEntry(e: GeStorage, w: int, w': int, p: CurvePoint, two: CurvePoint, zi: Fe, dx: Fe)
    requires IsPrime(P) && Saved(e, w, w', p, two)
    requires zi.mag <= MAX_MUL_MAGNITUDE && M(zi.v * w') == 1 && dx.mag <= 1 && dx.v == two.x
    ensures var g := GeFromStorage(e); var zi' := FeMul(zi, g.x); var zi2 := FeSqr(zi'); var zi3 := FeMul(zi2, zi');
      && M(zi'.v * w) == 1
      && FeAdd(FeNegate(FeMul(g.x, zi2), 1), dx).v == p.x
      && FeMul(g.y, zi3).v == p.y
  {
    hide M, IsPrime;
    var g := GeFromStorage(e);
    var zi' := FeMul(zi, g.x);
    var f: int := zi'.v;
    IsSelf(zi);
    IsSelf(g.x);
    IsSelf(g.y);
    IsMul(zi, zi.v, g.x, e.x);
    Idempotent(zi.v * e.x);
    Cong(f, zi.v * e.x, w, w);
    Cong(zi.v, zi.v, w', w * e.x);
    assert (zi.v * e.x) * w == zi.v * (w * e.x);
    IsSelf(zi');
    IsSqr(zi', f);
    var zi2 := FeSqr(zi');
    IsMul(zi2, f * f, zi', f);
    var zi3 := FeMul(zi2, zi');
    // f w = 1, so f^2 w^2 = 1 and f^3 w^3 = 1
    SmallResidues();
    Cong(f * w, 1, f * w, 1);
    SquareProduct(f, w);
    Cong((f * f) * (w * w), 1, f * w, 1);
    CrossProduct(f * f, w * w, f, w);
    IsMul(g.x, (two.x - p.x) * (w * w), zi2, f * f);
    Undo(two.x - p.x, w * w, f * f);
    IsNegate(FeMul(g.x, zi2), two.x - p.x, 1);
    IsSelf(dx);
    IsAdd(FeNegate(FeMul(g.x, zi2), 1), 0 - (two.x - p.x), dx, two.x);
    IsMul(g.y, p.y * (w * (w * w)), zi3, (f * f) * f);
    assert w * (w * w) == (w * w) * w;
    Undo(p.y, (w * w) * w, (f * f) * f);
  }

  lemma Undo(x: int, w: int, f: int)
    requires M(f * w) == M(1)
    ensures M((x * w) * f) == M(x)
  {
    hide M;
    Cong(x, x, f * w, 1);
    assert (x * w) * f == x * (f * w);
  }

  /** No entry shares its x coordinate with 2a, so the additions never degenerate. */
  lemma DistinctX(p: CurvePoint, i: nat)
    requires CurveFacts() && p.Affine? && 2 * i + 3 < N
    ensures var e, two := Mul(2 * i + 1, p), CurveAdd(p, p); e.Affine? && two.Affine? && e.x != two.x
  {
    hide CurveAdd, IsPrime, Mul, Neg, OnCurve;
    var e, two := Mul(2 * i + 1, p), CurveAdd(p, p);
    MulAdd(1, 1, p);
    MulOne(p);
    NonMultiple(2 * i + 1);
    NotMultipleOfN(2 * i + 1);
    MulNonzero(2 * i + 1, p);
    NonMultiple(2 * i - 1);
    NotMultipleOfN(2 * i - 1);
    MulNonzero(2 * i - 1, p);
    NonMultiple(2 * i + 3);
    NotMultipleOfN(2 * i + 3);
    MulNonzero(2 * i + 3, p);
    NonMultiple(2);
    NotMultipleOfN(2);
    MulNonzero(2, p);
    if e.x == two.x {
      SameX(e, two);
      MulNeg(2, p);
      NegLaw(two);
      MulAdd(2 * i + 1, 2, p);
      MulAdd(2 * i + 1, -2, p);
      NegLaw(e);
    }
  }

  lemma NonMultiple(k: int)
    requires k != 0 && k < N && k > 0 - N
    ensures k % N != 0
  {
    if k > 0 { DivModUnique(k, N, 0, k); } else { DivModUnique(k, N, -1, k + N); }
  }

  /** Two points of the curve with the same x are equal or opposite. */
  lemma SameX(p: CurvePoint, q: CurvePoint)
    requires IsPrime(P) && p.Affine? && q.Affine? && p.x == q.x
    ensures p == q || CurveAdd(p, q) == Infinity
  {
    hide IsPrime, M, Slope;
    if !Opposite(p, q) { TangentSlope(p, q); } else { OppositeSum(p, q); }
  }

  ghost predicate SavedBelow(e: seq<GeStorage>, ws: seq<int>, p: CurvePoint, n: nat)
  {
    && n <= |e| && n < |ws|
    && forall k :: 0 <= k < n ==> Saved(e[k], ws[k], ws[k + 1], Mul(2 * k + 1, p), CurveAdd(p, p))
  }

  ghost predicate StoredFrom(e: seq<GeStorage>, p: CurvePoint, i: nat)
  {
    forall k :: i <= k < |e| ==> Stores(e[k], Mul(2 * k + 1, p))
  }

  lemma SavedExtend(e: seq<GeStorage>, ws: seq<int>, p: CurvePoint, n: nat, x: GeStorage, w: int)
    requires SavedBelow(e, ws, p, n) && |ws| == n + 1 && n < |e|
    requires Saved(x, ws[n], w, Mul(2 * n + 1, p), CurveAdd(p, p))
    ensures SavedBelow(e[n := x], ws + [w], p, n + 1)
  {
    hide Saved, Mul, CurveAdd, OnCurve;
  }

  lemma SavedAt(e: seq<GeStorage>, ws: seq<int>, p: CurvePoint, n: nat)
    requires SavedBelow(e, ws, p, n + 1)
    ensures Saved(e[n], ws[n], ws[n + 1], Mul(2 * n + 1, p), CurveAdd(p, p))
  {
  }

  lemma StoreBack(e: seq<GeStorage>, ws: seq<int>, p: CurvePoint, n: nat, x: GeStorage)
    requires SavedBelow(e, ws, p, n + 1) && StoredFrom(e, p, n + 1) && Stores(x, Mul(2 * n + 1, p))
    ensures SavedBelow(e[n := x], ws, p, n) && StoredFrom(e[n := x], p, n)
  {
    hide Saved, Mul, CurveAdd, Stores, OnCurve;
  }

  /** First pass: fills pre[..n-1] with y coordinates and ratios, and ends at the last multiple. */
  method SaveMultiples(n: nat, pre: array<GeStorage>, pj0: Gej, d: Gej, ghost p: CurvePoint)
      returns (pj: Gej, ghost ws: seq<int>)
    requires CurveFacts() && p.Affine? && 0 < n == pre.Length && 2 * n + 1 < N
    requires CurveAdd(p, p).Affine? && Rep(d, 1, CurveAdd(p, p)) && Rep(pj0, d.z.v, p)
    modifies pre
    ensures Rep(pj, d.z.v, Mul(2 * (n - 1) + 1, p)) && Mul(2 * (n - 1) + 1, p).Affine?
    ensures |ws| == n && ws[n - 1] == pj.z.v * d.z.v
    ensures SavedBelow(pre[..], ws, p, n - 1)
  {
    hide M, CurveFacts, CurveAdd, Mul, Coordinates, Rep, RepGe, Saved, SavedBelow, OnCurve;
    var dGe := Ge(d.x, d.y, false);
    ghost var s, two := d.z.v, CurveAdd(p, p);
    AffineD(d, two);
    pj := pj0;
    ws := [pj.z.v * s];
    MulOne(p);
    NothingSaved(pre[..], ws, p);
    for i := 0 to n - 1
      invariant Rep(pj, s, Mul(2 * i + 1, p)) && Mul(2 * i + 1, p).Affine?
      invariant |ws| == i + 1 && ws[i] == pj.z.v * s
      invariant SavedBelow(pre[..], ws, p, i)
    {
      DistinctX(p, i);
      NextOdd(p, i + 1);
      RepFacts(pj, s, Mul(2 * i + 1, p));
      ghost var before, e := pj, pre[..];
      pre[i] := GeStorage(pre[i].x, pj.y.v);
      var ratio;
      pj, ratio := GejAddGeVar(pj, dGe, true, s, Mul(2 * i + 1, p), two);
      RepFacts(pj, s, Mul(2 * (i + 1) + 1, p));
      pre[i] := GeStorage(ratio.v, pre[i].y);
      SaveEntry(before, pj, ratio, d, Mul(2 * i + 1, p), two);
      SavedExtend(e, ws, p, i, pre[i], pj.z.v * s);
      assert pre[..] == e[i := pre[i]];
      ws := ws + [pj.z.v * s];
    }
  }

  lemma NothingSaved(e: seq<GeStorage>, ws: seq<int>, p: CurvePoint)
    requires |ws| > 0
    ensures SavedBelow(e, ws, p, 0)
  {
  }

  lemma ZinvInfinity(a: Gej, zi: Fe)
    requires Bounded(a) && zi.mag <= MAX_MUL_MAGNITUDE
    ensures GeSetGejZinv(a, zi).infinity == a.infinity
  {
  }

  lemma UnitCoordinates(g: Ge, p: CurvePoint)
    requires p.Affine? && Coordinates(g.x, g.y, 1, p)
    ensures g.x.v == p.x && g.y.v == p.y
  {
    hide M;
    assert p.x * (1 * 1) == p.x && p.y * (1 * (1 * 1)) == p.y;
  }

  lemma LastInverse(pj: Gej, d: Gej, zi: Fe, last: CurvePoint)
    requires IsPrime(P) && last.Affine? && Rep(pj, d.z.v, last) && d.z.mag <= MAX_MUL_MAGNITUDE && zi.mag == 1
    requires var f := FeMul(pj.z, d.z); f.v != 0 ==> M(f.v * zi.v) == 1
    ensures M(zi.v * (pj.z.v * d.z.v)) == 1 && !GeSetGejZinv(pj, zi).infinity
    ensures Stores(GeToStorage(GeSetGejZinv(pj, zi)), last)
  {
    hide M, IsPrime, GeSetGejZinv;
    var w := pj.z.v * d.z.v;
    var f := FeMul(pj.z, d.z);
    assert !GeSetGejZinv(pj, zi).infinity by { ZinvInfinity(pj, zi); }
    Idempotent(w);
    Cong(f.v, w, zi.v, zi.v);
    Swap(w, zi.v);
    SmallResidues();
    ZinvCoordinates(pj, zi, w, last, 1);
    UnitCoordinates(GeSetGejZinv(pj, zi), last);
  }

  /** The affine x coordinate of 2a from the inverse of the last z. */
  lemma AffineX(pj: Gej, d: Gej, zi: Fe, two: CurvePoint)
    requires two.Affine? && Rep(d, 1, two) && pj.z.mag <= MAX_MUL_MAGNITUDE && zi.mag <= MAX_MUL_MAGNITUDE
    requires M(zi.v * (pj.z.v * d.z.v)) == 1
    ensures FeMul(FeSqr(FeMul(zi, pj.z)), d.x).v == two.x
  {
    hide M;
    var i: int := zi.v * pj.z.v;
    IsSelf(zi);
    IsSelf(pj.z);
    IsMul(zi, zi.v, pj.z, pj.z.v);
    var dz := FeMul(zi, pj.z);
    IsSqr(dz, i);
    var s: int := d.z.v * 1;
    IsMul(FeSqr(dz), i * i, d.x, two.x * (s * s));
    SmallResidues();
    assert i * s == zi.v * (pj.z.v * d.z.v);
    Cong(i * s, 1, i * s, 1);
    SquareProduct(i, s);
    Swap(i * i, two.x * (s * s));
    Undo(two.x, s * s, i * i);
  }

  /** Second pass: walks back through the ratios, turning every slot into affine coordinates. */
  method RestoreMultiples(n: nat, pre: array<GeStorage>, zi0: Fe, dx: Fe, ghost ws: seq<int>, ghost p: CurvePoint)
    requires IsPrime(P) && 0 < n == pre.Length && |ws| == n && zi0.mag == 1 && dx.mag <= 1
    requires CurveAdd(p, p).Affine? && dx.v == CurveAdd(p, p).x && M(zi0.v * ws[n - 1]) == 1
    requires StoredFrom(pre[..], p, n - 1) && SavedBelow(pre[..], ws, p, n - 1)
    modifies pre
    ensures StoredFrom(pre[..], p, 0)
  {
    hide M, IsPrime, CurveAdd, Mul, Saved, FeMul, FeSqr, FeAdd, FeNegate, Stores, SavedBelow, StoredFrom, OnCurve;
    ghost var two := CurveAdd(p, p);
    var zi := zi0;
    var i := n - 1;
    while i > 0
      invariant 0 <= i < n && zi.mag == 1
      invariant M(zi.v * ws[i]) == 1
      invariant StoredFrom(pre[..], p, i) && SavedBelow(pre[..], ws, p, i)
    {
      i := i - 1;
      ghost var e0 := pre[..];
      SavedAt(e0, ws, p, i);
      var e := GeFromStorage(pre[i]);
      ghost var zi1 := zi;
      var rzr := e.x;
      zi := FeMul(zi, rzr);
      var zi2 := FeSqr(zi);
      var zi3 := FeMul(zi2, zi);
      var x := FeMul(rzr, zi2);
      x := FeNegate(x, 1);
      x := FeAdd(x, dx);
      var y := FeMul(e.y, zi3);
      RestoreEntry(pre[i], ws[i], ws[i + 1], Mul(2 * i + 1, p), two, zi1, dx);
      pre[i] := GeToStorage(Ge(x, y, false));
      IsStored(pre[i], Mul(2 * i + 1, p));
      StoreBack(e0, ws, p, i, pre[i]);
      assert pre[..] == e0[i := pre[i]];
    }
  }

  /** secp256k1_ecmult_odd_multiples_table_storage_var, for a table of pre.Length entries. */
  method OddMultiplesTableStorage(pre: array<GeStorage>, a: Gej, ghost p: CurvePoint)
    requires CurveFacts() && Rep(a, 1, p) && !a.infinity && 0 < pre.Length && 2 * pre.Length + 1 < N
    modifies pre
    ensures forall k :: 0 <= k < pre.Length ==> Stores(pre[k], Mul(2 * k + 1, p))
  {
    hide M, CurveFacts, CurveAdd, Mul, Coordinates, Rep, RepGe, Saved, SavedBelow, GeSetGejZinv, Entry, FeMul, FeSqr,
      Stores, OnCurve;
    var n := pre.Length;
    var d, first := EnterIsomorphism(a, p);
    ghost var two := CurveAdd(p, p);
    RepFacts(d, 1, two);
    Prime();
    ghost var ws;
    var pj;
    pj, ws := SaveMultiples(n, pre, first, d, p);
    ghost var last, saved := Mul(2 * (n - 1) + 1, p), pre[..];
    RepFacts(pj, d.z.v, last);
    var zi := FeMul(pj.z, d.z);
    zi := FeInv(zi);
    LastInverse(pj, d, zi, last);
    pre[n - 1] := GeToStorage(GeSetGejZinv(pj, zi));
    var dz := FeMul(zi, pj.z);
    var dx := FeSqr(dz);
    dx := FeMul(dx, d.x);
    AffineX(pj, d, zi, two);
    assert pre[..] == saved[n - 1 := pre[n - 1]];
    SavedKeeps(saved, ws, p, n - 1, pre[n - 1]);
    RestoreMultiples(n, pre, zi, dx, ws, p);
  }

  lemma SavedKeeps(e: seq<GeStorage>, ws: seq<int>, p: CurvePoint, n: nat, x: GeStorage)
    requires SavedBelow(e, ws, p, n) && n < |e|
    ensures SavedBelow(e[n := x], ws, p, n)
  {
    hide Saved;
  }

  lemma IsStored(e: GeStorage, p: CurvePoint)
    ensures p == Affine(e.x, e.y) ==> Stores(e, p)
  {
  }
}
