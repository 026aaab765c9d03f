/**
 * Lifting an x coordinate to the curve (src/secp256k1/src/group_impl.h) and recovering the public
 * key from a signature (src/secp256k1/src/modules/recovery/main_impl.h).
 */
module Recovery {
  import opened Arith
  import opened Scalars
  import opened Field
  import opened Curve
  import opened Jacobian
  import opened AdditionChain
  import opened BatchInverse
  import opened Endomorphism
  import opened Generator
  import opened GeneratorComb
  import opened Strauss
  import opened Ecdsa

  // ---- lifting x ----

  /** Some point of the curve has this x coordinate. */
  ghost predicate HasPoint(x: Residue)
  {
    exists y: Residue :: OnCurve(Affine(x, y))
  }

  /** A finite point of the curve with the given coordinate and parity of y. */
  ghost predicate LiftsTo(x: Residue, odd: bool, p: CurvePoint)
  {
    p.Affine? && p.x == x && (p.y % 2 == 1 <==> odd)
  }

  /** The right side of the curve equation is a square exactly when x lifts. */
  lemma HasPointIff(x: Residue, c: Residue)
    requires M(c) == M(x * x * x + B)
    ensures HasPoint(x) <==> IsSquare(c)
  {
    hide M;
    if HasPoint(x) {
      var y: Residue :| OnCurve(Affine(x, y));
      EquationIs(x, y);
      assert SquareOf(y, c);
    }
    if IsSquare(c) {
      var y: int :| SquareOf(y, c);
      Idempotent(y);
      var z: Residue := M(y);
      Cong(z, y, z, y);
      EquationIs(x, z);
      assert OnCurve(Affine(x, z));
    }
  }

  lemma RightSide(x: Fe, c: Fe)
    requires x.mag <= MAX_MUL_MAGNITUDE && c == FeAdd(FeSetInt(B), FeMul(x, FeSqr(x)))
    ensures M(c.v) == M(x.v * x.v * x.v + B) && c.mag == 2
  {
    hide M;
    ResidueRange(B);
    IsSelf(x);
    IsSqr(x, x.v);
    IsMul(x, x.v, FeSqr(x), x.v * x.v);
    IsSelf(FeSetInt(B));
    IsAdd(FeSetInt(B), B, FeMul(x, FeSqr(x)), x.v * (x.v * x.v));
    assert x.v * (x.v * x.v) == x.v * x.v * x.v;
    Idempotent(x.v * x.v * x.v + B);
  }

  /** secp256k1_ge_set_xquad: the point with this x coordinate whose y is itself a square. */
  method GeSetXquad(x: Fe) returns (r: Ge, ok: bool)
    requires IsPrime(P) && x.mag <= MAX_MUL_MAGNITUDE
    ensures ok <==> HasPoint(x.v)
    ensures r.x == x && !r.infinity && r.y.mag == 1 && IsSquare(r.y.v)
    ensures ok ==> OnCurve(Affine(x.v, r.y.v))
  {
    hide M, IsPrime, HasPoint, IsSquare, Power;
    var x2 := FeSqr(x);
    var x3 := FeMul(x, x2);
    ResidueRange(B);
    var c := FeSetInt(B);
    c := FeAdd(c, x3);
    RightSide(x, c);
    HasPointIff(x.v, c.v);
    var y;
    y, ok := FeSqrt(c);
    r := Ge(x, y, false);
    if ok {
      Idempotent(y.v * y.v);
      EquationIs(x.v, y.v);
    }
  }

  /** secp256k1_ge_set_xo_var: the point with this x coordinate and parity of y. */
  method GeSetXoVar(x: Fe, odd: bool) returns (r: Ge, ok: bool)
    requires CurveFacts() && x.mag <= MAX_MUL_MAGNITUDE
    ensures ok <==> HasPoint(x.v)
    ensures ok ==> r.x == x && !r.infinity && r.y.mag <= 2
    ensures ok ==> OnCurve(Affine(x.v, r.y.v)) && LiftsTo(x.v, odd, Affine(x.v, r.y.v))
  {
    hide M, CurveFacts, HasPoint, IsSquare, OnCurve;
    Prime();
    r, ok := GeSetXquad(x);
    if !ok {
      return;
    }
    if (r.y.v % 2 == 1) != odd {
      OtherRoot(x.v, r.y.v);
      r := r.(y := FeNegate(r.y, 1));
    }
  }

  /** The two roots have opposite parities: neither is zero and they add up to the odd prime p. */
  lemma OtherRoot(x: Residue, y: Residue)
    requires CurveFacts() && OnCurve(Affine(x, y))
    ensures M(M(0 - y)) == M(0 - y) && OnCurve(Affine(x, M(0 - y)))
    ensures M(0 - y) % 2 == 1 - y % 2
  {
    hide M, CurveFacts, OnCurve;
    NegOnCurve(x, y);
    SmallResidues();
    NoTwoTorsion(Affine(x, y));
    NegatedParity(y);
    ResidueRange(y);
  }

  /** x and the parity of y determine a point. */
  lemma LiftUnique(x: Residue, odd: bool, p: CurvePoint, q: CurvePoint)
    requires CurveFacts() && LiftsTo(x, odd, p) && LiftsTo(x, odd, q)
    ensures p == q
  {
    hide M, CurveFacts, OnCurve;
    Prime();
    if !Opposite(p, q) {
      TangentSlope(p, q);
    } else {
      // then q.y = -p.y, whose parity differs
      OtherRoot(p.x, p.y);
      OppositeIs(p.y, q.y);
    }
  }

  lemma OppositeIs(y: Residue, z: Residue)
    requires M(y + z) == 0
    ensures z == M(0 - y)
  {
    hide M;
    SmallResidues();
    Cong(y + z, 0, y, y);
    assert y + z - y == z;
  }

  // ---- recovery ----

  /** q is a key under which the signature is valid, and the recomputed point has this recovery id. */
  ghost predicate IsKey(r: Scalar, s: Scalar, m: Scalar, recid: int, q: CurvePoint)
  {
    q.Affine? && ValidSignature(r, s, m, q) && RecoveryId(Recomputed(r, s, m, q)) == recid
  }

  /** The x coordinate that r and the upper bit of the recovery id stand for. */
  ghost predicate IsNonceX(r: Scalar, high: bool, x: Residue)
  {
    if high then r < P_MINUS_N && x == r + N else x == r
  }

  /** A signature with a recovery id fixes the recomputed point. */
  lemma RecomputedLifts(r: Scalar, recid: int, p: CurvePoint)
    requires p.Affine? && 0 <= recid < 4
    ensures p.x % N == r && RecoveryId(p) == recid
       <==> IsNonceX(r, recid >= 2, p.x) && LiftsTo(p.x, recid % 2 == 1, p)
  {
    hide M;
    ReducedX(p.x, r);
    ResidueRange(p.x);
    ResidueRange(p.y);
  }

  /** (s/r)*R - (m/r)*G, the key that recovery computes from the nonce point R. */
  ghost function KeyFor(r: Scalar, s: Scalar, m: Scalar, p: CurvePoint): CurvePoint
  {
    var rn := ScalarInverse(r);
    CurveAdd(Mul(ScalarMul(rn, s), p), Mul(Negate(ScalarMul(rn, m)), G()))
  }

  /** a*(b*p + c*g) + d*g, gathered by base point. */
  lemma Substitute(a: int, b: int, c: int, d: int, p: CurvePoint, g: CurvePoint)
    requires CurveFacts()
    ensures CurveAdd(Mul(a, CurveAdd(Mul(b, p), Mul(c, g))), Mul(d, g)) == CurveAdd(Mul(a * b, p), Mul(a * c + d, g))
  {
    hide CurveFacts, CurveAdd, Mul, OnCurve;
    MulSum(a, Mul(b, p), Mul(c, g));
    MulMul(a, b, p);
    MulMul(a, c, g);
    MulAdd(a * c, d, g);
    AddAssoc(Mul(a * b, p), Mul(a * c, g), Mul(d, g));
  }

  /** a*(b*p + c*g) + d*g is p when a*b = 1 and a*c + d = 0 modulo the order. */
  lemma Cancels(a: int, b: int, c: int, d: int, p: CurvePoint, g: CurvePoint)
    requires CurveFacts() && Congruent(a * b, 1, N) && Congruent(a * c + d, 0, N)
    ensures CurveAdd(Mul(a, CurveAdd(Mul(b, p), Mul(c, g))), Mul(d, g)) == p
  {
    hide CurveFacts, CurveAdd, Mul, Congruent, OnCurve;
    Substitute(a, b, c, d, p, g);
    MulCongruent(a * b, 1, p);
    MulCongruent(a * c + d, 0, g);
    MulOne(p);
    MulOne(g);
    Commute(p, Infinity);
    AddInfinity(p);
  }

  /** With w = 1/s and i = 1/r, the maps between key and nonce point have inverse coefficients. */
  lemma InverseCoefficients(r: int, s: int, m: int, w: int, i: int, wr: int, wm: int, u2: int, u1: int)
    requires Congruent(s * w, 1, N) && Congruent(r * i, 1, N)
    requires Congruent(wr, w * r, N) && Congruent(wm, w * m, N)
    requires Congruent(u2, i * s, N) && Congruent(u1, -(i * m), N)
    ensures Congruent(wr * u2, 1, N) && Congruent(wr * u1 + wm, 0, N)
    ensures Congruent(u2 * wr, 1, N) && Congruent(u2 * wm + u1, 0, N)
  {
    hide Congruent;
    CongruentMul(wr, w * r, u2, i * s, N);
    CongruentMul(s * w, 1, r * i, 1, N);
    RegroupUnit(r, s, w, i);
    CongruentTrans(wr * u2, (w * r) * (i * s), 1, N);
    Swap(wr, u2);
    // w r * -(i m) + w m = (w m) * (1 - r i)
    CongruentSelf(1, N);
    CongruentAdd(1, 1, r * i, 1, N);
    CongruentSelf(w * m, N);
    CongruentMul(w * m, w * m, 1 - r * i, 0, N);
    CongruentMul(wr, w * r, u1, -(i * m), N);
    CongruentAdd(wr * u1, (w * r) * -(i * m), wm, w * m, N);
    RegroupFirst(r, m, w, i);
    CongruentTrans(wr * u1 + wm, (w * m) * (1 - r * i), 0, N);
    // i s * w m - i m = (i m) * (s w - 1)
    CongruentAdd(s * w, 1, 1, 1, N);
    CongruentSelf(i * m, N);
    CongruentMul(i * m, i * m, s * w - 1, 0, N);
    CongruentMul(u2, i * s, wm, w * m, N);
    CongruentAdd(u2 * wm, (i * s) * (w * m), u1, -(i * m), N);
    RegroupSecond(s, m, w, i);
    CongruentTrans(u2 * wm + u1, (i * m) * (s * w - 1), 0, N);
  }

  lemma RegroupUnit(r: int, s: int, w: int, i: int)
    ensures (w * r) * (i * s) == (s * w) * (r * i)
  {
    MulAssoc(w * r, i, s);
    MulAssoc(w, r, i);
    MulAssoc(w, r * i, s);
    MulAssoc(s, w, r * i);
    Swap(w * (r * i), s);
  }

  lemma RegroupFirst(r: int, m: int, w: int, i: int)
    ensures (w * r) * -(i * m) + w * m == (w * m) * (1 - r * i)
  {
    assert (w * m) * (1 - r * i) == w * m - (w * m) * (r * i) by { MulDist(w * m, 1, r * i); }
    assert (w * r) * -(i * m) == -((w * r) * (i * m)) by { MulDist(w * r, 0, i * m); }
    RegroupUnit(r, m, w, i);
    assert (m * w) * (r * i) == (w * m) * (r * i) by { Swap(m, w); }
  }

  lemma RegroupSecond(s: int, m: int, w: int, i: int)
    ensures (i * s) * (w * m) + -(i * m) == (i * m) * (s * w - 1)
  {
    assert (i * m) * (s * w - 1) == (i * m) * (s * w) - i * m by { MulDist(i * m, s * w, 1); }
    RegroupUnit(s, m, i, w);
    assert (m * i) * (s * w) == (i * m) * (s * w) by { Swap(m, i); }
  }

  /** For nonzero r and s the recomputed point and the recovered key are inverse to each other. */
  lemma RecoverInverts(r: Scalar, s: Scalar, m: Scalar, p: CurvePoint)
    requires CurveFacts() && r != 0 && s != 0
    ensures Recomputed(r, s, m, KeyFor(r, s, m, p)) == p
    ensures KeyFor(r, s, m, Recomputed(r, s, m, p)) == p
  {
    hide CurveFacts, CurveAdd, Mul, G, Congruent, ScalarInverse, ScalarMul, Negate, IsPrime, OnCurve;
    OrderPrime();
    var w, i := ScalarInverse(s), ScalarInverse(r);
    ScalarInverseLaw(s);
    ScalarInverseLaw(r);
    ProductCongruent(w, r);
    ProductCongruent(w, m);
    ProductCongruent(i, s);
    ProductCongruent(i, m);
    var wr, wm, u2, im := ScalarMul(w, r), ScalarMul(w, m), ScalarMul(i, s), ScalarMul(i, m);
    NegatedCongruent(im, i * m);
    InverseCoefficients(r, s, m, w, i, wr, wm, u2, Negate(im));
    Cancels(wr, u2, Negate(im), wm, p, G());
    Cancels(u2, wr, wm, Negate(im), p, G());
  }

  lemma NegatedCongruent(a: Scalar, x: int)
    requires Congruent(a, x, N)
    ensures Congruent(Negate(a), -x, N)
  {
    hide Congruent;
    CongruentSelf(0, N);
    CongruentAdd(0, 0, a, x, N);
    CongruentBy(Negate(a), 0 - a, N, if a == 0 then 0 else 1);
    CongruentTrans(Negate(a), 0 - a, 0 - x, N);
  }

  /** At most one key goes with a signature and a recovery id. */
  lemma KeyUnique(r: Scalar, s: Scalar, m: Scalar, recid: int, p: CurvePoint, q: CurvePoint)
    requires CurveFacts() && 0 <= recid < 4 && IsKey(r, s, m, recid, p) && IsKey(r, s, m, recid, q)
    ensures p == q
  {
    hide CurveFacts, Recomputed, RecoveryId, KeyFor, OnCurve;
    var e, f := Recomputed(r, s, m, p), Recomputed(r, s, m, q);
    RecomputedLifts(r, recid, e);
    RecomputedLifts(r, recid, f);
    LiftUnique(e.x, recid % 2 == 1, e, f);
    RecoverInverts(r, s, m, p);
    RecoverInverts(r, s, m, q);
  }

  /** A key for the signature is the one computed from the lifted point. */
  lemma KeyFromLift(r: Scalar, s: Scalar, m: Scalar, recid: int, x: Residue, p: CurvePoint, q: CurvePoint)
    requires CurveFacts() && 0 <= recid < 4 && r != 0 && s != 0
    requires IsNonceX(r, recid >= 2, x) && LiftsTo(x, recid % 2 == 1, p)
    ensures IsKey(r, s, m, recid, q) <==> q.Affine? && q == KeyFor(r, s, m, p)
  {
    hide CurveFacts, Recomputed, RecoveryId, KeyFor, OnCurve;
    RecomputedLifts(r, recid, p);
    RecoverInverts(r, s, m, p);
    RecoverInverts(r, s, m, q);
    if IsKey(r, s, m, recid, q) {
      var e := Recomputed(r, s, m, q);
      RecomputedLifts(r, recid, e);
      LiftUnique(x, recid % 2 == 1, e, p);
    }
  }

  /** A key needs a point over the nonce coordinate. */
  lemma KeyNeedsPoint(r: Scalar, s: Scalar, m: Scalar, recid: int, q: CurvePoint) returns (x: Residue)
    requires 0 <= recid < 4 && IsKey(r, s, m, recid, q)
    ensures IsNonceX(r, recid >= 2, x) && HasPoint(x)
  {
    hide Recomputed, RecoveryId, M;
    var e := Recomputed(r, s, m, q);
    RecomputedLifts(r, recid, e);
    assert OnCurve(Affine(e.x, e.y));
    x := e.x;
  }

  lemma NoKey(r: Scalar, s: Scalar, m: Scalar, recid: int)
    requires 0 <= recid < 4
    requires forall x: Residue :: IsNonceX(r, recid >= 2, x) ==> !HasPoint(x)
    ensures forall q: CurvePoint :: !IsKey(r, s, m, recid, q)
  {
    hide IsKey, IsNonceX, HasPoint;
    forall q: CurvePoint ensures !IsKey(r, s, m, recid, q) {
      if IsKey(r, s, m, recid, q) {
        var x := KeyNeedsPoint(r, s, m, recid, q);
      }
    }
  }

  /** secp256k1_ge_set_gej_var */
  method GeSetGejVar(a: Gej, ghost p: CurvePoint) returns (r: Ge)
    requires IsPrime(P) && Rep(a, 1, p)
    ensures RepGe(r, 1, p)
  {
    hide M, IsPrime, Coordinates;
    if a.infinity {
      SmallResidues();
      r := Ge(Fe(0, 0), Fe(0, 0), true);
      return;
    }
    r := GeSetGej(a, p);
  }

  /**
   * secp256k1_ecdsa_sig_recover: succeeds exactly when some finite key makes the signature valid with
   * this recovery id, and then returns that key.
   */
  method EcdsaSigRecover(ctx: EcmultContext, sigr: Scalar, sigs: Scalar, message: Scalar, recid: int)
    returns (pubkey: Ge, ok: bool, ghost q: CurvePoint)
    requires CurveFacts() && Cyclic() && ctx.Valid() && ctx.IsBuilt() && 0 <= recid < 4
    ensures ok ==> IsKey(sigr, sigs, message, recid, q) && RepGe(pubkey, 1, q)
    ensures !ok ==> forall k: CurvePoint :: !IsKey(sigr, sigs, message, recid, k)
  {
    hide CurveFacts, Cyclic, CurveAdd, Mul, Rep, RepGe, G, ScalarInverse, ScalarMul, M, Recomputed, RecoveryId,
      Negate, HasPoint;
    SmallResidues();
    pubkey, ok, q := Ge(Fe(0, 0), Fe(0, 0), true), false, Infinity;
    if sigr == 0 || sigs == 0 {
      return;
    }
    FitsField(sigr);
    var fx := Fe(sigr, 1);
    if recid >= 2 {
      if fx.v >= P_MINUS_N {
        NoKey(sigr, sigs, message, recid);
        return;
      }
      fx := FeAdd(fx, Fe(N, 1));
    }
    var x, lifted := GeSetXoVar(fx, recid % 2 == 1);
    if !lifted {
      NoKey(sigr, sigs, message, recid);
      return;
    }
    ghost var p: CurvePoint := Affine(fx.v, x.y.v);
    UnitRep(x, p);
    FromRepGe(x, 1, p);
    var xj := GejSetGe(x);
    var rn := ScalarInverse(sigr);
    var u1 := ScalarMul(rn, message);
    u1 := Negate(u1);
    var u2 := ScalarMul(rn, sigs);
    var qj := Ecmult(ctx, xj, u2, Some(u1), p);
    q := KeyFor(sigr, sigs, message, p);
    Prime();
    pubkey := GeSetGejVar(qj, q);
    RepFacts(qj, 1, q);
    ok := !qj.infinity;
    forall k: CurvePoint ensures IsKey(sigr, sigs, message, recid, k) <==> k.Affine? && k == q {
      KeyFromLift(sigr, sigs, message, recid, fx.v, p, k);
    }
  }

  /**
   * Signing and then recovering gives back the public key, for every secret key, message and nonce
   * with which signing succeeds.
   */
  method SignAndRecover(gen: EcmultGenContext, ctx: EcmultContext, seckey: Scalar, message: Scalar, nonce: Scalar)
    returns (signed: bool, recovered: bool, pubkey: Ge)
    requires CurveFacts() && Cyclic() && gen.Valid() && ctx.Valid() && ctx.IsBuilt() && seckey != 0 && nonce != 0
    requires Mul(nonce, G()).Affine? ==> Mul(nonce, G()).x % N != 0
    ensures recovered == signed
    ensures signed ==> RepGe(pubkey, 1, Mul(seckey, G()))
  {
    hide CurveFacts, Cyclic, Mul, G, Recomputed, RecoveryId, RepGe, M, OnCurve;
    SmallResidues();
    pubkey, recovered := Ge(Fe(0, 0), Fe(0, 0), true), false;
    var sigr, sigs, recid;
    signed, sigr, sigs, recid := EcdsaSigSign(gen, seckey, message, nonce);
    if signed {
      ghost var key := Mul(seckey, G());
      NonceFinite(seckey);
      RecoveryIdRange(Recomputed(sigr, sigs, message, key));
      ghost var q;
      pubkey, recovered, q := EcdsaSigRecover(ctx, sigr, sigs, message, recid);
      assert IsKey(sigr, sigs, message, recid, key);
      KeyUnique(sigr, sigs, message, recid, key, if recovered then q else key);
    }
  }

  lemma RecoveryIdRange(p: CurvePoint)
    requires p.Affine?
    ensures 0 <= RecoveryId(p) < 4
  {
    ResidueRange(p.y);
  }
}
