/** Signing and verification (src/secp256k1/src/ecdsa_impl.h). */
module Ecdsa {
  import opened Arith
  import opened Scalars
  import opened Field
  import opened Curve
  import opened Jacobian
  import opened AdditionChain
  import opened BatchInverse
  import opened Endomorphism
  import opened Generator
  import opened GeneratorComb
  import opened Sums
  import opened Strauss

  // ---- inverses modulo the group order ----

  /** secp256k1_scalar_inverse, secp256k1_scalar_inverse_var */
  function ScalarInverse(a: Scalar): Scalar
  {
    InverseModulo(a, N)
  }

  lemma ScalarInverseLaw(a: Scalar)
    requires IsPrime(N) && a != 0
    ensures Congruent(a * ScalarInverse(a), 1, N)
  {
    hide IsPrime;
    DivModUnique(a, N, 0, a);
    var b := InverseExists(a, N);
    CongruentMod(a * b, N);
    CongruentTrans(a * b, (a * b) % N, 1, N) by { CongruentSelf(1, N); }
  }

  // ---- what a signature means ----

  /** u1*G + u2*Q for the message m and the signature (r, s) under the key q. */
  ghost function Recomputed(r: Scalar, s: Scalar, m: Scalar, q: CurvePoint): CurvePoint
  {
    var w := ScalarInverse(s);
    CurveAdd(Mul(ScalarMul(w, r), q), Mul(ScalarMul(w, m), G()))
  }

  /** r and s are nonzero and r is the x coordinate of the recomputed point, modulo the order. */
  ghost predicate ValidSignature(r: Scalar, s: Scalar, m: Scalar, q: CurvePoint)
  {
    r != 0 && s != 0 && var p := Recomputed(r, s, m, q); p.Affine? && p.x % N == r
  }

  /** secp256k1_gej_eq_x_var: compares x coordinates without dividing by z^2. */
  predicate GejEqXVar(x: Fe, a: Gej)
    requires x.mag <= MAX_MUL_MAGNITUDE && Bounded(a)
  {
    FeEqual(FeMul(FeSqr(a.z), x), FeNormalizeWeak(a.x))
  }

  lemma EqXMeaning(x: Fe, a: Gej, p: CurvePoint)
    requires IsPrime(P) && p.Affine? && Rep(a, 1, p) && x.mag <= MAX_MUL_MAGNITUDE
    ensures GejEqXVar(x, a) <==> x.v == p.x
  {
    hide M, IsPrime, FeEqual;
    var w := a.z.v * 1;
    var l, r := FeMul(FeSqr(a.z), x), FeNormalizeWeak(a.x);
    FeEqualIff(l, r);
    IsSelf(a.z);
    IsSelf(x);
    IsSqr(a.z, a.z.v);
    IsMul(FeSqr(a.z), a.z.v * a.z.v, x, x.v);
    assert w == a.z.v;
    Swap(p.x, w * w);
    if l.v == r.v {
      NonzeroProduct(w, w);
      Cancel(w * w, x.v, p.x);
    }
  }

  const P_MINUS_N: int := 0x14551231950B75FC4402DA1722FC9BAEE

  /** Since p < 2n, a residue is r modulo n exactly when it is r, or r + n where that is below p. */
  lemma ReducedX(x: Residue, r: Scalar)
    ensures P_MINUS_N == P - N
    ensures x % N == r <==> x == r || (r < P_MINUS_N && x == r + N)
  {
    OrderIs();
    ResidueRange(x);
    if x < N { DivModUnique(x, N, 0, x); } else { DivModUnique(x, N, 1, x - N); }
  }

  lemma FitsField(r: Scalar)
    ensures M(r) == r
    ensures r < P_MINUS_N ==> M(N) == N && M(r + N) == r + N
  {
    OrderIs();
    ResidueRange(r);
    ResidueRange(r + N);
    ResidueRange(N);
  }

  /** secp256k1_ecdsa_sig_verify */
  method EcdsaSigVerify(ctx: EcmultContext, sigr: Scalar, sigs: Scalar, pubkey: Ge, message: Scalar,
      ghost q: CurvePoint) returns (ok: bool)
    requires CurveFacts() && Cyclic() && ctx.Valid() && ctx.IsBuilt() && RepGe(pubkey, 1, q)
    ensures ok <==> ValidSignature(sigr, sigs, message, q)
  {
    hide CurveFacts, Cyclic, CurveAdd, Mul, Rep, RepGe, G, IsPrime, ScalarInverse, ScalarMul, GejEqXVar, M, OnCurve;
    if sigr == 0 || sigs == 0 {
      return false;
    }
    var sn := ScalarInverse(sigs);
    var u1 := ScalarMul(sn, message);
    var u2 := ScalarMul(sn, sigr);
    FromRepGe(pubkey, 1, q);
    var pubkeyj := GejSetGe(pubkey);
    var pr := Ecmult(ctx, pubkeyj, u2, Some(u1), q);
    ghost var p := Recomputed(sigr, sigs, message, q);
    RepFacts(pr, 1, p);
    if pr.infinity {
      return false;
    }
    Prime();
    ReducedX(p.x, sigr);
    FitsField(sigr);
    var xr := Fe(sigr, 1);
    EqXMeaning(xr, pr, p);
    if GejEqXVar(xr, pr) {
      return true;
    }
    if xr.v >= P_MINUS_N {
      return false;
    }
    xr := FeAdd(xr, Fe(N, 1));
    EqXMeaning(xr, pr, p);
    ok := GejEqXVar(xr, pr);
  }

  // ---- signing ----

  /** If t*s = m + r*d then verification under the key d*G recomputes t*G. */
  lemma RecomputesMultiple(r: Scalar, s: Scalar, m: Scalar, d: Scalar, t: int)
    requires CurveFacts() && s != 0 && Congruent(t * s, m + r * d, N)
    ensures Recomputed(r, s, m, Mul(d, G())) == Mul(t, G())
  {
    hide CurveFacts, CurveAdd, Mul, G, ScalarInverse, Congruent, IsPrime, ScalarMul, OnCurve;
    OrderPrime();
    var w: int := ScalarInverse(s);
    var u1: int := ScalarMul(ScalarInverse(s), m);
    var u2: int := ScalarMul(ScalarInverse(s), r);
    MulMul(u2, d, G());
    MulAdd(u2 * d, u1, G());
    ProductCongruent(ScalarInverse(s), m);
    ProductCongruent(ScalarInverse(s), r);
    ScalarInverseLaw(s);
    Recombination(r, s, m, d, t, w, u1, u2);
    MulCongruent(u2 * d + u1, t, G());
  }

  lemma ProductCongruent(a: Scalar, b: Scalar)
    ensures Congruent(ScalarMul(a, b), a * b, N)
  {
    CongruentMod(a * b, N);
  }

  lemma Recombination(r: int, s: int, m: int, d: int, t: int, w: int, u1: int, u2: int)
    requires Congruent(t * s, m + r * d, N) && Congruent(s * w, 1, N) && Congruent(u1, w * m, N)
      && Congruent(u2, w * r, N)
    ensures Congruent(u2 * d + u1, t, N)
  {
    hide Congruent;
    CongruentSelf(d, N);
    CongruentSelf(w, N);
    CongruentSelf(t, N);
    CongruentMul(u2, w * r, d, d, N);
    CongruentAdd(u2 * d, (w * r) * d, u1, w * m, N);
    assert (w * r) * d + w * m == (m + r * d) * w by { MulAssoc(w, r, d); MulDist(w, m, r * d); Swap(w, m + r * d); }
    CongruentMul(t * s, m + r * d, w, w, N);
    CongruentSym((t * s) * w, (m + r * d) * w, N);
    CongruentMul(t, t, s * w, 1, N);
    MulAssoc(t, s, w);
    CongruentTrans(u2 * d + u1, (m + r * d) * w, (t * s) * w, N);
    CongruentTrans(u2 * d + u1, t * (s * w), t, N);
  }

  /** s = n/k, so k*s = n, and s vanishes only when n does. */
  lemma SignatureEquation(k: Scalar, n: Scalar, s: Scalar)
    requires IsPrime(N) && k != 0 && s == ScalarMul(ScalarInverse(k), n)
    ensures Congruent(k * s, n, N) && (s == 0 <==> n == 0)
  {
    hide Congruent, IsPrime, ScalarInverse, ScalarMul;
    var i := ScalarInverse(k);
    ScalarInverseLaw(k);
    ProductCongruent(i, n);
    CongruentSelf(k, N);
    CongruentSelf(n, N);
    CongruentMul(k, k, s, i * n, N);
    MulAssoc(k, i, n);
    CongruentMul(k * i, 1, n, n, N);
    CongruentTrans(k * s, k * (i * n), n, N);
    if s == 0 {
      assert k * s == 0;
      CongruentScalars(0, n);
    }
    if n == 0 {
      assert i * n == 0;
      CongruentScalars(s, 0);
    }
  }

  /** The message scalar plus r times the key, reduced twice. */
  lemma NumeratorCongruent(r: Scalar, d: Scalar, m: Scalar, n: Scalar)
    requires n == ScalarAdd(ScalarMul(r, d), m)
    ensures Congruent(n, m + r * d, N) && n == (m + r * d) % N
  {
    hide Congruent;
    var rd: int := ScalarMul(r, d);
    CongruentMod(rd + m, N);
    CongruentMod(r * d, N);
    CongruentSelf(m, N);
    CongruentAdd(rd, r * d, m, m, N);
    CongruentTrans(n, rd + m, m + r * d, N);
    CongruentMod(m + r * d, N);
    CongruentTrans(n, m + r * d, (m + r * d) % N, N);
    CongruentScalars(n, (m + r * d) % N);
  }

  /** Negating s negates the recomputed point. */
  lemma NegatedEquation(k: int, s: Scalar, n: int)
    requires Congruent(k * s, n, N) && s != 0
    ensures Congruent(-k * Negate(s), n, N)
  {
    hide Congruent;
    var t: int := Negate(s);
    assert -k * t == k * s + N * -k by { MulDist(k, N, s); Swap(k, N); }
    CongruentBy(-k * t, k * s, N, -k);
    CongruentTrans(-k * t, k * s, n, N);
  }

  /** Bit 1: x is not below the order. Bit 0: y is odd. */
  ghost function RecoveryId(p: CurvePoint): nat
    requires p.Affine?
  {
    ResidueRange(p.y);
    (if p.x >= N then 2 else 0) + p.y % 2
  }

  lemma NegatedRecoveryId(p: CurvePoint)
    requires CurveFacts() && p.Affine?
    ensures Neg(p).Affine? && Neg(p).x == p.x
    ensures RecoveryId(Neg(p)) == if p.y % 2 == 0 then RecoveryId(p) + 1 else RecoveryId(p) - 1
  {
    ResidueRange(p.y);
    if p.y == 0 {
      NoTwoTorsion(p);
    }
    NegatedParity(p.y);
  }

  lemma NegatedParity(y: Residue)
    requires y != 0
    ensures M(0 - y) == P - y && (P - y) % 2 == 1 - y % 2
  {
    ResidueRange(y);
    MIs(0 - y);
    DivModUnique(0 - y, P, -1, P - y);
  }

  /** The nonce point is finite because the nonce is not a multiple of the order. */
  lemma NonceFinite(k: Scalar)
    requires CurveFacts() && k != 0
    ensures Mul(k, G()).Affine?
  {
    hide CurveFacts, Mul, G, OnCurve;
    DivModUnique(k, N, 0, k);
    NotMultipleOfN(k);
    MulNonzero(k, G());
  }

  /**
   * secp256k1_ecdsa_sig_sign. Whatever it returns verifies under the matching key, has s in the low
   * half, and comes with the recovery id of the point that verification recomputes.
   */
  method EcdsaSigSign(ctx: EcmultGenContext, seckey: Scalar, message: Scalar, nonce: Scalar)
    returns (ok: bool, sigr: Scalar, sigs: Scalar, recid: int)
    requires CurveFacts() && ctx.Valid() && nonce != 0
    requires Mul(nonce, G()).Affine? ==> Mul(nonce, G()).x % N != 0
    ensures ok <==> (message + sigr * seckey) % N != 0
    ensures ok ==> 2 * sigs < N && ValidSignature(sigr, sigs, message, Mul(seckey, G()))
    ensures Mul(nonce, G()).Affine? && sigr == Mul(nonce, G()).x % N
    ensures ok ==> var e := Recomputed(sigr, sigs, message, Mul(seckey, G()));
      e == Mul(nonce, G()) || e == Neg(Mul(nonce, G()))
    ensures ok ==> recid == RecoveryId(Recomputed(sigr, sigs, message, Mul(seckey, G())))
  {
    hide CurveFacts, CurveAdd, Mul, Rep, RepGe, G, IsPrime, ScalarInverse, ScalarMul, ScalarAdd, M, Recomputed,
      RecoveryId, Negate, Congruent, OnCurve;
    ghost var p := Mul(nonce, G());
    NonceFinite(nonce);
    Prime();
    var rp := ctx.EcmultGen(nonce);
    var r := GeSetGej(rp, p);
    AffineValues(r, p);
    sigr := r.x.v % N;
    var overflow := r.x.v >= N;
    recid := (if overflow then 2 else 0) + (if r.y.v % 2 == 1 then 1 else 0);
    RecoveryIdOf(p, recid);
    var n := ScalarMul(sigr, seckey);
    n := ScalarAdd(n, message);
    NumeratorCongruent(sigr, seckey, message, n);
    sigs := ScalarInverse(nonce);
    sigs := ScalarMul(sigs, n);
    OrderPrime();
    SignatureEquation(nonce, n, sigs);
    if sigs == 0 {
      return false, sigr, sigs, recid;
    }
    CongruentTrans(nonce * sigs, n, message + sigr * seckey, N);
    RecomputesMultiple(sigr, sigs, message, seckey, nonce);
    OddOrder();
    if IsHigh(sigs) {
      NegatedEquation(nonce, sigs, message + sigr * seckey);
      LowHalf(sigs);
      sigs := Negate(sigs);
      RecomputesMultiple(sigr, sigs, message, seckey, -(nonce as int));
      MulNeg(nonce, G());
      NegatedRecoveryId(p);
      recid := if recid % 2 == 0 then recid + 1 else recid - 1;
    }
    ok := true;
  }

  lemma OrderPrime()
    requires CurveFacts()
    ensures IsPrime(N)
  {
  }

  lemma OddOrder()
    ensures N % 2 == 1
  {
    OrderIs();
  }

  lemma LowHalf(s: Scalar)
    requires IsHigh(s)
    ensures Negate(s) != 0 && 2 * Negate(s) < N
  {
    OrderIs();
  }

  lemma RecoveryIdOf(p: CurvePoint, id: int)
    requires p.Affine? && id == (if p.x >= N then 2 else 0) + (if p.y % 2 == 1 then 1 else 0)
    ensures id == RecoveryId(p) && id % 2 == p.y % 2
  {
  }
}
