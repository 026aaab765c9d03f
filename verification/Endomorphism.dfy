/**
 * The endomorphism (x, y) -> (beta x, y), which acts as multiplication by lambda, and the two ways
 * of splitting a scalar: into halves along lambda, and into its low and high 128 bits.
 */
module Endomorphism {
  import opened Arith
  import opened Scalars
  import opened Field
  import opened Curve
  import opened Jacobian
  import opened Generator
  import opened EndoMap
  import opened EndoChain

  const LAMBDA: Scalar := (OrderIs(); 0x5363AD4CC05C30E0A5261C028812645A122E22EA20816678DF02967C1B23BD72)
  const MINUS_LAMBDA: Scalar := (OrderIs(); 0xAC9C52B33FA3CF1F5AD9E3FD77ED9BA4A880B9FC8EC739C2E0CFC810B51283CF)
  const MINUS_B1: Scalar := (OrderIs(); 0xE4437ED6010E88286F547FA90ABFE4C3)
  const MINUS_B2: Scalar := (OrderIs(); 0xFFFFFFFFFFFFFFFFFFFFFFFFFFFFFFFE8A280AC50774346DD765CDA83DB1562C)
  const G1: int := 0x3086D221A7D46BCDE86C90E49284EB153DAB
  const G2: int := 0xE4437ED6010E88286F547FA90ABFE4C42212

  // The lattice basis (A1, -MINUS_B1), (A2, A1) that the constants above come from.
  const A1: int := 0x3086D221A7D46BCDE86C90E49284EB15
  const A2: int := 0x114CA50F7A8E2F3F657C1108D9D44CFD8

  const TWO_272: int := 0x1_00000000000000000000000000000000000000000000000000000000000000000000

  /** secp256k1_scalar_mul_shift_var with shift 272: the product over 2^272, to the nearest integer. */
  function MulShift272(a: Scalar, g: int): (c: Scalar)
    requires 0 <= g < TWO_144
    ensures TWO_272 * c <= a * g + TWO_272 / 2 < TWO_272 * (c + 1)
  {
    ShiftRange(a, g);
    (a * g + TWO_272 / 2) / TWO_272
  }

  lemma ShiftRange(a: Scalar, g: int)
    requires 0 <= g < TWO_144
    ensures 0 <= (a * g + TWO_272 / 2) / TWO_272 < N
  {
    OrderIs();
    MulMono(a, 0, g);
    MulMono(a, g, TWO_144);
  }

  /** secp256k1_scalar_split_lambda: both parts have at most 128 bits, up to sign. */
  function SplitLambda(a: Scalar): (r: (Scalar, Scalar))
    ensures Short(r.0) && Short(r.1)
  {
    var k1 := MulShift272(a, G1);
    var k2 := MulShift272(a, G2);
    var c1 := ScalarMul(k1, MINUS_B1);
    var c2 := ScalarMul(k2, MINUS_B2);
    var r2 := ScalarAdd(c1, c2);
    var r1 := ScalarAdd(ScalarMul(r2, MINUS_LAMBDA), a);
    SecondHalf(k1, k2, r2);
    FirstOfSecond(a, r2);
    ShortVector(a, k1, k2);
    ShortFrom(r2, k1 * MINUS_B1 - k2 * A1);
    FirstHalfValue(a, k1, k2);
    Substituted(a, r1, r2, k1 * MINUS_B1 - k2 * A1, MINUS_LAMBDA, a - k1 * A1 - k2 * A2,
      k1 * MINUS_B1 - k2 * A1 - k1 * Q1 + k2 * Q2);
    ShortFrom(r1, a - k1 * A1 - k2 * A2);
    (r1, r2)
  }

  /** secp256k1_scalar_split_128 */
  function Split128(a: Scalar): (r: (Scalar, Scalar))
    ensures r.0 < TWO_128 && r.1 < TWO_128 && a == r.0 + TWO_128 * r.1
  {
    OrderIs();
    (a % TWO_128, a / TWO_128)
  }

  /** The halves recombine along lambda. */
  lemma SplitRecombines(a: Scalar)
    ensures var (r1, r2) := SplitLambda(a); Congruent(r1 + r2 * LAMBDA, a, N)
  {
    hide Congruent, ScalarMul, ScalarAdd, MulShift272;
    var (r1, r2) := SplitLambda(a);
    FirstOfSecond(a, r2);
    CongruentSelf(r2 * LAMBDA, N);
    CongruentAdd(r1, r2 * MINUS_LAMBDA + a, r2 * LAMBDA, r2 * LAMBDA, N);
    LambdaCancels(r2);
    CongruentBy(r2 * MINUS_LAMBDA + a + r2 * LAMBDA, a, N, r2);
    CongruentTrans(r1 + r2 * LAMBDA, r2 * MINUS_LAMBDA + a + r2 * LAMBDA, a, N);
  }

  /** x*p + y*(lambda*p) is k*p when x + y*lambda is k modulo the order. */
  lemma LambdaSum(x: int, y: int, k: int, p: CurvePoint)
    requires CurveFacts() && Congruent(x + y * LAMBDA, k, N)
    ensures CurveAdd(Mul(x, p), Mul(y, Mul(LAMBDA, p))) == Mul(k, p)
  {
    hide CurveFacts, CurveAdd, Mul, Congruent, OnCurve;
    MulMul(y, LAMBDA, p);
    MulAdd(x, y * LAMBDA, p);
    MulCongruent(x + y * LAMBDA, k, p);
  }

  lemma FirstOfSecond(a: Scalar, r2: Scalar)
    ensures Congruent(ScalarAdd(ScalarMul(r2, MINUS_LAMBDA), a), r2 * MINUS_LAMBDA + a, N)
  {
    hide Congruent;
    var t: int := ScalarMul(r2, MINUS_LAMBDA);
    CongruentMod(t + a, N);
    CongruentMod(r2 * MINUS_LAMBDA, N);
    CongruentSelf(a, N);
    CongruentAdd(t, r2 * MINUS_LAMBDA, a, a, N);
    CongruentTrans((t + a) % N, t + a, r2 * MINUS_LAMBDA + a, N);
  }

  lemma LambdaCancels(x: int)
    ensures x * MINUS_LAMBDA + x * LAMBDA == N * x
  {
    OrderIs();
  }

  /** The rounding errors keep both integers below 2^128 in absolute value. */
  lemma ShortVector(a: int, c1: int, c2: int)
    requires 0 <= a < N
    requires TWO_272 * c1 <= a * G1 + TWO_272 / 2 < TWO_272 * (c1 + 1)
    requires TWO_272 * c2 <= a * G2 + TWO_272 / 2 < TWO_272 * (c2 + 1)
    ensures 0 - TWO_128 < a - c1 * A1 - c2 * A2 < TWO_128
    ensures 0 - TWO_128 < c1 * MINUS_B1 - c2 * A1 < TWO_128
  {
    OrderIs();
  }

  /** x is congruent to an integer of at most 128 bits and a sign. */
  predicate Short(x: Scalar)
  {
    x < TWO_128 || x > N - TWO_128
  }

  lemma ShortFrom(x: Scalar, k: int)
    requires Congruent(x, k, N) && 0 - TWO_128 < k < TWO_128
    ensures Short(x)
  {
    OrderIs();
    var j: int :| x == k + N * j;
  }

  lemma SecondHalf(c1: Scalar, c2: Scalar, r2: Scalar)
    requires r2 == ScalarAdd(ScalarMul(c1, MINUS_B1), ScalarMul(c2, MINUS_B2))
    ensures Congruent(r2, c1 * MINUS_B1 - c2 * A1, N)
  {
    hide Congruent;
    OrderIs();
    var s: int := ScalarMul(c1, MINUS_B1);
    var t: int := ScalarMul(c2, MINUS_B2);
    CongruentMod(s + t, N);
    CongruentMod(c1 * MINUS_B1, N);
    CongruentMod(c2 * MINUS_B2, N);
    CongruentAdd(s, c1 * MINUS_B1, t, c2 * MINUS_B2, N);
    CongruentTrans(r2, s + t, c1 * MINUS_B1 + c2 * MINUS_B2, N);
    assert c2 * MINUS_B2 == N * c2 - c2 * A1;
    CongruentBy(c1 * MINUS_B1 + c2 * MINUS_B2, c1 * MINUS_B1 - c2 * A1, N, c2);
    CongruentTrans(r2, c1 * MINUS_B1 + c2 * MINUS_B2, c1 * MINUS_B1 - c2 * A1, N);
  }

  // lambda times the basis vectors
  const Q1: int := 0x4A5AC2BF7B5F37F9F1DB10D7A2A9C981
  const Q2: int := 0xFCE9B1DD4EB7DD2718A2906787061B2

  /** r1 = r2 l + a with r2 = k gives r1 = t, when k l + a is t up to q times the order. */
  lemma Substituted(a: int, r1: int, r2: int, k: int, l: int, t: int, q: int)
    requires Congruent(r2, k, N) && Congruent(r1, r2 * l + a, N) && k * l + a == t + N * q
    ensures Congruent(r1, t, N)
  {
    hide Congruent;
    CongruentSelf(l, N);
    CongruentMul(r2, k, l, l, N);
    CongruentSelf(a, N);
    CongruentAdd(r2 * l, k * l, a, a, N);
    CongruentTrans(r1, r2 * l + a, k * l + a, N);
    CongruentBy(k * l + a, t, N, q);
    CongruentTrans(r1, k * l + a, t, N);
  }

  lemma FirstHalfValue(a: int, c1: int, c2: int)
    ensures (c1 * MINUS_B1 - c2 * A1) * MINUS_LAMBDA + a
      == a - c1 * A1 - c2 * A2 + N * ((c1 * MINUS_B1 - c2 * A1) - c1 * Q1 + c2 * Q2)
  {
    OrderIs();
  }

  /**
   * No small nonzero pair is killed by (x, y) -> x + lambda y modulo n: the lattice of such pairs
   * has determinant n and no short vectors.
   */
  lemma NoSmallKernel(x: int, y: int)
    requires -0x40000000000000000000000000000000 < x < 0x40000000000000000000000000000000
    requires -0x40000000000000000000000000000000 < y < 0x40000000000000000000000000000000
    requires Congruent(x + y * LAMBDA, 0, N)
    ensures x == 0 && y == 0
  {
    var k: int :| x + y * LAMBDA == 0 + N * k;
    // coordinates of (x, y) in the basis
    var u := k * A1 - y * Q2;
    var v := k * MINUS_B1 - y * Q1;
    KernelCoordinates(x, y, k, u, v);
  }

  const TWO_126: int := 0x40000000000000000000000000000000
  const TWO_144: int := 0x1_000000000000000000000000000000000000

  lemma KernelCoordinates(x: int, y: int, k: int, u: int, v: int)
    requires 0 - TWO_126 < x < TWO_126 && 0 - TWO_126 < y < TWO_126
    requires x + y * LAMBDA == N * k
    requires u == k * A1 - y * Q2 && v == k * MINUS_B1 - y * Q1
    ensures x == 0 && y == 0
  {
    OrderIs();
    assert x * A1 - y * A2 == N * u;
    assert y * A1 + x * MINUS_B1 == N * v;
  }

  // ---- the endomorphism ----

  ghost predicate Eigen(p: CurvePoint)
  {
    Endo(p) == Mul(LAMBDA, p)
  }

  lemma NegNeg(p: CurvePoint)
    ensures Neg(Neg(p)) == p
  {
    if p.Affine? {
      var y: int := p.y;
      Idempotent(0 - y);
      Cong(0, 0, M(0 - y), 0 - y);
      assert 0 - (0 - y) == y;
    }
  }

  lemma LambdaBasis()
    ensures MINUS_B1 * LAMBDA == A1 + N * Q1
    ensures MINUS_B1 == 0xE4437ED6010E88286F547FA90ABFE4C3 && MINUS_B1 % N != 0
    ensures N == (A1 + MINUS_B1) * A1 + MINUS_B1 * MINUS_B1
  {
    OrderIs();
  }

  /** Which of the two nontrivial cube roots of one goes with lambda: the chain decides. */
  lemma EigenG()
    requires CurveFacts()
    ensures Endo(G()) == Mul(LAMBDA, G())
  {
    hide CurveFacts, GroupFacts, CurveAdd, Mul, OnCurve, Neg, Endo, IsPrime, G, Congruent;
    ChainCloses();
    LambdaBasis();
    var b1: int := MINUS_B1;
    var k, l := K(), Mul(LAMBDA, G());
    var e := CurveAdd(k, l);
    MulSum(b1, k, l);
    MulMul(b1, LAMBDA, G());
    CongruentBy(b1 * LAMBDA, A1, N, Q1);
    MulCongruent(b1 * LAMBDA, A1, G());
    Commute(Mul(b1, k), Mul(A1, G()));
    if e != Infinity {
      NotMultipleOfN(b1);
      MulNonzero(b1, e);
    }
    NegCancels(k, l);
    AddInfinity(Neg(k));
    NegNeg(Endo(G()));
  }

  /** Every point of the curve is a multiple of G. */
  ghost predicate Cyclic()
  {
    forall p: CurvePoint :: IsMultiple(p)
  }

  ghost predicate IsMultiple(p: CurvePoint)
  {
    exists k: int :: p == Mul(k, G())
  }

  /** The map is multiplication by lambda on all multiples of G. */
  lemma EndoLaw(p: CurvePoint)
    requires CurveFacts() && IsMultiple(p)
    ensures Eigen(p)
  {
    var k: int :| p == Mul(k, G());
    hide CurveFacts, GroupFacts, CurveAdd, Mul, OnCurve, Endo, IsPrime, G;
    Prime();
    EigenG();
    EndoMul(k, G());
    MulMul(k, LAMBDA, G());
    MulMul(LAMBDA, k, G());
    Swap(k, LAMBDA);
  }

  lemma EigenOf(p: CurvePoint)
    requires CurveFacts() && Cyclic()
    ensures Eigen(p)
  {
    assert IsMultiple(p);
    EndoLaw(p);
  }

  // ---- the group order ----

  /** Under the map K becomes G - K. */
  lemma EndoK()
    requires GroupFacts()
    ensures Endo(G()) == Mul(-1, K()) && Endo(K()) == CurveAdd(Mul(1, G()), Mul(-1, K()))
  {
    hide GroupFacts, CurveAdd, Mul, IsPrime, Neg;
    MulOne(K());
    NegNeg(Endo(G()));
    TAt();
    AtMeans(4, TX, P - GY, 1, -1);
    KIs();
    BetaTimesK();
  }

  lemma BetaTimesK()
    ensures M(BETA * KX) == TX
  {
    BetaIs();
    MIs(BETA * KX);
    ProductModP2();
  }

  lemma ProductModP2()
    ensures (BETA_VALUE * KX) % P == TX
  {
  }

  /** n times G is infinity: the chain and its image under the map leave no other value for n. */
  lemma OrderOfG()
    requires GroupFacts()
    ensures Mul(N, G()) == Infinity
  {
    hide GroupFacts, CurveAdd, Mul, OnCurve, Endo, IsPrime, G, K;
    Prime();
    var a1: int := A1;
    var b1: int := MINUS_B1;
    var g, k := G(), K();
    ChainCloses();
    LambdaBasis();
    // the image: a1 * -K + b1 * (G - K) = 0
    EndoAdd(Mul(a1, g), Mul(b1, k));
    EndoMul(a1, g);
    EndoMul(b1, k);
    EndoInfinity();
    EndoK();
    MulMul(a1, -1, k);
    MulSum(b1, Mul(1, g), Mul(-1, k));
    MulMul(b1, 1, g);
    MulMul(b1, -1, k);
    Gathered(a1, b1, g, k);
  }

  /** From a g + b k = 0 and -a k + (b g - b k) = 0 follows ((a + b) a + b b) g = 0. */
  lemma Gathered(a: int, b: int, g: CurvePoint, k: CurvePoint)
    requires GroupFacts()
    requires CurveAdd(Mul(a, g), Mul(b, k)) == Infinity
    requires CurveAdd(Mul(a * -1, k), CurveAdd(Mul(b * 1, g), Mul(b * -1, k))) == Infinity
    ensures Mul((a + b) * a + b * b, g) == Infinity
  {
    hide GroupFacts, CurveAdd, Mul, OnCurve, IsPrime;
    var c := a + b;
    // b g = c k
    Prime();
    Commute(Mul(b, g), Mul(-b, k));
    AddAssoc(Mul(-a, k), Mul(-b, k), Mul(b, g));
    MulAdd(-a, -b, k);
    assert CurveAdd(Mul(-c, k), Mul(b, g)) == Infinity;
    // (c a) g + (b c) k = 0 and (b b) g - (b c) k = 0
    Multiplied(c, a, g, b, k);
    Multiplied(b, -c, k, b, g);
    assert c * b == b * c && b * -c == -(b * c) by { Swap(b, c); MulDist(b, 0, c); }
    var s, t := Mul(b * c, k), Mul(-(b * c), k);
    Interchange(Mul(c * a, g), s, Mul(b * b, g), t);
    Commute(t, Mul(b * b, g));
    MulAdd(c * a, b * b, g);
    MulAdd(b * c, -(b * c), k);
    MulOne(k);
    AddInfinity(Mul(c * a + b * b, g));
    AddInfinity(Infinity);
  }

  lemma Multiplied(m: int, a: int, p: CurvePoint, b: int, q: CurvePoint)
    requires GroupFacts() && CurveAdd(Mul(a, p), Mul(b, q)) == Infinity
    ensures CurveAdd(Mul(m * a, p), Mul(m * b, q)) == Infinity
  {
    hide GroupFacts, CurveAdd, Mul, OnCurve, IsPrime;
    MulSum(m, Mul(a, p), Mul(b, q));
    MulMul(m, a, p);
    MulMul(m, b, q);
    MulInfinity(m);
  }

  /** All that is taken for granted: p and n are prime, the law is associative, and G generates the curve. */
  lemma CurveFactsFrom()
    requires GroupFacts() && IsPrime(N) && Cyclic()
    ensures CurveFacts()
  {
    OrderOfG();
    hide GroupFacts, CurveAdd, Mul, OnCurve, IsPrime, G;
    forall p: CurvePoint
      ensures Annihilated(p)
    {
      assert IsMultiple(p);
      var k: int :| p == Mul(k, G());
      MulMul(N, k, G());
      MulMul(k, N, G());
      Swap(N, k);
      MulInfinity(k);
    }
  }

  /** secp256k1_ge_mul_lambda */
  function GeMulLambda(a: Ge): Ge
    requires a.x.mag <= MAX_MUL_MAGNITUDE
  {
    ResidueBeta();
    Ge(FeMul(a.x, Fe(BETA, 1)), a.y, a.infinity)
  }

  lemma MulLambdaRep(a: Ge, s: int, p: CurvePoint)
    requires CurveFacts() && Cyclic() && RepGe(a, s, p)
    ensures RepGe(GeMulLambda(a), s, Mul(LAMBDA, p))
  {
    hide M, CurveFacts, GroupFacts, Cyclic, Mul, OnCurve;
    EigenOf(p);
    ResidueBeta();
    if p.Affine? {
      var w := 1 * s;
      IsSelf(Fe(BETA, 1));
      IsMul(a.x, p.x * (w * w), Fe(BETA, 1), BETA);
      Idempotent(BETA * p.x);
      Cong(Endo(p).x, BETA * p.x, w * w, w * w);
      assert (p.x * (w * w)) * BETA == (BETA * p.x) * (w * w);
    }
  }
}
