/** The addition chains of secp256k1_fe_inv and secp256k1_fe_sqrt. */
module AdditionChain {
  import opened Arith
  import opened Scalars
  import opened Field
  import opened Fermat

  /** f holds the e-th power of a. */
  ghost predicate IsPow(f: Fe, a: int, e: nat)
  {
    f.mag <= MAX_MUL_MAGNITUDE && Is(f, Power(a, e))
  }

  /** A block of k one bits. */
  function Ones(k: nat): nat
  {
    Pow2(k) - 1
  }

  lemma PowSqr(f: Fe, a: int, e: nat)
    requires IsPow(f, a, e)
    ensures IsPow(FeSqr(f), a, 2 * e)
  {
    hide M, Power;
    IsSqr(f, Power(a, e));
    PowerAdd(a, e, e);
  }

  lemma PowMul(f: Fe, g: Fe, a: int, e: nat, d: nat)
    requires IsPow(f, a, e) && IsPow(g, a, d)
    ensures IsPow(FeMul(f, g), a, e + d)
  {
    hide M, Power;
    IsMul(f, Power(a, e), g, Power(a, d));
    PowerAdd(a, e, d);
  }

  lemma PowSelf(f: Fe)
    requires f.mag <= MAX_MUL_MAGNITUDE
    ensures IsPow(f, f.v, 1)
  {
    PowerOne(f.v);
  }

  lemma AppendOnes(i: nat, j: nat)
    ensures Ones(i) * Pow2(j) + Ones(j) == Ones(i + j)
  {
    hide Pow2;
    Pow2Add(i, j);
    MulDist(Pow2(j), Pow2(i), 1);
  }

  /** n squarings in a row. */
  method SquareTimes(f: Fe, n: nat, ghost a: int, ghost e: nat) returns (r: Fe)
    requires IsPow(f, a, e)
    ensures e * Pow2(n) >= 0 && IsPow(r, a, e * Pow2(n))
  {
    hide IsPow;
    r := f;
    IsPowMag(r, a, e);
    ghost var d := e;
    for j := 0 to n
      invariant d == e * Pow2(j) && IsPow(r, a, d)
    {
      IsPowMag(r, a, d);
      PowSqr(r, a, d);
      r := FeSqr(r);
      d := 2 * d;
      DoubledExponent(e, j);
    }
  }

  lemma IsPowMag(f: Fe, a: int, e: nat)
    requires IsPow(f, a, e)
    ensures f.mag <= MAX_MUL_MAGNITUDE
  {
  }

  lemma DoubledExponent(e: nat, j: nat)
    ensures 2 * (e * Pow2(j)) == e * Pow2(j + 1)
  {
    hide Pow2;
    Pow2Step(j + 1);
    Swap(e, 2 * Pow2(j));
    MulAssoc(2, Pow2(j), e);
    Swap(e, Pow2(j));
  }

  /** Appends a block of j ones to a block of i ones: shift by j squarings, then multiply. */
  method Extend(f: Fe, g: Fe, i: nat, j: nat, ghost a: int) returns (r: Fe)
    requires IsPow(f, a, Ones(i)) && IsPow(g, a, Ones(j))
    ensures IsPow(r, a, Ones(i + j))
  {
    hide IsPow, Ones;
    r := SquareTimes(f, j, a, Ones(i));
    IsPowMag(r, a, Ones(i) * Pow2(j));
    IsPowMag(g, a, Ones(j));
    PowMul(r, g, a, Ones(i) * Pow2(j), Ones(j));
    AppendOnes(i, j);
    r := FeMul(r, g);
  }

  /** The blocks shared by both chains: 2, 3, 22 and 223 ones. */
  method Blocks(a: Fe) returns (x2: Fe, x22: Fe, x223: Fe)
    requires a.mag <= MAX_MUL_MAGNITUDE
    ensures IsPow(x2, a.v, 3) && IsPow(x22, a.v, Ones(22)) && IsPow(x223, a.v, Ones(223))
  {
    hide IsPow, Ones;
    PowSelf(a);
    PowSqr(a, a.v, 1);
    x2 := FeSqr(a);
    PowMul(x2, a, a.v, 2, 1);
    x2 := FeMul(x2, a);
    PowSqr(x2, a.v, 3);
    var x3 := FeSqr(x2);
    PowMul(x3, a, a.v, 6, 1);
    x3 := FeMul(x3, a);
    SmallOnes();
    var x6 := Extend(x3, x3, 3, 3, a.v);
    var x9 := Extend(x6, x3, 6, 3, a.v);
    var x11 := Extend(x9, x2, 9, 2, a.v);
    x22 := Extend(x11, x11, 11, 11, a.v);
    var x44 := Extend(x22, x22, 22, 22, a.v);
    var x88 := Extend(x44, x44, 44, 44, a.v);
    var x176 := Extend(x88, x88, 88, 88, a.v);
    var x220 := Extend(x176, x44, 176, 44, a.v);
    x223 := Extend(x220, x3, 220, 3, a.v);
  }

  lemma SmallOnes()
    ensures Ones(2) == 3 && Ones(3) == 7
  {
  }

  /** Shift by n squarings and multiply by g. */
  method ShiftIn(f: Fe, n: nat, g: Fe, ghost a: int, ghost e: nat, ghost d: nat) returns (r: Fe)
    requires IsPow(f, a, e) && IsPow(g, a, d)
    ensures e * Pow2(n) >= 0 && IsPow(r, a, e * Pow2(n) + d)
  {
    hide IsPow;
    r := SquareTimes(f, n, a, e);
    IsPowMag(r, a, e * Pow2(n));
    IsPowMag(g, a, d);
    PowMul(r, g, a, e * Pow2(n), d);
    r := FeMul(r, g);
  }

  /** The exponent assembled by fe_inv is p - 2, and that by fe_sqrt is (p + 1)/4. */
  lemma Exponents()
    ensures (((Ones(223) * Pow2(23) + Ones(22)) * Pow2(5) + 1) * Pow2(3) + 3) * Pow2(2) + 1 == P - 2
    ensures 4 * ((Ones(223) * Pow2(23) + Ones(22)) * Pow2(6) + 3) == (P + 1) / 4
  {
    hide Pow2;
    ExponentPowers();
    OrderBits();
  }

  lemma ExponentPowers()
    ensures Pow2(2) == 4 && Pow2(3) == 8 && Pow2(5) == 32 && Pow2(6) == 64
    ensures Pow2(22) == 4194304 && Pow2(23) == 8388608 && Pow2(223) * 8589934592 == Pow2(256)
  {
    assert Pow2(6) == 64;
    assert Pow2(11) == 2048;
    hide Pow2;
    Pow2Add(11, 11);
    Pow2Step(23);
    Pow2Add(22, 11);
    Pow2Add(223, 33);
  }

  /** secp256k1_fe_inv: a^(p-2). */
  method FeInv(a: Fe) returns (r: Fe)
    requires a.mag <= MAX_MUL_MAGNITUDE
    ensures r.mag == 1
    ensures P >= 2 && Is(r, Power(a.v, P - 2))
    ensures IsPrime(P) && a.v != 0 ==> M(a.v * r.v) == 1 && r.v != 0
    ensures a.v == 0 ==> r.v == 0
  {
    hide IsPow, Ones, Power, IsPrime, M;
    var x2, x22, x223 := Blocks(a);
    PowSelf(a);
    var t1 := ShiftIn(x223, 23, x22, a.v, Ones(223), Ones(22));
    ghost var e1 := Ones(223) * Pow2(23) + Ones(22);
    t1 := ShiftIn(t1, 5, a, a.v, e1, 1);
    ghost var e2 := e1 * Pow2(5) + 1;
    t1 := ShiftIn(t1, 3, x2, a.v, e2, 3);
    ghost var e3 := e2 * Pow2(3) + 3;
    t1 := SquareTimes(t1, 2, a.v, e3);
    IsPowMag(t1, a.v, e3 * Pow2(2));
    PowMul(a, t1, a.v, 1, e3 * Pow2(2));
    r := FeMul(a, t1);
    Exponents();
    PowIs(r, a.v, P - 2);
    InverseOf(a, r);
  }

  lemma PowIs(f: Fe, a: int, e: nat)
    requires IsPow(f, a, e)
    ensures Is(f, Power(a, e))
  {
  }

  lemma InverseOf(a: Fe, r: Fe)
    requires P >= 2 && Is(r, Power(a.v, P - 2))
    ensures IsPrime(P) && a.v != 0 ==> M(a.v * r.v) == 1 && r.v != 0
    ensures a.v == 0 ==> r.v == 0
  {
    hide IsPrime, M, Power;
    SmallResidues();
    if a.v == 0 {
      ZeroPower(P - 2);
    } else if IsPrime(P) {
      FermatLittle(a.v);
      PowerAdd(a.v, 1, P - 2);
      PowerOne(a.v);
      Idempotent(Power(a.v, P - 2));
      Cong(a.v, a.v, r.v, Power(a.v, P - 2));
      ZeroFactor(a.v, r.v);
    }
  }

  lemma ZeroFactor(a: int, r: int)
    requires M(a * r) != 0
    ensures r != 0
  {
    SmallResidues();
  }

  /** secp256k1_fe_equal */
  predicate FeEqual(a: Fe, b: Fe)
    requires a.mag <= 1 && b.mag + 2 <= MAX_MAGNITUDE
  {
    FeNormalizesToZero(FeAdd(FeNegate(a, 1), b))
  }

  lemma FeEqualIff(a: Fe, b: Fe)
    requires a.mag <= 1 && b.mag + 2 <= MAX_MAGNITUDE
    ensures FeEqual(a, b) <==> a.v == b.v
  {
    hide M;
    SmallResidues();
    IsSelf(a);
    IsSelf(b);
    IsNegate(a, a.v, 1);
    IsAdd(FeNegate(a, 1), 0 - a.v, b, b.v);
    if a.v == b.v {
      assert 0 - a.v + b.v == 0;
    } else if M(b.v - a.v) == 0 {
      Cong(b.v - a.v, 0, a.v, a.v);
    }
  }

  ghost predicate IsSquare(a: int)
  {
    exists y: int :: SquareOf(y, a)
  }

  ghost predicate SquareOf(y: int, a: int)
  {
    M(y * y) == M(a)
  }

  /** secp256k1_fe_sqrt: a^((p+1)/4), and whether its square is a. */
  method FeSqrt(a: Fe) returns (r: Fe, ok: bool)
    requires a.mag <= MAX_MUL_MAGNITUDE
    ensures r.mag == 1 && Is(r, Power(a.v, (P + 1) / 4))
    ensures ok <==> M(r.v * r.v) == a.v
    ensures IsSquare(r.v)
    ensures IsPrime(P) ==> (ok <==> IsSquare(a.v))
    ensures IsPrime(P) && !ok ==> M(r.v * r.v) == M(0 - a.v)
  {
    hide IsPow, Ones, Power, IsPrime, M, FeEqual, IsSquare;
    var x2, x22, x223 := Blocks(a);
    var t1 := ShiftIn(x223, 23, x22, a.v, Ones(223), Ones(22));
    ghost var e1 := Ones(223) * Pow2(23) + Ones(22);
    t1 := ShiftIn(t1, 6, x2, a.v, e1, 3);
    ghost var e2 := e1 * Pow2(6) + 3;
    IsPowMag(t1, a.v, e2);
    PowSqr(t1, a.v, e2);
    t1 := FeSqr(t1);
    PowSqr(t1, a.v, 2 * e2);
    r := FeSqr(t1);
    Exponents();
    PowIs(r, a.v, (P + 1) / 4);
    SquareItself(t1, r);
    t1 := FeSqr(r);
    FeEqualIff(t1, a);
    ok := FeEqual(t1, a);
    if IsPrime(P) { RootLaws(a.v, r.v); }
  }

  lemma SquareItself(t: Fe, r: Fe)
    requires t.mag <= MAX_MUL_MAGNITUDE && r == FeSqr(t)
    ensures IsSquare(r.v)
  {
    Idempotent(t.v * t.v);
    assert SquareOf(t.v, r.v);
  }

  /** With p = 3 mod 4, the candidate root squares to a or to -a, and to a exactly for squares. */
  lemma RootLaws(a: Residue, r: Residue)
    requires IsPrime(P) && M(Power(a, (P + 1) / 4)) == r
    ensures M(r * r) == a || M(r * r) == M(0 - a)
    ensures M(r * r) == a <==> IsSquare(a)
  {
    hide IsPrime, M, Power;
    var h, q := (P - 1) / 2, (P + 1) / 4;
    var s := Power(a, h);
    Idempotent(Power(a, q));
    Cong(r, Power(a, q), r, Power(a, q));
    PowerAdd(a, q, q);
    PowerAdd(a, 1, h);
    PowerOne(a);
    assert M(r * r) == M(a * s);
    SmallResidues();
    if a == 0 {
      ZeroPower(h);
      assert SquareOf(0, 0);
    } else {
      FermatLittle(a);
      PowerAdd(a, h, h);
      UnitRoots(s);
      if M(s) == 1 {
        Cong(a, a, s, 1);
        assert SquareOf(r, a);
      } else {
        Cong(a, a, s, -1);
        assert a * -1 == 0 - a;
        NotItsNegative(a);
        if IsSquare(a) { SquareHasUnitPower(a); }
      }
    }
  }

  lemma UnitRoots(s: int)
    requires IsPrime(P) && M(s * s) == 1
    ensures M(s) == 1 || M(s) == M(-1)
  {
    hide IsPrime, M;
    SmallResidues();
    SquareDifference1(s);
    Cong(s * s, 1, 1, 1);
    NoZeroDivisors(s - 1, s + 1);
    if M(s - 1) == 0 { Cong(s - 1, 0, 1, 1); } else { Cong(s + 1, 0, -1, -1); }
  }

  lemma SquareDifference1(s: int)
    ensures (s - 1) * (s + 1) == s * s - 1
  {
  }

  lemma NotItsNegative(a: Residue)
    requires IsPrime(P) && a != 0
    ensures M(0 - a) != a
  {
    hide IsPrime, M;
    SmallResidues();
    if M(0 - a) == a {
      Cong(0 - a, a, a, a);
      assert M(2) != 0 by { ResidueRange(2); }
      NonzeroProduct(2, a);
    }
  }

  /** Euler: the (p-1)/2-th power of a nonzero square is 1. */
  lemma SquareHasUnitPower(a: Residue)
    requires IsPrime(P) && a != 0 && IsSquare(a)
    ensures M(Power(a, (P - 1) / 2)) == 1
  {
    hide IsPrime, M, Power;
    SmallResidues();
    var y: int :| SquareOf(y, a);
    var h := (P - 1) / 2;
    if M(y) == 0 { Cong(y, 0, y, 0); }
    PowerCong(y * y, a, h);
    PowerProduct(y, y, h);
    PowerAdd(y, h, h);
    FermatLittle(y);
  }
}
