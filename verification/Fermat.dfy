/** Powers of residues and Fermat's little theorem, by the binomial theorem modulo a prime. */
module Fermat {
  import opened Arith
  import opened Field

  lemma {:induction false} PowerAdd(x: int, a: nat, b: nat)
    ensures Power(x, a + b) == Power(x, a) * Power(x, b)
  {
    if a != 0 {
      PowerAdd(x, a - 1, b);
      MulAssoc(x, Power(x, a - 1), Power(x, b));
    }
  }

  lemma {:induction false} PowerProduct(x: int, y: int, e: nat)
    ensures Power(x * y, e) == Power(x, e) * Power(y, e)
  {
    if e != 0 {
      PowerProduct(x, y, e - 1);
      var a, b := Power(x, e - 1), Power(y, e - 1);
      CrossProduct(x, y, a, b);
    }
  }

  lemma {:induction false} PowerCong(x: int, y: int, e: nat)
    requires M(x) == M(y)
    ensures M(Power(x, e)) == M(Power(y, e))
  {
    hide M;
    if e != 0 {
      PowerCong(x, y, e - 1);
      Cong(x, y, Power(x, e - 1), Power(y, e - 1));
    }
  }

  /** Binomial coefficients by Pascal's rule. */
  function Choose(n: nat, k: nat): nat
  {
    if k == 0 then 1
    else if n == 0 then 0
    else Choose(n - 1, k - 1) + Choose(n - 1, k)
  }

  lemma {:induction false} ChooseEnds(n: nat, k: nat)
    ensures k > n ==> Choose(n, k) == 0
    ensures k == n ==> Choose(n, k) == 1
  {
    if n > 0 && k > 0 && k >= n {
      ChooseEnds(n - 1, k - 1);
      ChooseEnds(n - 1, k);
    }
  }

  /** k C(n,k) = n C(n-1,k-1) */
  lemma {:induction false} Absorb(n: nat, k: nat)
    requires n > 0 && k > 0
    ensures k * Choose(n, k) == n * Choose(n - 1, k - 1)
  {
    if n == 1 {
      ChooseEnds(0, k);
      ChooseEnds(0, k - 1);
      if k > 1 { assert Choose(0, k - 1) == 0; }
    } else if k == 1 {
      Absorb(n - 1, 1);
      assert Choose(n, 1) == Choose(n - 1, 0) + Choose(n - 1, 1);
    } else {
      Absorb(n - 1, k - 1);
      Absorb(n - 1, k);
      var a, b, c := Choose(n - 1, k - 1), Choose(n - 1, k), Choose(n - 2, k - 2);
      AbsorbArithmetic(n, k, a, b, c, Choose(n - 2, k - 1));
    }
  }

  lemma AbsorbArithmetic(n: int, k: int, a: int, b: int, c: int, d: int)
    requires (k - 1) * a == (n - 1) * c && k * b == (n - 1) * d && a == c + d
    ensures k * (a + b) == n * a
  {
    assert k * (a + b) == (k - 1) * a + a + k * b;
    MulDist(n - 1, c, d);
  }

  lemma PascalRule(n: nat, k: nat)
    requires n > 0 && k > 0
    ensures Choose(n, k) == Choose(n - 1, k - 1) + Choose(n - 1, k)
  {
  }

  /** The sum of C(n,k) x^k for k below m. */
  function BinomialSum(n: nat, x: int, m: nat): int
  {
    if m == 0 then 0 else BinomialSum(n, x, m - 1) + Choose(n, m - 1) * Power(x, m - 1)
  }

  lemma {:induction false} SumStep(n: nat, x: int, m: nat)
    requires n > 0
    ensures BinomialSum(n, x, m + 1) == BinomialSum(n - 1, x, m + 1) + x * BinomialSum(n - 1, x, m)
  {
    if m == 0 {
      assert BinomialSum(n, x, 1) == 1 && BinomialSum(n - 1, x, 1) == 1;
      assert x * 0 == 0;
    } else {
      hide Choose;
      SumStep(n, x, m - 1);
      PascalRule(n, m);
      var p := Power(x, m - 1);
      var a, b := Choose(n - 1, m - 1), Choose(n - 1, m);
      assert Power(x, m) == x * p;
      SumStepArithmetic(x, p, a, b, BinomialSum(n - 1, x, m - 1));
    }
  }

  lemma SumStepArithmetic(x: int, p: int, a: int, b: int, s: int)
    ensures x * (s + a * p) == x * s + x * (a * p)
    ensures (a + b) * (x * p) == b * (x * p) + x * (a * p)
  {
    MulDist(x, s, a * p);
  }

  lemma {:induction false} Binomial(n: nat, x: int)
    ensures Power(x + 1, n) == BinomialSum(n, x, n + 1)
  {
    if n == 0 {
      assert BinomialSum(0, x, 1) == BinomialSum(0, x, 0) + Choose(0, 0) * Power(x, 0);
    } else {
      Binomial(n - 1, x);
      SumStep(n, x, n);
      ChooseEnds(n - 1, n);
      var s := BinomialSum(n - 1, x, n);
      assert BinomialSum(n - 1, x, n + 1) == s + 0 * Power(x, n);
      assert (x + 1) * s == s + x * s;
    }
  }

  lemma PrimeDividesChoose(k: nat)
    requires IsPrime(P) && 0 < k < P
    ensures M(Choose(P, k)) == 0
  {
    hide IsPrime, Choose;
    Absorb(P, k);
    AddMultiple(0, Choose(P - 1, k - 1));
    SmallResidues();
    ResidueRange(k);
    NoZeroDivisors(k, Choose(P, k));
  }

  /** Modulo p only the first term of the sum survives until the last. */
  lemma {:induction false} SumModulo(x: int, m: nat)
    requires IsPrime(P) && 0 < m <= P
    ensures M(BinomialSum(P, x, m)) == M(1)
  {
    hide IsPrime, Choose, M;
    if m == 1 {
      FirstTerm(P, x);
    } else {
      SumModulo(x, m - 1);
      PrimeDividesChoose(m - 1);
      SmallResidues();
      Cong(Choose(P, m - 1), 0, Power(x, m - 1), Power(x, m - 1));
      Cong(BinomialSum(P, x, m - 1), 1, Choose(P, m - 1) * Power(x, m - 1), 0);
    }
  }

  lemma FirstTerm(n: nat, x: int)
    ensures BinomialSum(n, x, 1) == 1
  {
    assert BinomialSum(n, x, 1) == BinomialSum(n, x, 0) + Choose(n, 0) * Power(x, 0);
  }

  lemma FreshmansDream(x: int)
    requires IsPrime(P)
    ensures M(Power(x + 1, P)) == M(Power(x, P) + 1)
  {
    hide IsPrime, Choose, M, Power;
    Binomial(P, x);
    SumModulo(x, P);
    ChooseEnds(P, P);
    LastTerm(x);
    Cong(BinomialSum(P, x, P), 1, Power(x, P), Power(x, P));
  }

  lemma LastTerm(x: int)
    ensures BinomialSum(P, x, P + 1) == BinomialSum(P, x, P) + Choose(P, P) * Power(x, P)
  {
    hide Choose, Power;
  }

  lemma {:induction false} FermatNat(a: nat)
    requires IsPrime(P)
    ensures M(Power(a, P)) == M(a)
  {
    hide IsPrime, M;
    if a == 0 {
      ZeroPower(P);
    } else {
      FermatNat(a - 1);
      FreshmansDream(a - 1);
      Cong(Power(a - 1, P), a - 1, 1, 1);
    }
  }

  lemma ZeroPower(e: nat)
    requires e > 0
    ensures Power(0, e) == 0
  {
  }

  /** a^(p-1) = 1 for every nonzero residue. */
  lemma FermatLittle(a: int)
    requires IsPrime(P) && M(a) != 0
    ensures M(Power(a, P - 1)) == 1
  {
    hide IsPrime, M, Power;
    var r := M(a);
    Idempotent(a);
    assert r >= 0 by { NonNegativeResidue(a); }
    FermatNat(r);
    PowerCong(r, a, P);
    PowerAdd(a, 1, P - 1);
    assert Power(a, 1) == a by { PowerOne(a); }
    SmallResidues();
    Cancel(a, Power(a, P - 1), 1);
  }

  lemma PowerOne(a: int)
    ensures Power(a, 1) == a && Power(a, 0) == 1
  {
    assert Power(a, 1) == a * Power(a, 0);
  }

  lemma NonNegativeResidue(a: int)
    ensures M(a) >= 0
  {
    MIs(a);
  }
}
