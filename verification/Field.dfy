/**
 * Residues modulo the field prime p = 2^256 - 2^32 - 977 and the field operations promised by
 * src/secp256k1/src/field.h, including the magnitude that each operation demands and produces.
 */
module Field {
  import opened Arith

  const P: int := 0xFFFFFFFFFFFFFFFFFFFFFFFFFFFFFFFFFFFFFFFFFFFFFFFFFFFFFFFEFFFFFC2F

  // Remainders by a numeral of 256 bits, next to products of residues, are beyond what the solver
  // handles well. Reduction is therefore a constant of which nothing is known until MIs is called.

  predicate IsRemainder(x: int, r: int)
  {
    r == x % P
  }

  ghost predicate IsReduction(f: int -> int)
  {
    forall x: int, r: int :: IsRemainder(x, r) ==> f(x) == r
  }

  type Reduction = f: int -> int | IsReduction(f) witness (x: int) => x % P

  const REDUCE: Reduction

  function M(x: int): int
  {
    REDUCE(x)
  }

  lemma MIs(x: int)
    ensures M(x) == x % P
  {
    assert IsRemainder(x, x % P);
  }

  /** A canonical representative. */
  type Residue = x: int | M(x) == x witness (MIs(0); 0)

  lemma ResidueRange(x: int)
    ensures M(x) == x <==> 0 <= x < P
  {
    MIs(x);
    if 0 <= x < P { DivModUnique(x, P, 0, x); }
  }

  // ---- congruence modulo p ----

  /** If a and b are congruent then so are e and f, as soon as they differ by a multiple of a - b. */
  lemma Shift(e: int, f: int, a: int, b: int, k: int)
    requires M(a) == M(b) && e - f == k * (a - b)
    ensures M(e) == M(f)
  {
    MIs(a);
    MIs(b);
    MIs(e);
    MIs(f);
    ShiftBy(e, f, a, b, k, P);
  }

  lemma ShiftBy(e: int, f: int, a: int, b: int, k: int, m: int)
    requires m > 0 && a % m == b % m && e - f == k * (a - b)
    ensures e % m == f % m
  {
    var i, j := a / m, b / m;
    Regroup3(e, f, m, i, j, a % m, k);
    AddMultipleOf(f, k * (i - j), m);
  }

  lemma Regroup3(e: int, f: int, m: int, i: int, j: int, r: int, k: int)
    requires e - f == k * ((m * i + r) - (m * j + r))
    ensures e == f + m * (k * (i - j))
  {
    MulDist(m, i, j);
    MulAssoc(k, m, i - j);
    MulAssoc(m, k, i - j);
    Swap(k, m);
  }

  lemma AddMultiple(x: int, k: int)
    ensures M(x + P * k) == M(x)
  {
    MIs(x);
    MIs(x + P * k);
    AddMultipleOf(x, k, P);
  }

  lemma AddMultipleOf(x: int, k: int, m: int)
    requires m > 0
    ensures (x + m * k) % m == x % m
  {
    MulDist(m, x / m, k);
    DivModUnique(x + m * k, m, x / m + k, x % m);
  }

  lemma Idempotent(x: int)
    ensures M(M(x)) == M(x)
  {
    MIs(x);
    ResidueRange(M(x));
  }

  lemma SmallResidues()
    ensures M(0) == 0 && M(1) == 1
  {
    MIs(0);
    MIs(1);
  }

  /** Congruent operands give congruent sums, differences and products. */
  lemma Cong(a: int, a': int, b: int, b': int)
    requires M(a) == M(a') && M(b) == M(b')
    ensures M(a + b) == M(a' + b')
    ensures M(a - b) == M(a' - b')
    ensures M(a * b) == M(a' * b')
  {
    hide M;
    Shift(a + b, a' + b, a, a', 1);
    Shift(a' + b, a' + b', b, b', 1);
    Shift(a - b, a' - b, a, a', 1);
    Shift(a' - b, a' - b', b, b', -1);
    MulDist(b, a, a');
    Shift(a * b, a' * b, a, a', b);
    MulDist(a', b, b');
    Shift(a' * b, a' * b', b, b', a');
  }

  // ---- primality and inverses ----

  predicate Divides(d: int, n: int)
    requires d > 0
  {
    n % d == 0
  }

  ghost predicate IsPrime(n: int)
  {
    n > 1 && forall d :: 1 < d < n ==> !Divides(d, n)
  }

  lemma DividesIff(d: int, n: int, q: int)
    requires d > 0 && n == d * q
    ensures Divides(d, n)
  {
    DivModUnique(n, d, q, 0);
  }

  /** Extended Euclid: the greatest common divisor with the coefficients that produce it. */
  function Egcd(a: int, b: int): (int, int, int)
    requires a > 0 && b >= 0
    decreases b
  {
    if b == 0 then (a, 1, 0)
    else
      var (g, x, y) := Egcd(b, a % b);
      (g, y, x - a / b * y)
  }

  /** A common divisor that is an integer combination. */
  lemma {:induction false} Bezout(a: int, b: int) returns (g: int, x: int, y: int)
    requires a > 0 && b >= 0
    ensures (g, x, y) == Egcd(a, b)
    ensures g > 0 && g == a * x + b * y && Divides(g, a) && Divides(g, b)
    ensures g <= a
    decreases b
  {
    hide Egcd, Divides;
    EgcdStep(a, b);
    if b == 0 {
      g, x, y := a, 1, 0;
      DividesIff(g, a, 1);
      DividesIff(g, b, 0);
    } else {
      var q, r := a / b, a % b;
      var x', y';
      g, x', y' := Bezout(b, r);
      x, y := y', x' - q * y';
      EuclidStep(a, b, q, r, x', y');
      var i := Multiple(g, b);
      var j := Multiple(g, r);
      EuclidDivides(a, b, q, r, g, i, j);
      DividesIff(g, a, i * q + j);
      FactorLe(g, i * q + j);
    }
  }

  lemma EgcdStep(a: int, b: int)
    requires a > 0 && b >= 0
    ensures b == 0 ==> Egcd(a, b) == (a, 1, 0)
    ensures b > 0 ==> var (g, x, y) := Egcd(b, a % b); Egcd(a, b) == (g, y, x - a / b * y)
  {
  }

  lemma Multiple(d: int, n: int) returns (q: int)
    requires d > 0 && Divides(d, n)
    ensures n == d * q
  {
    q := n / d;
  }

  lemma FactorLe(g: int, k: int)
    requires g > 0 && g * k > 0
    ensures g <= g * k
  {
    if k <= 0 { MulMono(g, k, 0); } else { MulMono(g, 1, k); }
  }

  lemma EuclidStep(a: int, b: int, q: int, r: int, x': int, y': int)
    requires a == b * q + r
    ensures b * x' + r * y' == a * y' + b * (x' - q * y')
  {
    MulDist(b, x', q * y');
    MulAssoc(b, q, y');
    assert a * y' == (b * q) * y' + r * y';
  }

  lemma EuclidDivides(a: int, b: int, q: int, r: int, g: int, i: int, j: int)
    requires a == b * q + r && b == g * i && r == g * j
    ensures a == g * (i * q + j)
  {
    MulAssoc(g, i, q);
    MulDist(g, i * q, j);
  }

  /** The inverse modulo n, and 0 for multiples of n. */
  function InverseModulo(a: int, n: int): (b: int)
    requires n > 0
    ensures 0 <= b < n
  {
    if a % n == 0 then 0 else Egcd(a % n, n).1 % n
  }

  /** Modulo a prime every nonzero residue has an inverse. */
  lemma InverseExists(a: int, n: int) returns (b: int)
    requires IsPrime(n) && a % n != 0
    ensures 0 <= b < n && (a * b) % n == 1 && b == InverseModulo(a, n)
  {
    var r := a % n;
    var g, x, y := Bezout(r, n);
    assert g == 1;
    b := x % n;
    var q, c := a / n, x / n;
    InverseArithmetic(a, n, q, r, x, c, b, y);
    DivModUnique(a * b, n, q * b - c * r - y, 1);
  }

  lemma InverseArithmetic(a: int, n: int, q: int, r: int, x: int, c: int, b: int, y: int)
    requires a == n * q + r && x == n * c + b && r * x + n * y == 1
    ensures a * b == n * (q * b - c * r - y) + 1
  {
    assert a * b == (n * q) * b + r * b;
    assert r * x == r * (n * c) + r * b by { MulDist(r, n * c, b); }
    MulAssoc(n, q, b);
    MulAssoc(r, n, c);
    assert r * (n * c) == n * (c * r);
    MulDist(n, q * b, c * r);
    MulDist(n, q * b - c * r, y);
  }

  /** A chosen inverse modulo p; 0 where there is none. */
  ghost function Inv(a: int): int
  {
    if exists b: int :: IsInverse(a, b) then
      var b: int :| IsInverse(a, b); b
    else 0
  }

  predicate IsInverse(a: int, b: int)
  {
    M(a * b) == 1
  }

  lemma InvLaw(a: int)
    requires IsPrime(P) && M(a) != 0
    ensures M(a * Inv(a)) == 1
  {
    hide IsPrime;
    MIs(a);
    var b := InverseExists(a, P);
    MIs(a * b);
    assert IsInverse(a, b);
  }

  /** Nonzero factors cancel. */
  lemma Cancel(a: int, x: int, y: int)
    requires IsPrime(P) && M(a) != 0 && M(a * x) == M(a * y)
    ensures M(x) == M(y)
  {
    hide IsPrime, M, Inv;
    InvLaw(a);
    var i := Inv(a);
    SmallResidues();
    Cong(i, i, a * x, a * y);
    Regroup(i, a, x);
    Regroup(i, a, y);
    Cong(a * i, 1, x, x);
    Cong(a * i, 1, y, y);
  }

  lemma Regroup(i: int, a: int, x: int)
    ensures i * (a * x) == (a * i) * x
  {
  }

  lemma NoZeroDivisors(a: int, b: int)
    requires IsPrime(P) && M(a * b) == 0
    ensures M(a) == 0 || M(b) == 0
  {
    hide IsPrime, M;
    SmallResidues();
    if M(a) != 0 {
      Cancel(a, b, 0);
    }
  }

  lemma NonzeroProduct(a: int, b: int)
    requires IsPrime(P) && M(a) != 0 && M(b) != 0
    ensures M(a * b) != 0
  {
    hide IsPrime, M;
    if M(a * b) == 0 { NoZeroDivisors(a, b); }
  }

  // ---- field elements ----

  /** A field element: its residue, and how far its representation may be from normalized. */
  datatype Fe = Fe(v: Residue, mag: nat)

  const MAX_MUL_MAGNITUDE := 8

  /** The smaller of the two representations' limits (ten limbs of 26 bits). */
  const MAX_MAGNITUDE := 32

  function FeSetInt(a: nat): (r: Fe)
    requires a < P
    ensures r.mag == 1
  {
    ResidueRange(a);
    Fe(a, 1)
  }

  function FeMul(a: Fe, b: Fe): (r: Fe)
    requires a.mag <= MAX_MUL_MAGNITUDE && b.mag <= MAX_MUL_MAGNITUDE
    ensures r.mag == 1
  {
    Idempotent(a.v * b.v);
    Fe(M(a.v * b.v), 1)
  }

  function FeSqr(a: Fe): (r: Fe)
    requires a.mag <= MAX_MUL_MAGNITUDE
    ensures r.mag == 1
  {
    Idempotent(a.v * a.v);
    Fe(M(a.v * a.v), 1)
  }

  function FeAdd(a: Fe, b: Fe): (r: Fe)
    requires a.mag + b.mag <= MAX_MAGNITUDE
    ensures r.mag == a.mag + b.mag
  {
    Idempotent(a.v + b.v);
    Fe(M(a.v + b.v), a.mag + b.mag)
  }

  function FeNegate(a: Fe, m: nat): (r: Fe)
    requires a.mag <= m < MAX_MAGNITUDE
    ensures r.mag == m + 1
  {
    Idempotent(0 - a.v);
    Fe(M(0 - a.v), m + 1)
  }

  function FeMulInt(a: Fe, k: nat): (r: Fe)
    requires a.mag * k <= MAX_MAGNITUDE
    ensures r.mag == a.mag * k
  {
    Idempotent(k * a.v);
    Fe(M(k * a.v), a.mag * k)
  }

  function FeNormalizeWeak(a: Fe): (r: Fe)
    requires a.mag <= MAX_MAGNITUDE
    ensures r.mag == 1 && r.v == a.v
  {
    Fe(a.v, 1)
  }

  predicate FeNormalizesToZero(a: Fe)
    requires a.mag <= MAX_MAGNITUDE
  {
    a.v == 0
  }

  /** The element a is congruent to the integer x. */
  predicate Is(a: Fe, x: int)
  {
    a.v == M(x)
  }

  lemma IsSelf(a: Fe)
    ensures Is(a, a.v)
  {
    Idempotent(a.v);
  }

  lemma IsMul(a: Fe, x: int, b: Fe, y: int)
    requires Is(a, x) && Is(b, y) && a.mag <= MAX_MUL_MAGNITUDE && b.mag <= MAX_MUL_MAGNITUDE
    ensures Is(FeMul(a, b), x * y)
  {
    hide M;
    Idempotent(x);
    Idempotent(y);
    Cong(a.v, x, b.v, y);
  }

  lemma IsSqr(a: Fe, x: int)
    requires Is(a, x) && a.mag <= MAX_MUL_MAGNITUDE
    ensures Is(FeSqr(a), x * x)
  {
    hide M;
    Idempotent(x);
    Cong(a.v, x, a.v, x);
  }

  lemma IsAdd(a: Fe, x: int, b: Fe, y: int)
    requires Is(a, x) && Is(b, y) && a.mag + b.mag <= MAX_MAGNITUDE
    ensures Is(FeAdd(a, b), x + y)
  {
    hide M;
    Idempotent(x);
    Idempotent(y);
    Cong(a.v, x, b.v, y);
  }

  lemma IsNegate(a: Fe, x: int, m: nat)
    requires Is(a, x) && a.mag <= m < MAX_MAGNITUDE
    ensures Is(FeNegate(a, m), 0 - x)
  {
    hide M;
    Idempotent(x);
    Cong(0, 0, a.v, x);
  }

  lemma IsMulInt(a: Fe, x: int, k: nat)
    requires Is(a, x) && a.mag * k <= MAX_MAGNITUDE
    ensures Is(FeMulInt(a, k), k * x)
  {
    hide M;
    Idempotent(x);
    Cong(k, k, a.v, x);
  }
}
