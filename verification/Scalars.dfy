/** Scalars modulo the group order, with the operations promised by src/secp256k1/src/scalar.h. */
module Scalars {
  import opened Arith

  datatype Option<T> = None | Some(value: T)

  const ORDER: nat := 0xFFFFFFFFFFFFFFFFFFFFFFFFFFFFFFFEBAAEDCE6AF48A03BBFD25E8CD0364141

  predicate IsOrder(n: int)
  {
    n == ORDER
  }

  ghost predicate IsBound(n: int)
  {
    n > 1 && forall k: int :: IsOrder(k) ==> n == k
  }

  type Bound = n: nat | IsBound(n) witness ORDER

  /** The group order, of which nothing but n > 1 is known until OrderIs is called. */
  const N: Bound

  lemma OrderIs()
    ensures N == ORDER
  {
    assert IsOrder(ORDER);
  }

  type Scalar = s: nat | s < N

  function Negate(a: Scalar): Scalar
  {
    if a == 0 then 0 else N - a
  }

  predicate IsEven(a: Scalar)
  {
    a % 2 == 0
  }

  /** Above half the group order. */
  predicate IsHigh(a: Scalar): (high: bool)
    ensures high <==> 2 * a > N
  {
    OrderIs();
    a > N / 2
  }

  function ScalarAdd(a: Scalar, b: Scalar): Scalar
  {
    (a + b) % N
  }

  function ScalarMul(a: Scalar, b: Scalar): Scalar
  {
    (a * b) % N
  }

  /** Adds a power of two; the result is not allowed to overflow. */
  function CaddBit(a: Scalar, bit: nat, flag: bool): Scalar
    requires flag ==> a + Pow2(bit) < N
  {
    if flag then a + Pow2(bit) else a
  }

  /** Bits of a scalar; all of them must lie in one 32-bit limb. */
  function GetBits(a: Scalar, offset: nat, count: nat): (r: int)
    requires 0 < count <= 32 && offset + count <= 256
    requires offset / 32 == (offset + count - 1) / 32
  {
    Bits(a, offset, count)
  }

  /** Bits of a scalar, across limbs. */
  function GetBitsVar(a: Scalar, offset: nat, count: nat): (r: int)
    requires 0 < count < 32 && offset + count <= 256
  {
    Bits(a, offset, count)
  }

  ghost predicate Congruent(x: int, y: int, m: int)
    requires m > 0
  {
    exists k: int :: x == y + m * k
  }

  /** 2^255 < N < 2^256, so clearing bit 255 by negation leaves at most 255 bits. */
  lemma OrderBits()
    ensures Pow2(255) == 0x8000000000000000000000000000000000000000000000000000000000000000
    ensures Pow2(256) == 0x1_0000000000000000000000000000000000000000000000000000000000000000
    ensures Pow2(255) < N < Pow2(256)
  {
    hide Pow2;
    OrderIs();
    PowerValues();
    Pow2Add(128, 128);
    Pow2Step(256);
  }

  lemma CongruentSelf(x: int, m: int)
    requires m > 0
    ensures Congruent(x, x, m)
  {
    assert x == x + m * 0;
  }

  lemma CongruentBy(x: int, y: int, m: int, k: int)
    requires m > 0 && x == y + m * k
    ensures Congruent(x, y, m) && Congruent(y, x, m)
  {
    assert y == x + m * (0 - k);
  }

  lemma CongruentMod(x: int, m: int)
    requires m > 0
    ensures Congruent(x % m, x, m) && Congruent(x, x % m, m)
  {
    CongruentBy(x, x % m, m, x / m);
  }

  lemma CongruentTrans(x: int, y: int, z: int, m: int)
    requires m > 0 && Congruent(x, y, m) && Congruent(y, z, m)
    ensures Congruent(x, z, m)
  {
    var i: int :| x == y + m * i;
    var j: int :| y == z + m * j;
    MulDist(m, i, j);
    CongruentBy(x, z, m, i + j);
  }

  lemma CongruentSym(x: int, y: int, m: int)
    requires m > 0 && Congruent(x, y, m)
    ensures Congruent(y, x, m)
  {
    var i: int :| x == y + m * i;
    CongruentBy(x, y, m, i);
  }

  lemma CongruentAdd(x: int, x': int, y: int, y': int, m: int)
    requires m > 0 && Congruent(x, x', m) && Congruent(y, y', m)
    ensures Congruent(x + y, x' + y', m)
    ensures Congruent(x - y, x' - y', m)
  {
    var i: int :| x == x' + m * i;
    var j: int :| y == y' + m * j;
    MulDist(m, i, j);
    CongruentBy(x + y, x' + y', m, i + j);
    CongruentBy(x - y, x' - y', m, i - j);
  }

  lemma CongruentMul(x: int, x': int, y: int, y': int, m: int)
    requires m > 0 && Congruent(x, x', m) && Congruent(y, y', m)
    ensures Congruent(x * y, x' * y', m)
  {
    var i: int :| x == x' + m * i;
    var j: int :| y == y' + m * j;
    CongruentMulValue(x', i, y', j, m);
    CongruentBy(x * y, x' * y', m, i * y + x' * j);
  }

  lemma CongruentMulValue(x: int, i: int, y: int, j: int, m: int)
    ensures (x + m * i) * (y + m * j) == x * y + m * (i * (y + m * j) + x * j)
  {
    var z := y + m * j;
    MulDist(m, i * z, x * j);
    MulAssoc(m, i, z);
    assert x * z == x * y + x * (m * j) by { MulDist(x, y, m * j); }
    assert x * (m * j) == m * (x * j);
    assert (x + m * i) * z == x * z + (m * i) * z;
  }

  /** A scalar is determined by its residue. */
  lemma CongruentScalars(x: Scalar, y: Scalar)
    requires Congruent(x, y, N)
    ensures x == y
  {
    var k: int :| x == y + N * k;
  }
}
