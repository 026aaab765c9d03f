/**
 * Field elements as five limbs of 52 bits (field_5x52_impl.h, field_5x52_int128_impl.h): the
 * multiplication and squaring kernels with delayed carries. Limbs are integers; every bound that
 * keeps an intermediate within 64 or 128 bits is asserted.
 */
module Limbs {
  import opened Arith
  import opened Field

  const B1: int := 0x10000000000000
  const B2: int := 0x100000000000000000000000000
  const B3: int := 0x1000000000000000000000000000000000000000
  const B4: int := 0x10000000000000000000000000000000000000000000000000000
  const B5: int := 0x100000000000000000000000000000000000000000000000000000000000000000
  const B6: int := 0x1000000000000000000000000000000000000000000000000000000000000000000000000000000
  const B7: int := 0x10000000000000000000000000000000000000000000000000000000000000000000000000000000000000000000
  const B8: int := 0x100000000000000000000000000000000000000000000000000000000000000000000000000000000000000000000000000000000

  const B48: int := 0x1000000000000
  const TWO_64: int := 0x1_0000000000000000

  /** 2^256 modulo p, and 2^260 modulo p. */
  const K: int := 0x1000003D1
  const R: int := 0x1000003D10

  /** The number that five limbs stand for. */
  function Limbs5(n0: int, n1: int, n2: int, n3: int, n4: int): int
  {
    n0 + n1 * B1 + n2 * B2 + n3 * B3 + n4 * B4
  }

  function Value(n: seq<int>): int
    requires |n| == 5
  {
    Limbs5(n[0], n[1], n[2], n[3], n[4])
  }

  /** Limbs of magnitude m. */
  predicate Magnitude(n: seq<int>, m: int)
  {
    && |n| == 5
    && 0 <= n[0] <= 2 * m * (B1 - 1)
    && 0 <= n[1] <= 2 * m * (B1 - 1)
    && 0 <= n[2] <= 2 * m * (B1 - 1)
    && 0 <= n[3] <= 2 * m * (B1 - 1)
    && 0 <= n[4] <= 2 * m * (B48 - 1)
  }

  /** x fits in `bits` bits. */
  predicate Fits(x: int, bound: int)
  {
    0 <= x < bound
  }

  const BITS_49: int := 0x2000000000000
  const BITS_56: int := 0x100000000000000
  const BITS_60: int := 0x1000000000000000
  const BITS_61: int := 0x2000000000000000
  const BITS_62: int := 0x4000000000000000
  const BITS_63: int := 0x8000000000000000
  const BITS_100: int := 0x10000000000000000000000000
  const BITS_112: int := 0x10000000000000000000000000000
  const BITS_113: int := 0x20000000000000000000000000000
  const BITS_114: int := 0x40000000000000000000000000000
  const BITS_115: int := 0x80000000000000000000000000000
  const BITS_116: int := 0x100000000000000000000000000000

  const LIMB: int := 16 * (B1 - 1)
  const TOP: int := 16 * (B48 - 1)

  /** The columns of the schoolbook product. */
  datatype Columns = Columns(p0: int, p1: int, p2: int, p3: int, p4: int, p5: int, p6: int, p7: int, p8: int)
  {
    function Sum(): int
    {
      p0 + p1 * B1 + p2 * B2 + p3 * B3 + p4 * B4 + p5 * B5 + p6 * B6 + p7 * B7 + p8 * B8
    }
  }

  function Schoolbook(a: seq<int>, b: seq<int>): Columns
    requires |a| == |b| == 5
  {
    Columns(a[0] * b[0],
            a[0] * b[1] + a[1] * b[0],
            a[0] * b[2] + a[1] * b[1] + a[2] * b[0],
            a[0] * b[3] + a[1] * b[2] + a[2] * b[1] + a[3] * b[0],
            a[0] * b[4] + a[1] * b[3] + a[2] * b[2] + a[3] * b[1] + a[4] * b[0],
            a[1] * b[4] + a[2] * b[3] + a[3] * b[2] + a[4] * b[1],
            a[2] * b[4] + a[3] * b[3] + a[4] * b[2],
            a[3] * b[4] + a[4] * b[3],
            a[4] * b[4])
  }

  /** One row of the product: a limb times all limbs. */
  lemma Row(x: int, b0: int, b1: int, b2: int, b3: int, b4: int)
    ensures x * (b0 + b1 * B1 + b2 * B2 + b3 * B3 + b4 * B4)
      == x * b0 + (x * b1) * B1 + (x * b2) * B2 + (x * b3) * B3 + (x * b4) * B4
  {
    MulDist(x, b0 + b1 * B1 + b2 * B2 + b3 * B3, b4 * B4);
    MulDist(x, b0 + b1 * B1 + b2 * B2, b3 * B3);
    MulDist(x, b0 + b1 * B1, b2 * B2);
    MulDist(x, b0, b1 * B1);
    MulAssoc(x, b1, B1);
    MulAssoc(x, b2, B2);
    MulAssoc(x, b3, B3);
    MulAssoc(x, b4, B4);
  }

  lemma SchoolbookProduct(a: seq<int>, b: seq<int>)
    requires |a| == |b| == 5
    ensures Schoolbook(a, b).Sum() == Value(a) * Value(b)
  {
    var v := Value(b);
    Row(a[0], b[0], b[1], b[2], b[3], b[4]);
    Row(a[1], b[0], b[1], b[2], b[3], b[4]);
    Row(a[2], b[0], b[1], b[2], b[3], b[4]);
    Row(a[3], b[0], b[1], b[2], b[3], b[4]);
    Row(a[4], b[0], b[1], b[2], b[3], b[4]);
    Rows(a[0], a[1], a[2], a[3], a[4], v);
  }

  lemma Rows(a0: int, a1: int, a2: int, a3: int, a4: int, v: int)
    ensures (a0 + a1 * B1 + a2 * B2 + a3 * B3 + a4 * B4) * v
      == a0 * v + (a1 * v) * B1 + (a2 * v) * B2 + (a3 * v) * B3 + (a4 * v) * B4
  {
    Row(v, a0, a1, a2, a3, a4);
  }

  /** The columns of operands of magnitude 8 leave room for the carries. */
  ghost predicate Bounded(p: Columns)
  {
    && 0 <= p.p0 <= LIMB * LIMB
    && 0 <= p.p1 <= 2 * (LIMB * LIMB)
    && 0 <= p.p2 <= 3 * (LIMB * LIMB)
    && 0 <= p.p3 <= 4 * (LIMB * LIMB)
    && 0 <= p.p4 <= 3 * (LIMB * LIMB) + 2 * (LIMB * TOP)
    && 0 <= p.p5 <= 2 * (LIMB * LIMB) + 2 * (LIMB * TOP)
    && 0 <= p.p6 <= LIMB * LIMB + 2 * (LIMB * TOP)
    && 0 <= p.p7 <= 2 * (LIMB * TOP)
    && 0 <= p.p8 <= TOP * TOP
  }

  lemma SchoolbookBounded(a: seq<int>, b: seq<int>)
    requires Magnitude(a, 8) && Magnitude(b, 8)
    ensures Bounded(Schoolbook(a, b))
  {
    forall i, j | 0 <= i < 4 && 0 <= j < 4
      ensures 0 <= a[i] * b[j] <= LIMB * LIMB
    {
      ProductBound(a[i], b[j], LIMB, LIMB);
    }
    forall i | 0 <= i < 4
      ensures 0 <= a[i] * b[4] <= LIMB * TOP && 0 <= a[4] * b[i] <= LIMB * TOP
    {
      ProductBound(a[i], b[4], LIMB, TOP);
      ProductBound(a[4], b[i], TOP, LIMB);
    }
    ProductBound(a[4], b[4], TOP, TOP);
  }

  // ---- the reduction, shared by multiplication and squaring ----

  // Each stage adds one or two columns to the accumulators c and d and peels off 52 bits. The
  // equations say what the stage conserves; k is the multiple of 2^260 = R that is folded back.

  /** Columns 3 and 8. */
  method StageA(p3: int, p8: int) returns (c: int, d: int, t3: int, ghost k: int)
    requires 0 <= p3 <= 4 * (LIMB * LIMB) && 0 <= p8 <= TOP * TOP
    ensures p8 == k + c * B1 && p3 + k * R == t3 + d * B1
    ensures Fits(c, BITS_60) && Fits(d, BITS_63) && Fits(t3, B1)
  {
    d := p3;
    assert Fits(d, BITS_114);
    c := p8;
    assert Fits(c, BITS_112);
    k := c % B1;
    d := d + (c % B1) * R;
    c := c / B1;
    assert Fits(d, BITS_115);
    t3 := d % B1;
    d := d / B1;
  }

  /** Column 4; its top four bits go to tx. */
  method StageB(c: int, d0: int, p4: int) returns (d: int, t4: int, tx: int)
    requires Fits(c, BITS_60) && Fits(d0, BITS_63) && 0 <= p4 <= 3 * (LIMB * LIMB) + 2 * (LIMB * TOP)
    ensures d0 + p4 + c * R == t4 + tx * B48 + d * B1
    ensures Fits(d, TWO_64) && Fits(t4, B48) && Fits(tx, 16)
  {
    d := d0 + p4;
    assert Fits(d, BITS_115);
    d := d + c * R;
    assert Fits(d, BITS_116);
    t4 := d % B1;
    d := d / B1;
    tx := t4 / B48;
    t4 := t4 % B48;
  }

  /** Columns 0 and 5; column 5 is folded back together with tx. */
  method StageC(d0: int, p0: int, p5: int, tx: int) returns (c: int, d: int, u0: int, r0: int)
    requires Fits(d0, TWO_64) && 0 <= p0 <= LIMB * LIMB && 0 <= p5 <= 2 * (LIMB * LIMB) + 2 * (LIMB * TOP)
      && Fits(tx, 16)
    ensures d0 * 16 + p5 * 16 + tx == u0 + d * B1 * 16 && p0 + u0 * (R / 16) == r0 + c * B1
    ensures Fits(c, BITS_61) && Fits(d, BITS_63) && Fits(u0, BITS_56) && Fits(r0, B1)
  {
    c := p0;
    assert Fits(c, BITS_112);
    d := d0 + p5;
    assert Fits(d, BITS_115);
    u0 := d % B1;
    d := d / B1;
    u0 := u0 * 16 + tx;
    c := c + u0 * (R / 16);
    assert Fits(c, BITS_113);
    r0 := c % B1;
    c := c / B1;
  }

  /** A low column pl and a high column ph; the low 52 bits of the high one are folded back. */
  method StageD(c0: int, d0: int, pl: int, ph: int) returns (c: int, d: int, r: int, ghost k: int)
    requires Fits(c0, BITS_63) && Fits(d0, BITS_63) && 0 <= pl <= 3 * (LIMB * LIMB)
      && 0 <= ph <= LIMB * LIMB + 2 * (LIMB * TOP)
    ensures d0 + ph == k + d * B1 && c0 + pl + k * R == r + c * B1
    ensures Fits(c, BITS_63) && Fits(d, BITS_62) && Fits(r, B1)
  {
    c := c0 + pl;
    assert Fits(c, BITS_114);
    d := d0 + ph;
    assert Fits(d, BITS_114);
    k := d % B1;
    c := c + (d % B1) * R;
    d := d / B1;
    assert Fits(c, BITS_115);
    r := c % B1;
    c := c / B1;
  }

  /** What is left goes into the two top limbs. */
  method StageE(c0: int, d: int, t3: int, t4: int) returns (r3: int, r4: int)
    requires Fits(c0, BITS_63) && Fits(d, BITS_62) && Fits(t3, B1) && Fits(t4, B48)
    ensures c0 + d * R + t3 + t4 * B1 == r3 + r4 * B1
    ensures Fits(r3, B1) && 0 <= r4 <= 2 * (B48 - 1)
  {
    var c := c0 + (d * R + t3);
    assert Fits(c, BITS_100);
    r3 := c % B1;
    c := c / B1;
    assert Fits(c, B48);
    c := c + t4;
    assert Fits(c, BITS_49);
    r4 := c;
  }

  /** The first three stages fold the columns 3, 4, 5 and 8. */
  lemma ConservedHigh(p: Columns, c1: int, d1: int, t3: int, k0: int, d2: int, t4: int, tx: int, d3: int, u0: int)
    requires p.p8 == k0 + c1 * B1 && p.p3 + k0 * R == t3 + d1 * B1
    requires d1 + p.p4 + c1 * R == t4 + tx * B48 + d2 * B1
    requires d2 * 16 + p.p5 * 16 + tx == u0 + d3 * B1 * 16
    ensures p.Sum() == p.p0 + u0 * (R / 16) + p.p1 * B1 + p.p2 * B2 + t3 * B3 + t4 * B4 + (d3 + p.p6) * B6 + p.p7 * B7
      + P * (16 * (k0 * B3 + c1 * B4) + u0)
  {
  }

  /** The others fold the columns 6 and 7. */
  lemma ConservedLow(p: Columns, t3: int, t4: int, c3: int, d3: int, u0: int, r0: int,
      c4: int, d4: int, r1: int, k1: int, c5: int, d5: int, r2: int, k2: int, r3: int, r4: int)
    requires p.p0 + u0 * (R / 16) == r0 + c3 * B1
    requires d3 + p.p6 == k1 + d4 * B1 && c3 + p.p1 + k1 * R == r1 + c4 * B1
    requires d4 + p.p7 == k2 + d5 * B1 && c4 + p.p2 + k2 * R == r2 + c5 * B1
    requires c5 + d5 * R + t3 + t4 * B1 == r3 + r4 * B1
    ensures p.p0 + u0 * (R / 16) + p.p1 * B1 + p.p2 * B2 + t3 * B3 + t4 * B4 + (d3 + p.p6) * B6 + p.p7 * B7
      == Limbs5(r0, r1, r2, r3, r4) + P * (16 * (k1 * B1 + k2 * B2 + d5 * B3))
  {
  }

  /** The stages together conserve the sum of the columns up to a multiple of p. */
  lemma Conserved(p: Columns, c1: int, d1: int, t3: int, k0: int, d2: int, t4: int, tx: int, c3: int, d3: int, u0: int,
      r0: int,
      c4: int, d4: int, r1: int, k1: int, c5: int, d5: int, r2: int, k2: int, r3: int, r4: int) returns (q: int)
    requires p.p8 == k0 + c1 * B1 && p.p3 + k0 * R == t3 + d1 * B1
    requires d1 + p.p4 + c1 * R == t4 + tx * B48 + d2 * B1
    requires d2 * 16 + p.p5 * 16 + tx == u0 + d3 * B1 * 16 && p.p0 + u0 * (R / 16) == r0 + c3 * B1
    requires d3 + p.p6 == k1 + d4 * B1 && c3 + p.p1 + k1 * R == r1 + c4 * B1
    requires d4 + p.p7 == k2 + d5 * B1 && c4 + p.p2 + k2 * R == r2 + c5 * B1
    requires c5 + d5 * R + t3 + t4 * B1 == r3 + r4 * B1
    ensures p.Sum() == Limbs5(r0, r1, r2, r3, r4) + P * q
  {
    hide Columns.Sum, Limbs5;
    ConservedHigh(p, c1, d1, t3, k0, d2, t4, tx, d3, u0);
    ConservedLow(p, t3, t4, c3, d3, u0, r0, c4, d4, r1, k1, c5, d5, r2, k2, r3, r4);
    var x, y := 16 * (k0 * B3 + c1 * B4) + u0, 16 * (k1 * B1 + k2 * B2 + d5 * B3);
    MulDist(P, x, y);
    q := x + y;
  }

  /** The stages in the order of the kernels: columns 3 and 8, 4, 0 and 5, 1 and 6, 2 and 7. */
  method Reduce(p: Columns) returns (r0: int, r1: int, r2: int, r3: int, r4: int)
    requires Bounded(p)
    ensures Fits(r0, B1) && Fits(r1, B1) && Fits(r2, B1) && Fits(r3, B1) && 0 <= r4 <= 2 * (B48 - 1)
    ensures M(Limbs5(r0, r1, r2, r3, r4)) == M(p.Sum())
  {
    hide M, Fits, Limbs5, Columns.Sum;
    ghost var k0, k1, k2;
    var c1, d1, t3;
    c1, d1, t3, k0 := StageA(p.p3, p.p8);
    var d2, t4, tx := StageB(c1, d1, p.p4);
    var c3, d3, u0;
    c3, d3, u0, r0 := StageC(d2, p.p0, p.p5, tx);
    SmallCarry(c3, d3);
    var c4, d4;
    c4, d4, r1, k1 := StageD(c3, d3, p.p1, p.p6);
    SmallCarry(c4, d4);
    var c5, d5;
    c5, d5, r2, k2 := StageD(c4, d4, p.p2, p.p7);
    r3, r4 := StageE(c5, d5, t3, t4);
    ghost var q := Conserved(p, c1, d1, t3, k0, d2, t4, tx, c3, d3, u0, r0, c4, d4, r1, k1, c5, d5, r2, k2, r3, r4);
    AddMultiple(Limbs5(r0, r1, r2, r3, r4), q);
  }

  /** secp256k1_fe_mul_inner; r may be a, but b may be neither. */
  method FeMulInner(r: array<int>, a: array<int>, b: array<int>)
    requires r.Length == a.Length == b.Length == 5 && r != b && a != b
    requires Magnitude(a[..], 8) && Magnitude(b[..], 8)
    modifies r
    ensures M(Value(r[..])) == M(old(Value(a[..])) * old(Value(b[..])))
    ensures Magnitude(r[..], 1)
  {
    hide M, Fits, Value, Magnitude, Bounded;
    ghost var x, y := a[..], b[..];
    SchoolbookBounded(x, y);
    SchoolbookProduct(x, y);
    var a0, a1, a2, a3, a4 := a[0], a[1], a[2], a[3], a[4];
    var p3 := a0 * b[3] + a1 * b[2] + a2 * b[1] + a3 * b[0];
    var p8 := a4 * b[4];
    var p4 := a0 * b[4] + a1 * b[3] + a2 * b[2] + a3 * b[1] + a4 * b[0];
    var p0 := a0 * b[0];
    var p5 := a1 * b[4] + a2 * b[3] + a3 * b[2] + a4 * b[1];
    var p1 := a0 * b[1] + a1 * b[0];
    var p6 := a2 * b[4] + a3 * b[3] + a4 * b[2];
    var p2 := a0 * b[2] + a1 * b[1] + a2 * b[0];
    var p7 := a3 * b[4] + a4 * b[3];
    var r0, r1, r2, r3, r4 := Reduce(Columns(p0, p1, p2, p3, p4, p5, p6, p7, p8));
    r[0], r[1], r[2], r[3], r[4] := r0, r1, r2, r3, r4;
    Result(r[..], r0, r1, r2, r3, r4);
  }

  /** secp256k1_fe_sqr_inner: the same columns with the mixed terms doubled. */
  method FeSqrInner(r: array<int>, a: array<int>)
    requires r.Length == a.Length == 5 && Magnitude(a[..], 8)
    modifies r
    ensures M(Value(r[..])) == M(old(Value(a[..])) * old(Value(a[..])))
    ensures Magnitude(r[..], 1)
  {
    hide M, Fits, Value, Magnitude, Bounded;
    ghost var x := a[..];
    SchoolbookBounded(x, x);
    SchoolbookProduct(x, x);
    Doubled64(x);
    var a0, a1, a2, a3, a4 := a[0], a[1], a[2], a[3], a[4];
    var p3 := (a0 * 2) * a3 + (a1 * 2) * a2;
    var p8 := a4 * a4;
    a4 := a4 * 2;
    var p4 := a0 * a4 + (a1 * 2) * a3 + a2 * a2;
    var p0 := a0 * a0;
    var p5 := a1 * a4 + (a2 * 2) * a3;
    a0 := a0 * 2;
    var p1 := a0 * a1;
    var p6 := a2 * a4 + a3 * a3;
    var p2 := a0 * a2 + a1 * a1;
    var p7 := a3 * a4;
    SquareColumns(x[0], x[1], x[2], x[3], x[4]);
    var r0, r1, r2, r3, r4 := Reduce(Columns(p0, p1, p2, p3, p4, p5, p6, p7, p8));
    r[0], r[1], r[2], r[3], r[4] := r0, r1, r2, r3, r4;
    Result(r[..], r0, r1, r2, r3, r4);
  }

  lemma SquareColumns(a0: int, a1: int, a2: int, a3: int, a4: int)
    ensures Schoolbook([a0, a1, a2, a3, a4], [a0, a1, a2, a3, a4])
      == Columns(a0 * a0, (a0 * 2) * a1, (a0 * 2) * a2 + a1 * a1, (a0 * 2) * a3 + (a1 * 2) * a2,
                 a0 * (a4 * 2) + (a1 * 2) * a3 + a2 * a2, a1 * (a4 * 2) + (a2 * 2) * a3,
                 a2 * (a4 * 2) + a3 * a3, a3 * (a4 * 2), a4 * a4)
  {
    Twice(a0, a1);
    Twice(a0, a2);
    Twice(a0, a3);
    Twice(a0, a4);
    Twice(a1, a2);
    Twice(a1, a3);
    Twice(a1, a4);
    Twice(a2, a3);
    Twice(a2, a4);
    Twice(a3, a4);
  }

  /** The limbs that are doubled before they are multiplied stay within 64 bits. */
  lemma Doubled64(a: seq<int>)
    requires Magnitude(a, 8)
    ensures Fits(a[0] * 2, TWO_64) && Fits(a[1] * 2, TWO_64) && Fits(a[2] * 2, TWO_64) && Fits(a[4] * 2, TWO_64)
  {
  }

  lemma SmallCarry(c: int, d: int)
    ensures Fits(c, BITS_61) ==> Fits(c, BITS_63)
    ensures Fits(d, BITS_62) ==> Fits(d, BITS_63)
  {
  }

  lemma Result(r: seq<int>, r0: int, r1: int, r2: int, r3: int, r4: int)
    requires r == [r0, r1, r2, r3, r4]
    requires Fits(r0, B1) && Fits(r1, B1) && Fits(r2, B1) && Fits(r3, B1) && 0 <= r4 <= 2 * (B48 - 1)
    ensures Magnitude(r, 1) && Value(r) == Limbs5(r0, r1, r2, r3, r4)
  {
  }
}
