/**
 * The multiplication and squaring kernels on ten limbs of 26 bits (field_10x26_impl.h), with
 * 64-bit accumulators. The columns of the product are folded in nine equal rounds, each of which
 * takes a low column, a high column and the carries of the round before.
 */
module Limbs10 {
  import opened Arith
  import opened Field

  const B: int := 0x4000000
  const B10: int := 0x100000000000000000000000000000000000000000000000000000000000000000
  const B22: int := 0x400000
  const TWO_64: int := 0x1_0000000000000000

  // 2^260 modulo p is R1 * 2^26 + R0.
  const R0: int := 0x3D10
  const R1: int := 0x400

  /** The largest limb, and the largest top limb, of magnitude 8. */
  const LIMB: int := 16 * (B - 1)
  const TOP: int := 16 * (B22 - 1)
  const COLUMN: int := 10 * (LIMB * LIMB)

  /** Ten limbs of magnitude m. */
  predicate Magnitude10(n: seq<int>, m: int)
  {
    && |n| == 10
    && (forall i :: 0 <= i < 9 ==> 0 <= n[i] <= 2 * m * (B - 1))
    && 0 <= n[9] <= 2 * m * (B22 - 1)
  }

  function Value10(n: seq<int>): int
  {
    Eval(n, B)
  }

  predicate Word64(x: int)
  {
    0 <= x < TWO_64
  }

  // ---- the columns of the product ----

  /** The sum of a[i] * b[k - i] over i < n. */
  function Conv(a: seq<int>, b: seq<int>, n: nat, k: int): int
    requires n <= |a|
    decreases n
  {
    if n == 0 then 0
    else Conv(a, b, n - 1, k) + (if 0 <= k - (n - 1) < |b| then a[n - 1] * b[k - (n - 1)] else 0)
  }

  function Columns(a: seq<int>, b: seq<int>, n: nat, len: nat): (c: seq<int>)
    requires n <= |a|
    ensures |c| == len
  {
    seq(len, k => Conv(a, b, n, k))
  }

  /** b, times x, moved up by n places. */
  function Shifted(b: seq<int>, x: int, n: nat, len: nat): (c: seq<int>)
    ensures |c| == len
  {
    seq(len, k => if 0 <= k - n < |b| then x * b[k - n] else 0)
  }

  lemma {:induction false} EvalSum(a: seq<int>, b: seq<int>, c: seq<int>, base: int)
    requires |a| == |b| == |c| && forall i :: 0 <= i < |a| ==> c[i] == a[i] + b[i]
    ensures Eval(c, base) == Eval(a, base) + Eval(b, base)
  {
    if a != [] {
      EvalSum(a[1..], b[1..], c[1..], base);
      MulDist(base, Eval(a[1..], base), Eval(b[1..], base));
    }
  }

  lemma {:induction false} EvalScaled(b: seq<int>, x: int, c: seq<int>, base: int)
    requires |b| == |c| && forall i :: 0 <= i < |b| ==> c[i] == x * b[i]
    ensures Eval(c, base) == x * Eval(b, base)
  {
    if b != [] {
      EvalScaled(b[1..], x, c[1..], base);
      var e := Eval(b[1..], base);
      MulDist(x, b[0], base * e);
      MulAssoc(base, x, e);
      MulAssoc(x, base, e);
      Swap(base, x);
    } else {
      assert x * 0 == 0;
    }
  }

  lemma EvalShifted(b: seq<int>, x: int, n: nat, len: nat, base: int)
    requires n + |b| <= len
    ensures Eval(Shifted(b, x, n, len), base) == Power(base, n) * (x * Eval(b, base))
  {
    hide Eval, Power;
    var s := Shifted(b, x, n, len);
    var zeros, mid, rest := s[..n], s[n..n + |b|], s[n + |b|..];
    assert s == (zeros + mid) + rest;
    EvalPadded(zeros + mid, rest, base);
    EvalAppend(zeros, mid, base);
    EvalZeros(zeros, base);
    forall i | 0 <= i < |b|
      ensures mid[i] == x * b[i]
    {
      assert mid[i] == s[n + i];
    }
    EvalScaled(b, x, mid, base);
  }

  /** The first n rows of the product. */
  lemma {:induction false} EvalColumns(a: seq<int>, b: seq<int>, n: nat, len: nat, base: int)
    requires n <= |a| && |a| + |b| <= len + 1
    ensures Eval(Columns(a, b, n, len), base) == Eval(a[..n], base) * Eval(b, base)
  {
    hide Eval, Power;
    if n == 0 {
      EvalZeros(Columns(a, b, 0, len), base);
      EvalZeros(a[..0], base);
      assert 0 * Eval(b, base) == 0;
    } else {
      EvalColumns(a, b, n - 1, len, base);
      var x := a[n - 1];
      EvalSum(Columns(a, b, n - 1, len), Shifted(b, x, n - 1, len), Columns(a, b, n, len), base);
      EvalShifted(b, x, n - 1, len, base);
      assert a[..n] == a[..n - 1] + [x];
      EvalAppend(a[..n - 1], [x], base);
      EvalOne(x, base);
      RowSum(Eval(a[..n - 1], base), Power(base, n - 1), x, Eval(b, base));
    }
  }

  lemma RowSum(e: int, p: int, x: int, v: int)
    ensures e * v + p * (x * v) == (e + p * x) * v
  {
    MulAssoc(p, x, v);
  }

  /** Columns of operands of magnitude 8 stay below 10 times the largest product. */
  lemma {:induction false} ConvBound(a: seq<int>, b: seq<int>, n: nat, k: int)
    requires Magnitude10(a, 8) && Magnitude10(b, 8) && n <= 10
    ensures 0 <= Conv(a, b, n, k) <= n * (LIMB * LIMB)
  {
    hide Magnitude10, Conv;
    ConvEmpty(a, b, k);
    LimbRange(a, 0);
    LimbRange(b, 0);
    if n > 0 {
      ConvBound(a, b, n - 1, k);
      LimbRange(a, n - 1);
      if 0 <= k - (n - 1) < 10 {
        LimbRange(b, k - (n - 1));
      }
      ConvStep(a, b, n - 1, k, LIMB);
      AnotherSquare(n - 1, LIMB * LIMB);
    }
  }

  /** One more term of a column, for limbs up to any bound. */
  lemma ConvStep(a: seq<int>, b: seq<int>, n: nat, k: int, limb: int)
    requires n < |a| && 0 <= a[n] <= limb && (0 <= k - n < |b| ==> 0 <= b[k - n] <= limb)
    ensures 0 <= Conv(a, b, n + 1, k) - Conv(a, b, n, k) <= limb * limb
  {
    MulMono(limb, 0, limb);
    if 0 <= k - n < |b| { ProductBound(a[n], b[k - n], limb, limb); }
  }

  lemma ConvEmpty(a: seq<int>, b: seq<int>, k: int)
    ensures Conv(a, b, 0, k) == 0
  {
  }

  lemma AnotherSquare(n: int, q: int)
    ensures n * q + q == (n + 1) * q
  {
  }

  lemma LimbRange(a: seq<int>, i: nat)
    requires Magnitude10(a, 8) && i < 10
    ensures |a| == 10 && 0 <= a[i] <= LIMB
  {
  }

  // ---- the rounds ----

  /** One round: the low 26 bits of the high accumulator are folded into the low one. */
  method Round(c0: int, d0: int, pl: int, ph: int) returns (c: int, d: int, t: int, ghost u: int)
    requires 0 <= c0 < 0x10000000000 && 0 <= d0 < 0x10000000000 && 0 <= pl <= COLUMN && 0 <= ph <= COLUMN
    ensures c0 + pl + (d0 + ph) * B10 == t + c * B + d * B * B10 + 16 * P * u
    ensures 0 <= t < B && 0 <= c < 0x10000000000 && 0 <= d < 0x10000000000 && d * B <= d0 + ph
  {
    c := c0 + pl;
    d := d0 + ph;
    assert Word64(c) && Word64(d);
    u := d % B;
    var u' := d % B;
    d := d / B;
    c := c + u' * R0;
    assert Word64(c);
    t := c % B;
    c := c / B;
    c := c + u' * R1;
    assert Word64(c);
  }

  /** The digits found so far and the accumulators stand for the columns consumed so far. */
  ghost predicate Folded(e: seq<int>, ts: seq<int>, c: int, d: int, t9: int, p9: int, w9: int, q: int)
  {
    |e| == |ts| && Eval(e, B) + p9 * w9 == Eval(ts, B) + Power(B, |ts|) * (c + d * B10) + t9 * w9 + P * q
  }

  lemma FoldRound(e: seq<int>, ts: seq<int>, c: int, d: int, t9: int, p9: int, w9: int, q: int, pl: int, ph: int,
      c': int, d': int, t: int, u: int)
    returns (q': int)
    requires Folded(e, ts, c, d, t9, p9, w9, q)
    requires c + pl + (d + ph) * B10 == t + c' * B + d' * B * B10 + 16 * P * u
    ensures Folded(e + [pl + ph * B10], ts + [t], c', d', t9, p9, w9, q')
  {
    hide Eval, Power;
    var w := Power(B, |ts|);
    q' := q + 16 * (w * u);
    EvalAppend(e, [pl + ph * B10], B);
    EvalAppend(ts, [t], B);
    EvalOne(pl + ph * B10, B);
    EvalOne(t, B);
    PowerNext(|ts|);
    Scaled(w, c, d, pl, ph, t, c', d', u);
    MulDist(P, q, 16 * (w * u));
  }

  lemma PowerNext(n: nat)
    ensures Power(B, n + 1) == B * Power(B, n)
  {
  }

  lemma Scaled(w: int, c: int, d: int, pl: int, ph: int, t: int, c': int, d': int, u: int)
    requires c + pl + (d + ph) * B10 == t + c' * B + d' * B * B10 + 16 * P * u
    ensures w * (c + d * B10) + w * (pl + ph * B10) == w * t + (B * w) * (c' + d' * B10) + P * (16 * (w * u))
  {
    MulDist(w, c + d * B10, pl + ph * B10);
    var x := c' + d' * B10;
    assert t + c' * B + d' * B * B10 + 16 * P * u == t + B * x + 16 * P * u;
    MulDist(w, t, B * x + 16 * P * u);
    MulDist(w, B * x, 16 * P * u);
    ScaledCarry(w, x, u);
  }

  lemma ScaledCarry(w: int, x: int, u: int)
    ensures w * (B * x) == (B * w) * x
    ensures w * (16 * P * u) == P * (16 * (w * u))
  {
    MulAssoc(w, B, x);
    var y := w * u;
    assert w * (16 * P * u) == 16 * P * y by { MulAssoc(w, 16 * P, u); MulAssoc(16 * P, w, u); Swap(w, 16 * P); }
  }

  const B9: int := 0x40000000000000000000000000000000000000000000000000000000000

  lemma Power9()
    ensures Power(B, 9) == B9 && B * B9 == B10
    ensures Power(B, 3) == B * B * B && Power(B, 6) == B * B * B * (B * B * B)
  {
    PowerNext(0);
    PowerNext(1);
    PowerNext(2);
    PowerNext(3);
    PowerNext(4);
    PowerNext(5);
    PowerNext(6);
    PowerNext(7);
    PowerNext(8);
    hide Power;
  }

  /** Low and high columns taken together. */
  function Combined(p: seq<int>): (e: seq<int>)
    requires |p| == 19
    ensures |e| == 9
  {
    seq(9, k requires 0 <= k < 9 => p[k] + p[10 + k] * B10)
  }

  lemma CombinedValue(p: seq<int>)
    requires |p| == 19
    ensures Eval(p, B) == Eval(Combined(p), B) + p[9] * B9
  {
    hide Eval, Power;
    Power9();
    var low, high := p[..9], p[10..];
    var scaled := seq(9, k requires 0 <= k < 9 => B10 * high[k]);
    assert p == low + ([p[9]] + high);
    EvalAppend(low, [p[9]] + high, B);
    EvalAppend([p[9]], high, B);
    EvalOne(p[9], B);
    assert Power(B, 1) == B by { PowerOne(); }
    EvalScaled(high, B10, scaled, B);
    EvalSum(low, scaled, Combined(p), B);
    HighWeight(p[9], Eval(high, B));
  }

  lemma PowerOne()
    ensures Power(B, 1) == B
  {
    assert Power(B, 0) == 1;
  }

  lemma HighWeight(x: int, y: int)
    ensures B9 * (x + B * y) == B10 * y + x * B9
  {
  }

  ghost predicate ColumnsBounded(p: seq<int>)
  {
    && |p| == 19
    && (forall k :: 0 <= k < 19 ==> 0 <= p[k] <= COLUMN)
    && p[17] <= 2 * (LIMB * TOP) && p[18] <= TOP * TOP
  }

  /** Round i on the columns p[i] and p[10 + i]. */
  method Step(p: seq<int>, i: nat, c0: int, d0: int, t9: int, ghost ts: seq<int>, ghost q: int)
    returns (c: int, d: int, t: int, ghost ts': seq<int>, ghost q': int)
    requires ColumnsBounded(p) && i < 9 && 0 <= c0 < 0x10000000000 && 0 <= d0 < 0x10000000000
    requires Folded(Combined(p)[..i], ts, c0, d0, t9, p[9], B9, q)
    ensures Folded(Combined(p)[..i + 1], ts', c, d, t9, p[9], B9, q') && ts' == ts + [t]
    ensures 0 <= t < B && 0 <= c < 0x10000000000 && 0 <= d < 0x10000000000 && d * B <= d0 + p[10 + i]
  {
    hide Folded;
    ghost var u;
    c, d, t, u := Round(c0, d0, p[i], p[10 + i]);
    ts' := ts + [t];
    q' := FoldRound(Combined(p)[..i], ts, c0, d0, t9, p[9], B9, q, p[i], p[10 + i], c, d, t, u);
    assert Combined(p)[..i + 1] == Combined(p)[..i] + [p[i] + p[10 + i] * B10];
  }

  lemma FoldStart(p: seq<int>, d: int, t9: int)
    requires |p| == 19 && p[9] == t9 + d * B
    ensures Folded(Combined(p)[..0], [], 0, d, t9, p[9], B9, 0)
  {
    StartWeight(d, t9);
    assert Power(B, 0) == 1;
  }

  lemma StartWeight(d: int, t9: int)
    ensures (t9 + d * B) * B9 == d * B10 + t9 * B9
  {
  }

  /** What is above 2^256 is folded into the three lowest limbs. */
  method Finish(c9: int, d9: int, t9: int, t0: int, t1: int, t2: int)
      returns (r0: int, r1: int, r2: int, r9: int, ghost k: int)
    requires 0 <= c9 < 0x10000000000 && 0 <= d9 < 0x8000000
    requires 0 <= t9 < B && 0 <= t0 < B && 0 <= t1 < B && 0 <= t2 < B
    ensures t0 + t1 * B + t2 * B * B + (c9 + d9 * B10 + t9) * B9 == r0 + r1 * B + r2 * B * B + r9 * B9 + P * k
    ensures 0 <= r0 < B && 0 <= r1 < B && 0 <= r2 <= 2 * (B - 1) && 0 <= r9 < B22
  {
    var c, d := c9, d9;
    c := c + (d * R0 + t9);
    assert Word64(c);
    r9 := c % B22;
    c := c / B22;
    c := c + d * (R1 * 16);
    assert Word64(c);
    ghost var c1 := c;
    d := c * (R0 / 16) + t0;
    assert Word64(d);
    r0 := d % B;
    d := d / B;
    d := d + (c * (R1 / 16) + t1);
    assert Word64(d);
    r1 := d % B;
    d := d / B;
    d := d + t2;
    r2 := d;
    k := 16 * d9 * B9 + c1;
    FinishValue(c9, d9, t9, t0, t1, t2, c1, r0, r1, r2, r9);
  }

  lemma FinishValue(c9: int, d9: int, t9: int, t0: int, t1: int, t2: int, c: int, r0: int, r1: int, r2: int, r9: int)
    requires c9 + d9 * R0 + t9 == r9 + (c - d9 * (R1 * 16)) * B22
    requires c * (R0 / 16) + t0 + (c * (R1 / 16) + t1) * B + t2 * B * B == r0 + r1 * B + r2 * B * B
    ensures t0 + t1 * B + t2 * B * B + (c9 + d9 * B10 + t9) * B9
      == r0 + r1 * B + r2 * B * B + r9 * B9 + P * (16 * d9 * B9 + c)
  {
  }

  /** Nine rounds and the final fold. */
  method Reduce10(p: seq<int>) returns (r: seq<int>)
    requires ColumnsBounded(p)
    ensures Magnitude10(r, 1) && M(Value10(r)) == M(Eval(p, B))
  {
    hide M, Folded, Eval, Power, ColumnsBounded, Combined;
    ColumnSizes(p);
    var d := p[9];
    assert Word64(d);
    var t9 := d % B;
    d := d / B;
    FoldStart(p, d, t9);
    ghost var ts: seq<int>, q: int := [], 0;
    var c, t0, t1, t2, t3, t4, t5, t6, t7, t8;
    c, d, t0, t1, t2, ts, q := ThreeSteps(p, 0, 0, d, t9, ts, q);
    c, d, t3, t4, t5, ts, q := ThreeSteps(p, 3, c, d, t9, ts, q);
    c, d, t6, t7, t8, ts, q := ThreeSteps(p, 6, c, d, t9, ts, q);
    r := Assemble(p, c, d, t9, t0, t1, t2, [t3, t4, t5, t6, t7, t8], ts, q);
  }

  /** Three rounds in a row. */
  method ThreeSteps(p: seq<int>, i: nat, c0: int, d0: int, t9: int, ghost ts: seq<int>, ghost q: int)
    returns (c: int, d: int, ta: int, tb: int, tc: int, ghost ts': seq<int>, ghost q': int)
    requires ColumnsBounded(p) && i <= 6 && 0 <= c0 < 0x10000000000 && 0 <= d0 < 0x10000000000
    requires Folded(Combined(p)[..i], ts, c0, d0, t9, p[9], B9, q)
    ensures Folded(Combined(p)[..i + 3], ts', c, d, t9, p[9], B9, q') && ts' == ts + [ta, tb, tc]
    ensures 0 <= ta < B && 0 <= tb < B && 0 <= tc < B && 0 <= c < 0x10000000000 && 0 <= d < 0x10000000000
    ensures i == 6 ==> d < 0x8000000
  {
    hide Folded, Combined, ColumnsBounded;
    ColumnSizes(p);
    c, d, ta, ts', q' := Step(p, i, c0, d0, t9, ts, q);
    c, d, tb, ts', q' := Step(p, i + 1, c, d, t9, ts', q');
    ghost var e := d;
    c, d, tc, ts', q' := Step(p, i + 2, c, d, t9, ts', q');
    if i == 6 { SmallTop(p, e, d); }
    assert ts' == ts + [ta, tb, tc];
  }

  /** The final fold, and all limbs put together. */
  method Assemble(p: seq<int>, c: int, d: int, t9: int, t0: int, t1: int, t2: int, mid: seq<int>, ghost ts: seq<int>,
      ghost q: int)
    returns (r: seq<int>)
    requires |p| == 19 && |mid| == 6 && ts == [t0, t1, t2] + mid && Folded(Combined(p)[..9], ts, c, d, t9, p[9], B9, q)
    requires 0 <= c < 0x10000000000 && 0 <= d < 0x8000000
    requires 0 <= t9 < B && 0 <= t0 < B && 0 <= t1 < B && 0 <= t2 < B && forall i :: 0 <= i < 6 ==> 0 <= mid[i] < B
    ensures Magnitude10(r, 1) && M(Value10(r)) == M(Eval(p, B))
  {
    hide M, Folded, Eval, Power;
    assert Combined(p)[..9] == Combined(p);
    ghost var k;
    var r0, r1, r2, r9;
    r0, r1, r2, r9, k := Finish(c, d, t9, t0, t1, t2);
    r := [r0, r1, r2] + mid + [r9];
    FinalValue(p, c, d, t9, q, mid, t0, t1, t2, r0, r1, r2, r9, k);
  }

  lemma ColumnSizes(p: seq<int>)
    requires ColumnsBounded(p)
    ensures |p| == 19 && forall k :: 0 <= k < 19 ==> 0 <= p[k] <= COLUMN
  {
  }

  /** The last two high columns are small, which leaves the high accumulator small. */
  lemma SmallTop(p: seq<int>, e: int, d: int)
    requires ColumnsBounded(p) && 0 <= e && e * B <= 0x10000000000 + p[17] && d * B <= e + p[18]
    ensures d < 0x8000000
  {
  }

  lemma FinalValue(p: seq<int>, c: int, d: int, t9: int, q: int, mid: seq<int>, t0: int, t1: int, t2: int,
      r0: int, r1: int, r2: int, r9: int, k: int)
    requires |p| == 19 && |mid| == 6 && Folded(Combined(p), [t0, t1, t2] + mid, c, d, t9, p[9], B9, q)
    requires t0 + t1 * B + t2 * B * B + (c + d * B10 + t9) * B9 == r0 + r1 * B + r2 * B * B + r9 * B9 + P * k
    ensures M(Eval([r0, r1, r2] + mid + [r9], B)) == M(Eval(p, B))
  {
    hide M, Eval, Power;
    CombinedValue(p);
    Power9();
    EvalAppend([t0, t1, t2], mid, B);
    EvalAppend([r0, r1, r2], mid, B);
    EvalAppend([r0, r1, r2] + mid, [r9], B);
    EvalOne(r9, B);
    ThreeLimbs(t0, t1, t2);
    ThreeLimbs(r0, r1, r2);
    MulDist(P, q, k);
    AddMultiple(Eval([r0, r1, r2] + mid + [r9], B), q + k);
  }

  lemma ThreeLimbs(x: int, y: int, z: int)
    ensures Eval([x, y, z], B) == x + y * B + z * B * B
  {
    assert [x, y, z][1..] == [y, z] && [y, z][1..] == [z];
    EvalOne(z, B);
  }

  // ---- the kernels ----

  lemma Column0(a: seq<int>, b: seq<int>)
    requires |a| == |b| == 10
    ensures Conv(a, b, 10, 0) == a[0] * b[0]
  {
  }

  lemma Column1(a: seq<int>, b: seq<int>)
    requires |a| == |b| == 10
    ensures Conv(a, b, 10, 1) == a[0] * b[1] + a[1] * b[0]
  {
  }

  lemma Column2(a: seq<int>, b: seq<int>)
    requires |a| == |b| == 10
    ensures Conv(a, b, 10, 2) == a[0] * b[2] + a[1] * b[1] + a[2] * b[0]
  {
  }

  lemma Column3(a: seq<int>, b: seq<int>)
    requires |a| == |b| == 10
    ensures Conv(a, b, 10, 3) == a[0] * b[3] + a[1] * b[2] + a[2] * b[1] + a[3] * b[0]
  {
  }

  lemma Column4(a: seq<int>, b: seq<int>)
    requires |a| == |b| == 10
    ensures Conv(a, b, 10, 4) == a[0] * b[4] + a[1] * b[3] + a[2] * b[2] + a[3] * b[1] + a[4] * b[0]
  {
  }

  lemma Column5(a: seq<int>, b: seq<int>)
    requires |a| == |b| == 10
    ensures Conv(a, b, 10, 5) == a[0] * b[5] + a[1] * b[4] + a[2] * b[3] + a[3] * b[2] + a[4] * b[1] + a[5] * b[0]
  {
  }

  lemma Column6(a: seq<int>, b: seq<int>)
    requires |a| == |b| == 10
    ensures Conv(a, b, 10, 6)
      == a[0] * b[6] + a[1] * b[5] + a[2] * b[4] + a[3] * b[3] + a[4] * b[2] + a[5] * b[1] + a[6] * b[0]
  {
  }

  lemma Column7(a: seq<int>, b: seq<int>)
    requires |a| == |b| == 10
    ensures Conv(a, b, 10, 7)
      == a[0] * b[7] + a[1] * b[6] + a[2] * b[5] + a[3] * b[4] + a[4] * b[3] + a[5] * b[2] + a[6] * b[1] + a[7] * b[0]
  {
  }

  lemma Column8(a: seq<int>, b: seq<int>)
    requires |a| == |b| == 10
    ensures Conv(a, b, 10, 8)
      == a[0] * b[8] + a[1] * b[7] + a[2] * b[6] + a[3] * b[5] + a[4] * b[4] + a[5] * b[3] + a[6] * b[2] + a[7] * b[1]
      + a[8] * b[0]
  {
  }

  lemma Column9(a: seq<int>, b: seq<int>)
    requires |a| == |b| == 10
    ensures Conv(a, b, 10, 9)
      == a[0] * b[9] + a[1] * b[8] + a[2] * b[7] + a[3] * b[6] + a[4] * b[5] + a[5] * b[4] + a[6] * b[3] + a[7] * b[2]
      + a[8] * b[1] + a[9] * b[0]
  {
  }

  lemma Column10(a: seq<int>, b: seq<int>)
    requires |a| == |b| == 10
    ensures Conv(a, b, 10, 10)
      == a[1] * b[9] + a[2] * b[8] + a[3] * b[7] + a[4] * b[6] + a[5] * b[5] + a[6] * b[4] + a[7] * b[3] + a[8] * b[2]
      + a[9] * b[1]
  {
  }

  lemma Column11(a: seq<int>, b: seq<int>)
    requires |a| == |b| == 10
    ensures Conv(a, b, 10, 11)
      == a[2] * b[9] + a[3] * b[8] + a[4] * b[7] + a[5] * b[6] + a[6] * b[5] + a[7] * b[4] + a[8] * b[3] + a[9] * b[2]
  {
  }

  lemma Column12(a: seq<int>, b: seq<int>)
    requires |a| == |b| == 10
    ensures Conv(a, b, 10, 12)
      == a[3] * b[9] + a[4] * b[8] + a[5] * b[7] + a[6] * b[6] + a[7] * b[5] + a[8] * b[4] + a[9] * b[3]
  {
  }

  lemma Column13(a: seq<int>, b: seq<int>)
    requires |a| == |b| == 10
    ensures Conv(a, b, 10, 13) == a[4] * b[9] + a[5] * b[8] + a[6] * b[7] + a[7] * b[6] + a[8] * b[5] + a[9] * b[4]
  {
  }

  lemma Column14(a: seq<int>, b: seq<int>)
    requires |a| == |b| == 10
    ensures Conv(a, b, 10, 14) == a[5] * b[9] + a[6] * b[8] + a[7] * b[7] + a[8] * b[6] + a[9] * b[5]
  {
  }

  lemma Column15(a: seq<int>, b: seq<int>)
    requires |a| == |b| == 10
    ensures Conv(a, b, 10, 15) == a[6] * b[9] + a[7] * b[8] + a[8] * b[7] + a[9] * b[6]
  {
  }

  lemma Column16(a: seq<int>, b: seq<int>)
    requires |a| == |b| == 10
    ensures Conv(a, b, 10, 16) == a[7] * b[9] + a[8] * b[8] + a[9] * b[7]
  {
  }

  lemma Column17(a: seq<int>, b: seq<int>)
    requires |a| == |b| == 10
    ensures Conv(a, b, 10, 17) == a[8] * b[9] + a[9] * b[8]
  {
  }

  lemma Column18(a: seq<int>, b: seq<int>)
    requires |a| == |b| == 10
    ensures Conv(a, b, 10, 18) == a[9] * b[9]
  {
  }

  /** The nineteen columns of a product. */
  function ProductColumns(a: seq<int>, b: seq<int>): (p: seq<int>)
    requires |a| == |b| == 10
    ensures |p| == 19 && forall k :: 0 <= k < 19 ==> p[k] == Conv(a, b, 10, k)
  {
    hide Conv;
    Column0(a, b);
    Column1(a, b);
    Column2(a, b);
    Column3(a, b);
    Column4(a, b);
    Column5(a, b);
    Column6(a, b);
    Column7(a, b);
    Column8(a, b);
    Column9(a, b);
    Column10(a, b);
    Column11(a, b);
    Column12(a, b);
    Column13(a, b);
    Column14(a, b);
    Column15(a, b);
    Column16(a, b);
    Column17(a, b);
    Column18(a, b);
    [a[0] * b[0],
     a[0] * b[1] + a[1] * b[0],
     a[0] * b[2] + a[1] * b[1] + a[2] * b[0],
     a[0] * b[3] + a[1] * b[2] + a[2] * b[1] + a[3] * b[0],
     a[0] * b[4] + a[1] * b[3] + a[2] * b[2] + a[3] * b[1] + a[4] * b[0],
     a[0] * b[5] + a[1] * b[4] + a[2] * b[3] + a[3] * b[2] + a[4] * b[1] + a[5] * b[0],
     a[0] * b[6] + a[1] * b[5] + a[2] * b[4] + a[3] * b[3] + a[4] * b[2] + a[5] * b[1] + a[6] * b[0],
     a[0] * b[7] + a[1] * b[6] + a[2] * b[5] + a[3] * b[4] + a[4] * b[3] + a[5] * b[2] + a[6] * b[1] + a[7] * b[0],
     a[0] * b[8] + a[1] * b[7] + a[2] * b[6] + a[3] * b[5] + a[4] * b[4] + a[5] * b[3] + a[6] * b[2] + a[7] * b[1]
       + a[8] * b[0],
     a[0] * b[9] + a[1] * b[8] + a[2] * b[7] + a[3] * b[6] + a[4] * b[5] + a[5] * b[4] + a[6] * b[3] + a[7] * b[2]
       + a[8] * b[1] + a[9] * b[0],
     a[1] * b[9] + a[2] * b[8] + a[3] * b[7] + a[4] * b[6] + a[5] * b[5] + a[6] * b[4] + a[7] * b[3] + a[8] * b[2]
       + a[9] * b[1],
     a[2] * b[9] + a[3] * b[8] + a[4] * b[7] + a[5] * b[6] + a[6] * b[5] + a[7] * b[4] + a[8] * b[3] + a[9] * b[2],
     a[3] * b[9] + a[4] * b[8] + a[5] * b[7] + a[6] * b[6] + a[7] * b[5] + a[8] * b[4] + a[9] * b[3],
     a[4] * b[9] + a[5] * b[8] + a[6] * b[7] + a[7] * b[6] + a[8] * b[5] + a[9] * b[4],
     a[5] * b[9] + a[6] * b[8] + a[7] * b[7] + a[8] * b[6] + a[9] * b[5],
     a[6] * b[9] + a[7] * b[8] + a[8] * b[7] + a[9] * b[6],
     a[7] * b[9] + a[8] * b[8] + a[9] * b[7],
     a[8] * b[9] + a[9] * b[8],
     a[9] * b[9]]
  }

  /** The columns of a square, with the mixed terms doubled: the lowest seven. */
  function SquareColumnsLow(a: seq<int>): (p: seq<int>)
    requires |a| == 10
    ensures p == ProductColumns(a, a)[..7]
  {
    Twice(a[0], a[1]); Twice(a[0], a[2]); Twice(a[0], a[3]); Twice(a[0], a[4]); Twice(a[0], a[5]); Twice(a[0], a[6]);
    Twice(a[1], a[2]); Twice(a[1], a[3]); Twice(a[1], a[4]); Twice(a[1], a[5]);
    Twice(a[2], a[3]); Twice(a[2], a[4]);
    [a[0] * a[0],
     (a[0] * 2) * a[1],
     (a[0] * 2) * a[2] + a[1] * a[1],
     (a[0] * 2) * a[3] + (a[1] * 2) * a[2],
     (a[0] * 2) * a[4] + (a[1] * 2) * a[3] + a[2] * a[2],
     (a[0] * 2) * a[5] + (a[1] * 2) * a[4] + (a[2] * 2) * a[3],
     (a[0] * 2) * a[6] + (a[1] * 2) * a[5] + (a[2] * 2) * a[4] + a[3] * a[3]]
  }

  /** The five in the middle. */
  function SquareColumnsMiddle(a: seq<int>): (p: seq<int>)
    requires |a| == 10
    ensures p == ProductColumns(a, a)[7..12]
  {
    Twice(a[0], a[7]); Twice(a[0], a[8]); Twice(a[0], a[9]);
    Twice(a[1], a[6]); Twice(a[1], a[7]); Twice(a[1], a[8]); Twice(a[1], a[9]);
    Twice(a[2], a[5]); Twice(a[2], a[6]); Twice(a[2], a[7]); Twice(a[2], a[8]); Twice(a[2], a[9]);
    Twice(a[3], a[4]); Twice(a[3], a[5]); Twice(a[3], a[6]); Twice(a[3], a[7]); Twice(a[3], a[8]);
    Twice(a[4], a[5]); Twice(a[4], a[6]); Twice(a[4], a[7]);
    Twice(a[5], a[6]);
    [(a[0] * 2) * a[7] + (a[1] * 2) * a[6] + (a[2] * 2) * a[5] + (a[3] * 2) * a[4],
     (a[0] * 2) * a[8] + (a[1] * 2) * a[7] + (a[2] * 2) * a[6] + (a[3] * 2) * a[5] + a[4] * a[4],
     (a[0] * 2) * a[9] + (a[1] * 2) * a[8] + (a[2] * 2) * a[7] + (a[3] * 2) * a[6] + (a[4] * 2) * a[5],
     (a[1] * 2) * a[9] + (a[2] * 2) * a[8] + (a[3] * 2) * a[7] + (a[4] * 2) * a[6] + a[5] * a[5],
     (a[2] * 2) * a[9] + (a[3] * 2) * a[8] + (a[4] * 2) * a[7] + (a[5] * 2) * a[6]]
  }

  /** The highest seven. */
  function SquareColumnsHigh(a: seq<int>): (p: seq<int>)
    requires |a| == 10
    ensures p == ProductColumns(a, a)[12..]
  {
    Twice(a[3], a[9]);
    Twice(a[4], a[8]); Twice(a[4], a[9]);
    Twice(a[5], a[7]); Twice(a[5], a[8]); Twice(a[5], a[9]);
    Twice(a[6], a[7]); Twice(a[6], a[8]); Twice(a[6], a[9]);
    Twice(a[7], a[8]); Twice(a[7], a[9]);
    Twice(a[8], a[9]);
    [(a[3] * 2) * a[9] + (a[4] * 2) * a[8] + (a[5] * 2) * a[7] + a[6] * a[6],
     (a[4] * 2) * a[9] + (a[5] * 2) * a[8] + (a[6] * 2) * a[7],
     (a[5] * 2) * a[9] + (a[6] * 2) * a[8] + a[7] * a[7],
     (a[6] * 2) * a[9] + (a[7] * 2) * a[8],
     (a[7] * 2) * a[9] + a[8] * a[8],
     (a[8] * 2) * a[9],
     a[9] * a[9]]
  }

  lemma ProductColumnsFacts(a: seq<int>, b: seq<int>)
    requires Magnitude10(a, 8) && Magnitude10(b, 8)
    ensures ColumnsBounded(ProductColumns(a, b)) && Eval(ProductColumns(a, b), B) == Value10(a) * Value10(b)
  {
    hide Eval, Conv;
    var p := ProductColumns(a, b);
    forall k | 0 <= k < 19
      ensures 0 <= p[k] <= COLUMN
    {
      ConvBound(a, b, 10, k);
    }
    Column17(a, b);
    Column18(a, b);
    ProductBound(a[8], b[9], LIMB, TOP);
    ProductBound(a[9], b[8], TOP, LIMB);
    ProductBound(a[9], b[9], TOP, TOP);
    assert p == Columns(a, b, 10, 19);
    EvalColumns(a, b, 10, 19, B);
    assert a[..10] == a;
  }

  /** Writes ten limbs. */
  method Store10(r: array<int>, n: seq<int>)
    requires r.Length == |n| == 10
    modifies r
    ensures r[..] == n
  {
    forall i | 0 <= i < 10 {
      r[i] := n[i];
    }
  }

  /** secp256k1_fe_mul_inner; r may be a, but b may be neither. */
  method FeMulInner10(r: array<int>, a: array<int>, b: array<int>)
    requires r.Length == a.Length == b.Length == 10 && r != b && a != b
    requires Magnitude10(a[..], 8) && Magnitude10(b[..], 8)
    modifies r
    ensures M(Value10(r[..])) == M(old(Value10(a[..])) * old(Value10(b[..])))
    ensures Magnitude10(r[..], 1)
  {
    hide M, Eval, ProductColumns, ColumnsBounded, Magnitude10;
    ProductColumnsFacts(a[..], b[..]);
    var n := Reduce10(ProductColumns(a[..], b[..]));
    TenLimbs(n);
    Store10(r, n);
  }

  /** The limbs that are doubled before they are multiplied stay within 32 bits. */
  lemma Doubled32(a: seq<int>)
    requires Magnitude10(a, 8)
    ensures forall i :: 0 <= i < 10 ==> 0 <= a[i] * 2 < 0x1_00000000
  {
  }

  /** secp256k1_fe_sqr_inner */
  method FeSqrInner10(r: array<int>, a: array<int>)
    requires r.Length == a.Length == 10 && Magnitude10(a[..], 8)
    modifies r
    ensures M(Value10(r[..])) == M(old(Value10(a[..])) * old(Value10(a[..])))
    ensures Magnitude10(r[..], 1)
  {
    hide M, Eval, ProductColumns, SquareColumnsLow, SquareColumnsMiddle, SquareColumnsHigh, ColumnsBounded, Magnitude10;
    ghost var p := ProductColumns(a[..], a[..]);
    Doubled32(a[..]);
    ProductColumnsFacts(a[..], a[..]);
    assert p == p[..7] + p[7..12] + p[12..];
    var n := Reduce10(SquareColumnsLow(a[..]) + SquareColumnsMiddle(a[..]) + SquareColumnsHigh(a[..]));
    TenLimbs(n);
    Store10(r, n);
  }

  lemma TenLimbs(n: seq<int>)
    requires Magnitude10(n, 1)
    ensures |n| == 10
  {
  }

  /** The limbs n are a representation of the element x, of its magnitude. */
  predicate Represents10(n: seq<int>, x: Fe)
  {
    Magnitude10(n, x.mag) && M(Value10(n)) == x.v
  }

  /** The kernels refine the product and the square of field elements. */
  lemma MulRefines10(a: seq<int>, x: Fe, b: seq<int>, y: Fe, r: seq<int>)
    requires Represents10(a, x) && Represents10(b, y) && x.mag <= MAX_MUL_MAGNITUDE && y.mag <= MAX_MUL_MAGNITUDE
    requires Magnitude10(r, 1) && M(Value10(r)) == M(Value10(a) * Value10(b))
    ensures Represents10(r, FeMul(x, y)) && (a == b && x == y ==> Represents10(r, FeSqr(x)))
  {
    hide M, Magnitude10, Value10;
    Idempotent(Value10(a));
    Idempotent(Value10(b));
    Cong(Value10(a), x.v, Value10(b), y.v);
  }
}
