/** Powers of two, bit fields of naturals, and positional evaluation of signed digit strings. */
module Arith {

  function Pow2(n: nat): (r: int)
    ensures r > 0
  {
    if n == 0 then 1 else 2 * Pow2(n - 1)
  }

  const SIZE_MAX: nat := 0xFFFFFFFFFFFFFFFF

  const TWO_128: int := 0x1_00000000000000000000000000000000

  lemma Pow2Step(n: nat)
    requires n > 0
    ensures Pow2(n) == 2 * Pow2(n - 1)
  {
  }

  lemma Pow2Small()
    ensures Pow2(0) == 1 && Pow2(1) == 2
  {
  }

  lemma {:induction false} Pow2Add(a: nat, b: nat)
    ensures Pow2(a + b) == Pow2(a) * Pow2(b)
  {
    if a != 0 {
      Pow2Add(a - 1, b);
      assert Pow2(a + b) == 2 * Pow2(a - 1 + b);
      MulAssoc(2, Pow2(a - 1), Pow2(b));
    }
  }

  lemma Pow2Of8()
    ensures Pow2(8) == 0x100
  {
  }

  lemma PowerValues()
    ensures Pow2(8) == 0x100 && Pow2(16) == 0x10000 && Pow2(32) == 0x1_00000000
    ensures Pow2(64) == 0x1_0000000000000000 && Pow2(128) == TWO_128
  {
    hide Pow2;
    Pow2Of8();
    Pow2Add(8, 8);
    Pow2Add(16, 16);
    Pow2Add(32, 32);
    Pow2Add(64, 64);
  }

  lemma {:induction false} Pow2Mono(a: nat, b: nat)
    requires a <= b
    ensures Pow2(a) <= Pow2(b)
    ensures a < b ==> 2 * Pow2(a) <= Pow2(b)
    decreases b - a
  {
    if a < b {
      Pow2Mono(a + 1, b);
    }
  }

  lemma MulAssoc(x: int, y: int, z: int)
    ensures (x * y) * z == x * (y * z)
  {
  }

  lemma Swap(x: int, y: int)
    ensures x * y == y * x
  {
  }

  lemma SquareProduct(a: int, b: int)
    ensures (a * b) * (a * b) == (a * a) * (b * b)
  {
  }

  lemma CrossProduct(a: int, b: int, c: int, d: int)
    ensures (a * b) * (c * d) == (a * c) * (b * d)
  {
  }

  lemma MulDist(x: int, y: int, z: int)
    ensures x * (y + z) == x * y + x * z
    ensures x * (y - z) == x * y - x * z
  {
  }

  lemma MulMono(x: int, y: int, z: int)
    requires 0 <= x && y <= z
    ensures x * y <= x * z
  {
  }

  lemma ProductBound(x: int, y: int, a: int, b: int)
    requires 0 <= x <= a && 0 <= y <= b
    ensures 0 <= x * y <= a * b
  {
    MulMono(x, 0, y);
    MulMono(x, y, b);
    MulMono(b, x, a);
  }

  lemma Twice(x: int, y: int)
    ensures (x * 2) * y == x * y + y * x && x * (y * 2) == x * y + y * x
  {
  }

  /** Quotient and remainder are determined by the Euclidean equation. */
  lemma DivModUnique(x: int, d: int, q: int, r: int)
    requires 0 <= r < d && x == d * q + r
    ensures x / d == q && x % d == r
  {
    var e := x / d - q;
    assert d * e == r - x % d by { MulDist(d, x / d, q); }
    if e > 0 {
      MulMono(d, 1, e);
    } else if e < 0 {
      MulMono(d, e, -1);
    }
  }

  lemma QuotientNonNegative(x: int, d: int)
    requires 0 <= x && 0 < d
    ensures x / d >= 0
  {
  }

  lemma DivDiv(x: nat, c: nat, d: nat)
    requires c > 0 && d > 0
    ensures c * d > 0
    ensures x / (c * d) == (x / c) / d
  {
    var y := x / c;
    var q, r := y / d, y % d;
    MulMono(c, r, d - 1);
    MulDist(c, d, 1);
    assert c * y == c * (d * q) + c * r by { MulDist(c, d * q, r); }
    MulAssoc(c, d, q);
    assert 0 < c * d by { MulMono(c, 1, d); }
    DivModUnique(x, c * d, q, c * r + x % c);
  }

  /** The field of `count` bits of s that starts at bit `offset`. */
  function Bits(s: nat, offset: nat, count: nat): (r: nat)
    ensures r < Pow2(count)
  {
    (s / Pow2(offset)) % Pow2(count)
  }

  /** Reading `count` bits at `offset` peels them off the part of s from `offset` upwards. */
  lemma BitsSplit(s: nat, offset: nat, count: nat)
    ensures s / Pow2(offset) == Bits(s, offset, count) + Pow2(count) * (s / Pow2(offset + count))
  {
    Pow2Add(offset, count);
    DivDiv(s, Pow2(offset), Pow2(count));
  }

  lemma DivSmall(s: nat, n: nat)
    requires s < Pow2(n)
    ensures s / Pow2(n) == 0
  {
    DivModUnique(s, Pow2(n), 0, s);
  }

  /** A bit field lying above the highest set bit reads as zero. */
  lemma BitsAbove(s: nat, k: nat, offset: nat, count: nat)
    requires s < Pow2(k) && k <= offset
    ensures s / Pow2(offset) == 0 && Bits(s, offset, count) == 0
  {
    Pow2Mono(k, offset);
    DivSmall(s, offset);
    DivModUnique(0, Pow2(count), 0, 0);
  }

  lemma DivLt(s: nat, k: nat, offset: nat)
    requires s < Pow2(k) && offset <= k
    ensures s / Pow2(offset) < Pow2(k - offset)
  {
    Pow2Add(offset, k - offset);
    var q := s / Pow2(offset);
    if q >= Pow2(k - offset) {
      MulMono(Pow2(offset), Pow2(k - offset), q);
    }
  }

  /** Value of a string of signed digits, least significant digit first. */
  function Eval(digits: seq<int>, base: int): int
  {
    if digits == [] then 0 else digits[0] + base * Eval(digits[1..], base)
  }

  lemma EvalOne(x: int, base: int)
    ensures Eval([x], base) == x
  {
    assert Eval([x], base) == x + base * Eval([], base);
  }

  lemma EvalHead(d: seq<int>, b: int)
    requires d != []
    ensures Eval(d, b) == d[0] + b * Eval(d[1..], b)
  {
  }

  lemma EvalEmpty(base: int)
    ensures Eval([], base) == 0
  {
  }

  function Power(base: int, e: nat): int
  {
    if e == 0 then 1 else base * Power(base, e - 1)
  }

  lemma {:induction false} EvalAppend(a: seq<int>, b: seq<int>, base: int)
    ensures Eval(a + b, base) == Eval(a, base) + Power(base, |a|) * Eval(b, base)
  {
    if a == [] {
      assert a + b == b;
    } else {
      var rest := a[1..];
      assert (a + b)[0] == a[0] && (a + b)[1..] == rest + b;
      EvalAppend(rest, b, base);
      var p, e := Power(base, |rest|), Eval(b, base);
      MulDist(base, Eval(rest, base), p * e);
      MulAssoc(base, p, e);
    }
  }

  /** Overwriting one digit moves the value by the change times the weight of its position. */
  lemma {:induction false} EvalUpdate(a: seq<int>, i: nat, v: int, base: int)
    requires i < |a|
    ensures Eval(a[i := v], base) == Eval(a, base) + Power(base, i) * (v - a[i])
  {
    var rest := a[1..];
    if i == 0 {
      assert a[0 := v][1..] == rest;
    } else {
      assert a[i := v][1..] == rest[i - 1 := v];
      EvalUpdate(rest, i - 1, v, base);
      var p, e := Power(base, i - 1), v - a[i];
      MulDist(base, Eval(rest, base), p * e);
      MulAssoc(base, p, e);
    }
  }

  lemma {:induction false} EvalZeros(a: seq<int>, base: int)
    requires forall i :: 0 <= i < |a| ==> a[i] == 0
    ensures Eval(a, base) == 0
  {
    if a != [] {
      EvalZeros(a[1..], base);
    }
  }

  /** Appending zero digits leaves the value unchanged. */
  lemma EvalPadded(a: seq<int>, b: seq<int>, base: int)
    requires forall i :: 0 <= i < |b| ==> b[i] == 0
    ensures Eval(a + b, base) == Eval(a, base)
  {
    EvalAppend(a, b, base);
    EvalZeros(b, base);
  }

  lemma {:induction false} PowerOfPow2(w: nat, e: nat)
    ensures Power(Pow2(w), e) == Pow2(w * e)
  {
    if e == 0 {
      assert w * e == 0;
    } else {
      PowerOfPow2(w, e - 1);
      MulDist(w, e - 1, 1);
      Pow2Add(w, w * (e - 1));
    }
  }

  lemma PowerOfTwo(e: nat)
    ensures Power(2, e) == Pow2(e)
  {
    assert Pow2(1) == 2;
    PowerOfPow2(1, e);
  }
}
