/**
 * Normalization of five-limb field elements (field_5x52_impl.h), in 64-bit arithmetic with its
 * wrap-around: full and weak normalization, the zero tests, negation, scaling and addition, and
 * the conversions to bytes and to storage.
 */
module Normalize {
  import opened Arith
  import opened Bitwise
  import opened Field
  import opened Limbs

  const MASK52: int := 0xFFFFFFFFFFFFF
  const MASK48: int := 0x0FFFFFFFFFFFF
  const P0: int := 0xFFFFEFFFFFC2F

  // The zero bits of the lowest limb of p, and of its highest limb within 52 bits.
  const P0_ZEROS: nat := 0x1000003D0
  const P4_ZEROS: nat := 0xF000000000000

  predicate Words(n: seq<int>)
  {
    |n| == 5 && forall i :: 0 <= i < 5 ==> Fits(n[i], TWO_64)
  }

  /** 64-bit addition. */
  function Add64(x: int, y: int): int
  {
    (x + y) % TWO_64
  }

  /** None of the additions of the first pass exceeds 64 bits. */
  predicate NoWrap(n: seq<int>)
    requires |n| == 5
  {
    var s0 := n[0] + n[4] / B48 * K;
    var s1 := n[1] + s0 / B1;
    var s2 := n[2] + s1 / B1;
    var s3 := n[3] + s2 / B1;
    s0 < TWO_64 && s1 < TWO_64 && s2 < TWO_64 && s3 < TWO_64
  }

  /** Reduced limbs, except that the top one may still reach bit 48. */
  predicate Carried(t0: int, t1: int, t2: int, t3: int, t4: int)
  {
    && Fits(t0, B1) && Fits(t1, B1) && Fits(t2, B1) && Fits(t3, B1)
    && Fits(t4, B48 + 4096)
  }

  /** The one representation of a residue. */
  predicate Canonical(n: seq<int>)
  {
    && |n| == 5
    && Fits(n[0], B1) && Fits(n[1], B1) && Fits(n[2], B1) && Fits(n[3], B1) && Fits(n[4], B48)
    && Value(n) < P
  }

  lemma CanonicalUnique(n: seq<int>, m: seq<int>)
    requires Canonical(n) && Canonical(m) && Value(n) == Value(m)
    ensures n == m
  {
    hide Limbs5;
    Nested(n);
    Nested(m);
    var a3, b3 := n[3] + B1 * n[4], m[3] + B1 * m[4];
    var a2, b2 := n[2] + B1 * a3, m[2] + B1 * b3;
    var a1, b1 := n[1] + B1 * a2, m[1] + B1 * b2;
    SameLimb(n[0], a1, m[0], b1);
    SameLimb(n[1], a2, m[1], b2);
    SameLimb(n[2], a3, m[2], b3);
    SameLimb(n[3], n[4], m[3], m[4]);
  }

  lemma Nested(n: seq<int>)
    requires |n| == 5
    ensures Value(n) == n[0] + B1 * (n[1] + B1 * (n[2] + B1 * (n[3] + B1 * n[4])))
  {
  }

  lemma SameLimb(x: int, a: int, y: int, b: int)
    requires Fits(x, B1) && Fits(y, B1) && x + B1 * a == y + B1 * b
    ensures x == y && a == b
  {
  }

  /** One limb of a carry pass: what it receives, what it keeps, and whether 64 bits were exceeded. */
  lemma Carry(t: int, carry: int) returns (wrap: int)
    requires Fits(t, TWO_64) && Fits(carry, TWO_64)
    ensures wrap == 0 || wrap == 1
    ensures Add64(t, carry) == t + carry - TWO_64 * wrap
    ensures wrap == 0 <==> t + carry < TWO_64
    ensures Fits(Add64(t, carry) / B1, 4096) && Fits(Add64(t, carry) % B1, B1)
  {
    wrap := if t + carry < TWO_64 then 0 else 1;
  }

  /**
   * The first pass: t4 loses its bits from 48 up, which come back at the bottom times 2^256 mod p.
   * The ghost result counts the wrap-arounds by their weight.
   */
  method FirstPass(n: seq<int>) returns (t0: int, t1: int, t2: int, t3: int, t4: int, ghost wraps: int)
    requires Words(n)
    ensures Carried(t0, t1, t2, t3, t4)
    ensures 0 <= wraps <= 1 + B1 + B2 + B3 && (wraps == 0 <==> NoWrap(n))
    ensures Limbs5(t0, t1, t2, t3, t4) == Value(n) - P * (n[4] / B48) - TWO_64 * wraps
  {
    hide Add64, Limbs5, NoWrap;
    t0, t1, t2, t3, t4 := n[0], n[1], n[2], n[3], n[4];
    var x := t4 / B48;
    t4 := t4 % B48;
    ghost var w0 := Carry(t0, x * K);
    t0 := Add64(t0, x * K);
    ghost var s0 := t0;
    ghost var w1 := Carry(t1, t0 / B1);
    t1 := Add64(t1, t0 / B1);
    t0 := t0 % B1;
    ghost var s1 := t1;
    ghost var w2 := Carry(t2, t1 / B1);
    t2 := Add64(t2, t1 / B1);
    t1 := t1 % B1;
    ghost var s2 := t2;
    ghost var w3 := Carry(t3, t2 / B1);
    t3 := Add64(t3, t2 / B1);
    t2 := t2 % B1;
    ghost var s3 := t3;
    t4 := t4 + t3 / B1;
    t3 := t3 % B1;
    wraps := w0 + w1 * B1 + w2 * B2 + w3 * B3;
    FirstPassValue(n, x, w0, w1, w2, w3, s0, s1, s2, s3);
    NoWrapMeaning(n, w0, w1, w2, w3, s0, s1, s2, s3);
  }

  lemma NoWrapMeaning(n: seq<int>, w0: int, w1: int, w2: int, w3: int, s0: int, s1: int, s2: int, s3: int)
    requires |n| == 5 && (w0 == 0 || w0 == 1) && (w1 == 0 || w1 == 1) && (w2 == 0 || w2 == 1) && (w3 == 0 || w3 == 1)
    requires s0 == n[0] + n[4] / B48 * K - TWO_64 * w0 && (w0 == 0 <==> n[0] + n[4] / B48 * K < TWO_64)
    requires s1 == n[1] + s0 / B1 - TWO_64 * w1 && (w1 == 0 <==> n[1] + s0 / B1 < TWO_64)
    requires s2 == n[2] + s1 / B1 - TWO_64 * w2 && (w2 == 0 <==> n[2] + s1 / B1 < TWO_64)
    requires s3 == n[3] + s2 / B1 - TWO_64 * w3 && (w3 == 0 <==> n[3] + s2 / B1 < TWO_64)
    ensures w0 + w1 * B1 + w2 * B2 + w3 * B3 == 0 <==> NoWrap(n)
  {
  }

  lemma FirstPassValue(n: seq<int>, x: int, w0: int, w1: int, w2: int, w3: int, s0: int, s1: int, s2: int, s3: int)
    requires |n| == 5 && x == n[4] / B48
    requires s0 == n[0] + x * K - TWO_64 * w0 && s1 == n[1] + s0 / B1 - TWO_64 * w1
    requires s2 == n[2] + s1 / B1 - TWO_64 * w2 && s3 == n[3] + s2 / B1 - TWO_64 * w3
    ensures Limbs5(s0 % B1, s1 % B1, s2 % B1, s3 % B1, n[4] % B48 + s3 / B1)
      == Value(n) - P * x - TWO_64 * (w0 + w1 * B1 + w2 * B2 + w3 * B3)
  {
  }

  /** Wrap-arounds always show: the residue survives exactly when there are none. */
  lemma WrapsShow(v: int, x: int, wraps: int)
    requires 0 <= wraps <= 1 + B1 + B2 + B3
    ensures M(v - P * x - TWO_64 * wraps) == M(v) <==> wraps == 0
  {
    var u := v - P * x - TWO_64 * wraps;
    hide M;
    AddMultiple(v, -x);
    assert P * -x == -(P * x);
    if M(u) == M(v) {
      SmallResidues();
      Cong(v - P * x, u, u, u);
      assert M(TWO_64 * wraps) == M(0);
      ResidueRange(TWO_64 * wraps);
    }
  }

  /** Whether a value after the first pass still has to be reduced: whether it is p or more. */
  predicate AtLeastP(t0: int, t1: int, t2: int, t3: int, t4: int)
  {
    t4 / B48 != 0 || (t4 == MASK48 && t1 == MASK52 && t2 == MASK52 && t3 == MASK52 && t0 >= P0)
  }

  lemma AtLeastPMeaning(t0: int, t1: int, t2: int, t3: int, t4: int)
    requires Carried(t0, t1, t2, t3, t4)
    ensures AtLeastP(t0, t1, t2, t3, t4) <==> Limbs5(t0, t1, t2, t3, t4) >= P
    ensures 0 <= Limbs5(t0, t1, t2, t3, t4) < 2 * P
  {
  }

  lemma MaskValue()
    ensures Pow2(52) - 1 == MASK52
  {
    hide Pow2;
    PowerValues();
    Pow2Add(32, 16);
    Pow2Add(48, 4);
    assert Pow2(4) == 16 by { Pow2Four(); }
  }

  lemma Pow2Four()
    ensures Pow2(4) == 16
  {
  }

  /** m = t1 & t2 & t3 tells whether the middle limbs are all ones. */
  lemma MiddleOnes(t1: nat, t2: nat, t3: nat)
    requires Fits(t1, B1) && Fits(t2, B1) && Fits(t3, B1)
    ensures And(And(t1, t2), t3) == MASK52 <==> t1 == MASK52 && t2 == MASK52 && t3 == MASK52
  {
    hide Pow2, And;
    MaskValue();
    AndOnes(t1, t2, 52);
    AndOnes(And(t1, t2), t3, 52);
  }

  /** The second pass adds x times 2^256 mod p and drops bit 256. */
  method SecondPass(t0: int, t1: int, t2: int, t3: int, t4: int, x: int) returns (n: seq<int>)
    requires Carried(t0, t1, t2, t3, t4) && x == (if AtLeastP(t0, t1, t2, t3, t4) then 1 else 0)
    ensures Canonical(n) && Value(n) == Limbs5(t0, t1, t2, t3, t4) - P * x
  {
    var s0 := t0 + x * K;
    var s1 := t1 + s0 / B1;
    s0 := s0 % B1;
    var s2 := t2 + s1 / B1;
    s1 := s1 % B1;
    var s3 := t3 + s2 / B1;
    s2 := s2 % B1;
    var s4 := t4 + s3 / B1;
    s3 := s3 % B1;
    AtLeastPMeaning(t0, t1, t2, t3, t4);
    assert Limbs5(s0, s1, s2, s3, s4) == Limbs5(t0, t1, t2, t3, t4) + x * K;
    assert s4 / B48 == x;
    s4 := s4 % B48;
    n := [s0, s1, s2, s3, s4];
  }

  lemma NormalValue(v: int, x: int, wraps: int, y: int, r: int)
    requires r == v - P * x - TWO_64 * wraps - P * y && 0 <= r < P && 0 <= wraps <= 1 + B1 + B2 + B3
    ensures r == M(v) <==> wraps == 0
  {
    hide M;
    var u := v - P * x - TWO_64 * wraps;
    WrapsShow(v, x, wraps);
    AddMultiple(u, -y);
    assert P * -y == -(P * y);
    ResidueRange(r);
  }

  /** Writes five limbs. */
  method Store(r: array<int>, n: seq<int>)
    requires r.Length == |n| == 5
    modifies r
    ensures r[..] == n
  {
    r[0], r[1], r[2], r[3], r[4] := n[0], n[1], n[2], n[3], n[4];
  }

  /** secp256k1_fe_normalize */
  method FeNormalize(r: array<int>)
    requires r.Length == 5 && Words(r[..])
    modifies r
    ensures Canonical(r[..])
    ensures Value(r[..]) == M(old(Value(r[..]))) <==> old(NoWrap(r[..]))
  {
    hide M, NoWrap, Carried, Limbs5, And;
    ghost var old_n := r[..];
    var t0, t1, t2, t3, t4;
    ghost var wraps;
    t0, t1, t2, t3, t4, wraps := FirstPass(r[..]);
    LimbsOf(t0, t1, t2, t3, t4);
    MiddleOnes(t1, t2, t3);
    var m := And(And(t1, t2), t3);
    var x := if t4 / B48 != 0 || (t4 == MASK48 && m == MASK52 && t0 >= P0) then 1 else 0;
    var n := SecondPass(t0, t1, t2, t3, t4, x);
    CanonicalRange(n);
    NormalValue(Value(old_n), old_n[4] / B48, wraps, x, Value(n));
    Store(r, n);
  }

  lemma CanonicalRange(n: seq<int>)
    requires Canonical(n)
    ensures 0 <= Value(n) < P
  {
  }

  /** secp256k1_fe_normalize_var: the second pass only when it is needed. */
  method FeNormalizeVar(r: array<int>)
    requires r.Length == 5 && Words(r[..])
    modifies r
    ensures Canonical(r[..])
    ensures Value(r[..]) == M(old(Value(r[..]))) <==> old(NoWrap(r[..]))
  {
    hide M, NoWrap, Limbs5, And;
    ghost var old_n := r[..];
    var t0, t1, t2, t3, t4;
    ghost var wraps;
    t0, t1, t2, t3, t4, wraps := FirstPass(r[..]);
    var n;
    AtLeastPMeaning(t0, t1, t2, t3, t4);
    MiddleOnes(t1, t2, t3);
    var m := And(And(t1, t2), t3);
    if t4 / B48 != 0 || (t4 == MASK48 && m == MASK52 && t0 >= P0) {
      n := SecondPass(t0, t1, t2, t3, t4, 1);
    } else {
      n := [t0, t1, t2, t3, t4];
      NoBit48(t4);
    }
    CanonicalRange(n);
    NormalValue(Value(old_n), old_n[4] / B48, wraps, if AtLeastP(t0, t1, t2, t3, t4) then 1 else 0, Value(n));
    Store(r, n);
  }

  lemma NoBit48(t4: int)
    requires t4 >= 0 && t4 / B48 == 0
    ensures t4 < B48
  {
  }

  /** secp256k1_fe_normalize_weak */
  method FeNormalizeWeakLimbs(r: array<int>)
    requires r.Length == 5 && Words(r[..])
    modifies r
    ensures Magnitude(r[..], 1)
    ensures M(Value(r[..])) == M(old(Value(r[..]))) <==> old(NoWrap(r[..]))
  {
    hide M, NoWrap, Limbs5;
    ghost var old_n := r[..];
    var t0, t1, t2, t3, t4;
    ghost var wraps;
    t0, t1, t2, t3, t4, wraps := FirstPass(r[..]);
    WrapsShow(Value(old_n), old_n[4] / B48, wraps);
    Store(r, [t0, t1, t2, t3, t4]);
  }

  /** The raw values 0 and p, which are all the multiples of p left after the first pass. */
  predicate RawZeroOrP(t0: int, t1: int, t2: int, t3: int, t4: int)
  {
    || (t0 == 0 && t1 == 0 && t2 == 0 && t3 == 0 && t4 == 0)
    || (t0 == P0 && t1 == MASK52 && t2 == MASK52 && t3 == MASK52 && t4 == MASK48)
  }

  lemma LimbsOf(t0: int, t1: int, t2: int, t3: int, t4: int)
    requires Carried(t0, t1, t2, t3, t4)
    ensures Fits(t0, B1) && Fits(t1, B1) && Fits(t2, B1) && Fits(t3, B1) && Fits(t4, B48 + 4096)
  {
  }

  /** What z0 and z1 of the zero tests tell about the limbs. */
  lemma BitTests(t0: nat, t1: nat, t2: nat, t3: nat, t4: nat)
    requires Fits(t0, B1) && Fits(t1, B1) && Fits(t2, B1) && Fits(t3, B1) && Fits(t4, B1)
    ensures Or(Or(Or(Or(t0, t1), t2), t3), t4) == 0 <==> t0 == 0 && t1 == 0 && t2 == 0 && t3 == 0 && t4 == 0
    ensures And(And(And(And(Xor(t0, P0_ZEROS), t1), t2), t3), Xor(t4, P4_ZEROS)) == MASK52
       <==> t0 == P0 && t1 == MASK52 && t2 == MASK52 && t3 == MASK52 && t4 == MASK48
  {
    hide Pow2, And, Or, Xor;
    OrZero(t0, t1);
    OrZero(Or(t0, t1), t2);
    OrZero(Or(Or(t0, t1), t2), t3);
    OrZero(Or(Or(Or(t0, t1), t2), t3), t4);
    MaskValue();
    var a, b := Xor(t0, P0_ZEROS), Xor(t4, P4_ZEROS);
    XorOnes(t0, P0_ZEROS, 52);
    XorOnes(t4, P4_ZEROS, 52);
    AndOnes(a, t1, 52);
    AndOnes(And(a, t1), t2, 52);
    AndOnes(And(And(a, t1), t2), t3, 52);
    AndOnes(And(And(And(a, t1), t2), t3), b, 52);
  }

  lemma RawMeaning(t0: int, t1: int, t2: int, t3: int, t4: int)
    requires Carried(t0, t1, t2, t3, t4)
    ensures RawZeroOrP(t0, t1, t2, t3, t4) <==> M(Limbs5(t0, t1, t2, t3, t4)) == 0
  {
    var v := Limbs5(t0, t1, t2, t3, t4);
    AtLeastPMeaning(t0, t1, t2, t3, t4);
    MIs(v);
    if v < P {
      DivModUnique(v, P, 0, v);
    } else {
      DivModUnique(v, P, 1, v - P);
    }
  }

  lemma ZeroUnwrapped(v: int, x: int)
    ensures M(v - P * x) == M(v)
  {
    AddMultiple(v, -x);
    assert P * -x == -(P * x);
  }

  /** secp256k1_fe_normalizes_to_zero */
  method NormalizesToZero(n: seq<int>) returns (zero: bool)
    requires Words(n)
    ensures NoWrap(n) ==> (zero <==> M(Value(n)) == 0)
  {
    hide M, NoWrap, Carried, Limbs5, And, Or, Xor;
    var t0, t1, t2, t3, t4;
    ghost var wraps;
    t0, t1, t2, t3, t4, wraps := FirstPass(n);
    RawMeaning(t0, t1, t2, t3, t4);
    ZeroUnwrapped(Value(n), n[4] / B48);
    LimbsOf(t0, t1, t2, t3, t4);
    BitTests(t0, t1, t2, t3, t4);
    var z0 := Or(Or(Or(Or(t0, t1), t2), t3), t4);
    var z1 := And(And(And(And(Xor(t0, P0_ZEROS), t1), t2), t3), Xor(t4, P4_ZEROS));
    zero := z0 == 0 || z1 == MASK52;
  }

  /** secp256k1_fe_normalizes_to_zero_var: most nonzero values are told by their lowest limb. */
  method NormalizesToZeroVar(n: seq<int>) returns (zero: bool)
    requires Words(n)
    ensures NoWrap(n) ==> (zero <==> M(Value(n)) == 0)
  {
    var t0 := n[0];
    var t4 := n[4];
    var x := t4 / B48;
    t0 := Add64(t0, x * K);
    var z0 := t0 % B1;
    LowestLimb(z0);
    var z1 := Xor(z0, P0_ZEROS);
    if z0 != 0 && z1 != MASK52 {
      FastExit(n);
      return false;
    }
    zero := NormalizesToZero(n);
  }

  lemma LowestLimb(z0: nat)
    requires Fits(z0, B1)
    ensures Xor(z0, P0_ZEROS) == MASK52 <==> z0 == P0
  {
    hide Pow2, Xor;
    MaskValue();
    XorOnes(z0, P0_ZEROS, 52);
  }

  lemma FastExit(n: seq<int>)
    requires Words(n) && var z := Add64(n[0], n[4] / B48 * K) % B1; z != 0 && z != P0
    ensures NoWrap(n) ==> M(Value(n)) != 0
  {
    hide M, Limbs5;
    if NoWrap(n) {
      var x := n[4] / B48;
      var s0 := n[0] + x * K;
      var s1 := n[1] + s0 / B1;
      var s2 := n[2] + s1 / B1;
      var s3 := n[3] + s2 / B1;
      FirstPassValue(n, x, 0, 0, 0, 0, s0, s1, s2, s3);
      RawMeaning(s0 % B1, s1 % B1, s2 % B1, s3 % B1, n[4] % B48 + s3 / B1);
      ZeroUnwrapped(Value(n), x);
    }
  }

  // ---- magnitudes ----

  /** Up to magnitude 2047 no addition of the first pass leaves 64 bits. */
  lemma MagnitudeNoWrap(n: seq<int>, m: int)
    requires Magnitude(n, m) && 0 <= m <= 2047
    ensures Words(n) && NoWrap(n)
  {
  }

  /** At magnitude 2048, which secp256k1_fe_verify still accepts, the first addition can leave 64 bits. */
  lemma MagnitudeLimit() returns (n: seq<int>)
    ensures Magnitude(n, 2048) && Words(n) && !NoWrap(n)
  {
    n := [4096 * (B1 - 1), 0, 0, 0, 4096 * (B48 - 1)];
  }

  /** secp256k1_fe_negate: subtracts from 2(m+1) times p, limb by limb. */
  method FeNegateLimbs(r: array<int>, a: array<int>, m: int)
    requires r.Length == a.Length == 5 && 0 <= m < 2048 && Magnitude(a[..], m)
    modifies r
    ensures Words(r[..]) && Magnitude(r[..], m + 1)
    ensures Value(r[..]) == 2 * (m + 1) * P - old(Value(a[..]))
  {
    var n := Negated(a[..], m);
    Store(r, n);
  }

  function Negated(a: seq<int>, m: int): (n: seq<int>)
    requires |a| == 5 && 0 <= m < 2048 && Magnitude(a, m)
    ensures Words(n) && Magnitude(n, m + 1) && Value(n) == 2 * (m + 1) * P - Value(a)
  {
    NegatedValue(a, m);
    NegatedLimb(a[0], P0, m);
    NegatedLimb(a[1], MASK52, m);
    NegatedLimb(a[2], MASK52, m);
    NegatedLimb(a[3], MASK52, m);
    NegatedTop(a[4], m);
    [P0 * 2 * (m + 1) - a[0], MASK52 * 2 * (m + 1) - a[1], MASK52 * 2 * (m + 1) - a[2], MASK52 * 2 * (m + 1) - a[3],
      MASK48 * 2 * (m + 1) - a[4]]
  }

  lemma NegatedLimb(x: int, c: int, m: int)
    requires 0 <= m < 2048 && 0 <= x <= 2 * m * (B1 - 1) && (c == P0 || c == MASK52)
    ensures 0 <= c * 2 * (m + 1) - x <= 2 * (m + 1) * (B1 - 1) && c * 2 * (m + 1) - x < TWO_64
  {
  }

  lemma NegatedTop(x: int, m: int)
    requires 0 <= m < 2048 && 0 <= x <= 2 * m * (B48 - 1)
    ensures 0 <= MASK48 * 2 * (m + 1) - x <= 2 * (m + 1) * (B48 - 1) && MASK48 * 2 * (m + 1) - x < TWO_64
  {
  }

  lemma NegatedValue(a: seq<int>, m: int)
    requires |a| == 5
    ensures Limbs5(P0 * 2 * (m + 1) - a[0], MASK52 * 2 * (m + 1) - a[1], MASK52 * 2 * (m + 1) - a[2],
      MASK52 * 2 * (m + 1) - a[3], MASK48 * 2 * (m + 1) - a[4])
      == 2 * (m + 1) * P - Value(a)
  {
  }

  /** secp256k1_fe_mul_int */
  method FeMulIntLimbs(r: array<int>, k: int, ghost m: int)
    requires r.Length == 5 && 0 <= k && 0 <= m && m * k <= 2048 && Magnitude(r[..], m)
    modifies r
    ensures Words(r[..]) && Magnitude(r[..], m * k)
    ensures Value(r[..]) == k * old(Value(r[..]))
  {
    ghost var n := r[..];
    r[0], r[1], r[2], r[3], r[4] := r[0] * k, r[1] * k, r[2] * k, r[3] * k, r[4] * k;
    Scaled(r[..], n, k, m);
  }

  lemma Scaled(r: seq<int>, n: seq<int>, k: int, m: int)
    requires 0 <= k && 0 <= m && m * k <= 2048 && Magnitude(n, m)
    requires r == [n[0] * k, n[1] * k, n[2] * k, n[3] * k, n[4] * k]
    ensures Words(r) && Magnitude(r, m * k) && Value(r) == k * Value(n)
  {
    Row(k, n[0], n[1], n[2], n[3], n[4]);
    forall i | 0 <= i < 5
      ensures n[i] * k == k * n[i]
    {
    }
    ScaledBound(n[0], k, m, B1 - 1);
    ScaledBound(n[1], k, m, B1 - 1);
    ScaledBound(n[2], k, m, B1 - 1);
    ScaledBound(n[3], k, m, B1 - 1);
    ScaledBound(n[4], k, m, B48 - 1);
  }

  lemma ScaledBound(x: int, k: int, m: int, c: int)
    requires 0 <= k && 0 <= m && 0 <= c && 0 <= x <= 2 * m * c
    ensures 0 <= x * k <= 2 * (m * k) * c
  {
    MulMono(k, 0, x);
    MulMono(k, x, 2 * m * c);
    assert (2 * m * c) * k == 2 * (m * k) * c;
  }

  /** secp256k1_fe_add */
  method FeAddLimbs(r: array<int>, a: array<int>, ghost m: int, ghost l: int)
    requires r.Length == a.Length == 5 && 0 <= m && 0 <= l && m + l <= 2048 && Magnitude(r[..], m)
      && Magnitude(a[..], l)
    modifies r
    ensures Words(r[..]) && Magnitude(r[..], m + l)
    ensures Value(r[..]) == old(Value(r[..])) + old(Value(a[..]))
  {
    r[0], r[1], r[2], r[3], r[4] := r[0] + a[0], r[1] + a[1], r[2] + a[2], r[3] + a[3], r[4] + a[4];
  }

  // ---- limbs refine field elements ----

  /** The limbs n are a representation of the element x, of its magnitude. */
  predicate Represents(n: seq<int>, x: Fe)
  {
    |n| == 5 && Magnitude(n, x.mag) && M(Value(n)) == x.v
  }

  /** The kernels compute the product of the elements that their operands represent. */
  lemma MulRefines(a: seq<int>, x: Fe, b: seq<int>, y: Fe, r: seq<int>)
    requires Represents(a, x) && Represents(b, y) && x.mag <= MAX_MUL_MAGNITUDE && y.mag <= MAX_MUL_MAGNITUDE
    requires |r| == 5 && Magnitude(r, 1) && M(Value(r)) == M(Value(a) * Value(b))
    ensures Represents(r, FeMul(x, y)) && (a == b && x == y ==> Represents(r, FeSqr(x)))
  {
    hide M, Magnitude, Value;
    Cong(Value(a), x.v, Value(b), y.v) by { Idempotent(Value(a)); Idempotent(Value(b)); }
  }

  lemma AddRefines(a: seq<int>, x: Fe, b: seq<int>, y: Fe, r: seq<int>)
    requires Represents(a, x) && Represents(b, y) && x.mag + y.mag <= MAX_MAGNITUDE
    requires |r| == 5 && Magnitude(r, x.mag + y.mag) && Value(r) == Value(a) + Value(b)
    ensures Represents(r, FeAdd(x, y))
  {
    hide M, Magnitude, Value;
    Idempotent(Value(a));
    Idempotent(Value(b));
    Cong(Value(a), x.v, Value(b), y.v);
  }

  lemma NegateRefines(a: seq<int>, x: Fe, r: seq<int>, m: nat)
    requires Represents(a, x) && x.mag <= m < MAX_MAGNITUDE
    requires |r| == 5 && Magnitude(r, m + 1) && Value(r) == 2 * (m + 1) * P - Value(a)
    ensures Represents(r, FeNegate(x, m))
  {
    hide M, Magnitude, Value;
    Idempotent(Value(a));
    Cong(0, 0, Value(a), x.v);
    AddMultiple(0 - Value(a), 2 * (m + 1));
  }

  lemma MulIntRefines(a: seq<int>, x: Fe, r: seq<int>, k: nat)
    requires Represents(a, x) && x.mag * k <= MAX_MAGNITUDE
    requires |r| == 5 && Magnitude(r, x.mag * k) && Value(r) == k * Value(a)
    ensures Represents(r, FeMulInt(x, k))
  {
    hide M, Magnitude, Value;
    Idempotent(Value(a));
    Cong(k, k, Value(a), x.v);
  }

  // ---- comparison ----

  /** secp256k1_fe_cmp_var, from the top limb down. */
  method FeCmpVar(a: array<int>, b: array<int>) returns (c: int)
    requires a.Length == b.Length == 5 && Canonical(a[..]) && Canonical(b[..])
    ensures c == if Value(a[..]) > Value(b[..]) then 1 else if Value(a[..]) < Value(b[..]) then -1 else 0
  {
    hide Limbs5;
    var i := 4;
    while i >= 0
      invariant -1 <= i <= 4
      invariant forall k :: i < k < 5 ==> a[k] == b[k]
    {
      if a[i] > b[i] {
        TopDifference(a[..], b[..], i);
        return 1;
      }
      if a[i] < b[i] {
        TopDifference(b[..], a[..], i);
        return -1;
      }
      i := i - 1;
    }
    assert a[..] == b[..];
    return 0;
  }

  lemma TopDifference(a: seq<int>, b: seq<int>, i: nat)
    requires Canonical(a) && Canonical(b) && i < 5 && a[i] > b[i] && forall k :: i < k < 5 ==> a[k] == b[k]
    ensures Value(a) > Value(b)
  {
    if i == 0 { } else if i == 1 { } else if i == 2 { } else if i == 3 { } else { }
  }
}
