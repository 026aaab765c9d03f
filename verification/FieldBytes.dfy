/** Conversions of field elements to 32 bytes and to the four words of storage. */
module FieldBytes {
  import opened Arith
  import opened Bitwise
  import opened Field
  import opened Limbs
  import opened Normalize
  import opened Bytes

  const TWO_48: int := 0x1000000000000

  lemma ExtendSix(s: seq<int>, t: seq<int>)
    requires |t| == 6
    ensures BigEndian(s + t) == BigEndian(s) * TWO_48 + BigEndian(t)
  {
    hide BigEndian;
    BigEndianConcat(s, t);
    Power6();
  }

  lemma ExtendOne(s: seq<int>, x: int)
    ensures BigEndian(s + [x]) == BigEndian(s) * 256 + x
  {
    assert (s + [x])[..|s|] == s;
  }

  lemma Power6()
    ensures Power(256, 6) == TWO_48
  {
    assert Power(256, 3) == 0x1000000;
    assert Power(256, 6) == 256 * (256 * (256 * Power(256, 3)));
  }

  /** The parts of 32 bytes, at their weights. */
  function PartValue(v0: int, v6: int, x12: int, v13: int, v19: int, x25: int, v26: int): int
  {
    v26 + x25 * TWO_48 + v19 * (TWO_48 * 256) + v13 * B2 + x12 * (B2 * TWO_48) + v6 * (B2 * TWO_48 * 256) + v0 * B4
  }

  /** A string of 32 bytes, cut where the limbs meet. */
  lemma Chunks(p0: seq<int>, p6: seq<int>, x12: int, p13: seq<int>, p19: seq<int>, x25: int, p26: seq<int>)
    requires |p0| == |p6| == |p13| == |p19| == |p26| == 6
    ensures BigEndian(p0 + p6 + [x12] + p13 + p19 + [x25] + p26)
      == PartValue(BigEndian(p0), BigEndian(p6), x12, BigEndian(p13), BigEndian(p19), x25, BigEndian(p26))
  {
    hide BigEndian;
    ExtendSix(p0, p6);
    ExtendOne(p0 + p6, x12);
    ExtendSix(p0 + p6 + [x12], p13);
    ExtendSix(p0 + p6 + [x12] + p13, p19);
    ExtendOne(p0 + p6 + [x12] + p13 + p19, x25);
    ExtendSix(p0 + p6 + [x12] + p13 + p19 + [x25], p26);
    ChunkSum(BigEndian(p0), BigEndian(p6), x12, BigEndian(p13), BigEndian(p19), x25, BigEndian(p26));
  }

  lemma ChunkSum(v0: int, v6: int, x12: int, v13: int, v19: int, x25: int, v26: int)
    ensures (((((v0 * TWO_48 + v6) * 256 + x12) * TWO_48 + v13) * TWO_48 + v19) * 256 + x25) * TWO_48 + v26
      == PartValue(v0, v6, x12, v13, v19, x25, v26)
  {
  }

  lemma SixRange(s: seq<int>)
    requires |s| == 6 && IsBytes(s)
    ensures 0 <= BigEndian(s) < TWO_48
  {
    hide BigEndian;
    BigEndianRange(s);
    Power6();
  }

  lemma LimbsOfParts(p0: seq<int>, p6: seq<int>, x12: int, p13: seq<int>, p19: seq<int>, x25: int, p26: seq<int>,
      n: seq<int>)
    requires |p0| == |p6| == |p13| == |p19| == |p26| == 6 && |n| == 5 && 0 <= x12 < 256 && 0 <= x25 < 256
    requires IsBytes(p0) && IsBytes(p6) && IsBytes(p13) && IsBytes(p19) && IsBytes(p26)
    requires n[0] == BigEndian(p26) + x25 % 16 * TWO_48
    requires n[1] == x25 / 16 + BigEndian(p19) * 16
    requires n[2] == BigEndian(p13) + x12 % 16 * TWO_48
    requires n[3] == x12 / 16 + BigEndian(p6) * 16
    requires n[4] == BigEndian(p0)
    ensures Value(n) == BigEndian(p0 + p6 + [x12] + p13 + p19 + [x25] + p26)
    ensures Fits(n[0], B1) && Fits(n[1], B1) && Fits(n[2], B1) && Fits(n[3], B1) && Fits(n[4], B48)
  {
    hide BigEndian, IsBytes, Limbs5, Fits, PartValue;
    Chunks(p0, p6, x12, p13, p19, x25, p26);
    SixRange(p0);
    SixRange(p6);
    SixRange(p13);
    SixRange(p19);
    SixRange(p26);
    PartLimbs(BigEndian(p0), BigEndian(p6), x12, BigEndian(p13), BigEndian(p19), x25, BigEndian(p26), n[0], n[1], n[2],
      n[3], n[4]);
  }

  lemma PartLimbs(v0: int, v6: int, x12: int, v13: int, v19: int, x25: int, v26: int, n0: int, n1: int, n2: int,
      n3: int, n4: int)
    requires 0 <= v0 < TWO_48 && 0 <= v6 < TWO_48 && 0 <= v13 < TWO_48 && 0 <= v19 < TWO_48 && 0 <= v26 < TWO_48
    requires 0 <= x12 < 256 && 0 <= x25 < 256
    requires n0 == v26 + x25 % 16 * TWO_48 && n1 == x25 / 16 + v19 * 16 && n2 == v13 + x12 % 16 * TWO_48
      && n3 == x12 / 16 + v6 * 16 && n4 == v0
    ensures Limbs5(n0, n1, n2, n3, n4) == PartValue(v0, v6, x12, v13, v19, x25, v26)
    ensures Fits(n0, B1) && Fits(n1, B1) && Fits(n2, B1) && Fits(n3, B1) && Fits(n4, B48)
  {
    PartSum(v0, v6, x12, v13, v19, x25, v26);
    PartRange(v0, v6, x12, v13, v19, x25, v26);
  }

  lemma PartSum(v0: int, v6: int, x12: int, v13: int, v19: int, x25: int, v26: int)
    ensures Limbs5(v26 + x25 % 16 * TWO_48, x25 / 16 + v19 * 16, v13 + x12 % 16 * TWO_48, x12 / 16 + v6 * 16, v0)
      == PartValue(v0, v6, x12, v13, v19, x25, v26)
  {
  }

  lemma PartRange(v0: int, v6: int, x12: int, v13: int, v19: int, x25: int, v26: int)
    requires 0 <= v0 < TWO_48 && 0 <= v6 < TWO_48 && 0 <= v13 < TWO_48 && 0 <= v19 < TWO_48 && 0 <= v26 < TWO_48
    requires 0 <= x12 < 256 && 0 <= x25 < 256
    ensures Fits(v26 + x25 % 16 * TWO_48, B1) && Fits(x25 / 16 + v19 * 16, B1) && Fits(v13 + x12 % 16 * TWO_48, B1)
    ensures Fits(x12 / 16 + v6 * 16, B1) && Fits(v0, B48)
  {
  }

  lemma LimbsOfChunks(a: seq<int>, n: seq<int>)
    requires |a| == 32 && IsBytes(a) && |n| == 5
    requires n[0] == BigEndian(a[26..32]) + a[25] % 16 * TWO_48
    requires n[1] == a[25] / 16 + BigEndian(a[19..25]) * 16
    requires n[2] == BigEndian(a[13..19]) + a[12] % 16 * TWO_48
    requires n[3] == a[12] / 16 + BigEndian(a[6..12]) * 16
    requires n[4] == BigEndian(a[0..6])
    ensures Value(n) == BigEndian(a)
    ensures Fits(n[0], B1) && Fits(n[1], B1) && Fits(n[2], B1) && Fits(n[3], B1) && Fits(n[4], B48)
  {
    hide BigEndian, Limbs5;
    LimbsOfParts(a[0..6], a[6..12], a[12], a[13..19], a[19..25], a[25], a[26..32], n);
    assert a == a[0..6] + a[6..12] + [a[12]] + a[13..19] + a[19..25] + [a[25]] + a[26..32];
  }

  /** secp256k1_fe_set_b32: reads the number, and says whether it is a canonical residue. */
  method FeSetB32(r: array<int>, a: seq<int>) returns (ok: bool)
    requires r.Length == 5 && |a| == 32 && IsBytes(a)
    modifies r
    ensures Value(r[..]) == BigEndian(a)
    ensures ok <==> BigEndian(a) < P
    ensures ok ==> Canonical(r[..])
  {
    hide BigEndian, Limbs5, Canonical, And;
    var n0 := a[31] + a[30] * 0x100 + a[29] * 0x10000 + a[28] * 0x1000000 + a[27] * 0x100000000
      + a[26] * 0x10000000000 + a[25] % 16 * TWO_48;
    var n1 := a[25] / 16 % 16 + a[24] * 0x10 + a[23] * 0x1000 + a[22] * 0x100000 + a[21] * 0x10000000
      + a[20] * 0x1000000000 + a[19] * 0x100000000000;
    var n2 := a[18] + a[17] * 0x100 + a[16] * 0x10000 + a[15] * 0x1000000 + a[14] * 0x100000000
      + a[13] * 0x10000000000 + a[12] % 16 * TWO_48;
    var n3 := a[12] / 16 % 16 + a[11] * 0x10 + a[10] * 0x1000 + a[9] * 0x100000 + a[8] * 0x10000000
      + a[7] * 0x1000000000 + a[6] * 0x100000000000;
    var n4 := a[5] + a[4] * 0x100 + a[3] * 0x10000 + a[2] * 0x1000000 + a[1] * 0x100000000 + a[0] * 0x10000000000;
    SixBytes(a[26..32]);
    SixBytes(a[19..25]);
    SixBytes(a[13..19]);
    SixBytes(a[6..12]);
    SixBytes(a[0..6]);
    LimbsOfChunks(a, [n0, n1, n2, n3, n4]);
    Store(r, [n0, n1, n2, n3, n4]);
    CanonicalTest(r[..]);
    MiddleOnes(r[3], r[2], r[1]);
    ok := !(r[4] == MASK48 && And(And(r[3], r[2]), r[1]) == MASK52 && r[0] >= P0);
  }

  lemma CanonicalTest(n: seq<int>)
    requires |n| == 5 && Fits(n[0], B1) && Fits(n[1], B1) && Fits(n[2], B1) && Fits(n[3], B1) && Fits(n[4], B48)
    ensures Value(n) < P <==> !(n[4] == MASK48 && n[3] == MASK52 && n[2] == MASK52 && n[1] == MASK52 && n[0] >= P0)
    ensures Value(n) < P ==> Canonical(n)
  {
  }

  /** The six bytes of a number below 2^48. */
  function SixOf(x: int): (s: seq<int>)
    requires 0 <= x < TWO_48
    ensures |s| == 6 && IsBytes(s) && BigEndian(s) == x
  {
    var s := [x / 0x10000000000 % 0x100, x / 0x100000000 % 0x100, x / 0x1000000 % 0x100, x / 0x10000 % 0x100,
      x / 0x100 % 0x100, x % 0x100];
    SixBytes(s);
    SixDigits(x);
    s
  }

  lemma SixDigits(x: int)
    requires 0 <= x < TWO_48
    ensures x == x % 0x100 + x / 0x100 % 0x100 * 0x100 + x / 0x10000 % 0x100 * 0x10000
      + x / 0x1000000 % 0x100 * 0x1000000
      + x / 0x100000000 % 0x100 * 0x100000000 + x / 0x10000000000 % 0x100 * 0x10000000000
  {
    DivDiv(x, 0x100, 0x100);
    DivDiv(x, 0x10000, 0x100);
    DivDiv(x, 0x1000000, 0x100);
    DivDiv(x, 0x100000000, 0x100);
    var y1, y2, y3, y4, y5 := x / 0x100, x / 0x10000, x / 0x1000000, x / 0x100000000, x / 0x10000000000;
    Telescope(x, y1, y2, y3, y4, y5);
    assert 0 <= y5 < 0x100;
  }

  lemma Telescope(x: int, y1: int, y2: int, y3: int, y4: int, y5: int)
    requires y1 == x / 0x100 && y2 == y1 / 0x100 && y3 == y2 / 0x100 && y4 == y3 / 0x100 && y5 == y4 / 0x100
    ensures x == x % 0x100 + y1 % 0x100 * 0x100 + y2 % 0x100 * 0x10000 + y3 % 0x100 * 0x1000000
      + y4 % 0x100 * 0x100000000 + y5 * 0x10000000000
  {
  }

  /** secp256k1_fe_get_b32 */
  method FeGetB32(a: array<int>) returns (r: seq<int>)
    requires a.Length == 5 && Canonical(a[..])
    ensures |r| == 32 && IsBytes(r) && BigEndian(r) == Value(a[..])
  {
    hide BigEndian, Limbs5, SixOf;
    ghost var n := a[..];
    CanonicalLimbs(n);
    var r0 := SixOf(a[4]);
    var r6 := SixOf(a[3] / 16);
    var r12 := a[2] / TWO_48 % 16 + a[3] % 16 * 16;
    var r13 := SixOf(a[2] % TWO_48);
    var r19 := SixOf(a[1] / 16);
    var r25 := a[0] / TWO_48 % 16 + a[1] % 16 * 16;
    var r26 := SixOf(a[0] % TWO_48);
    r := r0 + r6 + [r12] + r13 + r19 + [r25] + r26;
    LimbsOfParts(r0, r6, r12, r13, r19, r25, r26, n);
  }

  lemma CanonicalLimbs(n: seq<int>)
    requires Canonical(n)
    ensures Fits(n[0], B1) && Fits(n[1], B1) && Fits(n[2], B1) && Fits(n[3], B1) && Fits(n[4], B48)
  {
  }

  /** Reading back the bytes written gives the same limbs. */
  method GetThenSet(a: array<int>, r: array<int>) returns (ok: bool)
    requires a.Length == r.Length == 5 && Canonical(a[..])
    modifies r
    ensures ok && r[..] == old(a[..])
  {
    hide Canonical, BigEndian;
    ghost var n := a[..];
    CanonicalRange(n);
    var bytes := FeGetB32(a);
    ok := FeSetB32(r, bytes);
    CanonicalUnique(n, r[..]);
  }

  /** Writing what was read gives the same bytes, for every string that is accepted. */
  method SetThenGet(bytes: seq<int>) returns (ok: bool, back: seq<int>)
    requires |bytes| == 32 && IsBytes(bytes)
    ensures ok <==> BigEndian(bytes) < P
    ensures ok ==> back == bytes
  {
    hide Canonical, BigEndian;
    var r := new int[5];
    ok := FeSetB32(r, bytes);
    back := [];
    if ok {
      back := FeGetB32(r);
      BigEndianInjective(bytes, back);
    }
  }

  // ---- storage ----

  /** The number that four 64-bit words stand for. */
  function StorageValue(s: seq<int>): int
    requires |s| == 4
  {
    s[0] + s[1] * TWO_64 + s[2] * (TWO_64 * TWO_64) + s[3] * (TWO_64 * TWO_64 * TWO_64)
  }

  /** A shift to the left that drops what leaves the word keeps the low bits of its operand. */
  lemma ShiftOut(x: int, c: int, d: int)
    requires c > 0 && d > 0 && x >= 0
    ensures c * d > 0 && x * c % (c * d) == c * (x % d)
  {
    MulMono(c, 1, d);
    MulMono(c, x % d, d - 1);
    MulDist(c, d * (x / d), x % d);
    MulAssoc(c, d, x / d);
    MulDist(c, d, 1);
    DivModUnique(x * c, c * d, x / d, c * (x % d));
  }

  /** secp256k1_fe_to_storage; shifts to the left drop what leaves 64 bits. */
  function FeToStorage(n: seq<int>): (s: seq<int>)
    requires Canonical(n)
    ensures |s| == 4 && (forall i :: 0 <= i < 4 ==> Fits(s[i], TWO_64)) && StorageValue(s) == Value(n)
  {
    CanonicalLimbs(n);
    StoredWords(n[0], n[1], n[2], n[3], n[4]);
    [n[0] + n[1] * 0x10000000000000 % TWO_64,
     n[1] / 0x1000 + n[2] * 0x10000000000 % TWO_64,
     n[2] / 0x1000000 + n[3] * 0x10000000 % TWO_64,
     n[3] / 0x1000000000 + n[4] * 0x10000 % TWO_64]
  }

  lemma StoredWords(n0: int, n1: int, n2: int, n3: int, n4: int)
    requires Fits(n0, B1) && Fits(n1, B1) && Fits(n2, B1) && Fits(n3, B1) && Fits(n4, B48)
    ensures var s0 := n0 + n1 * 0x10000000000000 % TWO_64; var s1 := n1 / 0x1000 + n2 * 0x10000000000 % TWO_64;
      var s2 := n2 / 0x1000000 + n3 * 0x10000000 % TWO_64; var s3 := n3 / 0x1000000000 + n4 * 0x10000 % TWO_64;
      && Fits(s0, TWO_64) && Fits(s1, TWO_64) && Fits(s2, TWO_64) && Fits(s3, TWO_64)
      && s0 + s1 * TWO_64 + s2 * (TWO_64 * TWO_64) + s3 * (TWO_64 * TWO_64 * TWO_64) == Limbs5(n0, n1, n2, n3, n4)
  {
    hide Limbs5;
    ShiftOut(n1, 0x10000000000000, 0x1000);
    ShiftOut(n2, 0x10000000000, 0x1000000);
    ShiftOut(n3, 0x10000000, 0x1000000000);
    ShiftOut(n4, 0x10000, 0x1000000000000);
    WordSum(n0, n1 % 0x1000, n1 / 0x1000, n2 % 0x1000000, n2 / 0x1000000, n3 % 0x1000000000, n3 / 0x1000000000, n4);
  }

  lemma WordSum(n0: int, a1: int, b1: int, a2: int, b2: int, a3: int, b3: int, n4: int)
    ensures (n0 + 0x10000000000000 * a1) + (b1 + 0x10000000000 * a2) * TWO_64
      + (b2 + 0x10000000 * a3) * (TWO_64 * TWO_64)
      + (b3 + 0x10000 * n4) * (TWO_64 * TWO_64 * TWO_64)
        == Limbs5(n0, a1 + 0x1000 * b1, a2 + 0x1000000 * b2, a3 + 0x1000000000 * b3, n4)
  {
  }

  /** secp256k1_fe_from_storage */
  function FeFromStorage(s: seq<int>): (n: seq<int>)
    requires |s| == 4 && forall i :: 0 <= i < 4 ==> Fits(s[i], TWO_64)
    ensures |n| == 5 && Value(n) == StorageValue(s)
    ensures Fits(n[0], B1) && Fits(n[1], B1) && Fits(n[2], B1) && Fits(n[3], B1) && Fits(n[4], B48)
  {
    LoadedLimbs(s[0], s[1], s[2], s[3]);
    [s[0] % B1,
     s[0] / 0x10000000000000 + s[1] * 0x1000 % B1,
     s[1] / 0x10000000000 + s[2] * 0x1000000 % B1,
     s[2] / 0x10000000 + s[3] * 0x1000000000 % B1,
     s[3] / 0x10000]
  }

  lemma LoadedLimbs(s0: int, s1: int, s2: int, s3: int)
    requires Fits(s0, TWO_64) && Fits(s1, TWO_64) && Fits(s2, TWO_64) && Fits(s3, TWO_64)
    ensures var n0 := s0 % B1; var n1 := s0 / 0x10000000000000 + s1 * 0x1000 % B1;
      var n2 := s1 / 0x10000000000 + s2 * 0x1000000 % B1;
      var n3 := s2 / 0x10000000 + s3 * 0x1000000000 % B1; var n4 := s3 / 0x10000;
      && Fits(n0, B1) && Fits(n1, B1) && Fits(n2, B1) && Fits(n3, B1) && Fits(n4, B48)
      && Limbs5(n0, n1, n2, n3, n4) == s0 + s1 * TWO_64 + s2 * (TWO_64 * TWO_64) + s3 * (TWO_64 * TWO_64 * TWO_64)
  {
    ShiftOut(s1, 0x1000, 0x10000000000);
    ShiftOut(s2, 0x1000000, 0x10000000);
    ShiftOut(s3, 0x1000000000, 0x10000);
    LimbSum(s0 % B1, s0 / B1, s1 % 0x10000000000, s1 / 0x10000000000, s2 % 0x10000000, s2 / 0x10000000, s3 % 0x10000,
      s3 / 0x10000);
  }

  lemma LimbSum(a0: int, b0: int, a1: int, b1: int, a2: int, b2: int, a3: int, b3: int)
    ensures Limbs5(a0, b0 + 0x1000 * a1, b1 + 0x1000000 * a2, b2 + 0x1000000000 * a3, b3)
      == (a0 + 0x10000000000000 * b0) + (a1 + 0x10000000000 * b1) * TWO_64 + (a2 + 0x10000000 * b2) * (TWO_64 * TWO_64)
        + (a3 + 0x10000 * b3) * (TWO_64 * TWO_64 * TWO_64)
  {
  }

  /** Storing and loading a canonical element is the identity. */
  lemma StorageRoundTrip(n: seq<int>)
    requires Canonical(n)
    ensures FeFromStorage(FeToStorage(n)) == n
  {
    hide Limbs5, StorageValue, FeFromStorage, FeToStorage;
    var m := FeFromStorage(FeToStorage(n));
    CanonicalRange(n);
    SameValueCanonical(m);
    CanonicalUnique(n, m);
  }

  lemma SameValueCanonical(m: seq<int>)
    requires |m| == 5 && Fits(m[0], B1) && Fits(m[1], B1) && Fits(m[2], B1) && Fits(m[3], B1) && Fits(m[4], B48)
      && Value(m) < P
    ensures Canonical(m)
  {
  }
}
