/**
 * The sparse signed-digit recoder secp256k1_ecmult_wnaf.
 *
 * Digits are zero or odd, smaller than 2^(w-1) in absolute value, and every nonzero digit is
 * followed by at least w-1 zeros. SparseUnique shows that these guarantees, together with the
 * value, leave no freedom at all in the digits.
 */
module WnafSparse {
  import opened Arith
  import opened Scalars

  predicate SparseDigit(d: int, w: nat)
    requires w >= 1
  {
    d == 0 || (d % 2 == 1 && -Pow2(w - 1) < d < Pow2(w - 1))
  }

  ghost predicate IsSparse(d: seq<int>, w: nat)
    requires w >= 1
  {
    && (forall i :: 0 <= i < |d| ==> SparseDigit(d[i], w))
    && (forall i, j :: 0 <= i < j < |d| && j < i + w && d[i] != 0 ==> d[j] == 0)
  }

  /** The scalar whose bits are scanned: a itself, or -a when bit 255 of a is set. */
  function Folded(a: Scalar): (s: Scalar)
    ensures s < Pow2(255)
  {
    OrderBits();
    if Bits(a, 255, 1) == 1 then
      FoldTop(a);
      Negate(a)
    else
      FoldTop(a);
      a
  }

  function FoldSign(a: Scalar): (sign: int)
    ensures sign == 1 || sign == -1
  {
    if Bits(a, 255, 1) == 1 then -1 else 1
  }

  lemma FoldTop(a: Scalar)
    ensures Bits(a, 255, 1) == 1 <==> a >= Pow2(255)
  {
    OrderBits();
    assert Pow2(1) == 2;
    if a >= Pow2(255) {
      DivModUnique(a, Pow2(255), 1, a - Pow2(255));
    } else {
      DivSmall(a, 255);
    }
  }

  /** Folding does not change the residue modulo the group order. */
  lemma FoldCongruent(a: Scalar)
    ensures Congruent(FoldSign(a) * Folded(a), a, N)
  {
    FoldTop(a);
    OrderBits();
    if Bits(a, 255, 1) == 1 {
      assert FoldSign(a) * Folded(a) == a + N * -1;
    } else {
      assert FoldSign(a) * Folded(a) == a + N * 0;
    }
  }

  /** Number of significant bits. */
  function BitLength(s: nat): (n: nat)
    ensures s < Pow2(n)
    ensures n > 0 ==> Pow2(n - 1) <= s
  {
    if s == 0 then 0 else
      assert s == 2 * (s / 2) + s % 2;
      1 + BitLength(s / 2)
  }

  lemma BitsParity(s: nat, offset: nat, count: nat)
    requires count >= 1
    ensures Bits(s, offset, count) % 2 == Bits(s, offset, 1)
  {
    assert Pow2(1) == 2;
    var q := s / Pow2(offset);
    assert Pow2(count) == 2 * Pow2(count - 1);
    MulAssoc(2, Pow2(count - 1), q / Pow2(count));
    DivModUnique(q, 2, Pow2(count - 1) * (q / Pow2(count)) + (q % Pow2(count)) / 2, (q % Pow2(count)) % 2);
  }

  /** The carry is the top bit of a window word that fits the window. */
  lemma TopBit(word: int, half: int)
    requires 0 <= word < 2 * half
    ensures (word / half) % 2 == if word < half then 0 else 1
  {
    if word < half {
      DivModUnique(word, half, 0, word);
    } else {
      DivModUnique(word, half, 1, word - half);
    }
  }

  /** A window word is odd, hence strictly inside the window. */
  lemma WindowWord(s: nat, bit: nat, now: nat, carry: int)
    requires now >= 1
    requires carry == 0 || carry == 1
    requires Bits(s, bit, 1) != carry
    ensures (Bits(s, bit, now) + carry) % 2 == 1
    ensures 0 < Bits(s, bit, now) + carry < Pow2(now)
  {
    hide Pow2, Bits;
    BitsParity(s, bit, now);
    Pow2Step(now);
    Pow2Small();
  }

  /** One window: the digit written, the carry passed on, and what they account for. */
  lemma Window(s: nat, bit: nat, now: nat, w: nat, carry: int, word: int, carry': int)
    requires 2 <= w && 1 <= now <= w
    requires carry == 0 || carry == 1
    requires Bits(s, bit, 1) != carry
    requires word == Bits(s, bit, now) + carry
    requires carry' == (word / Pow2(w - 1)) % 2
    ensures carry' == if word < Pow2(w - 1) then 0 else 1
    ensures SparseDigit(word - carry' * Pow2(w), w) && word - carry' * Pow2(w) != 0
    ensures now < w ==> carry' == 0
    ensures word - carry' * Pow2(w) + Pow2(now) * (s / Pow2(bit + now) + carry') == s / Pow2(bit) + carry
  {
    hide Pow2, Bits;
    WindowWord(s, bit, now, carry);
    WindowPowers(now, w);
    WindowDigit(word, Pow2(now), Pow2(w - 1), Pow2(w), carry');
    BitsSplit(s, bit, now);
    WindowSum(Pow2(now), Pow2(w), s / Pow2(bit + now), carry', now == w);
  }

  lemma WindowPowers(now: nat, w: nat)
    requires 2 <= w && 1 <= now <= w
    ensures Pow2(now) <= Pow2(w) == 2 * Pow2(w - 1) && Pow2(w - 1) % 2 == 0
    ensures now < w ==> Pow2(now) <= Pow2(w - 1)
  {
    hide Pow2;
    Pow2Mono(now, w);
    Pow2Step(w);
    Pow2Step(w - 1);
    if now < w { Pow2Mono(now, w - 1); }
  }

  /** An odd word below p <= 2*half, taken modulo 2*half into the range around zero. */
  lemma WindowDigit(word: int, p: int, half: int, full: int, carry': int)
    requires word % 2 == 1 && 0 < word < p <= full == 2 * half && half % 2 == 0 && carry' == (word / half) % 2
    ensures carry' == if word < half then 0 else 1
    ensures (word - carry' * full) % 2 == 1 && -half < word - carry' * full < half
    ensures p <= half ==> carry' == 0
  {
    TopBit(word, half);
  }

  lemma WindowSum(p: int, full: int, q: int, carry': int, whole: bool)
    requires (carry' == 0 || carry' == 1) && (whole ==> p == full) && (!whole ==> carry' == 0)
    ensures p * (q + carry') - carry' * full == p * q
  {
    MulDist(p, q, carry');
  }

  /** A window below which s ends produces no carry: a carry needs w significant bits of s. */
  lemma CarryBelowTop(s: nat, bit: nat, now: nat, w: nat, carry: int, k: nat)
    requires 2 <= w && 1 <= now <= w && s < Pow2(k)
    requires carry == 0 || carry == 1
    requires carry == 1 ==> bit <= k
    requires Bits(s, bit, 1) != carry
    requires Pow2(w - 1) <= Bits(s, bit, now) + carry
    ensures bit + w <= k
  {
    hide Pow2, Bits;
    WindowWord(s, bit, now, carry);
    Pow2Step(w - 1);
    if k < bit {
      BitsAbove(s, k, bit, now);
    } else {
      DivLt(s, k, bit);
      BitsSplit(s, bit, now);
      QuotientNonNegative(s, Pow2(bit + now));
      MulMono(Pow2(now), 0, s / Pow2(bit + now));
      if k - bit <= w - 1 {
        Pow2Mono(k - bit, w - 1);
      }
    }
  }

  /**
   * What holds of the digits d between two rounds of the scan at position `bit`: everything
   * from `bit` upwards is still zero, and digits, carry and unread bits of s add up to s.
   */
  ghost predicate Scanned(d: seq<int>, bit: nat, last: int, carry: int, s: nat, sign: int, w: nat)
    requires w >= 1
  {
    && ScanShape(d, bit, last, w)
    && (carry == 0 || carry == 1)
    && ScanValue(d, bit, carry, s, sign)
    && ScanBound(|d|, bit, last, carry, s)
  }

  /** The digits are sparse, the last nonzero one is at `last`, and the next may go to `bit`. */
  ghost predicate ScanShape(d: seq<int>, bit: nat, last: int, w: nat)
    requires w >= 1
  {
    && IsSparse(d, w)
    && bit <= |d| && -1 <= last < bit
    && (last >= 0 ==> d[last] != 0)
    && (forall i :: last < i < |d| ==> d[i] == 0)
    && (last >= 0 ==> last + w <= bit || bit == |d|)
  }

  ghost predicate ScanValue(d: seq<int>, bit: nat, carry: int, s: nat, sign: int)
  {
    Eval(d, 2) + sign * (Pow2(bit) * (s / Pow2(bit) + carry)) == sign * s
  }

  /** The carry and the digits stay within one position of the top bit of s. */
  ghost predicate ScanBound(len: nat, bit: nat, last: int, carry: int, s: nat)
  {
    && last <= BitLength(s)
    && (carry == 1 ==> bit <= BitLength(s))
    && (len > 0 && s < Pow2(len - 1) && bit == len ==> carry == 0)
  }

  lemma ScanStart(d: seq<int>, s: nat, sign: int, w: nat)
    requires w >= 2 && forall i :: 0 <= i < |d| ==> d[i] == 0
    ensures Scanned(d, 0, -1, 0, s, sign, w)
  {
    EvalZeros(d, 2);
    Pow2Small();
    assert Pow2(0) * (s / Pow2(0) + 0) == s;
  }

  /** A bit equal to the carry is skipped: the digit is zero and the carry survives. */
  lemma SkipKeeps(d: seq<int>, bit: nat, last: int, carry: int, s: nat, sign: int, w: nat)
    requires w >= 2 && Scanned(d, bit, last, carry, s, sign, w)
    requires bit < |d| && Bits(s, bit, 1) == carry
    ensures Scanned(d, bit + 1, last, carry, s, sign, w)
  {
    hide Bits, Eval, BitLength, Pow2, IsSparse;
    BitsSplit(s, bit, 1);
    Pow2Small();
    Pow2Step(bit + 1);
    MulAssoc(Pow2(bit), 2, s / Pow2(bit + 1) + carry);
    var top := BitLength(s);
    if carry == 1 {
      if top <= bit { BitsAbove(s, top, bit, 1); }
      if s < Pow2(bit) { BitsAbove(s, bit, bit, 1); }
    }
  }

  lemma SparseExtend(d: seq<int>, bit: nat, last: int, w: nat, v: int)
    requires w >= 2 && IsSparse(d, w) && -1 <= last < bit < |d|
    requires forall i :: last < i < |d| ==> d[i] == 0
    requires last >= 0 ==> last + w <= bit
    requires SparseDigit(v, w)
    ensures IsSparse(d[bit := v], w)
  {
    hide SparseDigit;
  }

  /** A window writes one odd digit and moves past it. */
  lemma WindowKeeps(d: seq<int>, bit: nat, last: int, carry: int, s: nat, sign: int, w: nat, now: nat, word: int,
      carry': int)
    requires w >= 2 && Scanned(d, bit, last, carry, s, sign, w)
    requires bit < |d| && Bits(s, bit, 1) != carry && (sign == 1 || sign == -1)
    requires now == (if w > |d| - bit then |d| - bit else w)
    requires word == Bits(s, bit, now) + carry && carry' == (word / Pow2(w - 1)) % 2
    ensures Scanned(d[bit := sign * (word - carry' * Pow2(w))], bit + now, bit, carry', s, sign, w)
  {
    hide Bits, Eval, BitLength, Pow2, IsSparse, ScanShape, ScanValue, ScanBound, SparseDigit;
    var x := word - carry' * Pow2(w);
    Window(s, bit, now, w, carry, word, carry');
    ShapeFacts(d, bit, last, w);
    WindowShape(d, bit, last, w, sign, x, now);
    WindowValue(d, bit, carry, s, sign, now, x, carry');
    WindowBound(|d|, bit, last, carry, s, w, now, word, carry');
  }

  lemma ShapeFacts(d: seq<int>, bit: nat, last: int, w: nat)
    requires w >= 1 && ScanShape(d, bit, last, w)
    ensures bit <= |d| && (bit < |d| ==> d[bit] == 0)
  {
  }

  lemma WindowShape(d: seq<int>, bit: nat, last: int, w: nat, sign: int, x: int, now: nat)
    requires w >= 2 && ScanShape(d, bit, last, w) && bit < |d| && (sign == 1 || sign == -1)
    requires SparseDigit(x, w) && x != 0 && now == (if w > |d| - bit then |d| - bit else w)
    ensures ScanShape(d[bit := sign * x], bit + now, bit, w)
  {
    hide Pow2, IsSparse;
    SignedDigit(x, sign, w);
    SparseExtend(d, bit, last, w, sign * x);
  }

  lemma SignedDigit(x: int, sign: int, w: nat)
    requires w >= 1 && SparseDigit(x, w) && (sign == 1 || sign == -1)
    ensures SparseDigit(sign * x, w) && (x != 0 ==> sign * x != 0)
  {
    hide Pow2;
  }

  lemma WindowValue(d: seq<int>, bit: nat, carry: int, s: nat, sign: int, now: nat, x: int, carry': int)
    requires bit < |d| && d[bit] == 0 && ScanValue(d, bit, carry, s, sign)
    requires x + Pow2(now) * (s / Pow2(bit + now) + carry') == s / Pow2(bit) + carry
    ensures ScanValue(d[bit := sign * x], bit + now, carry', s, sign)
  {
    hide Eval, Pow2;
    EvalUpdate(d, bit, sign * x, 2);
    PowerOfTwo(bit);
    Balance(sign, Pow2(bit), Pow2(now), x, s / Pow2(bit + now) + carry', s / Pow2(bit) + carry);
    Pow2Add(bit, now);
  }

  lemma WindowBound(len: nat, bit: nat, last: int, carry: int, s: nat, w: nat, now: nat, word: int, carry': int)
    requires 2 <= w && bit < len && (carry == 0 || carry == 1) && ScanBound(len, bit, last, carry, s)
      && Bits(s, bit, 1) != carry
    requires now == (if w > len - bit then len - bit else w) && word == Bits(s, bit, now) + carry
    requires carry' == if word < Pow2(w - 1) then 0 else 1
    ensures ScanBound(len, bit + now, bit, carry', s)
  {
    hide Bits, BitLength, Pow2;
    var top := BitLength(s);
    if carry' == 1 {
      CarryBelowTop(s, bit, now, w, carry, top);
      if s < Pow2(len - 1) { CarryBelowTop(s, bit, now, w, carry, len - 1); }
    }
    if bit > top { BitsAbove(s, top, bit, 1); }
  }

  lemma Balance(sign: int, p: int, q: int, word: int, high': int, high: int)
    requires word + q * high' == high
    ensures p * (sign * word) + sign * ((p * q) * high') == sign * (p * high)
  {
    MulDist(p, word, q * high');
    MulAssoc(p, q, high');
    MulDist(sign, p * word, p * (q * high'));
    MulAssoc(p, sign, word);
    MulAssoc(sign, p, word);
  }

  /** The digits alone represent s exactly when neither carry nor bits are left over. */
  lemma ScanEnd(d: seq<int>, last: int, carry: int, s: nat, sign: int, w: nat)
    requires w >= 2 && Scanned(d, |d|, last, carry, s, sign, w) && (sign == 1 || sign == -1)
    ensures Eval(d, 2) == sign * s <==> carry == 0 && s < Pow2(|d|)
    ensures |d| > 0 && s < Pow2(|d| - 1) ==> carry == 0 && Eval(d, 2) == sign * s
  {
    hide Eval, BitLength, Pow2, IsSparse;
    var p := Pow2(|d|);
    QuotientNonNegative(s, p);
    if s < p {
      DivSmall(s, |d|);
    } else if s / p == 0 {
      DivModUnique(s, p, 0, s % p);
    }
    var high := s / p + carry;
    if high > 0 { MulMono(p, 1, high); }
    if |d| > 0 { Pow2Mono(|d| - 1, |d|); }
  }

  method EcmultWnaf(wnaf: array<int>, len: nat, a: Scalar, w: nat) returns (used: nat, ghost carryOut: int)
    requires len <= 256 && len <= wnaf.Length
    requires 2 <= w <= 31
    modifies wnaf
    ensures wnaf[len..] == old(wnaf[len..])
    ensures IsSparse(wnaf[..len], w)
    ensures used <= len && (used > 0 ==> wnaf[used - 1] != 0)
    ensures forall i :: used <= i < len ==> wnaf[i] == 0
    ensures used <= BitLength(Folded(a)) + 1
    ensures carryOut == 0 || carryOut == 1
    ensures (Eval(wnaf[..len], 2) == FoldSign(a) * Folded(a)) <==> (carryOut == 0 && Folded(a) < Pow2(len))
    ensures len > 0 && Folded(a) < Pow2(len - 1) ==> carryOut == 0 && Eval(wnaf[..len], 2) == FoldSign(a) * Folded(a)
    ensures len == 256 || (len > 0 && Folded(a) < Pow2(len - 1)) ==> Congruent(Eval(wnaf[..len], 2), a, N)
  {
    hide Pow2, Bits, Eval, BitLength, Negate, IsSparse, Congruent;
    var s: Scalar := a;
    var lastSetBit := -1;
    var bit := 0;
    var sign := 1;
    var carry := 0;
    for i := 0 to len
      invariant forall k :: 0 <= k < i ==> wnaf[k] == 0
      invariant wnaf[len..] == old(wnaf[len..])
    {
      wnaf[i] := 0;
    }
    if GetBits(s, 255, 1) == 1 {
      s := Negate(s);
      sign := -1;
    }
    ScanStart(wnaf[..len], s, sign, w);
    while bit < len
      invariant wnaf[len..] == old(wnaf[len..])
      invariant 0 <= bit <= len
      invariant Scanned(wnaf[..len], bit, lastSetBit, carry, s, sign, w)
    {
      hide Scanned;
      if GetBits(s, bit, 1) == carry {
        SkipKeeps(wnaf[..len], bit, lastSetBit, carry, s, sign, w);
        bit := bit + 1;
        continue;
      }
      var now := w;
      if now > len - bit {
        now := len - bit;
      }
      var word := GetBitsVar(s, bit, now) + carry;
      ghost var before := wnaf[..len];
      ghost var carry' := (word / Pow2(w - 1)) % 2;
      WindowKeeps(before, bit, lastSetBit, carry, s, sign, w, now, word, carry');
      carry := (word / Pow2(w - 1)) % 2;
      word := word - carry * Pow2(w);
      wnaf[bit] := sign * word;
      assert wnaf[..len] == before[bit := sign * word];
      lastSetBit := bit;
      bit := bit + now;
    }
    ScanEnd(wnaf[..len], lastSetBit, carry, s, sign, w);
    used := lastSetBit + 1;
    carryOut := carry;
    FoldCongruent(a);
  }

  /** Two sparse strings of the same length and value are the same string. */
  lemma {:induction false} SparseUnique(d: seq<int>, e: seq<int>, w: nat)
    requires w >= 2 && |d| == |e| && IsSparse(d, w) && IsSparse(e, w)
    requires Eval(d, 2) == Eval(e, 2)
    ensures d == e
  {
    if d != [] {
      assert forall i :: 0 <= i < |d| - 1 ==> d[1..][i] == d[i + 1] && e[1..][i] == e[i + 1];
      if d[0] % 2 == 1 {
        OddHead(d, w);
        OddHead(e, w);
        SameSmallResidue(d[0], e[0], w);
      }
      SparseUnique(d[1..], e[1..], w);
      assert d == [d[0]] + d[1..] && e == [e[0]] + e[1..];
    }
  }

  /** After an odd digit the next w-1 digits vanish, so the value is that digit modulo 2^w. */
  lemma OddHead(d: seq<int>, w: nat)
    requires w >= 2 && d != [] && IsSparse(d, w) && d[0] % 2 == 1
    ensures Congruent(Eval(d, 2), d[0], Pow2(w))
  {
    if |d| <= w {
      EvalZeros(d[1..], 2);
      assert Eval(d, 2) == d[0] + Pow2(w) * 0;
    } else {
      var zeros := d[1..w];
      assert d[1..] == zeros + d[w..];
      EvalAppend(zeros, d[w..], 2);
      EvalZeros(zeros, 2);
      PowerOfTwo(w - 1);
      MulAssoc(2, Pow2(w - 1), Eval(d[w..], 2));
      assert Eval(d, 2) == d[0] + Pow2(w) * Eval(d[w..], 2);
    }
  }

  lemma SameSmallResidue(x: int, y: int, w: nat)
    requires w >= 1 && -Pow2(w - 1) < x < Pow2(w - 1) && -Pow2(w - 1) < y < Pow2(w - 1)
    requires exists v: int :: Congruent(v, x, Pow2(w)) && Congruent(v, y, Pow2(w))
    ensures x == y
  {
    var v: int :| Congruent(v, x, Pow2(w)) && Congruent(v, y, Pow2(w));
    var k: int :| v == x + Pow2(w) * k;
    var l: int :| v == y + Pow2(w) * l;
    MulDist(Pow2(w), k, l);
    if k > l { MulMono(Pow2(w), 1, k - l); } else if k < l { MulMono(Pow2(w), k - l, -1); }
  }
}
