/**
 * The constant-time signed-digit recoder secp256k1_wnaf_const: every digit is odd, so none is
 * zero; the scalar is made odd by adding a skew of 1 or 2, and scalars in the upper half are
 * recoded through their negation.
 */
module WnafConst {
  import opened Arith
  import opened Scalars
  import opened WnafFixed

  predicate OddDigit(d: int, w: nat)
  {
    d % 2 == 1 && -Pow2(w) < d < Pow2(w)
  }

  ghost predicate OddDigits(d: seq<int>, w: nat)
  {
    forall i :: 0 <= i < |d| ==> OddDigit(d[i], w)
  }

  /** Distance of a to the nearest multiple of the order. */
  function Magnitude(a: Scalar): (m: nat)
    ensures 2 * m < N && (m == a || m == N - a)
  {
    OrderIs();
    if IsHigh(a) then N - a else a
  }

  /** What the digits, times the global sign, must add up to. */
  ghost predicate SkewedBy(a: Scalar, sign: int, odd: nat, skew: int)
  {
    && (sign == 1 || sign == -1)
    && (skew == 1 || skew == 2)
    && odd % 2 == 1 && odd <= Magnitude(a) + 2
    && (sign * odd == a + skew || sign * odd == a + skew - N)
  }

  /** Digits written so far, the pending digit and the unread words add up to total. */
  ghost predicate ConstRecoded(d: seq<int>, uLast: int, rest: nat, total: int, sign: int, w: nat)
  {
    && OddDigits(d, w)
    && OddDigit(uLast, w)
    && Eval(d, Pow2(w)) + sign * (Pow2(w * |d|) * (uLast + Pow2(w) * rest)) == total
  }

  lemma ConstStep(d: seq<int>, uLast: int, rest: nat, total: int, sign: int, w: nat, word: int, rest': nat, e: int)
    requires w > 0 && (sign == 1 || sign == -1)
    requires ConstRecoded(d, uLast, rest, total, sign, w)
    requires 0 <= word < Pow2(w) && rest == word + Pow2(w) * rest'
    requires e == (if word % 2 == 1 then 0 else if uLast > 0 then 1 else -1)
    ensures ConstRecoded(d + [(uLast - e * Pow2(w)) * sign], word + e, rest', total, sign, w)
  {
    hide Eval, Pow2, OddDigits;
    var b := Pow2(w);
    var x := uLast - e * b;
    StepDigits(uLast, w, word, e, sign);
    OddExtend(d, x * sign, w);
    EvalAppend(d, [x * sign], b);
    EvalOne(x * sign, b);
    PowerOfPow2(w, |d|);
    MulDist(w, |d|, 1);
    Pow2Add(w * |d|, w);
    ConstArithmetic(Pow2(w * |d|), b, uLast, word, rest', e, sign);
  }

  lemma OddExtend(d: seq<int>, x: int, w: nat)
    requires OddDigits(d, w) && OddDigit(x, w)
    ensures OddDigits(d + [x], w)
  {
    hide OddDigit;
  }

  /** Moving one unit of the next weight keeps the pending digit and makes the word odd. */
  lemma StepDigits(uLast: int, w: nat, word: int, e: int, sign: int)
    requires w > 0 && OddDigit(uLast, w) && 0 <= word < Pow2(w) && (sign == 1 || sign == -1)
    requires e == (if word % 2 == 1 then 0 else if uLast > 0 then 1 else -1)
    ensures OddDigit((uLast - e * Pow2(w)) * sign, w) && OddDigit(word + e, w)
  {
    hide Pow2;
    EvenBase(w);
    StepParity(uLast, Pow2(w), word, e, sign);
  }

  lemma StepParity(uLast: int, b: int, word: int, e: int, sign: int)
    requires b % 2 == 0 && b >= 2 && uLast % 2 == 1 && -b < uLast < b && 0 <= word < b && (sign == 1 || sign == -1)
    requires e == (if word % 2 == 1 then 0 else if uLast > 0 then 1 else -1)
    ensures ((uLast - e * b) * sign) % 2 == 1 && -b < (uLast - e * b) * sign < b
    ensures (word + e) % 2 == 1 && -b < word + e < b
  {
    var x := uLast - e * b;
    assert x == if e == 0 then uLast else if e == 1 then uLast - b else uLast + b;
    Signed(x, sign);
  }

  lemma Signed(x: int, sign: int)
    requires sign == 1 || sign == -1
    ensures x * sign == if sign == 1 then x else -x
  {
  }

  lemma ConstArithmetic(p: int, b: int, uLast: int, word: int, rest': int, e: int, sign: int)
    ensures p * ((uLast - e * b) * sign) + sign * ((p * b) * ((word + e) + b * rest'))
      == sign * (p * (uLast + b * (word + b * rest')))
  {
    MulDist(b, word + e, b * rest');
    MulDist(b, word, b * rest');
    MulDist(b, word, e);
    MulAssoc(p, b, (word + e) + b * rest');
    var y, z := uLast - e * b, b * ((word + e) + b * rest');
    MulDist(p, y, z);
    MulAssoc(p, y, sign);
    MulDist(sign, p * y, p * z);
  }

  /** The skewing rules always produce an odd number, also for -1 where adding 2 would overflow. */
  lemma SkewRules(a: Scalar, flip: bool, bit: nat, notNegOne: bool, s: Scalar, odd: Scalar, sign: int)
    requires flip == IsHigh(a) && bit == (if flip == !IsEven(a) then 0 else 1)
    requires notNegOne == (Negate(a) != 1)
    requires notNegOne ==> a + Pow2(bit) < N
    requires s == CaddBit(a, bit, notNegOne)
    requires odd == (if flip then Negate(s) else s)
    requires sign == (if flip then -1 else 1) * (if notNegOne then 1 else -1)
    ensures SkewedBy(a, sign, odd, Pow2(bit))
  {
    OrderIs();
    Pow2Small();
    if bit == 0 { assert Pow2(bit) == 1; } else { assert Pow2(bit) == 2; }
  }

  lemma SkewFits(a: Scalar, bit: nat)
    requires bit == (if IsHigh(a) == !IsEven(a) then 0 else 1) && Negate(a) != 1
    ensures a + Pow2(bit) < N
  {
    OrderIs();
    Pow2Small();
  }

  /** Adds 1 or 2 and possibly negates, so that an odd scalar is left to recode. */
  method MakeOdd(scalar: Scalar) returns (s: Scalar, globalSign: int, skew: int)
    ensures SkewedBy(scalar, globalSign, s, skew)
  {
    hide Pow2, SkewedBy;
    var flip := IsHigh(scalar);
    var bit := if flip == !IsEven(scalar) then 0 else 1;
    s := Negate(scalar);
    var notNegOne := s != 1;
    if notNegOne { SkewFits(scalar, bit); }
    s := CaddBit(scalar, bit, notNegOne);
    ghost var s0 := s;
    globalSign := 1;
    if flip {
      s := Negate(s);
      globalSign := -1;
    }
    globalSign := globalSign * (if notNegOne then 1 else -1);
    skew := Pow2(bit);
    SkewRules(scalar, flip, bit, notNegOne, s0, s, globalSign);
  }

  /** Steps 4.1 to 4.4: shift out the next word, make it odd and settle the pending digit. */
  method ShiftOut(uLast: int, s: nat, w: nat, ghost d: seq<int>, ghost total: int, ghost sign: int)
    returns (digit: int, u: int, s': nat)
    requires w > 0 && (sign == 1 || sign == -1) && ConstRecoded(d, uLast, s, total, sign, w)
    ensures s' == s / Pow2(w)
    ensures ConstRecoded(d + [digit * sign], u, s', total, sign, w)
  {
    hide Pow2, ConstRecoded;
    u := s % Pow2(w);
    s' := s / Pow2(w);
    var even := if u % 2 == 0 then 1 else 0;
    var sg := if uLast > 0 then 1 else -1;
    ConstStep(d, uLast, s, total, sign, w, u, s', sg * even);
    u := u + sg * even;
    digit := uLast - sg * even * Pow2(w);
  }

  /** Steps 4 and 5: writes all digits but the last, which is left pending. */
  method ConstWords(wnaf: array<int>, odd: nat, w: nat, size: nat, globalSign: int) returns (u: int)
    requires 0 < w < 16 && size > 0 && odd % 2 == 1 && (globalSign == 1 || globalSign == -1)
    requires wnaf.Length >= WnafSize(size, w) + 1
    modifies wnaf
    ensures wnaf[WnafSize(size, w) + 1..] == old(wnaf[WnafSize(size, w) + 1..])
    ensures ConstRecoded(wnaf[..WnafSize(size, w)], u, odd / Pow2(w * (WnafSize(size, w) + 1)), globalSign * odd,
      globalSign, w)
  {
    hide Eval, Pow2, ConstRecoded, OddDigits, WnafSize;
    var word := 0;
    var s := odd;
    ghost var total, words := globalSign * odd, WnafSize(size, w);
    var uLast := s % Pow2(w);
    s := s / Pow2(w);
    u := uLast;
    ConstStart(odd, globalSign, w);
    assert wnaf[..0] == [];
    WordsLeft(size, w, 0);
    while word * w < size
      invariant 0 <= word <= words
      invariant u == uLast
      invariant s == odd / Pow2(w * (word + 1))
      invariant ConstRecoded(wnaf[..word], uLast, s, total, globalSign, w)
      invariant wnaf[words + 1..] == old(wnaf[words + 1..])
      decreases words - word
    {
      WordsLeft(size, w, word);
      ghost var d := wnaf[..word];
      NextWord(odd, w, word);
      var digit;
      digit, u, s := ShiftOut(uLast, s, w, d, total, globalSign);
      wnaf[word] := digit * globalSign;
      assert wnaf[..word + 1] == d + [digit * globalSign];
      word := word + 1;
      uLast := u;
    }
    WordsDone(size, w, word);
  }

  /** Recodes `scalar` into 1 + ceil(size/w) odd digits. */
  method WnafConst(wnaf: array<int>, scalar: Scalar, w: nat, size: nat)
      returns (skew: int, ghost sign: int, ghost odd: nat)
    requires 0 < w < 16 && size > 0
    requires wnaf.Length >= WnafSize(size, w) + 1
    modifies wnaf
    ensures wnaf[WnafSize(size, w) + 1..] == old(wnaf[WnafSize(size, w) + 1..])
    ensures OddDigits(wnaf[..WnafSize(size, w) + 1], w)
    ensures SkewedBy(scalar, sign, odd, skew)
    ensures Eval(wnaf[..WnafSize(size, w) + 1], Pow2(w)) == sign * odd <==> odd < Pow2(w * (WnafSize(size, w) + 1))
    ensures Magnitude(scalar) <= Pow2(size) ==> Eval(wnaf[..WnafSize(size, w) + 1], Pow2(w)) == sign * odd
  {
    hide Eval, Pow2, ConstRecoded, OddDigits, SkewedBy, WnafSize, Magnitude;
    var s, globalSign, k := MakeOdd(scalar);
    skew, sign, odd := k, globalSign, s;
    SkewedOdd(scalar, sign, odd, skew);
    WnafSizeCovers(size, w);
    var u := ConstWords(wnaf, s, w, size, globalSign);
    var word := WnafSize(size, w);
    ghost var d := wnaf[..word];
    wnaf[word] := u * globalSign;
    assert wnaf[..word + 1] == d + [u * globalSign];
    ConstEnd(d, u, odd / Pow2(w * (word + 1)), odd, sign, w);
    if Magnitude(scalar) <= Pow2(size) { FitsSize(scalar, sign, odd, skew, w, size); }
  }

  lemma SkewedOdd(a: Scalar, sign: int, odd: nat, skew: int)
    requires SkewedBy(a, sign, odd, skew)
    ensures odd % 2 == 1 && (sign == 1 || sign == -1)
  {
  }

  lemma ConstStart(odd: nat, sign: int, w: nat)
    requires w > 0 && odd % 2 == 1
    ensures ConstRecoded([], odd % Pow2(w), odd / Pow2(w), sign * odd, sign, w)
    ensures w * (0 + 1) == w
  {
    hide Pow2;
    EvenBase(w);
    Parity(odd, odd % Pow2(w), Pow2(w), odd / Pow2(w));
    Pow2Small();
    assert w * 0 == 0;
  }

  lemma NextWord(odd: nat, w: nat, word: nat)
    ensures (odd / Pow2(w * (word + 1))) / Pow2(w) == odd / Pow2(w * (word + 1 + 1))
  {
    hide Pow2;
    MulDist(w, word + 1, 1);
    Pow2Add(w * (word + 1), w);
    DivDiv(odd, Pow2(w * (word + 1)), Pow2(w));
  }

  lemma WordsLeft(size: nat, w: nat, word: nat)
    requires w > 0 && size > 0 && word * w < size
    ensures word < WnafSize(size, w)
  {
    WnafSizeCovers(size, w);
    if word >= WnafSize(size, w) { MulMono(w, WnafSize(size, w), word); }
  }

  lemma WordsDone(size: nat, w: nat, word: nat)
    requires w > 0 && size > 0 && word * w >= size && word <= WnafSize(size, w)
    ensures word == WnafSize(size, w)
  {
    WnafSizeCovers(size, w);
    if word <= WnafSize(size, w) - 1 { MulMono(w, word, WnafSize(size, w) - 1); }
  }

  lemma ConstEnd(d: seq<int>, u: int, rest: nat, odd: nat, sign: int, w: nat)
    requires w > 0 && (sign == 1 || sign == -1)
    requires ConstRecoded(d, u, rest, sign * odd, sign, w) && rest == odd / Pow2(w * (|d| + 1))
    ensures OddDigits(d + [u * sign], w)
    ensures Eval(d + [u * sign], Pow2(w)) == sign * odd <==> odd < Pow2(w * (|d| + 1))
  {
    hide Eval, Pow2;
    var b, p := Pow2(w), Pow2(w * |d|);
    OddFlip(u, sign, w);
    OddExtend(d, u * sign, w);
    EvalAppend(d, [u * sign], b);
    EvalOne(u * sign, b);
    PowerOfPow2(w, |d|);
    MulDist(w, |d|, 1);
    Pow2Add(w * |d|, w);
    EndArithmetic(p, b, u, rest, sign);
    Leftover(odd, w * (|d| + 1));
  }

  lemma OddFlip(u: int, sign: int, w: nat)
    requires OddDigit(u, w) && (sign == 1 || sign == -1)
    ensures OddDigit(u * sign, w)
  {
  }

  lemma EndArithmetic(p: int, b: int, u: int, rest: int, sign: int)
    ensures sign * (p * (u + b * rest)) == p * (u * sign) + sign * ((p * b) * rest)
  {
    MulDist(p, u, b * rest);
    MulAssoc(p, b, rest);
    MulDist(sign, p * u, (p * b) * rest);
    MulAssoc(p, u, sign);
  }

  /** The part of x above k bits vanishes exactly when x fits in k bits. */
  lemma Leftover(x: nat, k: nat)
    ensures Pow2(k) * (x / Pow2(k)) == 0 <==> x < Pow2(k)
  {
    hide Pow2;
    var q := x / Pow2(k);
    QuotientNonNegative(x, Pow2(k));
    if x < Pow2(k) {
      DivSmall(x, k);
    } else if q > 0 {
      MulMono(Pow2(k), 1, q);
    }
  }

  lemma FitsSize(a: Scalar, sign: int, odd: nat, skew: int, w: nat, size: nat)
    requires w > 0 && size > 0 && SkewedBy(a, sign, odd, skew) && Magnitude(a) <= Pow2(size)
    ensures odd < Pow2(w * (WnafSize(size, w) + 1))
  {
    hide Pow2;
    WnafSizeCovers(size, w);
    var n := WnafSize(size, w);
    MulDist(w, n, 1);
    Pow2Mono(size + 1, w * (n + 1));
    Pow2Step(size + 1);
    Pow2Step(size);
    EvenBase(size);
  }

  /** Odd digits of a given length and value are unique. */
  lemma {:induction false} OddDigitsUnique(d: seq<int>, e: seq<int>, w: nat)
    requires w > 0 && |d| == |e| && OddDigits(d, w) && OddDigits(e, w)
    requires Eval(d, Pow2(w)) == Eval(e, Pow2(w))
    ensures d == e
  {
    hide Pow2, Eval;
    if d != [] {
      var b := Pow2(w);
      var x, y := Eval(d[1..], b), Eval(e[1..], b);
      assert OddDigit(d[0], w) && OddDigit(e[0], w);
      EvalHead(d, b);
      EvalHead(e, b);
      if d[1..] != [] {
        OddTail(d, w);
        OddTail(e, w);
      } else {
        assert d[1..] == e[1..];
      }
      SameHead(d[0], e[0], x, y, b);
      OddDigitsUnique(d[1..], e[1..], w);
      assert d == [d[0]] + d[1..] && e == [e[0]] + e[1..];
    }
  }

  lemma OddTail(d: seq<int>, w: nat)
    requires w > 0 && |d| > 1 && OddDigits(d, w)
    ensures Eval(d[1..], Pow2(w)) % 2 == 1 && OddDigits(d[1..], w)
  {
    hide Pow2, Eval, OddDigit;
    OddValue(d[1..], w);
  }

  /** Two sums with odd, or equal, higher parts and small heads are equal only part by part. */
  lemma SameHead(h: int, k: int, x: int, y: int, b: int)
    requires -b < h < b && -b < k < b && h + b * x == k + b * y
    requires x == y || (x % 2 == 1 && y % 2 == 1)
    ensures h == k && x == y
  {
    MulDist(b, x, y);
    if x > y { MulMono(b, 2, x - y); }
    if x < y { MulMono(b, x - y, -2); }
  }

  lemma OddValue(d: seq<int>, w: nat)
    requires w > 0 && d != [] && OddDigits(d, w)
    ensures Eval(d, Pow2(w)) % 2 == 1
  {
    hide Pow2;
    EvenBase(w);
    assert OddDigit(d[0], w);
    Parity(Eval(d, Pow2(w)), d[0], Pow2(w), Eval(d[1..], Pow2(w)));
  }
}
