/**
 * The fixed-length signed-digit recoder secp256k1_wnaf_fixed: words of w bits become digits
 * that are zero or odd, by borrowing from the word below, and an even scalar is made odd first.
 */
module WnafFixed {
  import opened Arith
  import opened Scalars

  /** WNAF_SIZE_BITS: the number of w-bit words that cover `bits` bits. */
  function WnafSize(bits: nat, w: nat): (n: nat)
    requires w > 0
  {
    (bits + w - 1) / w
  }

  lemma WnafSizeCovers(bits: nat, w: nat)
    requires w > 0 && bits > 0
    ensures WnafSize(bits, w) > 0
    ensures w * (WnafSize(bits, w) - 1) < bits <= w * WnafSize(bits, w)
  {
    var n := WnafSize(bits, w);
    assert bits + w - 1 == w * n + (bits + w - 1) % w;
    MulDist(w, n, 1);
    if n <= 0 { MulMono(w, n, 0); }
  }

  predicate FixedDigit(d: int, w: nat)
  {
    d == 0 || (d % 2 == 1 && -Pow2(w) < d < Pow2(w))
  }

  ghost predicate FixedDigits(d: seq<int>, w: nat)
  {
    forall i :: 0 <= i < |d| ==> FixedDigit(d[i], w)
  }

  /** The digits below `pos` and the words of s from `pos` upwards add up to s + skew. */
  ghost predicate Recoded(d: seq<int>, pos: nat, s: nat, skew: int, w: nat)
  {
    && 0 < pos <= |d|
    && FixedDigits(d[..pos], w)
    && d[pos - 1] % 2 == 1 && 0 < d[pos - 1] < Pow2(w)
    && Eval(d[..pos], Pow2(w)) + Pow2(w * pos) * (s / Pow2(w * pos)) == s + skew
  }

  lemma EvenBase(w: nat)
    requires w > 0
    ensures Pow2(w) % 2 == 0 && Pow2(w) >= 2
  {
    Pow2Step(w);
  }

  lemma RecodeStart(d: seq<int>, s: nat, w: nat)
    requires w > 0 && |d| > 0
    requires d[0] == Bits(s, 0, w) + (if s % 2 == 0 then 1 else 0)
    ensures Recoded(d, 1, s, if s % 2 == 0 then 1 else 0, w)
  {
    hide Pow2, Bits, Eval;
    assert d[..1] == [d[0]];
    LowWord(s, w);
    EvalOne(d[0], Pow2(w));
    assert w * 1 == w;
    FirstDigit(Bits(s, 0, w), s, w, Pow2(w));
  }

  lemma LowWord(s: nat, w: nat)
    requires w > 0
    ensures s == Bits(s, 0, w) + Pow2(w) * (s / Pow2(w)) && s % 2 == Bits(s, 0, w) % 2
  {
    hide Pow2, Bits;
    BitsSplit(s, 0, w);
    Pow2Small();
    assert s / 1 == s && 0 + w == w;
    EvenBase(w);
    Parity(s, Bits(s, 0, w), Pow2(w), s / Pow2(w));
  }

  /** Adding one to an even word makes it odd and keeps it inside the window. */
  lemma FirstDigit(word: int, s: nat, w: nat, b: int)
    requires w > 0 && b == Pow2(w) && 0 <= word < b && word % 2 == s % 2
    ensures var x := word + (if s % 2 == 0 then 1 else 0); x % 2 == 1 && 0 < x < b
  {
    EvenBase(w);
  }

  lemma Parity(s: int, r: int, b: int, q: int)
    requires s == r + b * q && b % 2 == 0
    ensures s % 2 == r % 2
  {
    MulAssoc(2, b / 2, q);
  }

  /** Value of the digits once the word at `pos` is appended and, if it was even, borrowed from below. */
  lemma BorrowValue(low: seq<int>, s: nat, total: int, w: nat, val: int, borrow: int)
    requires |low| > 0 && val == Bits(s, w * |low|, w)
    requires Eval(low, Pow2(w)) + Pow2(w * |low|) * (s / Pow2(w * |low|)) == total
    ensures Eval(low[|low| - 1 := low[|low| - 1] - borrow * Pow2(w)] + [val + borrow], Pow2(w))
      + Pow2(w * (|low| + 1)) * (s / Pow2(w * (|low| + 1))) == total
  {
    hide Eval, Bits, Pow2;
    var pos, b := |low|, Pow2(w);
    var below := low[pos - 1 := low[pos - 1] - borrow * b];
    EvalUpdate(low, pos - 1, low[pos - 1] - borrow * b, b);
    EvalAppend(below, [val + borrow], b);
    EvalOne(val + borrow, b);
    PowerOfPow2(w, pos);
    PowerOfPow2(w, pos - 1);
    BitsSplit(s, w * pos, w);
    MulDist(w, pos, 1);
    MulDist(w, pos - 1, 1);
    Pow2Add(w * pos, w);
    Pow2Add(w * (pos - 1), w);
    BorrowArithmetic(Pow2(w * (pos - 1)), b, borrow, val, s / Pow2(w * (pos + 1)));
  }

  lemma BorrowArithmetic(p: int, b: int, borrow: int, val: int, q: int)
    ensures p * (0 - borrow * b) + (p * b) * (val + borrow) + ((p * b) * b) * q == (p * b) * (val + b * q)
  {
    MulAssoc(p, b, borrow);
    MulDist(p * b, val, borrow);
    MulDist(p * b, val, b * q);
    MulAssoc(p * b, b, q);
    assert p * (0 - borrow * b) == 0 - p * (b * borrow);
  }

  /** Borrowing one unit of the next weight makes an even word odd. */
  lemma Borrow(d: seq<int>, pos: nat, s: nat, skew: int, w: nat, val: int, d': seq<int>)
    requires w > 0 && Recoded(d, pos, s, skew, w) && pos < |d|
    requires val == Bits(s, w * pos, w)
    requires d' == if val % 2 == 0 then d[pos - 1 := d[pos - 1] - Pow2(w)][pos := val + 1] else d[pos := val]
    ensures Recoded(d', pos + 1, s, skew, w)
  {
    hide Eval, Bits, Pow2;
    var low := d[..pos];
    var borrow := if val % 2 == 0 then 1 else 0;
    EvenBase(w);
    BorrowValue(low, s, s + skew, w, val, borrow);
    assert d'[..pos + 1] == low[pos - 1 := low[pos - 1] - borrow * Pow2(w)] + [val + borrow];
    BorrowDigits(low, w, val, borrow);
  }

  lemma BorrowDigits(low: seq<int>, w: nat, val: int, borrow: int)
    requires w > 0 && |low| > 0 && FixedDigits(low, w)
    requires 0 <= val < Pow2(w) && borrow == (if val % 2 == 0 then 1 else 0)
    requires low[|low| - 1] % 2 == 1 && 0 < low[|low| - 1] < Pow2(w)
    ensures FixedDigits(low[|low| - 1 := low[|low| - 1] - borrow * Pow2(w)] + [val + borrow], w)
    ensures (val + borrow) % 2 == 1 && 0 < val + borrow < Pow2(w)
  {
    hide Pow2;
    EvenBase(w);
  }

  /** A unit digit next to one of the opposite sign is folded into it. */
  lemma Fold(d: seq<int>, pos: nat, s: nat, skew: int, w: nat, unit: int, d': seq<int>)
    requires w > 0 && pos >= 2 && pos < |d| && Recoded(d, pos + 1, s, skew, w)
    requires (unit == 1 && d[pos - 1] == 1 && d[pos - 2] < 0) || (unit == -1 && d[pos - 1] == -1 && d[pos - 2] > 0)
    requires d' == d[pos - 2 := d[pos - 2] + unit * Pow2(w)][pos - 1 := 0]
    ensures Recoded(d', pos + 1, s, skew, w)
  {
    hide Eval, Pow2;
    hide FixedDigits;
    var low := d[..pos + 1];
    FoldPrefix(low, pos, w, unit);
    assert d'[..pos + 1] == low[pos - 2 := low[pos - 2] + unit * Pow2(w)][pos - 1 := 0];
  }

  lemma FoldPrefix(low: seq<int>, pos: nat, w: nat, unit: int)
    requires w > 0 && pos >= 2 && pos < |low| && FixedDigits(low, w)
    requires (unit == 1 && low[pos - 1] == 1 && low[pos - 2] < 0)
      || (unit == -1 && low[pos - 1] == -1 && low[pos - 2] > 0)
    ensures FixedDigits(low[pos - 2 := low[pos - 2] + unit * Pow2(w)][pos - 1 := 0], w)
    ensures Eval(low[pos - 2 := low[pos - 2] + unit * Pow2(w)][pos - 1 := 0], Pow2(w)) == Eval(low, Pow2(w))
  {
    hide Eval, Pow2, FixedDigit;
    FoldDigit(low[pos - 2], w, unit);
    FoldValue(low, pos, unit, Pow2(w));
  }

  /** The unit is worth b units of the place below. */
  lemma FoldValue(low: seq<int>, pos: nat, unit: int, b: int)
    requires pos >= 2 && pos < |low| && low[pos - 1] == unit
    ensures Eval(low[pos - 2 := low[pos - 2] + unit * b][pos - 1 := 0], b) == Eval(low, b)
  {
    hide Eval, Power;
    var mid := low[pos - 2 := low[pos - 2] + unit * b];
    EvalUpdate(low, pos - 2, low[pos - 2] + unit * b, b);
    EvalUpdate(mid, pos - 1, 0, b);
    PowerStep(b, pos - 2);
    CarriedUnit(Power(b, pos - 2), b, unit);
  }

  lemma PowerStep(b: int, k: nat)
    ensures Power(b, k + 1) == b * Power(b, k)
  {
  }

  lemma CarriedUnit(p: int, b: int, unit: int)
    ensures p * (unit * b) + (b * p) * (0 - unit) == 0
  {
  }

  lemma FoldDigit(x: int, w: nat, unit: int)
    requires w > 0 && FixedDigit(x, w) && ((unit == 1 && x < 0) || (unit == -1 && x > 0))
    ensures FixedDigit(x + unit * Pow2(w), w) && FixedDigit(0, w)
  {
    hide Pow2;
    EvenBase(w);
    assert unit * Pow2(w) == if unit == 1 then Pow2(w) else -Pow2(w);
  }

  /** The words above the highest nonzero one contribute nothing. */
  lemma RecodeEnd(d: seq<int>, pos: nat, s: nat, skew: int, w: nat)
    requires Recoded(d, pos, s, skew, w) && s / Pow2(w * pos) == 0
    requires forall i :: pos <= i < |d| ==> d[i] == 0
    ensures Eval(d, Pow2(w)) == s + skew && FixedDigits(d, w)
  {
    hide Eval, Pow2;
    assert d == d[..pos] + d[pos..];
    EvalPadded(d[..pos], d[pos..], Pow2(w));
    ZeroProduct(Pow2(w * pos), s / Pow2(w * pos));
    ExtendZeros(d, pos, w);
  }

  lemma ZeroProduct(x: int, y: int)
    requires y == 0
    ensures x * y == 0
  {
  }

  lemma ExtendZeros(d: seq<int>, pos: nat, w: nat)
    requires pos <= |d| && FixedDigits(d[..pos], w) && forall i :: pos <= i < |d| ==> d[i] == 0
    ensures FixedDigits(d, w)
  {
    hide Pow2;
    forall i | 0 <= i < |d|
      ensures FixedDigit(d[i], w)
    {
      if i < pos { assert FixedDigit(d[..pos][i], w); }
    }
  }

  /** The top word may be read with only the bits that remain. */
  lemma TopWord(s: nat, bits: nat, w: nat)
    requires w > 0 && bits > 0 && s < Pow2(bits)
    ensures WnafSize(bits, w) > 0 && 0 < bits - w * (WnafSize(bits, w) - 1) <= w
    ensures Bits(s, w * (WnafSize(bits, w) - 1), bits - w * (WnafSize(bits, w) - 1))
      == Bits(s, w * (WnafSize(bits, w) - 1), w)
    ensures s / Pow2(w * WnafSize(bits, w)) == 0
  {
    hide Pow2;
    WnafSizeCovers(bits, w);
    var n := WnafSize(bits, w);
    var top := n - 1;
    MulDist(w, n, 1);
    DivLt(s, bits, w * top);
    var q, lastW := s / Pow2(w * top), bits - w * top;
    QuotientNonNegative(s, Pow2(w * top));
    Pow2Mono(lastW, w);
    DivModUnique(q, Pow2(lastW), 0, q);
    DivModUnique(q, Pow2(w), 0, q);
    Pow2Mono(bits, w * n);
    DivSmall(s, w * n);
  }

  lemma SkipZeroWord(s: nat, w: nat, pos: nat)
    requires s / Pow2(w * (pos + 1)) == 0 && Bits(s, w * pos, w) == 0
    ensures s / Pow2(w * pos) == 0
  {
    hide Pow2, Bits;
    MulDist(w, pos, 1);
    BitsSplit(s, w * pos, w);
  }

  /** Stores digit i of the string that starts at wnaf[off]. */
  method SetDigit(wnaf: array<int>, off: nat, size: nat, i: nat, v: int)
    requires off + size <= wnaf.Length && i < size
    modifies wnaf
    ensures wnaf[off..off + size] == old(wnaf[off..off + size])[i := v]
    ensures wnaf[..off] == old(wnaf[..off])
    ensures wnaf[off + size..] == old(wnaf[off + size..])
  {
    wnaf[off + i] := v;
  }

  ghost predicate ZeroAbove(d: seq<int>, pos: int)
  {
    forall k :: 0 <= k < |d| && pos < k ==> d[k] == 0
  }

  /** Finds the highest nonzero word, zeroing the digits of the words above it. */
  method SkipLeadingZeros(wnaf: array<int>, off: nat, s: Scalar, w: nat, bits: nat, size: nat) returns (maxPos: nat)
    requires 0 < w < 32 && 0 < bits <= 256 && s < Pow2(bits)
    requires size == WnafSize(bits, w) && 0 < size && off + size <= wnaf.Length
    modifies wnaf
    ensures wnaf[..off + 1] == old(wnaf[..off + 1])
    ensures wnaf[off + size..] == old(wnaf[off + size..])
    ensures maxPos < size && ZeroAbove(wnaf[off..off + size], maxPos)
    ensures s / Pow2(w * (maxPos + 1)) == 0
  {
    hide Pow2, Bits, WnafSize;
    TopWord(s, bits, w);
    var lastW := bits - (size - 1) * w;
    var pos := size - 1;
    while pos > 0
      invariant 0 <= pos < size
      invariant wnaf[..off + 1] == old(wnaf[..off + 1])
      invariant wnaf[off + size..] == old(wnaf[off + size..])
      invariant forall k :: off + pos < k < off + size ==> wnaf[k] == 0
      invariant s / Pow2(w * (pos + 1)) == 0
    {
      WordInRange(bits, w, pos);
      var val := GetBitsVar(s, pos * w, if pos == size - 1 then lastW else w);
      if val != 0 {
        break;
      }
      SkipZeroWord(s, w, pos);
      wnaf[off + pos] := 0;
      pos := pos - 1;
    }
    maxPos := pos;
  }

  /** Stores the word val at pos, borrowing one unit of it from the digit below if val is even. */
  method StoreWord(wnaf: array<int>, off: nat, size: nat, pos: nat, val: int, ghost s: nat, ghost skew: int, w: nat,
      ghost top: nat)
    requires w > 0 && 0 < pos <= top < size && off + size <= wnaf.Length
    requires val == Bits(s, w * pos, w)
    requires Recoded(wnaf[off..off + size], pos, s, skew, w) && ZeroAbove(wnaf[off..off + size], top)
    modifies wnaf
    ensures wnaf[..off] == old(wnaf[..off])
    ensures wnaf[off + size..] == old(wnaf[off + size..])
    ensures Recoded(wnaf[off..off + size], pos + 1, s, skew, w) && ZeroAbove(wnaf[off..off + size], top)
  {
    hide Eval, Pow2, Recoded, Bits;
    ghost var d := wnaf[off..off + size];
    if val % 2 == 0 {
      SetDigit(wnaf, off, size, pos - 1, wnaf[off + pos - 1] - Pow2(w));
      SetDigit(wnaf, off, size, pos, val + 1);
    } else {
      SetDigit(wnaf, off, size, pos, val);
    }
    Borrow(d, pos, s, skew, w, val, wnaf[off..off + size]);
  }

  /** A digit 1 or -1 at pos-1 above a digit of the opposite sign. */
  predicate LoneUnit(d: seq<int>, pos: nat)
    requires pos < |d|
  {
    pos >= 2 && ((d[pos - 1] == 1 && d[pos - 2] < 0) || (d[pos - 1] == -1 && d[pos - 2] > 0))
  }

  /** Clears a digit 1 or -1 at pos-1 whose lower neighbour has the opposite sign. */
  method FoldUnit(wnaf: array<int>, off: nat, size: nat, pos: nat, ghost s: nat, ghost skew: int, w: nat,
      ghost top: nat)
    requires w > 0 && 0 < pos <= top < size && off + size <= wnaf.Length
    requires Recoded(wnaf[off..off + size], pos + 1, s, skew, w) && ZeroAbove(wnaf[off..off + size], top)
    modifies wnaf
    ensures wnaf[..off] == old(wnaf[..off])
    ensures wnaf[off + size..] == old(wnaf[off + size..])
    ensures Recoded(wnaf[off..off + size], pos + 1, s, skew, w) && ZeroAbove(wnaf[off..off + size], top)
    ensures var d := old(wnaf[off..off + size]);
      wnaf[off..off + size]
        == if LoneUnit(d, pos) then d[pos - 2 := d[pos - 2] + d[pos - 1] * Pow2(w)][pos - 1 := 0] else d
  {
    hide Eval, Pow2, Recoded;
    ghost var d := wnaf[off..off + size];
    if pos >= 2 && ((wnaf[off + pos - 1] == 1 && wnaf[off + pos - 2] < 0)
      || (wnaf[off + pos - 1] == -1 && wnaf[off + pos - 2] > 0)) {
      ghost var unit := wnaf[off + pos - 1];
      if wnaf[off + pos - 1] == 1 {
        SetDigit(wnaf, off, size, pos - 2, wnaf[off + pos - 2] + Pow2(w));
      } else {
        SetDigit(wnaf, off, size, pos - 2, wnaf[off + pos - 2] - Pow2(w));
      }
      SetDigit(wnaf, off, size, pos - 1, 0);
      Fold(d, pos, s, skew, w, unit, wnaf[off..off + size]);
    }
  }

  /** Writes size zero digits. */
  method ClearDigits(wnaf: array<int>, off: nat, size: nat, w: nat)
    requires off + size <= wnaf.Length
    modifies wnaf
    ensures wnaf[..off] == old(wnaf[..off])
    ensures wnaf[off + size..] == old(wnaf[off + size..])
    ensures FixedDigits(wnaf[off..off + size], w) && Eval(wnaf[off..off + size], Pow2(w)) == 0
  {
    hide Eval, Pow2, FixedDigits;
    for pos := 0 to size
      invariant wnaf[..off] == old(wnaf[..off])
      invariant wnaf[off + size..] == old(wnaf[off + size..])
      invariant forall k :: off <= k < off + pos ==> wnaf[k] == 0
    {
      wnaf[off + pos] := 0;
    }
    ZeroDigits(wnaf[off..off + size], w);
  }

  /** Writes the WNAF_SIZE(w) digits of s at wnaf[off..] and returns the skew added to s. */
  method WnafFixed(wnaf: array<int>, off: nat, s: Scalar, w: nat, bits: nat) returns (skew: int)
    requires 0 < w < 32 && 0 < bits <= 256 && s < Pow2(bits)
    requires off + WnafSize(bits, w) <= wnaf.Length
    modifies wnaf
    ensures wnaf[..off] == old(wnaf[..off])
    ensures wnaf[off + WnafSize(bits, w)..] == old(wnaf[off + WnafSize(bits, w)..])
    ensures FixedDigits(wnaf[off..off + WnafSize(bits, w)], w)
    ensures Eval(wnaf[off..off + WnafSize(bits, w)], Pow2(w)) == s + skew
    ensures skew == if s != 0 && s % 2 == 0 then 1 else 0
  {
    hide Eval, Pow2, Bits, Recoded, FixedDigits, WnafSize;
    var size := WnafSize(bits, w);
    TopWord(s, bits, w);
    skew := 0;
    if s == 0 {
      ClearDigits(wnaf, off, size, w);
      return;
    }
    if IsEven(s) {
      skew := 1;
    }
    wnaf[off] := GetBitsVar(s, 0, w) + skew;
    var lastW := bits - (size - 1) * w;
    var maxPos := SkipLeadingZeros(wnaf, off, s, w, bits, size);
    var pos := 1;
    assert wnaf[off..off + size][0] == wnaf[..off + 1][off];
    RecodeStart(wnaf[off..off + size], s, w);
    while pos <= maxPos
      invariant 1 <= pos <= maxPos + 1 <= size
      invariant wnaf[..off] == old(wnaf[..off])
      invariant wnaf[off + size..] == old(wnaf[off + size..])
      invariant ZeroAbove(wnaf[off..off + size], maxPos)
      invariant Recoded(wnaf[off..off + size], pos, s, skew, w)
    {
      WordInRange(bits, w, pos);
      var val := GetBitsVar(s, pos * w, if pos == size - 1 then lastW else w);
      StoreWord(wnaf, off, size, pos, val, s, skew, w, maxPos);
      FoldUnit(wnaf, off, size, pos, s, skew, w, maxPos);
      pos := pos + 1;
    }
    RecodeEnd(wnaf[off..off + size], pos, s, skew, w);
  }

  lemma ZeroDigits(d: seq<int>, w: nat)
    requires forall i :: 0 <= i < |d| ==> d[i] == 0
    ensures FixedDigits(d, w) && Eval(d, Pow2(w)) == 0
  {
    EvalZeros(d, Pow2(w));
  }

  /** Every word read lies inside the 256 bits of a scalar. */
  lemma WordInRange(bits: nat, w: nat, pos: nat)
    requires 0 < w && 0 < bits && pos < WnafSize(bits, w)
    ensures pos * w == w * pos && pos * w < bits
    ensures pos < WnafSize(bits, w) - 1 ==> pos * w + w <= bits
    ensures 0 < bits - (WnafSize(bits, w) - 1) * w <= w
  {
    WnafSizeCovers(bits, w);
    var n := WnafSize(bits, w);
    MulDist(w, n, 1);
    MulMono(w, pos, n - 1);
    if pos < n - 1 { MulMono(w, pos + 1, n - 1); MulDist(w, pos, 1); }
  }
}
