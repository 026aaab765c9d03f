/**
 * The lax signature parser of src/secp256k1/contrib/lax_der_parsing.c, and how its answers compare
 * with those of the strict parser on the strings that the strict parser accepts.
 */
module LaxDer {
  import opened Arith
  import opened Scalars
  import opened Bytes
  import opened Der

  // ---- the lax grammar ----

  /** 2^56: every length below has at most seven significant octets. */
  const TWO_56: nat := 0x100000000000000

  /**
   * A length at pos, whose octets end at start: one octet below 0x80, or a count and that many octets,
   * leading zeros allowed, of a number below 2^56.
   */
  ghost predicate LaxLenAt(sig: seq<int>, pos: nat, len: int, start: nat)
  {
    && pos < start <= |sig|
    && if sig[pos] < 0x80 then start == pos + 1 && len == sig[pos]
       else start == pos + 1 + (sig[pos] - 0x80) && BigEndian(sig[pos + 1..start]) == len && len < TWO_56
  }

  /** An integer at pos with the given content, which ends at end. Any content will do, even none. */
  ghost predicate LaxIntegerAt(sig: seq<int>, pos: nat, c: seq<int>, end: nat)
  {
    && pos < |sig| && sig[pos] == 0x02 && |c| <= end <= |sig|
    && LaxLenAt(sig, pos + 1, |c|, end - |c|) && sig[end - |c|..end] == c
  }

  /** The sequence tag and some length octets, which end at p. What they say does not matter. */
  predicate LaxHeaderAt(sig: seq<int>, p: nat)
  {
    |sig| >= 2 && sig[0] == 0x30 && p <= |sig| && p == if sig[1] < 0x80 then 2 else 2 + (sig[1] - 0x80)
  }

  /** A header, two integers, and anything after them. */
  ghost predicate IsLaxSignature(sig: seq<int>, c: seq<int>, d: seq<int>)
  {
    exists p: nat, q: nat, e: nat :: LaxHeaderAt(sig, p) && LaxIntegerAt(sig, p, c, q) && LaxIntegerAt(sig, q, d, e)
  }

  // ---- what the parser does, as a function ----

  function ZeroPrefix(s: seq<int>): (n: nat)
    ensures n <= |s| && (forall i :: 0 <= i < n ==> s[i] == 0) && (n < |s| ==> s[n] != 0)
  {
    if s == [] || s[0] != 0 then 0 else 1 + ZeroPrefix(s[1..])
  }

  /** A length at pos, and where its octets end. */
  function LaxLen(sig: seq<int>, pos: nat): Option<(int, nat)>
  {
    if pos >= |sig| then None
    else if sig[pos] < 0x80 then Some((sig[pos], pos + 1))
    else
      var n := sig[pos] - 0x80;
      if n > |sig| - (pos + 1) then None
      else
        var octets := sig[pos + 1..pos + 1 + n];
        if n - ZeroPrefix(octets) >= 8 then None
        else Some((BigEndian(octets[ZeroPrefix(octets)..]), pos + 1 + n))
  }

  /** An integer at pos: where its content starts and ends. */
  function LaxInteger(sig: seq<int>, pos: nat): Option<(nat, nat)>
  {
    if pos >= |sig| || sig[pos] != 0x02 then None
    else
      match LaxLen(sig, pos + 1)
      case None => None
      case Some((len, start)) => if 0 <= len <= |sig| - start then Some((start, start + len)) else None
  }

  /** The header only has to be there; the length in it is skipped. */
  function LaxHeader(sig: seq<int>): Option<nat>
  {
    if |sig| == 0 || sig[0] != 0x30 || |sig| == 1 then None
    else if sig[1] < 0x80 then Some(2)
    else if sig[1] - 0x80 > |sig| - 2 then None
    else Some(2 + (sig[1] - 0x80))
  }

  /** Contents are read as unsigned numbers; if either is too large both scalars are 0. */
  function LaxScalars(c: seq<int>, d: seq<int>): (Scalar, Scalar)
  {
    if 0 <= BigEndian(c) < N && 0 <= BigEndian(d) < N then (BigEndian(c), BigEndian(d)) else (0, 0)
  }

  function LaxParse(sig: seq<int>): Option<(Scalar, Scalar)>
    requires IsBytes(sig)
  {
    match LaxHeader(sig)
    case None => None
    case Some(p) =>
      match LaxInteger(sig, p)
      case None => None
      case Some((a, b)) =>
        match LaxInteger(sig, b)
        case None => None
        case Some((e, f)) =>
          LaxBounds(sig, p);
          LaxBounds(sig, b);
          Some(LaxScalars(sig[a..b], sig[e..f]))
  }

  lemma LaxBounds(sig: seq<int>, pos: nat)
    ensures LaxInteger(sig, pos).Some? ==> LaxInteger(sig, pos).value.0 <= LaxInteger(sig, pos).value.1 <= |sig|
  {
  }

  // ---- the function meets the grammar ----

  /** A string has at most seven significant octets exactly when its value is below 2^56. */
  lemma Significant(s: seq<int>)
    requires IsBytes(s)
    ensures |s| - ZeroPrefix(s) < 8 <==> BigEndian(s) < TWO_56
    ensures BigEndian(s[ZeroPrefix(s)..]) == BigEndian(s) >= 0
  {
    hide BigEndian, Power, ZeroPrefix;
    var z := ZeroPrefix(s);
    var t := s[z..];
    assert s == s[..z] + t;
    LeadingZeros(s[..z], t);
    BigEndianRange(t);
    Power7();
    if |t| < 8 {
      PowerUp(|t|, 7);
    } else {
      PowerUp(7, |t| - 1);
      LeadingOctet(t);
    }
  }

  lemma LeadingOctet(t: seq<int>)
    requires IsBytes(t) && |t| > 0 && t[0] != 0
    ensures BigEndian(t) >= Power(256, |t| - 1)
  {
    hide BigEndian, Power;
    assert t == [t[0]] + t[1..];
    BigEndianConcat([t[0]], t[1..]);
    BigEndianOne(t[0]);
    BigEndianRange(t[1..]);
    PowerUp(|t| - 1, |t| - 1);
    MulMono(Power(256, |t| - 1), 1, t[0]);
    Swap(t[0], Power(256, |t| - 1));
  }

  lemma {:induction false} PowerUp(m: nat, n: nat)
    requires m <= n
    ensures 0 < Power(256, m) <= Power(256, n)
    decreases n
  {
    if m < n {
      PowerUp(m, n - 1);
    } else if m > 0 {
      PowerUp(m - 1, m - 1);
    }
  }

  lemma LaxLenMeaning(sig: seq<int>, pos: nat, len: int, start: nat)
    requires IsBytes(sig)
    ensures LaxLen(sig, pos) == Some((len, start)) <==> LaxLenAt(sig, pos, len, start)
  {
    hide BigEndian, ZeroPrefix;
    if pos < |sig| && sig[pos] >= 0x80 && sig[pos] - 0x80 <= |sig| - (pos + 1) {
      Significant(sig[pos + 1..pos + 1 + (sig[pos] - 0x80)]);
    }
  }

  lemma LaxIntegerMeaning(sig: seq<int>, pos: nat, c: seq<int>, end: nat)
    requires IsBytes(sig)
    ensures LaxIntegerAt(sig, pos, c, end)
      <==> LaxInteger(sig, pos).Some? && var (a, b) := LaxInteger(sig, pos).value;
           a <= b <= |sig| && b == end && sig[a..b] == c
  {
    hide LaxLen, LaxLenAt;
    LaxBounds(sig, pos);
    if LaxIntegerAt(sig, pos, c, end) {
      LaxLenMeaning(sig, pos + 1, |c|, end - |c|);
    }
    if LaxInteger(sig, pos).Some? {
      var (a, b) := LaxInteger(sig, pos).value;
      LaxLenMeaning(sig, pos + 1, b - a, a);
    }
  }

  /** The function succeeds exactly on the signatures of the lax grammar, and returns what they stand for. */
  lemma LaxParseMeaning(sig: seq<int>)
    requires IsBytes(sig)
    ensures LaxParse(sig).Some? <==> exists c, d :: IsLaxSignature(sig, c, d)
    ensures forall c, d :: IsLaxSignature(sig, c, d) ==> LaxParse(sig) == Some(LaxScalars(c, d))
  {
    hide LaxInteger, LaxIntegerAt, LaxScalars;
    forall c, d | IsLaxSignature(sig, c, d)
      ensures LaxParse(sig) == Some(LaxScalars(c, d))
    {
      var p: nat, q: nat, e: nat :|
        LaxHeaderAt(sig, p) && LaxIntegerAt(sig, p, c, q) && LaxIntegerAt(sig, q, d, e);
      LaxIntegerMeaning(sig, p, c, q);
      LaxIntegerMeaning(sig, q, d, e);
    }
    if LaxParse(sig).Some? {
      var p := LaxHeader(sig).value;
      LaxBounds(sig, p);
      var (a, b) := LaxInteger(sig, p).value;
      LaxBounds(sig, b);
      var (i, j) := LaxInteger(sig, b).value;
      LaxIntegerMeaning(sig, p, sig[a..b], b);
      LaxIntegerMeaning(sig, b, sig[i..j], j);
      assert LaxHeaderAt(sig, p);
      assert IsLaxSignature(sig, sig[a..b], sig[i..j]);
    }
  }

  // ---- the parser ----

  /** The length octets of an integer, with leading zero octets ignored. */
  method ReadLaxLen(input: seq<int>, pos: nat) returns (ok: bool, len: nat, pos': nat)
    requires IsBytes(input) && |input| <= SIZE_MAX && pos <= |input|
    ensures ok <==> LaxLen(input, pos).Some?
    ensures ok ==> LaxLen(input, pos) == Some((len, pos')) && pos' <= |input|
  {
    hide BigEndian, ZeroPrefix;
    len, pos' := 0, pos;
    if pos' == |input| {
      return false, 0, pos';
    }
    var lenbyte := input[pos'];
    pos' := pos' + 1;
    if lenbyte < 0x80 {
      return true, lenbyte, pos';
    }
    lenbyte := lenbyte - 0x80;
    if lenbyte > |input| - pos' {
      return false, 0, pos';
    }
    ghost var end, octets := pos' + lenbyte, input[pos'..pos' + lenbyte];
    while lenbyte > 0 && input[pos'] == 0
      invariant 0 <= lenbyte && pos + 1 <= pos' && pos' + lenbyte == end
      invariant forall i :: 0 <= i < pos' - (pos + 1) ==> octets[i] == 0
    {
      pos' := pos' + 1;
      lenbyte := lenbyte - 1;
    }
    PrefixIs(octets, pos' - (pos + 1));
    if lenbyte >= 8 {
      return false, 0, pos';
    }
    assert input[pos'..end] == octets[pos' - (pos + 1)..];
    len := ReadOctets(input, pos', lenbyte);
    pos' := pos' + lenbyte;
    ok := true;
  }

  lemma PrefixIs(s: seq<int>, n: nat)
    requires n <= |s| && (forall i :: 0 <= i < n ==> s[i] == 0) && (n < |s| ==> s[n] != 0)
    ensures ZeroPrefix(s) == n
  {
  }

  /** Tag, length and content of an integer: where the content starts and how long it is. */
  method ReadLaxInteger(input: seq<int>, pos: nat) returns (ok: bool, start: nat, len: nat)
    requires IsBytes(input) && |input| <= SIZE_MAX && pos <= |input|
    ensures ok <==> LaxInteger(input, pos).Some?
    ensures ok ==> LaxInteger(input, pos) == Some((start, start + len)) && start + len <= |input|
  {
    hide LaxLen;
    start, len := pos, 0;
    if start == |input| || input[start] != 0x02 {
      return false, start, 0;
    }
    start := start + 1;
    ok, len, start := ReadLaxLen(input, start);
    if !ok {
      return false, start, 0;
    }
    if len > |input| - start {
      return false, start, 0;
    }
    ok := true;
  }

  /** secp256k1_ecdsa_signature_parse_compact: 64 bytes, rejected as a whole if a half is too large. */
  method ParseCompact(input64: seq<int>) returns (ret: bool, r: Scalar, s: Scalar)
    requires |input64| == 64 && IsBytes(input64)
    ensures ret <==> BigEndian(input64[..32]) < N && BigEndian(input64[32..]) < N
    ensures (r, s) == LaxScalars(input64[..32], input64[32..])
  {
    hide BigEndian;
    BigEndianRange(input64[..32]);
    BigEndianRange(input64[32..]);
    ret := true;
    var (r', o1) := ScalarSetB32(input64[..32]);
    ret := ret && !o1;
    var (s', o2) := ScalarSetB32(input64[32..]);
    ret := ret && !o2;
    if ret {
      SmallMod(BigEndian(input64[..32]));
      SmallMod(BigEndian(input64[32..]));
      r, s := r', s';
    } else {
      r, s := 0, 0;
    }
  }

  /**
   * Skips leading zeros of the content and copies the rest to the end of 32 zero bytes; overflow
   * means that it does not fit.
   */
  method CopyValue(input: seq<int>, pos: nat, len: nat) returns (value: seq<int>, overflow: bool)
    requires IsBytes(input) && pos + len <= |input|
    ensures |value| == 32 && IsBytes(value)
    ensures !overflow ==> BigEndian(value) == BigEndian(input[pos..pos + len])
    ensures overflow ==> BigEndian(input[pos..pos + len]) >= N
  {
    hide BigEndian;
    ghost var c := input[pos..pos + len];
    var p, n := pos, len;
    while n > 0 && input[p] == 0
      invariant 0 <= n <= len && p + n == pos + len
      invariant forall i :: 0 <= i < p - pos ==> c[i] == 0
    {
      p := p + 1;
      n := n - 1;
    }
    ghost var s := input[p..p + n];
    assert c == c[..p - pos] + s;
    LeadingZeros(c[..p - pos], s);
    if n > 32 {
      LongIsLarge(s);
      overflow := true;
      value := seq(32, _ => 0);
    } else {
      overflow := false;
      value := seq(32 - n, _ => 0) + input[p..p + n];
      CopiedValue(seq(32 - n, _ => 0), s);
    }
  }

  /**
   * ecdsa_signature_parse_der_lax: succeeds exactly on the signatures of the lax grammar, and returns
   * the contents as unsigned numbers, or two zeros if one of them is too large.
   */
  method EcdsaSignatureParseDerLax(input: seq<int>)
    returns (ok: bool, r: Scalar, s: Scalar, ghost c: seq<int>, ghost d: seq<int>)
    requires IsBytes(input) && |input| <= SIZE_MAX
    ensures ok <==> exists x, y :: IsLaxSignature(input, x, y)
    ensures ok ==> IsLaxSignature(input, c, d)
    ensures ok && BigEndian(c) < N && BigEndian(d) < N ==> r == BigEndian(c) && s == BigEndian(d)
    ensures !ok || BigEndian(c) >= N || BigEndian(d) >= N ==> r == s == 0
    ensures ok <==> LaxParse(input).Some?
    ensures ok ==> LaxParse(input) == Some((r, s))
  {
    hide BigEndian, LaxInteger, LaxScalars, IsLaxSignature;
    LaxParseMeaning(input);
    c, d := [], [];
    r, s := 0, 0;
    var pos := 0;
    if pos == |input| || input[pos] != 0x30 {
      return false, 0, 0, c, d;
    }
    pos := pos + 1;
    if pos == |input| {
      return false, 0, 0, c, d;
    }
    var lenbyte := input[pos];
    pos := pos + 1;
    if lenbyte >= 0x80 {
      lenbyte := lenbyte - 0x80;
      if lenbyte > |input| - pos {
        return false, 0, 0, c, d;
      }
      pos := pos + lenbyte;
    }
    ghost var start := pos;
    var okR, rpos, rlen := ReadLaxInteger(input, pos);
    if !okR {
      return false, 0, 0, c, d;
    }
    pos := rpos + rlen;
    var okS, spos, slen := ReadLaxInteger(input, pos);
    if !okS {
      return false, 0, 0, c, d;
    }
    var tmpR, overflowR := CopyValue(input, rpos, rlen);
    var tmpS, overflowS := CopyValue(input, spos, slen);
    var overflow := overflowR || overflowS;
    c, d := input[rpos..rpos + rlen], input[spos..spos + slen];
    assert LaxParse(input) == Some(LaxScalars(c, d));
    LaxComposed(input, start, rpos, rlen, spos, slen);
    LaxValues(c, d);
    if !overflow {
      var tmpsig := tmpR + tmpS;
      assert tmpsig[..32] == tmpR && tmpsig[32..] == tmpS;
      var ret;
      ret, r, s := ParseCompact(tmpsig);
      SameScalars(tmpR, tmpS, c, d);
    } else {
      TooLarge(c, d);
    }
    ok := true;
  }

  /** The pieces that the parser has read make up a signature. */
  lemma LaxComposed(sig: seq<int>, p: nat, i: nat, m: nat, j: nat, n: nat)
    requires IsBytes(sig) && LaxHeaderAt(sig, p) && i + m <= |sig| && j + n <= |sig|
    requires LaxInteger(sig, p) == Some((i, i + m)) && LaxInteger(sig, i + m) == Some((j, j + n))
    ensures IsLaxSignature(sig, sig[i..i + m], sig[j..j + n])
  {
    hide LaxInteger, LaxIntegerAt;
    LaxIntegerMeaning(sig, p, sig[i..i + m], i + m);
    LaxIntegerMeaning(sig, i + m, sig[j..j + n], j + n);
  }

  lemma LaxValues(c: seq<int>, d: seq<int>)
    requires IsBytes(c) && IsBytes(d)
    ensures BigEndian(c) >= 0 && BigEndian(d) >= 0
    ensures BigEndian(c) < N && BigEndian(d) < N ==>
      LaxScalars(c, d).0 == BigEndian(c) && LaxScalars(c, d).1 == BigEndian(d)
    ensures BigEndian(c) >= N || BigEndian(d) >= N ==> LaxScalars(c, d) == (0, 0)
  {
    hide BigEndian;
    BigEndianRange(c);
    BigEndianRange(d);
  }

  lemma SameScalars(a: seq<int>, b: seq<int>, c: seq<int>, d: seq<int>)
    requires BigEndian(a) == BigEndian(c) && BigEndian(b) == BigEndian(d)
    ensures LaxScalars(a, b) == LaxScalars(c, d)
  {
  }

  lemma TooLarge(c: seq<int>, d: seq<int>)
    requires BigEndian(c) >= N || BigEndian(d) >= N
    ensures LaxScalars(c, d) == (0, 0)
  {
  }

  // ---- lax against strict ----

  /** On a length that the strict parser reads, the lax one reads the same. */
  lemma LaxLenAgrees(sig: seq<int>, pos: nat, len: nat)
    requires IsBytes(sig) && |sig| < TWO_56 && LenAt(sig, pos, len)
    ensures LaxLen(sig, pos) == Some((len, pos + |EncodeLen(len)|))
  {
    hide ToBytes, BigEndian, Power, ZeroPrefix, EncodeLen;
    LenShape(sig, pos, len);
    EncodeLenSize(len);
    if len >= 128 {
      var k := sig[pos] - 0x80;
      var octets := sig[pos + 1..pos + 1 + k];
      PrefixIs(octets, 0);
      assert octets[0..] == octets;
      SevenOctets(len);
    }
  }

  lemma SevenOctets(len: nat)
    requires 128 <= len < TWO_56
    ensures |EncodeLen(len)| <= 8
  {
    assert Power(256, 7) == TWO_56 by { Power7(); }
    ToBytesLength(len, 7);
  }

  lemma Power7()
    ensures Power(256, 7) == TWO_56
  {
    EightBytes();
    assert Power(256, 8) == 256 * Power(256, 7);
  }

  lemma LaxIntegerAgrees(sig: seq<int>, pos: nat, c: seq<int>)
    requires IsBytes(sig) && |sig| < TWO_56 && IntegerAt(sig, pos, c)
    ensures LaxInteger(sig, pos).Some?
    ensures var (a, b) := LaxInteger(sig, pos).value; a <= b <= |sig| && sig[a..b] == c && b == pos + |EncodeInteger(c)|
  {
    hide ToBytes, EncodeLen, LenAt, IntegerAt, LaxLen;
    IntegerShape(sig, pos, c);
    LaxLenAgrees(sig, pos + 1, |c|);
  }

  /**
   * On every string that the strict parser accepts the lax parser succeeds too, with the contents
   * read as unsigned numbers.
   */
  lemma LaxOnStrict(sig: seq<int>, c: seq<int>, d: seq<int>)
    requires IsBytes(sig) && |sig| < TWO_56 && IsSignature(sig, c, d)
    ensures LaxParse(sig) == Some(LaxScalars(c, d))
  {
    hide ToBytes, EncodeLen, LenAt, IntegerAt, LaxInteger, IsSignature, LaxScalars, EncodeInteger;
    SignatureShape(sig, c, d);
    var n := |EncodeInteger(c)| + |EncodeInteger(d)|;
    var q := 1 + |EncodeLen(n)|;
    LenShape(sig, 1, n);
    EncodeLenSize(n);
    LaxIntegerAgrees(sig, q, c);
    LaxIntegerAgrees(sig, q + |EncodeInteger(c)|, d);
  }

  lemma ScalarContentShort(c: seq<int>)
    requires IsInteger(c) && InRange(c)
    ensures |c| <= 33 && c[0] < 128 && BigEndian(c) == ScalarOf(c)
  {
    hide ToBytes, BigEndian, Power;
    ContentValue(c);
    IntegerContentUnique(c);
    Power32();
    ToBytesLength(BigEndian(c), 32);
  }

  /** When no integer takes the overflow path, both parsers return the same pair. */
  lemma ParsersAgree(sig: seq<int>, c: seq<int>, d: seq<int>)
    requires IsBytes(sig) && IsSignature(sig, c, d) && InRange(c) && InRange(d)
    ensures LaxParse(sig) == Some((ScalarOf(c), ScalarOf(d)))
  {
    hide ToBytes, BigEndian, EncodeSignature, InRange, LaxParse, ScalarOf;
    ScalarContentShort(c);
    ScalarContentShort(d);
    ShortEncoding(c, d);
    LaxOnStrict(sig, c, d);
  }

  /**
   * The exact condition on the contents: both integers are scalars; or neither is a positive scalar,
   * for which the strict parser returns two zeros, and one of them read as unsigned is too large, for
   * which the lax parser does.
   */
  lemma AgreementIff(sig: seq<int>, c: seq<int>, d: seq<int>)
    requires IsBytes(sig) && |sig| < TWO_56 && IsSignature(sig, c, d)
    ensures LaxParse(sig) == Some((ScalarOf(c), ScalarOf(d)))
      <==> || (InRange(c) && InRange(d))
           || (!IsPositiveScalar(c) && !IsPositiveScalar(d) && (BigEndian(c) >= N || BigEndian(d) >= N))
  {
    hide BigEndian, Power, ToBytes, EncodeLen, EncodeInteger, LaxParse;
    LaxOnStrict(sig, c, d);
    SignatureContents(sig, c, d);
    BigEndianRange(c);
    BigEndianRange(d);
    ContentValue(c);
    ContentValue(d);
    if c[0] >= 128 { NegativeNonzero(c); }
    if d[0] >= 128 { NegativeNonzero(d); }
  }

  predicate IsPositiveScalar(c: seq<int>)
    requires |c| >= 1
  {
    0 < IntegerValue(c) < N
  }

  lemma SignatureContents(sig: seq<int>, c: seq<int>, d: seq<int>)
    requires IsSignature(sig, c, d)
    ensures IsInteger(c) && IsInteger(d)
  {
  }

  lemma NegativeNonzero(c: seq<int>)
    requires IsInteger(c) && c[0] >= 128
    ensures BigEndian(c) > 0
  {
    hide BigEndian, Power;
    assert c == [c[0]] + c[1..];
    BigEndianOne(c[0]);
    BigEndianConcat([c[0]], c[1..]);
    BigEndianRange(c[1..]);
    PowerPositive(|c| - 1);
    MulMono(Power(256, |c| - 1), 1, c[0]);
    Swap(c[0], Power(256, |c| - 1));
  }

  /** A negative r: the strict parser returns 0 for it, the lax one the byte 128. */
  lemma NegativeDiffers()
    ensures IsSignature([0x30, 6, 2, 1, 0x80, 2, 1, 1], [0x80], [1])
    ensures ScalarOf([0x80]) == 0 && ScalarOf([1]) == 1
    ensures var lax := LaxParse([0x30, 6, 2, 1, 0x80, 2, 1, 1]); lax.Some? && lax.value.0 == 128 && lax.value.1 == 1
  {
    OrderIs();
    var sig := [0x30, 6, 2, 1, 0x80, 2, 1, 1];
    BigEndianOne(0x80);
    BigEndianOne(1);
    ShortEncoding([0x80], [1]);
    assert IsSignature(sig, [0x80], [1]);
    assert Power(256, 1) == 256 * Power(256, 0);
    LaxOnStrict(sig, [0x80], [1]);
  }
}
