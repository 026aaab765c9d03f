/**
 * The strict signature parser and the serializer of src/secp256k1/src/ecdsa_impl.h, against the
 * distinguished encoding rules: definite lengths of minimal size (X.690 sections 8.1.3 and 10.1) and
 * integers of minimal size in two's complement (section 8.3).
 */
module Der {
  import opened Arith
  import opened Scalars
  import opened Bytes

  // ---- minimal byte strings ----

  function ToBytes(x: nat): seq<int>
  {
    if x == 0 then [] else ToBytes(x / 256) + [x % 256]
  }

  lemma {:induction false} ToBytesFacts(x: nat)
    ensures IsBytes(ToBytes(x)) && BigEndian(ToBytes(x)) == x
    ensures x > 0 ==> |ToBytes(x)| > 0 && ToBytes(x)[0] != 0
  {
    if x > 0 {
      ToBytesFacts(x / 256);
      assert ToBytes(x)[..|ToBytes(x)| - 1] == ToBytes(x / 256);
    }
  }

  /** A string without leading zero is the minimal string of its value. */
  lemma {:induction false} ToBytesUnique(s: seq<int>)
    requires IsBytes(s) && (s != [] ==> s[0] != 0)
    ensures BigEndian(s) >= 0 && ToBytes(BigEndian(s)) == s
  {
    if s != [] {
      var t, x := s[..|s| - 1], s[|s| - 1];
      ToBytesUnique(t);
      assert s == t + [x];
      if t == [] {
        assert BigEndian(t) == 0;
      } else {
        ToBytesFacts(BigEndian(t));
        assert BigEndian(t) > 0;
      }
    }
  }

  /** A number below 256^n has at most n bytes. */
  lemma {:induction false} ToBytesLength(x: nat, n: nat)
    requires x < Power(256, n)
    ensures |ToBytes(x)| <= n
  {
    if x > 0 {
      ToBytesLength(x / 256, n - 1);
    }
  }

  // ---- lengths ----

  /** Short form below 128, otherwise long form with as few octets as possible. */
  function EncodeLen(len: nat): seq<int>
  {
    if len < 128 then [len] else [0x80 + |ToBytes(len)|] + ToBytes(len)
  }

  ghost predicate PrefixAt(sig: seq<int>, pos: nat, e: seq<int>)
  {
    pos + |e| <= |sig| && sig[pos..pos + |e|] == e
  }

  /** A length is encoded at pos; one in long form does not exceed the string. */
  ghost predicate LenAt(sig: seq<int>, pos: nat, len: nat)
  {
    PrefixAt(sig, pos, EncodeLen(len)) && (len >= 128 ==> len <= |sig| - pos - |EncodeLen(len)|)
  }

  /** The k octets of a long form, without leading zero. */
  ghost predicate LongAt(sig: seq<int>, pos: nat, k: int, len: nat)
  {
    && 1 <= k <= 8 && pos + 1 + k <= |sig| && sig[pos + 1] != 0
    && BigEndian(sig[pos + 1..pos + 1 + k]) == len
  }

  lemma LenShape(sig: seq<int>, pos: nat, len: nat)
    requires IsBytes(sig) && |sig| <= SIZE_MAX && LenAt(sig, pos, len)
    ensures pos < |sig| && (len < 128 <==> sig[pos] < 128)
    ensures len < 128 ==> sig[pos] == len
    ensures len >= 128 ==> LongAt(sig, pos, sig[pos] - 0x80, len) && |EncodeLen(len)| == 1 + (sig[pos] - 0x80)
  {
    hide ToBytes, BigEndian, Power;
    var e := EncodeLen(len);
    assert sig[pos] == sig[pos..pos + |e|][0] == e[0];
    if len >= 128 {
      ToBytesFacts(len);
      EightBytes();
      ToBytesLength(len, 8);
      var s := ToBytes(len);
      assert sig[pos..pos + |e|][1..] == s;
      assert sig[pos + 1..pos + 1 + |s|] == sig[pos..pos + |e|][1..];
      assert sig[pos + 1] == s[0];
    }
  }

  lemma EightBytes()
    ensures Power(256, 8) == SIZE_MAX + 1
  {
    assert Power(256, 4) == 0x100000000;
    assert Power(256, 8) == 256 * (256 * (256 * (256 * Power(256, 4))));
  }

  /** What the long form says when its octets are read back. */
  lemma LongForm(sig: seq<int>, pos: nat, k: nat, len: nat)
    requires IsBytes(sig) && 1 <= k <= 8 && pos + 1 + k <= |sig| && sig[pos] == 0x80 + k && sig[pos + 1] != 0
    requires len == BigEndian(sig[pos + 1..pos + 1 + k]) && len >= 128 && len <= |sig| - (pos + 1 + k)
    ensures LenAt(sig, pos, len) && |EncodeLen(len)| == 1 + k
  {
    var s := sig[pos + 1..pos + 1 + k];
    ToBytesUnique(s);
    assert sig[pos..pos + 1 + k] == [sig[pos]] + s;
  }

  /** Accumulates up to eight octets, which fit a size_t. */
  method ReadOctets(sig: seq<int>, pos: nat, count: nat) returns (len: nat)
    requires IsBytes(sig) && count <= 8 && pos + count <= |sig|
    ensures len == BigEndian(sig[pos..pos + count])
  {
    len := 0;
    var pos', lenleft := pos, count;
    assert sig[pos..pos] == [];
    while lenleft > 0
      invariant 0 <= lenleft <= count && pos' == pos + count - lenleft
      invariant len == BigEndian(sig[pos..pos'])
    {
      assert sig[pos..pos' + 1][..pos' - pos] == sig[pos..pos'];
      BigEndianRange(sig[pos..pos' + 1]);
      PowerBound(pos' + 1 - pos);
      assert len * 256 + sig[pos'] <= SIZE_MAX;
      len := len * 256 + sig[pos'];
      pos' := pos' + 1;
      lenleft := lenleft - 1;
    }
  }

  /** secp256k1_der_read_len */
  method DerReadLen(sig: seq<int>, pos: nat) returns (ok: bool, len: nat, pos': nat)
    requires IsBytes(sig) && |sig| <= SIZE_MAX && pos <= |sig|
    ensures ok <==> exists l: nat :: LenAt(sig, pos, l)
    ensures ok ==> LenAt(sig, pos, len) && pos' == pos + |EncodeLen(len)| <= |sig|
  {
    hide ToBytes, EncodeLen, PrefixAt;
    len := 0;
    pos' := pos;
    forall l: nat | LenAt(sig, pos, l)
      ensures LenFacts(sig, pos, l)
    {
      LenShape(sig, pos, l);
    }
    hide LenAt;
    if pos' >= |sig| {
      return false, 0, pos';
    }
    var b1 := sig[pos'];
    pos' := pos' + 1;
    if b1 == 0xFF {
      return false, 0, pos';
    }
    if b1 < 0x80 {
      len := b1;
      ShortForm(sig, pos);
      return true, len, pos';
    }
    if b1 == 0x80 {
      return false, 0, pos';
    }
    var lenleft := b1 - 0x80;
    if lenleft > |sig| - pos' {
      return false, 0, pos';
    }
    if sig[pos'] == 0 {
      return false, 0, pos';
    }
    if lenleft > 8 {
      return false, 0, pos';
    }
    ghost var k := lenleft;
    len := ReadOctets(sig, pos', lenleft);
    pos' := pos' + lenleft;
    if len > |sig| - pos' {
      return false, 0, pos';
    }
    if len < 128 {
      return false, 0, pos';
    }
    LongForm(sig, pos, k, len);
    ok := true;
  }

  /** What must be in the string for a length to be there. */
  ghost predicate LenFacts(sig: seq<int>, pos: nat, len: nat)
  {
    && pos < |sig| && (len < 128 <==> sig[pos] < 128)
    && (len < 128 ==> sig[pos] == len)
    && (len >= 128 ==> LongAt(sig, pos, sig[pos] - 0x80, len) && len <= |sig| - (pos + 1 + (sig[pos] - 0x80)))
  }

  lemma ShortForm(sig: seq<int>, pos: nat)
    requires pos < |sig| && 0 <= sig[pos] < 128
    ensures LenAt(sig, pos, sig[pos]) && |EncodeLen(sig[pos])| == 1
  {
  }

  lemma {:induction false} PowerBound(n: nat)
    requires n <= 8
    ensures Power(256, n) <= SIZE_MAX + 1
    decreases 8 - n
  {
    EightBytes();
    if n < 8 {
      PowerBound(n + 1);
      PowerPositive(n);
    }
  }

  lemma {:induction false} PowerPositive(n: nat)
    ensures Power(256, n) > 0
  {
    if n > 0 { PowerPositive(n - 1); }
  }

  /** There is at most one length at a position. */
  lemma LenUnique(sig: seq<int>, pos: nat, l: nat, m: nat)
    requires IsBytes(sig) && |sig| <= SIZE_MAX && LenAt(sig, pos, l) && LenAt(sig, pos, m)
    ensures l == m
  {
    LenShape(sig, pos, l);
    LenShape(sig, pos, m);
  }

  // ---- integers ----

  /** The content octets of an integer: at least one, and not more than two's complement needs. */
  predicate IsInteger(c: seq<int>)
  {
    && IsBytes(c) && |c| >= 1
    && (|c| > 1 ==> !(c[0] == 0 && c[1] < 128) && !(c[0] == 0xFF && c[1] >= 128))
  }

  /** Two's complement. */
  function IntegerValue(c: seq<int>): int
    requires |c| >= 1
  {
    if c[0] < 128 then BigEndian(c) else BigEndian(c) - Power(256, |c|)
  }

  /** The integer reduced to a scalar: itself when it is one, 0 when it is negative or too large. */
  function ScalarOf(c: seq<int>): Scalar
    requires |c| >= 1
  {
    var v := IntegerValue(c);
    if 0 <= v < N then v else 0
  }

  function EncodeInteger(c: seq<int>): seq<int>
  {
    [0x02] + EncodeLen(|c|) + c
  }

  ghost predicate IntegerAt(sig: seq<int>, pos: nat, c: seq<int>)
  {
    IsInteger(c) && PrefixAt(sig, pos, EncodeInteger(c))
  }

  lemma EncodeLenSize(len: nat)
    ensures |EncodeLen(len)| >= 1 && (len < 128 ==> |EncodeLen(len)| == 1)
  {
  }

  lemma Slice(s: seq<int>, i: nat, j: nat, a: nat, b: nat)
    requires i <= j <= |s| && a <= b <= j - i
    ensures s[i..j][a..b] == s[i + a..i + b]
  {
    var t, u := s[i..j][a..b], s[i + a..i + b];
    assert |t| == |u|;
    forall k | 0 <= k < |t|
      ensures t[k] == u[k]
    {
      assert t[k] == s[i..j][a + k] == s[i + a + k];
    }
  }

  /** What must be in the string for an integer to be there. */
  lemma IntegerShape(sig: seq<int>, pos: nat, c: seq<int>)
    requires IsBytes(sig) && |sig| <= SIZE_MAX && IntegerAt(sig, pos, c)
    ensures pos < |sig| && sig[pos] == 0x02 && LenAt(sig, pos + 1, |c|)
    ensures var q := pos + 1 + |EncodeLen(|c|)|;
      q + |c| <= |sig| && sig[q..q + |c|] == c && |EncodeInteger(c)| == q + |c| - pos
  {
    hide ToBytes, EncodeLen, IsInteger;
    EncodeLenSize(|c|);
    var e, l := EncodeInteger(c), EncodeLen(|c|);
    var whole := sig[pos..pos + |e|];
    var q := pos + 1 + |l|;
    assert sig[pos] == whole[0];
    Slice(sig, pos, pos + |e|, 1, 1 + |l|);
    assert e[1..1 + |l|] == l;
    Slice(sig, pos, pos + |e|, 1 + |l|, |e|);
    assert e[1 + |l|..|e|] == c;
  }

  lemma Slice3(s: seq<int>, a: nat, b: nat, c: nat)
    requires a < b <= c <= |s|
    ensures s[a..c] == [s[a]] + s[a + 1..b] + s[b..c]
  {
  }

  lemma IntegerFrom(sig: seq<int>, pos: nat, c: seq<int>)
    requires pos < |sig| && sig[pos] == 0x02 && LenAt(sig, pos + 1, |c|) && IsInteger(c)
    requires var q := pos + 1 + |EncodeLen(|c|)|; q + |c| <= |sig| && sig[q..q + |c|] == c
    ensures IntegerAt(sig, pos, c) && |EncodeInteger(c)| == 1 + |EncodeLen(|c|)| + |c|
  {
    hide ToBytes, EncodeLen;
    var l := EncodeLen(|c|);
    var q := pos + 1 + |l|;
    assert sig[pos + 1..q] == l;
    Slice3(sig, pos, q, q + |c|);
  }

  lemma IntegerUnique(sig: seq<int>, pos: nat, c: seq<int>, d: seq<int>)
    requires IsBytes(sig) && |sig| <= SIZE_MAX && IntegerAt(sig, pos, c) && IntegerAt(sig, pos, d)
    ensures c == d
  {
    hide ToBytes, EncodeLen, IsInteger, LenAt;
    IntegerShape(sig, pos, c);
    IntegerShape(sig, pos, d);
    LenUnique(sig, pos + 1, |c|, |d|);
  }

  lemma Power32()
    ensures Power(256, 32) == 0x1_0000000000000000000000000000000000000000000000000000000000000000
    ensures Power(256, 32) > N
  {
    OrderIs();
    EightBytes();
    PowerSum(8, 8);
    PowerSum(16, 16);
  }

  lemma {:induction false} PowerSum(m: nat, n: nat)
    ensures Power(256, m + n) == Power(256, m) * Power(256, n)
  {
    if m > 0 {
      PowerSum(m - 1, n);
      MulAssoc(256, Power(256, m - 1), Power(256, n));
    }
  }

  lemma {:induction false} PowerMono(m: nat, n: nat)
    requires m <= n
    ensures Power(256, m) <= Power(256, n)
    decreases n - m
  {
    if m < n {
      PowerMono(m + 1, n);
      PowerPositive(m);
    }
  }

  /** A string of more than 32 bytes that does not start with a zero byte exceeds every scalar. */
  lemma LongIsLarge(s: seq<int>)
    requires IsBytes(s) && |s| > 32 && s[0] != 0
    ensures BigEndian(s) >= N
  {
    hide BigEndian, Power;
    assert s == [s[0]] + s[1..];
    BigEndianOne(s[0]);
    BigEndianConcat([s[0]], s[1..]);
    BigEndianRange(s[1..]);
    PowerMono(32, |s| - 1);
    Power32();
    MulMono(Power(256, |s| - 1), 1, s[0]);
    Swap(s[0], Power(256, |s| - 1));
  }

  /** secp256k1_scalar_set_b32 */
  function ScalarSetB32(b: seq<int>): (r: (Scalar, bool))
    requires |b| == 32 && IsBytes(b)
  {
    BigEndianRange(b);
    (BigEndian(b) % N, BigEndian(b) >= N)
  }

  /** The content behind an optional leading zero, copied to the end of 32 zero bytes. */
  lemma CopiedValue(z: seq<int>, s: seq<int>)
    requires forall i :: 0 <= i < |z| ==> z[i] == 0
    requires |z| + |s| == 32 && IsBytes(s)
    ensures IsBytes(z + s) && BigEndian(z + s) == BigEndian(s) >= 0
  {
    hide BigEndian;
    LeadingZeros(z, s);
    BigEndianRange(s);
  }

  /** How the value of the content relates to the bytes after a leading zero. */
  lemma ContentValue(c: seq<int>)
    requires IsInteger(c)
    ensures c[0] >= 128 ==> IntegerValue(c) < 0
    ensures c[0] < 128 ==> IntegerValue(c) == BigEndian(if c[0] == 0 then c[1..] else c) >= 0
    ensures c[0] < 128 && |if c[0] == 0 then c[1..] else c| > 32 ==> IntegerValue(c) >= N
  {
    hide Power;
    BigEndianRange(c);
    hide BigEndian;
    if c[0] == 0 {
      assert c == [0] + c[1..];
      LeadingZeros([0], c[1..]);
    }
    var s := if c[0] == 0 then c[1..] else c;
    if c[0] < 128 && |s| > 32 { LongIsLarge(s); }
  }

  /** secp256k1_der_parse_integer */
  method DerParseInteger(sig: seq<int>, pos: nat) returns (ok: bool, r: Scalar, pos': nat, ghost c: seq<int>)
    requires IsBytes(sig) && |sig| <= SIZE_MAX && pos <= |sig|
    ensures ok <==> exists d :: IntegerAt(sig, pos, d)
    ensures ok ==> IntegerAt(sig, pos, c) && pos' == pos + |EncodeInteger(c)| <= |sig| && r == ScalarOf(c)
  {
    hide ToBytes, EncodeLen, LenAt, IntegerAt, BigEndian, Power, EncodeInteger, IsInteger;
    pos' := pos;
    if pos' == |sig| || sig[pos'] != 0x02 {
      forall d | IntegerAt(sig, pos, d) ensures false { IntegerShape(sig, pos, d); }
      return false, 0, pos', [];
    }
    pos' := pos' + 1;
    var okLen, rlen;
    okLen, rlen, pos' := DerReadLen(sig, pos');
    if !okLen {
      forall d | IntegerAt(sig, pos, d) ensures false { IntegerShape(sig, pos, d); }
      return false, 0, pos', [];
    }
    ghost var q := pos';
    if rlen == 0 || pos' + rlen > |sig| {
      forall d | IntegerAt(sig, pos, d) ensures false { IntegerBody(sig, pos, d, rlen); }
      return false, 0, pos', [];
    }
    c := sig[q..q + rlen];
    if (sig[pos'] == 0 && rlen > 1 && sig[pos' + 1] < 128) || (sig[pos'] == 0xFF && rlen > 1 && sig[pos' + 1] >= 128) {
      Padded(c);
      forall d | IntegerAt(sig, pos, d) ensures false { IntegerBody(sig, pos, d, rlen); }
      return false, 0, pos', [];
    }
    Minimal(c);
    IntegerFrom(sig, pos, c);
    r, pos' := ContentScalar(sig, pos', rlen);
    ok := true;
  }

  /** Once the length is read, the content of an integer can only be what follows. */
  lemma IntegerBody(sig: seq<int>, pos: nat, d: seq<int>, rlen: nat)
    requires IsBytes(sig) && |sig| <= SIZE_MAX && IntegerAt(sig, pos, d) && LenAt(sig, pos + 1, rlen)
    ensures var q := pos + 1 + |EncodeLen(rlen)|;
      rlen >= 1 && q + rlen <= |sig| && sig[q..q + rlen] == d && IsInteger(d)
  {
    hide ToBytes, EncodeLen, LenAt;
    IntegerShape(sig, pos, d);
    LenUnique(sig, pos + 1, |d|, rlen);
  }

  lemma Padded(c: seq<int>)
    requires |c| > 1 && ((c[0] == 0 && c[1] < 128) || (c[0] == 0xFF && c[1] >= 128))
    ensures !IsInteger(c)
  {
  }

  lemma Minimal(c: seq<int>)
    requires IsBytes(c) && |c| >= 1 && !(|c| > 1 && ((c[0] == 0 && c[1] < 128) || (c[0] == 0xFF && c[1] >= 128)))
    ensures IsInteger(c)
  {
  }

  /** Copies the content into 32 bytes and reads it as a scalar; overflow gives 0. */
  method ContentScalar(sig: seq<int>, pos: nat, len: nat) returns (r: Scalar, pos': nat)
    requires IsBytes(sig) && len > 0 && pos + len <= |sig| && IsInteger(sig[pos..pos + len])
    ensures r == ScalarOf(sig[pos..pos + len]) && pos' == pos + len
  {
    hide BigEndian, Power, IsInteger;
    ghost var c := sig[pos..pos + len];
    ContentValue(c);
    var overflow := false;
    var rlen := len;
    pos' := pos;
    if sig[pos'] >= 128 {
      overflow := true;
    }
    if rlen > 0 && sig[pos'] == 0 {
      rlen := rlen - 1;
      pos' := pos' + 1;
    }
    ghost var s := if c[0] == 0 then c[1..] else c;
    assert sig[pos'..pos' + rlen] == s;
    if rlen > 32 {
      overflow := true;
    }
    r := 0;
    if !overflow {
      var ra := seq(32 - rlen, _ => 0) + sig[pos'..pos' + rlen];
      CopiedValue(seq(32 - rlen, _ => 0), s);
      var (value, over) := ScalarSetB32(ra);
      r, overflow := value, over;
      if !overflow { SmallMod(IntegerValue(c)); }
    }
    if overflow {
      r := 0;
    }
    pos' := pos' + rlen;
  }

  lemma SmallMod(v: int)
    requires 0 <= v < N
    ensures v % N == v
  {
    DivModUnique(v, N, 0, v);
  }

  // ---- signatures ----

  /** The sequence of two integers. */
  function EncodeSignature(c: seq<int>, d: seq<int>): seq<int>
  {
    var body := EncodeInteger(c) + EncodeInteger(d);
    [0x30] + EncodeLen(|body|) + body
  }

  /** sig is the encoding of two integers. */
  ghost predicate IsSignature(sig: seq<int>, c: seq<int>, d: seq<int>)
  {
    IsInteger(c) && IsInteger(d) && sig == EncodeSignature(c, d)
  }

  /** What must be in the string for a signature to be there. */
  lemma SignatureShape(sig: seq<int>, c: seq<int>, d: seq<int>)
    requires IsBytes(sig) && |sig| <= SIZE_MAX && IsSignature(sig, c, d)
    ensures |sig| > 0 && sig[0] == 0x30
    ensures var n := |EncodeInteger(c)| + |EncodeInteger(d)|; LenAt(sig, 1, n) && 1 + |EncodeLen(n)| + n == |sig|
    ensures var q := 1 + |EncodeLen(|EncodeInteger(c)| + |EncodeInteger(d)|)|;
      IntegerAt(sig, q, c) && IntegerAt(sig, q + |EncodeInteger(c)|, d)
  {
    hide ToBytes, EncodeLen, EncodeInteger, IsInteger;
    var a, b := EncodeInteger(c), EncodeInteger(d);
    var l := EncodeLen(|a + b|);
    assert |a + b| == |a| + |b|;
    assert sig[1..1 + |l|] == l;
    assert sig[1 + |l|..1 + |l| + |a|] == a;
    assert sig[1 + |l| + |a|..1 + |l| + |a| + |b|] == b;
  }

  lemma SignatureFrom(sig: seq<int>, n: nat, c: seq<int>, d: seq<int>)
    requires |sig| > 0 && sig[0] == 0x30 && LenAt(sig, 1, n) && 1 + |EncodeLen(n)| + n == |sig|
    requires var q := 1 + |EncodeLen(n)|; IntegerAt(sig, q, c) && IntegerAt(sig, q + |EncodeInteger(c)|, d)
    requires 1 + |EncodeLen(n)| + |EncodeInteger(c)| + |EncodeInteger(d)| == |sig|
    ensures IsSignature(sig, c, d)
  {
    hide ToBytes, EncodeLen, EncodeInteger, IsInteger;
    var a, b, q := EncodeInteger(c), EncodeInteger(d), 1 + |EncodeLen(n)|;
    assert sig == [sig[0]] + sig[1..q] + sig[q..q + |a|] + sig[q + |a|..q + |a| + |b|];
    assert |a + b| == n;
    assert sig == [0x30] + EncodeLen(n) + (a + b);
  }

  /**
   * secp256k1_ecdsa_sig_parse: accepts exactly the encodings of two integers, and returns them as
   * scalars.
   */
  method EcdsaSigParse(sig: seq<int>) returns (ok: bool, r: Scalar, s: Scalar, ghost c: seq<int>, ghost d: seq<int>)
    requires IsBytes(sig) && |sig| <= SIZE_MAX
    ensures ok <==> exists x, y :: IsSignature(sig, x, y)
    ensures ok ==> IsSignature(sig, c, d) && r == ScalarOf(c) && s == ScalarOf(d)
  {
    hide ToBytes, EncodeLen, EncodeInteger, IsInteger, IsSignature, LenAt, IntegerAt, ScalarOf;
    r, s, c, d := 0, 0, [], [];
    var pos := 0;
    if pos == |sig| || sig[pos] != 0x30 {
      forall x, y | IsSignature(sig, x, y) ensures false { SignatureShape(sig, x, y); }
      return false, 0, 0, [], [];
    }
    pos := pos + 1;
    var okLen, rlen;
    okLen, rlen, pos := DerReadLen(sig, pos);
    if !okLen {
      forall x, y | IsSignature(sig, x, y) ensures false { SignatureShape(sig, x, y); }
      return false, 0, 0, [], [];
    }
    if rlen != |sig| - pos {
      forall x, y | IsSignature(sig, x, y) ensures false { SignatureBody(sig, x, y, rlen); }
      return false, 0, 0, [], [];
    }
    ghost var q := pos;
    var okR;
    okR, r, pos, c := DerParseInteger(sig, pos);
    if !okR {
      forall x, y | IsSignature(sig, x, y) ensures false { SignatureBody(sig, x, y, rlen); }
      return false, 0, 0, [], [];
    }
    var okS;
    okS, s, pos, d := DerParseInteger(sig, pos);
    if !okS {
      forall x, y | IsSignature(sig, x, y) ensures false { SignatureFirst(sig, x, y, rlen, c); }
      return false, 0, 0, [], [];
    }
    if pos != |sig| {
      forall x, y | IsSignature(sig, x, y) ensures false { SignatureSecond(sig, x, y, rlen, c, d); }
      return false, 0, 0, [], [];
    }
    SignatureFrom(sig, rlen, c, d);
    ok := true;
  }

  lemma SignatureBody(sig: seq<int>, x: seq<int>, y: seq<int>, rlen: nat)
    requires IsBytes(sig) && |sig| <= SIZE_MAX && IsSignature(sig, x, y) && LenAt(sig, 1, rlen)
    ensures rlen == |EncodeInteger(x)| + |EncodeInteger(y)| && 1 + |EncodeLen(rlen)| + rlen == |sig|
    ensures var q := 1 + |EncodeLen(rlen)|; IntegerAt(sig, q, x) && IntegerAt(sig, q + |EncodeInteger(x)|, y)
  {
    hide ToBytes, EncodeLen, EncodeInteger, IsInteger, IsSignature, LenAt, IntegerAt;
    SignatureShape(sig, x, y);
    LenUnique(sig, 1, rlen, |EncodeInteger(x)| + |EncodeInteger(y)|);
  }

  lemma SignatureFirst(sig: seq<int>, x: seq<int>, y: seq<int>, rlen: nat, c: seq<int>)
    requires IsBytes(sig) && |sig| <= SIZE_MAX && IsSignature(sig, x, y) && LenAt(sig, 1, rlen)
      && IntegerAt(sig, 1 + |EncodeLen(rlen)|, c)
    ensures x == c && IntegerAt(sig, 1 + |EncodeLen(rlen)| + |EncodeInteger(c)|, y)
  {
    hide ToBytes, EncodeLen, EncodeInteger, IsInteger, IsSignature, LenAt, IntegerAt;
    SignatureBody(sig, x, y, rlen);
    IntegerUnique(sig, 1 + |EncodeLen(rlen)|, x, c);
  }

  lemma SignatureSecond(sig: seq<int>, x: seq<int>, y: seq<int>, rlen: nat, c: seq<int>, d: seq<int>)
    requires IsBytes(sig) && |sig| <= SIZE_MAX && IsSignature(sig, x, y) && LenAt(sig, 1, rlen)
      && IntegerAt(sig, 1 + |EncodeLen(rlen)|, c)
    requires IntegerAt(sig, 1 + |EncodeLen(rlen)| + |EncodeInteger(c)|, d)
    ensures y == d && 1 + |EncodeLen(rlen)| + |EncodeInteger(c)| + |EncodeInteger(d)| == |sig|
  {
    hide ToBytes, EncodeLen, EncodeInteger, IsInteger, IsSignature, LenAt, IntegerAt;
    SignatureBody(sig, x, y, rlen);
    SignatureFirst(sig, x, y, rlen, c);
    IntegerUnique(sig, 1 + |EncodeLen(rlen)| + |EncodeInteger(c)|, y, d);
  }

  // ---- serialization ----

  /** The content octets of a nonnegative integer. */
  function IntegerContent(x: nat): seq<int>
  {
    if x == 0 then [0]
    else
      var b := ToBytes(x);
      if |b| > 0 && b[0] >= 128 then [0] + b else b
  }

  lemma IntegerContentFacts(x: nat)
    ensures IsInteger(IntegerContent(x)) && IntegerValue(IntegerContent(x)) == x
  {
    hide ToBytes, BigEndian;
    if x == 0 {
      BigEndianOne(0);
    } else {
      ToBytesFacts(x);
      LeadingZeros([0], ToBytes(x));
    }
  }

  /** A nonnegative integer has only one minimal content. */
  lemma IntegerContentUnique(c: seq<int>)
    requires IsInteger(c) && c[0] < 128
    ensures BigEndian(c) >= 0 && c == IntegerContent(BigEndian(c))
  {
    hide ToBytes, BigEndian;
    BigEndianRange(c);
    NoBytes();
    if c[0] != 0 {
      ToBytesUnique(c);
    } else if |c| == 1 {
      assert c == [0];
      BigEndianOne(0);
    } else {
      assert c == [0] + c[1..];
      LeadingZeros([0], c[1..]);
      ToBytesUnique(c[1..]);
    }
  }

  lemma NoBytes()
    ensures ToBytes(0) == []
  {
  }

  /** secp256k1_scalar_get_b32: n big-endian bytes of x. */
  function FixedBytes(x: nat, n: nat): (b: seq<int>)
    requires x < Power(256, n)
    ensures |b| == n && IsBytes(b) && BigEndian(b) == x
  {
    if n == 0 then
      assert Power(256, 0) == 1;
      []
    else
      var b := FixedBytes(x / 256, n - 1);
      assert (b + [x % 256])[..n - 1] == b;
      b + [x % 256]
  }

  /** Drops leading zero bytes while the next byte does not look negative; returns where the rest starts. */
  method StripZeros(r: seq<int>, ghost a: nat) returns (p: nat)
    requires |r| == 33 && IsBytes(r) && r[0] == 0 && BigEndian(r) == a
    ensures p < 33 && r[p..] == IntegerContent(a)
  {
    hide ToBytes, BigEndian, IntegerContent;
    p := 0;
    var lenR := 33;
    assert r[0..] == r;
    while lenR > 1 && r[p] == 0 && r[p + 1] < 128
      invariant lenR == 33 - p && p < 33
      invariant r[p] < 128 && BigEndian(r[p..]) == a
    {
      assert r[p..] == [0] + r[p + 1..];
      LeadingZeros([0], r[p + 1..]);
      lenR := lenR - 1;
      p := p + 1;
    }
    IntegerContentUnique(r[p..]);
  }

  /** A zero byte and the 32 bytes of a scalar. */
  function Padded33(a: Scalar): (r: seq<int>)
    ensures |r| == 33 && IsBytes(r) && r[0] == 0 && BigEndian(r) == a
  {
    Power32();
    LeadingZeros([0], FixedBytes(a, 32));
    [0] + FixedBytes(a, 32)
  }

  /** secp256k1_ecdsa_sig_serialize: writes the encoding if it fits, and tells its size in any case. */
  method EcdsaSigSerialize(sig: array<int>, size: nat, ar: Scalar, as': Scalar) returns (ok: bool, size': nat)
    requires size <= sig.Length
    modifies sig
    ensures size' == |EncodeSignature(IntegerContent(ar), IntegerContent(as'))|
    ensures ok <==> size >= size'
    ensures ok ==>
      sig[..size'] == EncodeSignature(IntegerContent(ar), IntegerContent(as')) && sig[size'..] == old(sig[size'..])
    ensures !ok ==> sig[..] == old(sig[..])
  {
    hide ToBytes, BigEndian, IntegerContent, EncodeLen, Power, FixedBytes, EncodeSignature, IsBytes;
    var r := Padded33(ar);
    var s := Padded33(as');
    var rp := StripZeros(r, ar);
    var sp := StripZeros(s, as');
    var lenR, lenS := 33 - rp, 33 - sp;
    ghost var c, d := r[rp..], s[sp..];
    ShortEncoding(c, d);
    size' := 6 + lenS + lenR;
    if size < 6 + lenS + lenR {
      return false, size';
    }
    sig[0] := 0x30;
    sig[1] := 4 + lenS + lenR;
    assert sig[..2] == [0x30, 4 + lenS + lenR];
    ghost var s1 := sig[..];
    WriteInteger(sig, 2, r[rp..]);
    ghost var s2 := sig[..];
    SuffixLater(s2, s1, 4 + lenR, size');
    WriteInteger(sig, 4 + lenR, s[sp..]);
    assert sig[..][size'..] == s2[size'..] == s1[size'..];
    assert sig[..size'] == [0x30, 4 + |d| + |c|] + [0x02, |c|] + c + [0x02, |d|] + d;
    ok := true;
  }

  lemma SuffixLater(s: seq<int>, t: seq<int>, a: nat, b: nat)
    requires |s| == |t| && a <= b <= |s| && s[a..] == t[a..]
    ensures s[b..] == t[b..]
  {
    assert s[b..] == s[a..][b - a..] && t[b..] == t[a..][b - a..];
  }

  /** Tag, length and content of an integer of fewer than 128 octets, after what is there already. */
  method WriteInteger(sig: array<int>, at: nat, c: seq<int>)
    requires at + 2 + |c| <= sig.Length
    modifies sig
    ensures sig[..at + 2 + |c|] == old(sig[..at]) + [0x02, |c|] + c
    ensures sig[at + 2 + |c|..] == old(sig[at + 2 + |c|..])
  {
    ghost var before := sig[..at];
    sig[at] := 0x02;
    sig[at + 1] := |c|;
    assert sig[..at + 2] == before + [0x02, |c|];
    CopyBytes(sig, at + 2, c);
    assert sig[..at + 2 + |c|] == sig[..at + 2] + sig[at + 2..at + 2 + |c|];
  }

  /** memcpy into the signature. */
  method CopyBytes(sig: array<int>, at: nat, b: seq<int>)
    requires at + |b| <= sig.Length
    modifies sig
    ensures sig[..at] == old(sig[..at]) && sig[at..at + |b|] == b && sig[at + |b|..] == old(sig[at + |b|..])
  {
    for i := 0 to |b|
      invariant sig[..at] == old(sig[..at]) && sig[at..at + i] == b[..i] && sig[at + |b|..] == old(sig[at + |b|..])
    {
      sig[at + i] := b[i];
      assert sig[at..at + i + 1] == sig[at..at + i] + [b[i]];
    }
  }

  /** Two scalars have an encoding in short form. */
  lemma ShortEncoding(c: seq<int>, d: seq<int>)
    requires |c| <= 33 && |d| <= 33
    ensures EncodeSignature(c, d) == [0x30, 4 + |d| + |c|] + [0x02, |c|] + c + [0x02, |d|] + d
    ensures |EncodeSignature(c, d)| == 6 + |d| + |c|
  {
  }

  // ---- round trips ----

  /** The content of a scalar has at most 33 bytes. */
  lemma ScalarContent(x: Scalar)
    ensures |IntegerContent(x)| <= 33 && IsBytes(IntegerContent(x))
  {
    hide ToBytes, BigEndian, Power;
    Power32();
    ToBytesLength(x, 32);
    ToBytesFacts(x);
  }

  /** Parsing what was serialized gives the same scalars: the encoding stands for nothing else. */
  lemma ParseOfSerialize(r: Scalar, s: Scalar, sig: seq<int>, c: seq<int>, d: seq<int>)
    requires sig == EncodeSignature(IntegerContent(r), IntegerContent(s))
    ensures IsBytes(sig) && |sig| <= 72
    ensures IsSignature(sig, IntegerContent(r), IntegerContent(s))
    ensures IsSignature(sig, c, d) ==> ScalarOf(c) == r && ScalarOf(d) == s
  {
    hide ToBytes, EncodeLen, EncodeInteger, IsInteger, LenAt, IntegerAt, IntegerContent, IntegerValue;
    IntegerContentFacts(r);
    IntegerContentFacts(s);
    ScalarContent(r);
    ScalarContent(s);
    ShortEncoding(IntegerContent(r), IntegerContent(s));
    if IsSignature(sig, c, d) {
      var n := |EncodeInteger(c)| + |EncodeInteger(d)|;
      SignatureShape(sig, c, d);
      SignatureFirst(sig, IntegerContent(r), IntegerContent(s), n, c);
      SignatureSecond(sig, IntegerContent(r), IntegerContent(s), n, c, d);
    }
  }

  /** No integer takes the overflow path. */
  predicate InRange(c: seq<int>)
    requires |c| >= 1
  {
    0 <= IntegerValue(c) < N
  }

  /** A signature without overflow is the serialization of what the parser returns for it. */
  lemma SerializeOfParse(sig: seq<int>, c: seq<int>, d: seq<int>)
    requires IsSignature(sig, c, d) && InRange(c) && InRange(d)
    ensures sig == EncodeSignature(IntegerContent(ScalarOf(c)), IntegerContent(ScalarOf(d)))
  {
    hide ToBytes, EncodeLen, BigEndian, IntegerContent, Power;
    ContentValue(c);
    ContentValue(d);
    IntegerContentUnique(c);
    IntegerContentUnique(d);
  }
}
