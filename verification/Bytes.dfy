/** Big-endian byte strings. */
module Bytes {
  import opened Arith

  predicate IsBytes(s: seq<int>)
  {
    forall i :: 0 <= i < |s| ==> 0 <= s[i] < 256
  }

  function BigEndian(s: seq<int>): int
  {
    if s == [] then 0 else BigEndian(s[..|s| - 1]) * 256 + s[|s| - 1]
  }

  lemma {:induction false} BigEndianConcat(s: seq<int>, t: seq<int>)
    ensures BigEndian(s + t) == BigEndian(s) * Power(256, |t|) + BigEndian(t)
  {
    if t == [] {
      assert s + t == s;
    } else {
      var u, x := t[..|t| - 1], t[|t| - 1];
      assert (s + t)[..|s + t| - 1] == s + u;
      BigEndianConcat(s, u);
      var v, p := BigEndian(s), Power(256, |u|);
      assert (v * p) * 256 == v * (256 * p) by { MulAssoc(v, p, 256); Swap(p, 256); }
    }
  }

  lemma {:induction false} BigEndianRange(s: seq<int>)
    requires IsBytes(s)
    ensures 0 <= BigEndian(s) < Power(256, |s|)
  {
    if s != [] {
      BigEndianRange(s[..|s| - 1]);
    }
  }

  /** Strings of the same length are told apart by their values. */
  lemma {:induction false} BigEndianInjective(s: seq<int>, t: seq<int>)
    requires IsBytes(s) && IsBytes(t) && |s| == |t| && BigEndian(s) == BigEndian(t)
    ensures s == t
  {
    if s != [] {
      var n := |s| - 1;
      BigEndianInjective(s[..n], t[..n]);
      assert s == s[..n] + [s[n]] && t == t[..n] + [t[n]];
    }
  }

  lemma BigEndianOne(x: int)
    ensures BigEndian([x]) == x
  {
    assert [x][..0] == [];
  }

  lemma BigEndianTwo(x: int, y: int)
    ensures BigEndian([x, y]) == x * 256 + y
  {
    assert [x, y][..1] == [x];
    BigEndianOne(x);
  }

  /** Leading zero bytes do not matter. */
  lemma {:induction false} LeadingZeros(z: seq<int>, s: seq<int>)
    requires forall i :: 0 <= i < |z| ==> z[i] == 0
    ensures BigEndian(z + s) == BigEndian(s)
  {
    BigEndianConcat(z, s);
    ZeroBytes(z);
  }

  lemma {:induction false} ZeroBytes(z: seq<int>)
    requires forall i :: 0 <= i < |z| ==> z[i] == 0
    ensures BigEndian(z) == 0
  {
    if z != [] {
      ZeroBytes(z[..|z| - 1]);
    }
  }

  lemma SixBytes(s: seq<int>)
    requires |s| == 6
    ensures BigEndian(s)
      == s[5] + s[4] * 0x100 + s[3] * 0x10000 + s[2] * 0x1000000 + s[1] * 0x100000000 + s[0] * 0x10000000000
  {
    assert s == ([s[0], s[1]] + [s[2], s[3]]) + [s[4], s[5]];
    BigEndianTwo(s[0], s[1]);
    BigEndianTwo(s[2], s[3]);
    BigEndianTwo(s[4], s[5]);
    BigEndianConcat([s[0], s[1]], [s[2], s[3]]);
    BigEndianConcat([s[0], s[1]] + [s[2], s[3]], [s[4], s[5]]);
    assert Power(256, 2) == 256 * (256 * Power(256, 0));
  }
}
