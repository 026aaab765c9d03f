/** Sums of multiples of points, and their evaluation digit column by digit column. */
module Sums {
  import opened Arith
  import opened Curve

  /** ks[0]*ps[0] + ks[1]*ps[1] + ... */
  ghost function MultiSum(ks: seq<int>, ps: seq<CurvePoint>): CurvePoint
    requires |ks| == |ps|
  {
    if ks == [] then Infinity
    else CurveAdd(MultiSum(ks[..|ks| - 1], ps[..|ks| - 1]), Mul(ks[|ks| - 1], ps[|ks| - 1]))
  }

  lemma MultiSumExtend(ks: seq<int>, ps: seq<CurvePoint>, n: nat)
    requires |ks| == |ps| && n < |ks|
    ensures MultiSum(ks[..n + 1], ps[..n + 1]) == CurveAdd(MultiSum(ks[..n], ps[..n]), Mul(ks[n], ps[n]))
  {
    assert ks[..n + 1][..n] == ks[..n] && ps[..n + 1][..n] == ps[..n];
  }

  lemma {:induction false} MultiSumConcat(ks: seq<int>, ps: seq<CurvePoint>, ls: seq<int>, qs: seq<CurvePoint>)
    requires CurveFacts() && |ks| == |ps| && |ls| == |qs|
    ensures MultiSum(ks + ls, ps + qs) == CurveAdd(MultiSum(ks, ps), MultiSum(ls, qs))
  {
    hide CurveAdd, Mul, OnCurve;
    var n := |ls|;
    if n == 0 {
      assert ks + ls == ks && ps + qs == ps;
      AddInfinity(MultiSum(ks, ps));
    } else {
      MultiSumConcat(ks, ps, ls[..n - 1], qs[..n - 1]);
      var k := ks + ls;
      var p := ps + qs;
      assert k[..|ks| + n - 1] == ks + ls[..n - 1];
      assert p[..|ks| + n - 1] == ps + qs[..n - 1];
      assert k[..|ks| + n] == k && p[..|ks| + n] == p && ls[..n] == ls && qs[..n] == qs;
      MultiSumExtend(k, p, |ks| + n - 1);
      MultiSumExtend(ls, qs, n - 1);
      hide MultiSum, OnCurve;
      AddAssoc(MultiSum(ks, ps), MultiSum(ls[..n - 1], qs[..n - 1]), Mul(ls[n - 1], qs[n - 1]));
    }
  }

  /** A digit string and the point it multiplies. */
  datatype Stream = Stream(digits: seq<int>, point: CurvePoint)

  function Digit(d: seq<int>, i: nat): int
  {
    if i < |d| then d[i] else 0
  }

  /** The value of the digits from position i upwards. */
  function Tail(d: seq<int>, base: int, i: nat): int
  {
    if i < |d| then Eval(d[i..], base) else 0
  }

  lemma TailStep(d: seq<int>, base: int, i: nat)
    ensures Tail(d, base, i) == Digit(d, i) + base * Tail(d, base, i + 1)
    ensures Tail(d, base, 0) == Eval(d, base)
  {
    hide Eval;
    if i < |d| {
      assert d[i..][1..] == d[i + 1..];
      EvalHead(d[i..], base);
    }
    assert d[0..] == d;
    EvalEmpty(base);
    assert base * 0 == 0;
  }

  /** All streams, each reduced to its digits from i upwards. */
  ghost function Horner(s: seq<Stream>, base: int, i: nat): CurvePoint
  {
    if s == [] then Infinity
    else CurveAdd(Horner(s[..|s| - 1], base, i), Mul(Tail(s[|s| - 1].digits, base, i), s[|s| - 1].point))
  }

  /** The digits at position i of all streams, times their points. */
  ghost function Column(s: seq<Stream>, i: nat): CurvePoint
  {
    if s == [] then Infinity
    else CurveAdd(Column(s[..|s| - 1], i), Mul(Digit(s[|s| - 1].digits, i), s[|s| - 1].point))
  }

  /** One column down: everything above is multiplied by the base, and the column is added. */
  lemma {:induction false} HornerStep(s: seq<Stream>, base: int, i: nat)
    requires CurveFacts()
    ensures Horner(s, base, i) == CurveAdd(Mul(base, Horner(s, base, i + 1)), Column(s, i))
  {
    hide CurveAdd, Mul, Tail, Digit, OnCurve;
    if s == [] {
      MulInfinity(base);
      AddInfinity(Infinity);
    } else {
      var t, e := s[..|s| - 1], s[|s| - 1];
      HornerStep(t, base, i);
      var d, k := Digit(e.digits, i), Tail(e.digits, base, i + 1);
      TailStep(e.digits, base, i);
      MulAdd(base * k, d, e.point);
      assert base * k + d == Tail(e.digits, base, i);
      MulMul(base, k, e.point);
      MulSum(base, Horner(t, base, i + 1), Mul(k, e.point));
      Interchange(Mul(base, Horner(t, base, i + 1)), Column(t, i), Mul(base, Mul(k, e.point)), Mul(d, e.point));
    }
  }

  lemma {:induction false} HornerTop(s: seq<Stream>, base: int, i: nat)
    requires forall j :: 0 <= j < |s| ==> forall k :: i <= k < |s[j].digits| ==> s[j].digits[k] == 0
    ensures Horner(s, base, i) == Infinity
  {
    hide CurveAdd, Mul, OnCurve;
    if s != [] {
      HornerTop(s[..|s| - 1], base, i);
      var e := s[|s| - 1];
      if i < |e.digits| { EvalZeros(e.digits[i..], base); }
      assert Tail(e.digits, base, i) == 0;
      MulOne(e.point);
      AddInfinity(Infinity);
    }
  }

  lemma ColumnExtend(s: seq<Stream>, n: nat, i: nat)
    requires n < |s|
    ensures Column(s[..n + 1], i) == CurveAdd(Column(s[..n], i), Mul(Digit(s[n].digits, i), s[n].point))
  {
    assert s[..n + 1][..n] == s[..n];
  }

  lemma HornerExtend(s: seq<Stream>, e: Stream, base: int, i: nat)
    ensures Horner(s + [e], base, i) == CurveAdd(Horner(s, base, i), Mul(Tail(e.digits, base, i), e.point))
  {
    assert (s + [e])[..|s|] == s;
  }

  lemma Doubling(p: CurvePoint)
    requires CurveFacts()
    ensures CurveAdd(p, p) == Mul(2, p)
  {
    hide CurveAdd, Mul, OnCurve;
    MulAdd(1, 1, p);
    MulOne(p);
  }

  lemma DoubledPower(i: nat, p: CurvePoint)
    requires CurveFacts()
    ensures CurveAdd(Mul(Pow2(i), p), Mul(Pow2(i), p)) == Mul(Pow2(i + 1), p)
  {
    hide CurveFacts, Mul, Pow2, CurveAdd, OnCurve;
    MulAdd(Pow2(i), Pow2(i), p);
    Pow2Step(i + 1);
  }
}
