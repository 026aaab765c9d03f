/** Inverting many field elements, or normalizing many points, with a single inversion. */
module BatchInverse {
  import opened Arith
  import opened Field
  import opened Curve
  import opened Jacobian
  import opened AdditionChain

  /** The product of the values in s. */
  ghost function Product(s: seq<Fe>): int
  {
    if s == [] then 1 else Product(s[..|s| - 1]) * s[|s| - 1].v
  }

  ghost predicate NonzeroAll(s: seq<Fe>)
  {
    forall i :: 0 <= i < |s| ==> s[i].v != 0
  }

  lemma ProductStep(s: seq<Fe>, i: nat)
    requires i < |s|
    ensures Product(s[..i + 1]) == Product(s[..i]) * s[i].v
  {
    assert s[..i + 1][..i] == s[..i];
  }

  lemma {:induction false} ProductNonzero(s: seq<Fe>)
    requires IsPrime(P)
    ensures M(Product(s)) != 0 <==> NonzeroAll(s)
  {
    hide M, IsPrime;
    SmallResidues();
    if s != [] {
      var t, x := s[..|s| - 1], s[|s| - 1].v;
      ProductNonzero(t);
      if NonzeroAll(t) && x != 0 {
        NonzeroProduct(Product(t), x);
      } else if M(Product(t)) == 0 {
        Cong(Product(t), 0, x, x);
      }
    }
  }

  /** Element j's inverse comes out of the prefix product below it and the pending inverse u. */
  lemma BackStep(prefix: int, a: Fe, u: Fe, ri: Fe)
    requires Is(ri, prefix) && u.mag <= MAX_MUL_MAGNITUDE && ri.mag <= MAX_MUL_MAGNITUDE && a.mag <= MAX_MUL_MAGNITUDE
    ensures M(u.v * (prefix * a.v)) == 1 ==> M(FeMul(ri, u).v * a.v) == 1 && M(FeMul(u, a).v * prefix) == 1
    ensures u.v == 0 ==> FeMul(ri, u).v == 0 && FeMul(u, a).v == 0
  {
    hide M;
    SmallResidues();
    IsSelf(u);
    IsSelf(a);
    IsMul(ri, prefix, u, u.v);
    IsMul(u, u.v, a, a.v);
    Idempotent(prefix * u.v);
    Idempotent(u.v * a.v);
    Cong(FeMul(ri, u).v, prefix * u.v, a.v, a.v);
    Cong(FeMul(u, a).v, u.v * a.v, prefix, prefix);
    assert (prefix * u.v) * a.v == u.v * (prefix * a.v);
    assert (u.v * a.v) * prefix == u.v * (prefix * a.v);
    if u.v == 0 {
      assert prefix * u.v == 0 && u.v * a.v == 0;
    }
  }

  /** The first pass: r[i] is the product of the elements up to i. */
  ghost predicate Products(r: seq<Fe>, s: seq<Fe>, n: nat)
  {
    n <= |r| && n <= |s| && forall k :: 0 <= k < n ==> r[k].mag <= MAX_MUL_MAGNITUDE && Is(r[k], Product(s[..k + 1]))
  }

  method MultiplyUp(r: array<Fe>, a: array<Fe>, len: nat)
    requires r != a && 0 < len <= a.Length && len <= r.Length
    requires forall i :: 0 <= i < len ==> a[i].mag <= MAX_MUL_MAGNITUDE
    modifies r
    ensures r[len..] == old(r[len..])
    ensures Products(r[..len], a[..len], len)
    ensures len == 1 ==> r[0] == a[0]
  {
    hide M, Product, FeMul;
    ghost var s := a[..len];
    r[0] := a[0];
    ProductFirst(s);
    var i := 0;
    i := i + 1;
    while i < len
      invariant 1 <= i <= len
      invariant r[len..] == old(r[len..])
      invariant Products(r[..len], s, i)
      invariant len == 1 ==> r[0] == a[0]
    {
      ProductStep(s, i);
      IsSelf(a[i]);
      assert r[..len][i - 1] == r[i - 1];
      IsMul(r[i - 1], Product(s[..i]), a[i], a[i].v);
      r[i] := FeMul(r[i - 1], a[i]);
      i := i + 1;
    }
  }

  /** Elements from n on have been inverted, or all set to 0 if there was a zero among them. */
  ghost predicate Inverted(r: seq<Fe>, s: seq<Fe>, n: nat, nz: bool)
  {
    && |r| == |s|
    && forall k :: n <= k < |s| ==> r[k].mag == 1 && (if nz then M(r[k].v * s[k].v) == 1 else r[k].v == 0)
  }

  lemma InvertedExtend(r: seq<Fe>, s: seq<Fe>, n: nat, nz: bool, e: Fe)
    requires Inverted(r, s, n + 1, nz) && n < |s| && e.mag == 1 && if nz then M(e.v * s[n].v) == 1 else e.v == 0
    ensures Inverted(r[n := e], s, n, nz)
  {
    hide M;
  }

  /** The second pass: u is the inverse of the product of the elements still to be inverted. */
  method DivideDown(r: array<Fe>, a: array<Fe>, len: nat, u0: Fe, ghost nz: bool)
    requires r != a && 0 < len <= a.Length && len <= r.Length && u0.mag == 1
    requires forall i :: 0 <= i < len ==> a[i].mag <= MAX_MUL_MAGNITUDE
    requires Products(r[..len], a[..len], len)
    requires if nz then M(u0.v * Product(a[..len])) == 1 else u0.v == 0
    modifies r
    ensures r[len..] == old(r[len..])
    ensures Inverted(r[..len], a[..len], 0, nz)
  {
    hide M, Product, FeMul, Products, Inverted;
    ghost var s := a[..len];
    var u := u0;
    var i := len - 1;
    assert s[..len] == s;
    NothingInverted(r[..len], s, nz);
    while i > 0
      invariant 0 <= i < len && u.mag == 1
      invariant r[len..] == old(r[len..])
      invariant Products(r[..len], s, i + 1)
      invariant if nz then M(u.v * Product(s[..i + 1])) == 1 else u.v == 0
      invariant Inverted(r[..len], s, i + 1, nz)
    {
      var j := i;
      i := i - 1;
      ghost var before := r[..len];
      ProductStep(s, j);
      ProductsAt(before, s, j, u);
      BackStep(Product(s[..j]), a[j], u, r[i]);
      r[j] := FeMul(r[i], u);
      ProductsAt(before, s, j, r[j]);
      u := FeMul(u, a[j]);
      InvertedExtend(before, s, j, nz, r[j]);
      assert r[..len] == before[j := r[j]];
    }
    ProductFirst(s);
    ghost var before := r[..len];
    r[0] := u;
    InvertedExtend(before, s, 0, nz, u);
    assert r[..len] == before[0 := u];
  }

  lemma NothingInverted(r: seq<Fe>, s: seq<Fe>, nz: bool)
    requires |r| == |s|
    ensures Inverted(r, s, |s|, nz)
  {
  }

  lemma ProductsAt(r: seq<Fe>, s: seq<Fe>, j: nat, e: Fe)
    requires 0 < j && Products(r, s, j + 1)
    ensures r[j - 1].mag <= MAX_MUL_MAGNITUDE && Is(r[j - 1], Product(s[..j]))
    ensures Products(r[j := e], s, j)
  {
    hide Is, Product;
  }

  /** secp256k1_fe_inv_all_var */
  method FeInvAllVar(r: array<Fe>, a: array<Fe>, len: nat)
    requires IsPrime(P) && r != a && len <= a.Length && len <= r.Length
    requires forall i :: 0 <= i < len ==> a[i].mag <= MAX_MUL_MAGNITUDE
    modifies r
    ensures r[len..] == old(r[len..])
    ensures NonzeroAll(a[..len]) ==> forall i :: 0 <= i < len ==> M(r[i].v * a[i].v) == 1
    ensures !NonzeroAll(a[..len]) ==> forall i :: 0 <= i < len ==> r[i].v == 0
    ensures forall i :: 0 <= i < len ==> r[i].mag == 1
  {
    hide M, IsPrime, Product, NonzeroAll, Products;
    if len < 1 {
      return;
    }
    ghost var s := a[..len];
    MultiplyUp(r, a, len);
    LastProduct(r[..len], s);
    var u := FeInv(r[len - 1]);
    StartBack(s, r[len - 1], u);
    DivideDown(r, a, len, u, NonzeroAll(s));
    AllInverted(r[..len], s, NonzeroAll(s));
  }

  lemma LastProduct(r: seq<Fe>, s: seq<Fe>)
    requires 0 < |r| == |s| && Products(r, s, |s|)
    ensures r[|s| - 1].mag <= MAX_MUL_MAGNITUDE && Is(r[|s| - 1], Product(s))
  {
    hide Is, Product;
    assert s[..|s|] == s;
  }

  lemma AllInverted(r: seq<Fe>, s: seq<Fe>, nz: bool)
    requires Inverted(r, s, 0, nz)
    ensures forall k :: 0 <= k < |s| ==> r[k].mag == 1 && (if nz then M(r[k].v * s[k].v) == 1 else r[k].v == 0)
  {
  }

  lemma ProductFirst(s: seq<Fe>)
    requires |s| > 0
    ensures Product(s[..1]) == s[0].v && Is(s[0], Product(s[..1]))
  {
    assert s[..1][..0] == [];
    assert Product(s[..1]) == Product([]) * s[0].v;
    IsSelf(s[0]);
  }

  lemma StartBack(s: seq<Fe>, last: Fe, u: Fe)
    requires IsPrime(P) && Is(last, Product(s))
    requires last.v != 0 ==> M(last.v * u.v) == 1
    requires last.v == 0 ==> u.v == 0
    ensures NonzeroAll(s) ==> M(u.v * Product(s)) == 1
    ensures !NonzeroAll(s) ==> u.v == 0
  {
    hide M, IsPrime, Product, NonzeroAll;
    ProductNonzero(s);
    Idempotent(Product(s));
    Cong(u.v, u.v, last.v, Product(s));
    Swap(u.v, last.v);
  }

  // ---- points ----

  /** The product of the z coordinates of the finite points in s. */
  ghost function FiniteProduct(s: seq<Gej>): int
  {
    if s == [] then 1
    else if s[|s| - 1].infinity then FiniteProduct(s[..|s| - 1])
    else FiniteProduct(s[..|s| - 1]) * s[|s| - 1].z.v
  }

  lemma FiniteStep(s: seq<Gej>, i: nat)
    requires i < |s|
    ensures FiniteProduct(s[..i + 1])
      == if s[i].infinity then FiniteProduct(s[..i]) else FiniteProduct(s[..i]) * s[i].z.v
  {
    assert s[..i + 1][..i] == s[..i];
  }

  lemma {:induction false} FiniteNonzero(s: seq<Gej>)
    requires IsPrime(P) && forall i :: 0 <= i < |s| ==> s[i].infinity || s[i].z.v != 0
    ensures M(FiniteProduct(s)) != 0
  {
    hide M, IsPrime;
    SmallResidues();
    if s != [] {
      FiniteNonzero(s[..|s| - 1]);
      if !s[|s| - 1].infinity { NonzeroProduct(FiniteProduct(s[..|s| - 1]), s[|s| - 1].z.v); }
    }
  }

  /** Points at infinity do not contribute. */
  lemma {:induction false} FiniteSkip(s: seq<Gej>, i: nat, j: nat)
    requires i <= j <= |s| && forall k :: i <= k < j ==> s[k].infinity
    ensures FiniteProduct(s[..i]) == FiniteProduct(s[..j])
    decreases j - i
  {
    if i < j {
      FiniteSkip(s, i, j - 1);
      FiniteStep(s, j - 1);
    }
  }

  lemma FiniteZ(a: Gej, p: CurvePoint)
    requires Rep(a, 1, p) && !a.infinity
    ensures a.z.v != 0
  {
    assert a.z.v * 1 == a.z.v;
    SmallResidues();
  }

  /** The scratch values r[k].x on the way up: prefix products at the finite points. */
  ghost predicate Prefixes(r: seq<Ge>, a: seq<Gej>, n: nat)
  {
    && |r| == |a| && n <= |a|
    && forall k :: 0 <= k < n && !a[k].infinity ==>
      r[k].x.mag <= MAX_MUL_MAGNITUDE && Is(r[k].x, FiniteProduct(a[..k + 1]))
  }

  /** The scratch values on the way down: inverses of z. */
  ghost predicate Inverses(r: seq<Ge>, a: seq<Gej>, n: int)
  {
    && |r| == |a|
    && forall k :: 0 <= k < |a| && n < k && !a[k].infinity ==>
      r[k].x.mag <= MAX_MUL_MAGNITUDE && M(r[k].x.v * a[k].z.v) == 1
  }

  /** Forward pass: r[i].x is the product of the finite z up to i; returns the last finite index. */
  method ForwardPass(r: array<Ge>, a: array<Gej>, len: nat) returns (last: nat)
    requires len <= SIZE_MAX && len <= a.Length && r.Length >= len
    requires forall i :: 0 <= i < len ==> Bounded(a[i])
    modifies r
    ensures r[len..] == old(r[len..])
    ensures last == SIZE_MAX || last < len
    ensures last == SIZE_MAX ==> r[..] == old(r[..]) && forall k :: 0 <= k < len ==> a[k].infinity
    ensures last < len ==> !a[last].infinity && forall k :: last < k < len ==> a[k].infinity
    ensures Prefixes(r[..len], a[..len], len)
  {
    hide M, FiniteProduct, FeMul;
    last := SIZE_MAX;
    ghost var s := a[..len];
    for i := 0 to len
      invariant r[len..] == old(r[len..])
      invariant last == SIZE_MAX || last < i
      invariant last == SIZE_MAX ==> r[..] == old(r[..]) && forall k :: 0 <= k < i ==> a[k].infinity
      invariant last < i ==> !a[last].infinity && forall k :: last < k < i ==> a[k].infinity
      invariant Prefixes(r[..len], s, i)
    {
      if !a[i].infinity {
        IsSelf(a[i].z);
        FiniteStep(s, i);
        if last == SIZE_MAX {
          FiniteSkip(s, 0, i);
          EmptyProduct(s);
          r[i] := r[i].(x := a[i].z);
        } else {
          FiniteSkip(s, last + 1, i);
          assert r[..len][last] == r[last];
          IsMul(r[last].x, FiniteProduct(s[..last + 1]), a[i].z, a[i].z.v);
          r[i] := r[i].(x := FeMul(r[last].x, a[i].z));
        }
        last := i;
      }
    }
  }

  lemma EmptyProduct(s: seq<Gej>)
    ensures FiniteProduct(s[..0]) == 1
  {
  }

  /** Backward pass: replaces the products at finite points by the inverses of their z. */
  method BackwardPass(r: array<Ge>, a: array<Gej>, len: nat, last: nat)
    requires IsPrime(P) && len <= a.Length && r.Length >= len && last < len
    requires forall i :: 0 <= i < len ==> Bounded(a[i]) && (a[i].infinity || a[i].z.v != 0)
    requires !a[last].infinity && forall k :: last < k < len ==> a[k].infinity
    requires Prefixes(r[..len], a[..len], len)
    modifies r
    ensures r[len..] == old(r[len..])
    ensures Inverses(r[..len], a[..len], -1)
  {
    hide M, FiniteProduct, IsPrime, FeMul, Prefixes, Inverses;
    ghost var s := a[..len];
    var lastI := last;
    PrefixAt(r[..len], s, len, last);
    var u := FeInv(r[last].x);
    FiniteNonzero(s[..last + 1]);
    Idempotent(FiniteProduct(s[..last + 1]));
    Cong(u.v, u.v, r[last].x.v, FiniteProduct(s[..last + 1]));
    Swap(u.v, r[last].x.v);
    SmallResidues();
    InversesStart(r[..len], s, last);
    PrefixesShrink(r[..len], s, len, last);
    var i := last;
    while i > 0
      invariant 0 <= i <= lastI < len && u.mag == 1
      invariant r[len..] == old(r[len..])
      invariant !a[lastI].infinity && forall k :: i <= k < lastI ==> a[k].infinity
      invariant M(u.v * FiniteProduct(s[..lastI + 1])) == 1
      invariant Prefixes(r[..len], s, lastI)
      invariant Inverses(r[..len], s, lastI)
    {
      i := i - 1;
      if !a[i].infinity {
        FiniteSkip(s, i + 1, lastI);
        FiniteStep(s, lastI);
        PrefixAt(r[..len], s, lastI, i);
        BackStep(FiniteProduct(s[..i + 1]), a[lastI].z, u, r[i].x);
        ghost var before := r[..len];
        r[lastI] := r[lastI].(x := FeMul(r[i].x, u));
        InversesExtend(before, s, lastI, i, r[lastI]);
        assert r[..len] == before[lastI := r[lastI]];
        u := FeMul(u, a[lastI].z);
        lastI := i;
      }
    }
    FiniteSkip(s, 0, lastI);
    EmptyProduct(s);
    FiniteStep(s, lastI);
    assert M(u.v * a[lastI].z.v) == 1;
    ghost var before := r[..len];
    r[lastI] := r[lastI].(x := u);
    assert r[..len] == before[lastI := r[lastI]];
    InversesFinish(before, s, lastI, r[lastI]);
  }

  lemma PrefixAt(r: seq<Ge>, a: seq<Gej>, n: nat, k: nat)
    requires Prefixes(r, a, n) && k < n && !a[k].infinity
    ensures r[k].x.mag <= MAX_MUL_MAGNITUDE && Is(r[k].x, FiniteProduct(a[..k + 1]))
  {
  }

  lemma PrefixesShrink(r: seq<Ge>, a: seq<Gej>, n: nat, m: nat)
    requires Prefixes(r, a, n) && m <= n
    ensures Prefixes(r, a, m)
  {
  }

  lemma InversesStart(r: seq<Ge>, a: seq<Gej>, last: nat)
    requires |r| == |a| && forall k :: last < k < |a| ==> a[k].infinity
    ensures Inverses(r, a, last)
  {
  }

  lemma InversesExtend(r: seq<Ge>, a: seq<Gej>, last: nat, i: nat, e: Ge)
    requires Prefixes(r, a, last) && Inverses(r, a, last) && i < last < |a|
    requires forall k :: i < k < last ==> a[k].infinity
    requires e.x.mag <= MAX_MUL_MAGNITUDE && M(e.x.v * a[last].z.v) == 1
    ensures Prefixes(r[last := e], a, i) && Inverses(r[last := e], a, i)
  {
    hide M, FiniteProduct;
  }

  lemma InversesFinish(r: seq<Ge>, a: seq<Gej>, last: nat, e: Ge)
    requires Inverses(r, a, last) && last < |a|
    requires forall k :: 0 <= k < last ==> a[k].infinity
    requires e.x.mag <= MAX_MUL_MAGNITUDE && M(e.x.v * a[last].z.v) == 1
    ensures Inverses(r[last := e], a, -1)
  {
    hide M;
  }

  /** secp256k1_ge_set_all_gej_var */
  method GeSetAllGejVar(r: array<Ge>, a: array<Gej>, len: nat, ghost pts: seq<CurvePoint>)
    requires IsPrime(P) && len <= SIZE_MAX && len <= a.Length && len <= r.Length && |pts| == len
    requires forall i :: 0 <= i < len ==> Rep(a[i], 1, pts[i])
    modifies r
    ensures r[len..] == old(r[len..])
    ensures forall i :: 0 <= i < len && pts[i].Affine? ==> RepGe(r[i], 1, pts[i]) && r[i].x.mag <= 1 && r[i].y.mag <= 1
    ensures (exists i :: 0 <= i < len && pts[i].Affine?) ==>
      forall i :: 0 <= i < len ==> r[i].infinity == pts[i].Infinity?
    // With no finite point at all the outputs are left untouched, their infinity flags included.
    ensures (forall i :: 0 <= i < len ==> pts[i].Infinity?) ==> r[..] == old(r[..])
  {
    hide M, IsPrime, Prefixes, Inverses, Coordinates, GeSetGejZinv;
    forall i | 0 <= i < len && !a[i].infinity
      ensures a[i].z.v != 0
    {
      FiniteZ(a[i], pts[i]);
    }
    var last := ForwardPass(r, a, len);
    if last == SIZE_MAX {
      return;
    }
    BackwardPass(r, a, len, last);
    ghost var scratch := r[..len];
    for i := 0 to len
      invariant r[len..] == old(r[len..])
      invariant forall k :: 0 <= k < i ==> r[k].infinity == a[k].infinity
      invariant forall k :: 0 <= k < i && pts[k].Affine? ==>
        RepGe(r[k], 1, pts[k]) && r[k].x.mag <= 1 && r[k].y.mag <= 1
      invariant forall k :: i <= k < len ==> r[k] == scratch[k]
    {
      r[i] := r[i].(infinity := a[i].infinity);
      if !a[i].infinity {
        InverseAt(scratch, a[..len], i);
        ToAffine(a[i], r[i].x, pts[i]);
        r[i] := GeSetGejZinv(a[i], r[i].x);
      }
    }
  }

  lemma InverseAt(r: seq<Ge>, a: seq<Gej>, k: nat)
    requires Inverses(r, a, -1) && k < |a| && !a[k].infinity
    ensures r[k].x.mag <= MAX_MUL_MAGNITUDE && M(r[k].x.v * a[k].z.v) == 1
  {
  }

  /** Dividing by the squares and cubes of z gives the affine coordinates. */
  lemma ToAffine(a: Gej, zi: Fe, p: CurvePoint)
    requires p.Affine? && Rep(a, 1, p) && zi.mag <= MAX_MUL_MAGNITUDE && M(zi.v * a.z.v) == 1
    ensures RepGe(GeSetGejZinv(a, zi), 1, p)
    ensures GeSetGejZinv(a, zi).x.mag <= 1 && GeSetGejZinv(a, zi).y.mag <= 1 && !GeSetGejZinv(a, zi).infinity
  {
    hide M;
    SmallResidues();
    var w := a.z.v * 1;
    assert w == a.z.v;
    Swap(zi.v, w);
    ZinvCoordinates(a, zi, w, p, 1);
  }

  /** An affine point relative to scale 1 is given by its very coordinates. */
  lemma AffineValues(g: Ge, p: CurvePoint)
    requires RepGe(g, 1, p)
    ensures p.Affine? ==> g.x.v == p.x && g.y.v == p.y
  {
    hide M;
    if p.Affine? {
      assert p.x * ((1 * 1) * (1 * 1)) == p.x && p.y * ((1 * 1) * ((1 * 1) * (1 * 1))) == p.y;
    }
  }

  /** secp256k1_ge_set_gej */
  method GeSetGej(a: Gej, ghost p: CurvePoint) returns (r: Ge)
    requires IsPrime(P) && Rep(a, 1, p)
    ensures RepGe(r, 1, p) && r.x.mag <= 1 && r.y.mag <= 1
  {
    hide M, IsPrime, Coordinates;
    var z := FeInv(a.z);
    var z2 := FeSqr(z);
    var z3 := FeMul(z, z2);
    var x := FeMul(a.x, z2);
    var y := FeMul(a.y, z3);
    r := Ge(x, y, a.infinity);
    if p.Affine? {
      FiniteZ(a, p);
      Swap(a.z.v, z.v);
      ToAffine(a, z, p);
      MulOrder(z, z2);
    }
  }

  lemma MulOrder(z: Fe, z2: Fe)
    requires z.mag <= MAX_MUL_MAGNITUDE && z2.mag <= MAX_MUL_MAGNITUDE
    ensures FeMul(z, z2) == FeMul(z2, z)
  {
    Swap(z.v, z2.v);
  }
}
