/**
 The public half of Falcon key generation: h = g/f in Z_q[x]/(x^1024 + 1), by transforming,
 dividing pointwise and transforming back.
 */
module FalconPublic {
  import opened Bits
  import opened ModQ
  import opened Montgomery
  import opened Twiddles
  import opened Negacyclic
  import opened Ntt
  import opened NttLoops

  type poly = s: seq<int8> | |s| == 1024 witness seq(1024, _ => 0)

  /** The root of x^(2^d) + 1 at which output j of the transform evaluates. */
  ghost function Root(d: nat, j: nat): int {
    Leaf(d, 1, j)
  }

  /** The canonical representatives of a polynomial's coefficients. */
  ghost function Reduce(a: seq<int>): (r: residues)
    ensures |r| == |a|
  {
    seq(|a|, j requires 0 <= j < |a| => a[j] % 12289)
  }

  /** The transform of any integer polynomial. */
  ghost function Transform(d: nat, a: seq<int>): (r: residues)
    requires |a| == Pow2(d)
    ensures |r| == |a|
  {
    Forward(d, 1, Reduce(a))
  }

  lemma WholeTree(d: nat)
    requires d <= 10
    ensures InTree(d, 1)
  {
    Pow2Monotonic(d, 10);
    assert Pow2(10) == 1024;
  }

  /** Every point of evaluation is a root of x^n + 1. */
  lemma RootOfUnity(d: nat, j: nat)
    requires d <= 10 && j < Pow2(d)
    ensures Cong(Pow(Root(d, j), Pow2(d)), -1)
  {
    WholeTree(d);
    assert NodeValue(1) == -1;
    hide Cong, Pow, NodeValue, Leaf;
    LeafPower(d, 1, j);
  }

  lemma {:induction false} EvalSameModQ(a: seq<int>, b: seq<int>, x: int)
    requires SameModQ(a, b)
    ensures Cong(Eval(a, x), Eval(b, x))
  {
    hide Cong, Eval;
    forall j | 0 <= j < |a| ensures Cong(a[j], b[j] + 0 * b[j]) {
      assert 0 * b[j] == 0;
    }
    EvalLinear(a, b, 0, b, x);
    assert 0 * Eval(b, x) == 0;
  }

  lemma ReduceSame(a: seq<int>)
    ensures SameModQ(Reduce(a), a) && SameModQ(a, Reduce(a))
  {
    forall j | 0 <= j < |a| ensures Cong(Reduce(a)[j], a[j]) && Cong(a[j], Reduce(a)[j]) {
      CongMod(a[j]);
    }
  }

  /** Output j of the transform is the value of the polynomial at the j-th root. */
  lemma TransformEvaluates(d: nat, a: seq<int>, j: nat)
    requires d <= 10 && |a| == Pow2(d) && j < |a|
    ensures Cong(Transform(d, a)[j], Eval(a, Root(d, j)))
  {
    hide Cong, Eval, Leaf, Forward, SameModQ, Reduce;
    WholeTree(d);
    ForwardEvaluates(d, 1, Reduce(a), j);
    ReduceSame(a);
    EvalSameModQ(Reduce(a), a, Root(d, j));
    CongTrans(Transform(d, a)[j], Eval(Reduce(a), Root(d, j)), Eval(a, Root(d, j)));
  }

  lemma {:induction false} EvalCong(a: seq<int>, x: int, y: int)
    requires Cong(x, y)
    ensures Cong(Eval(a, x), Eval(a, y))
  {
    hide Cong;
    CongMod(0);
    if a == [] {
    } else {
      EvalCong(a[1..], x, y);
      CongMod(a[0]);
      CongMul2(x, y, Eval(a[1..], x), Eval(a[1..], y));
      CongAdd(a[0], a[0], x * Eval(a[1..], x), y * Eval(a[1..], y));
    }
  }

  /** The transform whose value is 1 at root j and 0 at every other. */
  ghost function Unit(n: nat, j: nat): (r: residues)
    ensures |r| == n
  {
    seq(n, i => if i == j then 1 else 0)
  }

  /** The roots are pairwise different. */
  lemma RootsDiffer(d: nat, i: nat, j: nat)
    requires d <= 10 && i < Pow2(d) && j < Pow2(d) && i != j
    ensures !Cong(Root(d, i), Root(d, j))
  {
    hide Cong, Eval, Root, Forward, InverseNtt;
    var a := InverseNtt(d, Unit(Pow2(d), j));
    ForwardAfterInverse(d, Unit(Pow2(d), j));
    assert Reduce(a) == a;
    assert Transform(d, a)[i] == 0 && Transform(d, a)[j] == 1;
    TransformEvaluates(d, a, i);
    TransformEvaluates(d, a, j);
    if Cong(Root(d, i), Root(d, j)) {
      EvalCong(a, Root(d, i), Root(d, j));
      CongTrans(0, Eval(a, Root(d, i)), Eval(a, Root(d, j)));
      CongTrans(0, Eval(a, Root(d, j)), 1);
      ZeroIsNotOne();
    }
  }

  lemma ZeroIsNotOne()
    ensures !Cong(0, 1)
  {
  }

  /** z is the product of x and y modulo q. */
  ghost predicate IsProduct(x: int, y: int, z: int) {
    Cong(x * y, z)
  }

  /** c is the pointwise product of a and b modulo q. */
  ghost predicate Pointwise(a: residues, b: residues, c: residues) {
    |a| == |b| == |c| && forall j :: 0 <= j < |c| ==> IsProduct(a[j], b[j], c[j])
  }

  /** The transform turns the ring product into the pointwise product. */
  lemma TransformOfProduct(d: nat, f: seq<int>, h: seq<int>, j: nat)
    requires d <= 10 && |f| == |h| == Pow2(d) && j < |h|
    ensures IsProduct(Transform(d, f)[j], Transform(d, h)[j], Transform(d, NegMul(f, h))[j])
  {
    hide Cong, Eval, Root, Transform, NegMul, Pow;
    TransformEvaluates(d, f, j);
    TransformEvaluates(d, h, j);
    TransformEvaluates(d, NegMul(f, h), j);
    RootOfUnity(d, j);
    ProductAtRoot(d, f, h, Root(d, j));
    var x := Root(d, j);
    hide *;
    ProductStep(Transform(d, NegMul(f, h))[j], Eval(NegMul(f, h), x),
                Transform(d, f)[j], Eval(f, x), Transform(d, h)[j], Eval(h, x));
  }

  lemma ProductAtRoot(d: nat, f: seq<int>, h: seq<int>, x: int)
    requires |h| == Pow2(d) && Cong(Pow(x, Pow2(d)), -1)
    ensures IsProduct(Eval(f, x), Eval(h, x), Eval(NegMul(f, h), x))
  {
    hide Cong, Eval, NegMul, Pow;
    EvalNegMul(f, h, x);
    CongSym(Eval(NegMul(f, h), x), Eval(f, x) * Eval(h, x));
  }

  lemma CongSym(a: int, b: int)
    requires Cong(a, b)
    ensures Cong(b, a)
  {
  }

  lemma ProductStep(p: int, e: int, f: int, ef: int, h: int, eh: int)
    requires Cong(p, e) && IsProduct(ef, eh, e) && Cong(f, ef) && Cong(h, eh)
    ensures IsProduct(f, h, p)
  {
    hide Cong;
    CongMul2(f, ef, h, eh);
    CongTrans(f * h, ef * eh, e);
    CongTrans(f * h, e, p);
  }

  /** Polynomials with the same transform are the same modulo q. */
  lemma TransformInjective(d: nat, a: seq<int>, b: seq<int>)
    requires d <= 10 && |a| == |b| == Pow2(d)
    requires forall j :: 0 <= j < |a| ==> Cong(Transform(d, a)[j], Transform(d, b)[j])
    ensures SameModQ(a, b)
  {
    hide Forward, InverseNtt;
    forall j | 0 <= j < |a| ensures Transform(d, a)[j] == Transform(d, b)[j] {
      CongReduced(Transform(d, a)[j], Transform(d, b)[j]);
    }
    assert Transform(d, a) == Transform(d, b);
    InverseAfterForward(d, Reduce(a));
    InverseAfterForward(d, Reduce(b));
    forall j | 0 <= j < |a| ensures Cong(a[j], b[j]) {
      CongMod(a[j]);
      CongMod(b[j]);
      assert Reduce(a)[j] == Reduce(b)[j];
    }
  }

  lemma TransformRespects(d: nat, a: seq<int>, b: seq<int>, j: nat)
    requires d <= 10 && |a| == |b| == Pow2(d) && SameModQ(a, b) && j < |a|
    ensures Cong(Transform(d, a)[j], Transform(d, b)[j])
  {
    hide Cong, Eval, Root, Transform, SameModQ;
    TransformEvaluates(d, a, j);
    TransformEvaluates(d, b, j);
    EvalSameModQ(a, b, Root(d, j));
    CongTrans(Transform(d, a)[j], Eval(a, Root(d, j)), Eval(b, Root(d, j)));
    CongTrans(Transform(d, a)[j], Eval(b, Root(d, j)), Transform(d, b)[j]);
  }

  /** f·h = g in the ring exactly when the transforms multiply pointwise. */
  lemma ProductIffPointwise(d: nat, f: seq<int>, h: seq<int>, g: seq<int>)
    requires d <= 10 && |f| == |h| == |g| == Pow2(d)
    ensures SameModQ(NegMul(f, h), g) <==> Pointwise(Transform(d, f), Transform(d, h), Transform(d, g))
  {
    hide Cong, Transform, NegMul, SameModQ, IsProduct;
    var p := NegMul(f, h);
    if SameModQ(p, g) {
      forall j | 0 <= j < |g| ensures IsProduct(Transform(d, f)[j], Transform(d, h)[j], Transform(d, g)[j]) {
        TransformOfProduct(d, f, h, j);
        TransformRespects(d, p, g, j);
        ProductRespects(Transform(d, f)[j], Transform(d, h)[j], Transform(d, p)[j], Transform(d, g)[j]);
      }
    }
    if Pointwise(Transform(d, f), Transform(d, h), Transform(d, g)) {
      forall j | 0 <= j < |p| ensures Cong(Transform(d, p)[j], Transform(d, g)[j]) {
        TransformOfProduct(d, f, h, j);
        ProductFunctional(Transform(d, f)[j], Transform(d, h)[j], Transform(d, p)[j], Transform(d, g)[j]);
      }
      TransformInjective(d, p, g);
    }
  }

  lemma ProductRespects(x: int, y: int, z: int, w: int)
    requires IsProduct(x, y, z) && Cong(z, w)
    ensures IsProduct(x, y, w)
  {
    hide Cong;
    CongTrans(x * y, z, w);
  }

  lemma ProductFunctional(x: int, y: int, z: int, w: int)
    requires IsProduct(x, y, z) && IsProduct(x, y, w)
    ensures Cong(z, w)
  {
    hide Cong;
    CongSym(x * y, z);
    CongTrans(z, x * y, w);
  }

  lemma ProductCancels(u: residue, v: int, w: int, z: int)
    requires u != 0 && IsProduct(u, v, z) && IsProduct(u, w, z)
    ensures Cong(v, w)
  {
    assert !Cong(u, 0);
    hide Cong;
    CongSym(u * w, z);
    CongTrans(u * v, z, u * w);
    Cancel(u, v, w);
  }

  /** Quotients by f are unique when no value of its transform is zero. */
  lemma QuotientUnique(d: nat, f: seq<int>, g: seq<int>, h: seq<int>, h': seq<int>)
    requires d <= 10 && |f| == |g| == |h| == |h'| == Pow2(d)
    requires NoZero(Transform(d, f))
    requires SameModQ(NegMul(f, h), g) && SameModQ(NegMul(f, h'), g)
    ensures SameModQ(h, h')
  {
    hide Transform, NegMul, SameModQ, IsProduct, Cong;
    ProductIffPointwise(d, f, h, g);
    ProductIffPointwise(d, f, h', g);
    forall j | 0 <= j < |h| ensures Cong(Transform(d, h)[j], Transform(d, h')[j]) {
      ProductCancels(Transform(d, f)[j], Transform(d, h)[j], Transform(d, h')[j], Transform(d, g)[j]);
    }
    TransformInjective(d, h, h');
  }

  ghost predicate NoZero(t: residues) {
    forall j :: 0 <= j < |t| ==> t[j] != 0
  }

  /** The constant polynomial 1. */
  ghost function One(n: nat): (r: seq<int>)
    ensures |r| == n
  {
    seq(n, j => if j == 0 then 1 else 0)
  }

  /** f has a multiplicative inverse in Z_q[x]/(x^n + 1). */
  ghost predicate Invertible(f: seq<int>) {
    exists u: seq<int> :: |u| == |f| && SameModQ(NegMul(f, u), One(|f|))
  }

  /** A unit has no zero in its transform. */
  lemma UnitHasNoZero(d: nat, f: seq<int>, u: seq<int>)
    requires d <= 10 && |f| == |u| == Pow2(d)
    requires SameModQ(NegMul(f, u), One(|f|))
    ensures NoZero(Transform(d, f))
  {
    hide Transform, Eval, Root, NegMul, SameModQ, IsProduct, One, Cong;
    ProductIffPointwise(d, f, u, One(|f|));
    forall j | 0 <= j < |f| ensures Transform(d, f)[j] != 0 {
      TransformEvaluates(d, One(|f|), j);
      EvalOne(|f|, Root(d, j));
      ZeroIsNoFactor(Transform(d, f)[j], Transform(d, u)[j], Transform(d, One(|f|))[j]);
    }
  }

  lemma ZeroIsNoFactor(x: int, y: int, z: int)
    requires IsProduct(x, y, z) && Cong(z, 1)
    ensures x != 0
  {
    if x == 0 {
      ZeroProduct(y, z);
    }
  }

  lemma ZeroProduct(y: int, z: int)
    requires IsProduct(0, y, z)
    ensures Cong(0, z)
  {
  }

  lemma EvalOne(n: nat, x: int)
    requires n >= 1
    ensures Eval(One(n), x) == 1
  {
    assert One(n)[1..] == seq(n - 1, _ => 0);
    EvalZero(n - 1, x);
  }

  /** The pointwise quotient of two transforms. */
  ghost function Quotients(g: residues, t: residues): (r: residues)
    requires |g| == |t|
    ensures |r| == |g|
  {
    seq(|g|, j requires 0 <= j < |g| => MqDiv12289(g[j], t[j]))
  }

  lemma QuotientsDivide(g: residues, t: residues)
    requires |g| == |t| && NoZero(t)
    ensures Pointwise(t, Quotients(g, t), g)
  {
    hide MqDiv12289, Cong;
    forall j | 0 <= j < |g| ensures IsProduct(t[j], Quotients(g, t)[j], g[j]) {
      QuotientIsFactor(g[j], t[j]);
    }
  }

  lemma QuotientIsFactor(x: residue, y: residue)
    requires y != 0
    ensures IsProduct(y, MqDiv12289(x, y), x)
  {
    hide MqDiv12289, Cong;
    MqDivIsDivision(x, y);
    assert MqDiv12289(x, y) as int * y == y as int * MqDiv12289(x, y);
  }

  /** Dividing the transforms pointwise and transforming back solves f·h = g. */
  lemma QuotientExists(d: nat, f: seq<int>, g: seq<int>, h: residues)
    requires d <= 10 && |f| == |g| == Pow2(d) && NoZero(Transform(d, f))
    requires h == InverseNtt(d, Quotients(Transform(d, g), Transform(d, f)))
    ensures SameModQ(NegMul(f, h), g)
  {
    hide Forward, InverseNtt, NegMul, SameModQ, Quotients, Pointwise;
    var q := Quotients(Transform(d, g), Transform(d, f));
    QuotientsDivide(Transform(d, g), Transform(d, f));
    ForwardAfterInverse(d, q);
    assert Reduce(h) == h;
    assert Transform(d, h) == q;
    ProductIffPointwise(d, f, h, g);
  }

  /** f is a unit exactly when no value of its transform is zero. */
  lemma UnitIffNoZero(d: nat, f: seq<int>)
    requires d <= 10 && |f| == Pow2(d)
    ensures Invertible(f) <==> NoZero(Transform(d, f))
  {
    hide Transform, NegMul, SameModQ, NoZero, Quotients, InverseNtt;
    if Invertible(f) {
      var u: seq<int> :| |u| == |f| && SameModQ(NegMul(f, u), One(|f|));
      UnitHasNoZero(d, f, u);
    }
    if NoZero(Transform(d, f)) {
      var u := InverseNtt(d, Quotients(Transform(d, One(|f|)), Transform(d, f)));
      QuotientExists(d, f, One(|f|), u);
      assert |u| == |f| && SameModQ(NegMul(f, u), One(|f|));
    }
  }

  // ----- the device functions -----

  lemma Ten()
    ensures Pow2(10) == 1024
  {
  }

  /** The loop that loads small signed coefficients as residues. */
  method LoadSmall(f: poly, a: array<uint16>)
    requires a.Length == 1024
    modifies a
    ensures AllReduced(a[..]) && a[..] == Reduce(f)
  {
    var u := 0;
    while u < 1024
      invariant 0 <= u <= 1024
      invariant forall x :: 0 <= x < u ==> a[x] == (f[x] as int) % 12289
    {
      a[u] := MqConvSmall(f[u]);
      u := u + 1;
    }
  }

  /** `dev_ntt_f_check`: transform f into tt and report whether no entry is zero. */
  method DevNttFCheck(f: poly, tt: array<uint16>) returns (ok: bool)
    requires tt.Length == 1024
    modifies tt
    ensures Pow2(10) == 1024 && AllReduced(tt[..]) && tt[..] == Transform(10, f)
    ensures ok <==> NoZero(tt[..])
  {
    hide Forward;
    Ten();
    LoadAndTransform(f, tt);
    ok := true;
    var u := 0;
    while u < 1024
      invariant 0 <= u <= 1024
      invariant ok <==> forall x :: 0 <= x < u ==> tt[x] != 0
    {
      ok := ok && tt[u] != 0;
      u := u + 1;
    }
  }

  /** The loop that divides pointwise. */
  method DivideInPlace(h: array<uint16>, tt: array<uint16>)
    requires h.Length == tt.Length && h != tt && AllReduced(h[..]) && AllReduced(tt[..])
    modifies h
    ensures AllReduced(h[..]) && h[..] == Quotients(old(h[..]), tt[..])
  {
    hide MqDiv12289;
    ghost var o: residues := h[..];
    var u := 0;
    while u < h.Length
      invariant 0 <= u <= h.Length
      invariant AllReduced(h[..])
      invariant forall x :: u <= x < h.Length ==> h[x] == o[x]
      invariant forall x :: 0 <= x < u ==> h[x] == MqDiv12289(o[x], tt[x])
    {
      h[u] := MqDiv12289(h[u], tt[u]);
      u := u + 1;
    }
  }

  /** Dividing the transform of g by t pointwise and transforming back. */
  ghost function PublicFrom(g: poly, t: residues): (r: residues)
    requires |t| == 1024
    ensures |r| == 1024
  {
    Ten();
    InverseNtt(10, Quotients(Transform(10, g), t))
  }

  /** `dev_pub_from_ntt_f`. */
  method DevPubFromNttF(g: poly, tt: array<uint16>, h: array<uint16>)
    requires tt.Length == h.Length == 1024 && h != tt && AllReduced(tt[..])
    modifies h
    ensures AllReduced(h[..]) && tt[..] == old(tt[..])
    ensures h[..] == PublicFrom(g, tt[..])
  {
    hide Transform, InverseNtt, Quotients, AllReduced;
    Ten();
    LoadAndTransform(g, h);
    DivideInPlace(h, tt);
    MqINTT(h, 10);
  }

  method LoadAndTransform(f: poly, a: array<uint16>)
    requires a.Length == 1024
    modifies a
    ensures Pow2(10) == 1024 && AllReduced(a[..]) && a[..] == Transform(10, f)
  {
    hide Forward;
    Ten();
    LoadSmall(f, a);
    MqNTT(a, 10);
  }

  /** A reduced h is the one quotient of g by f in the ring. */
  ghost predicate IsTheQuotient(f: seq<int>, g: seq<int>, h: seq<int>) {
    && SameModQ(NegMul(f, h), g)
    && forall h': seq<int> :: |h'| == |h| && SameModQ(NegMul(f, h'), g) ==> SameModQ(h, h')
  }

  lemma QuotientsSolve(d: nat, f: seq<int>, g: seq<int>, h: residues)
    requires d <= 10 && |f| == |g| == |h| == Pow2(d) && NoZero(Transform(d, f))
    requires h == InverseNtt(d, Quotients(Transform(d, g), Transform(d, f)))
    ensures IsTheQuotient(f, g, h)
  {
    hide Transform, InverseNtt, NegMul, SameModQ, Quotients;
    QuotientExists(d, f, g, h);
    forall h': seq<int> | |h'| == |h| && SameModQ(NegMul(f, h'), g) ensures SameModQ(h, h') {
      QuotientUnique(d, f, g, h, h');
    }
  }

  /**
   `dev_compute_public`: it succeeds exactly when f is a unit of Z_q[x]/(x^1024 + 1), and then h is
   reduced and is the one polynomial with f·h = g.
   */
  method DevComputePublic(f: poly, g: poly, h: array<uint16>, tt: array<uint16>) returns (ok: bool)
    requires h.Length == tt.Length == 1024 && h != tt
    modifies h, tt
    ensures ok <==> Invertible(f)
    ensures ok ==> AllReduced(h[..]) && IsTheQuotient(f, g, h[..])
    ensures !ok ==> h[..] == old(h[..])
  {
    hide Transform, InverseNtt, Quotients, IsTheQuotient, Invertible, NoZero;
    Ten();
    UnitIffNoZero(10, f);
    ok := DevNttFCheck(f, tt);
    if ok {
      DevPubFromNttF(g, tt, h);
      QuotientsSolve(10, f, g, h[..]);
    }
  }
}
