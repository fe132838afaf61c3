/**
 The number-theoretic transform as a recursion over the tree of moduli: node k, of depth d below it,
 holds a polynomial modulo x^(2^d) - NodeValue(k) and splits it into its two children.
 */
module Ntt {
  import opened Bits
  import opened ModQ
  import opened Montgomery
  import opened Twiddles
  import opened Negacyclic

  type residues = seq<residue>

  /** The half of the butterfly that reduces modulo x^h - z; with -z in place of z, the other half. */
  function Split(a: residues, h: nat, z: int): (r: residues)
    requires |a| == 2 * h
    ensures |r| == h
  {
    seq(h, j requires 0 <= j < h => (a[j] + z * a[j + h]) % 12289)
  }

  /** Forward transform of the polynomial at node k, 2^d coefficients long. */
  function Forward(d: nat, k: nat, a: residues): (r: residues)
    requires |a| == Pow2(d)
    ensures |r| == |a|
    decreases d
  {
    if d == 0 then a
    else
      var h, z: int := Pow2(d - 1), Zeta(k);
      Forward(d - 1, 2 * k, Split(a, h, z)) + Forward(d - 1, 2 * k + 1, Split(a, h, -z))
  }

  /** The inverse butterfly, which doubles: u + v and (u - v)·w. */
  function Sums(u: residues, v: residues): (r: residues)
    requires |u| == |v|
    ensures |r| == |u|
  {
    seq(|u|, j requires 0 <= j < |u| => (u[j] as int + v[j]) % 12289)
  }

  function Differences(u: residues, v: residues, w: int): (r: residues)
    requires |u| == |v|
    ensures |r| == |u|
  {
    seq(|u|, j requires 0 <= j < |u| => ((u[j] - v[j]) % 12289 * w) % 12289)
  }

  /** Inverse transform below node k, without the final division by the length. */
  function Backward(d: nat, k: nat, b: residues): (r: residues)
    requires |b| == Pow2(d)
    ensures |r| == |b|
    decreases d
  {
    if d == 0 then b
    else
      var h := Pow2(d - 1);
      var u, v := Backward(d - 1, 2 * k, b[..h]), Backward(d - 1, 2 * k + 1, b[h..]);
      Sums(u, v) + Differences(u, v, ZetaInv(k))
  }

  function Scale(c: int, a: residues): (r: residues)
    ensures |r| == |a|
  {
    seq(|a|, j requires 0 <= j < |a| => (c * a[j]) % 12289)
  }

  // ----- the two transforms undo each other, up to the factor 2^d -----

  lemma SplitAt(a: residues, h: nat, z: int, j: nat)
    requires |a| == 2 * h && j < h
    ensures Split(a, h, z)[j] == (a[j] + z * a[j + h]) % 12289
  {
  }

  lemma ScaleAt(c: int, a: residues, j: nat)
    requires j < |a|
    ensures Scale(c, a)[j] == (c * a[j]) % 12289
  {
  }

  lemma SplitOfScale(c: int, a: residues, h: nat, z: int)
    requires |a| == 2 * h
    ensures Split(Scale(c, a), h, z) == Scale(c, Split(a, h, z))
  {
    hide Split, Scale;
    forall j | 0 <= j < h ensures Split(Scale(c, a), h, z)[j] == Scale(c, Split(a, h, z))[j] {
      SplitAt(Scale(c, a), h, z, j);
      SplitAt(a, h, z, j);
      ScaleAt(c, a, j);
      ScaleAt(c, a, j + h);
      ScaleAt(c, Split(a, h, z), j);
      ScaledButterfly(c, a[j], a[j + h], z);
    }
  }

  lemma ScaledButterfly(c: int, x: int, y: int, z: int)
    ensures ((c * x) % 12289 + z * ((c * y) % 12289)) % 12289 == (c * ((x + z * y) % 12289)) % 12289
  {
    var l, r := (c * x) % 12289 + z * ((c * y) % 12289), c * ((x + z * y) % 12289);
    assert Cong(l, r) by {
      hide *;
      CongMod(c * x);
      CongMod(c * y);
      CongMod(x + z * y);
      CongMul((c * y) % 12289, c * y, z);
      CongAdd((c * x) % 12289, c * x, z * ((c * y) % 12289), z * (c * y));
      CongMul((x + z * y) % 12289, x + z * y, c);
      ScaledAlgebra(c, x, y, z);
      CongTrans(l, c * x + z * (c * y), r);
    }
    SameResidue(l, r);
  }

  lemma ScaledAlgebra(c: int, x: int, y: int, z: int)
    ensures c * x + z * (c * y) == c * (x + z * y)
  {
  }

  lemma SameResidue(l: int, r: int)
    requires Cong(l, r)
    ensures l % 12289 == r % 12289
  {
  }

  lemma ScaleAppend(c: int, a: residues, b: residues)
    ensures Scale(c, a + b) == Scale(c, a) + Scale(c, b)
  {
  }

  lemma {:induction false} ForwardOfScale(d: nat, k: nat, c: int, a: residues)
    requires |a| == Pow2(d)
    ensures Forward(d, k, Scale(c, a)) == Scale(c, Forward(d, k, a))
    decreases d
  {
    if d == 0 {
    } else {
      var h, z: int := Pow2(d - 1), Zeta(k);
      var l, r := Split(a, h, z), Split(a, h, -z);
      SplitOfScale(c, a, h, z);
      SplitOfScale(c, a, h, -z);
      ForwardOfScale(d - 1, 2 * k, c, l);
      ForwardOfScale(d - 1, 2 * k + 1, c, r);
      ScaleAppend(c, Forward(d - 1, 2 * k, l), Forward(d - 1, 2 * k + 1, r));
    }
  }

  /** The inverse butterfly returns twice what the butterfly was given. */
  lemma ButterflyThere(a: residues, h: nat, k: nat, c: int)
    requires |a| == 2 * h
    ensures var z: int := Zeta(k);
            var u, v := Scale(c, Split(a, h, z)), Scale(c, Split(a, h, -z));
            Sums(u, v) + Differences(u, v, ZetaInv(k)) == Scale(2 * c, a)
  {
    var z: int := Zeta(k);
    var u, v := Scale(c, Split(a, h, z)), Scale(c, Split(a, h, -z));
    ZetaInverse(k);
    forall j | 0 <= j < h
      ensures Sums(u, v)[j] == Scale(2 * c, a)[j]
      ensures Differences(u, v, ZetaInv(k))[j] == Scale(2 * c, a)[j + h]
    {
      ThereScalar(c, a[j], a[j + h], z, ZetaInv(k), u[j], v[j]);
    }
  }

  lemma ThereScalar(c: int, x: int, y: int, z: int, w: int, u: int, v: int)
    requires Cong(z * w, 1)
    requires u == (c * ((x + z * y) % 12289)) % 12289
    requires v == (c * ((x + -z * y) % 12289)) % 12289
    ensures (u + v) % 12289 == ((2 * c) * x) % 12289
    ensures ((u - v) % 12289 * w) % 12289 == ((2 * c) * y) % 12289
  {
    ReducedTwice(c, x + z * y, u);
    ReducedTwice(c, x + -z * y, v);
    assert Cong(u + v, (2 * c) * x) && Cong((u - v) % 12289 * w, (2 * c) * y) by {
      hide *;
      CongAdd(u, c * (x + z * y), v, c * (x + -z * y));
      ThereAlgebra(c, x, y, z, w);
      CongMod(u - v);
      CongTrans((u - v) % 12289, u - v, z * ((2 * c) * y));
      CongMul((u - v) % 12289, z * ((2 * c) * y), w);
      CongMul(z * w, 1, (2 * c) * y);
      CongTrans((u - v) % 12289 * w, (z * w) * ((2 * c) * y), (2 * c) * y);
    }
    SameResidue(u + v, (2 * c) * x);
    SameResidue((u - v) % 12289 * w, (2 * c) * y);
  }

  lemma ReducedTwice(c: int, e: int, u: int)
    requires u == (c * (e % 12289)) % 12289
    ensures Cong(u, c * e)
  {
    CongMod(e);
    CongMod(c * (e % 12289));
    hide Cong;
    CongMul(e % 12289, e, c);
    CongTrans(u, c * (e % 12289), c * e);
  }

  lemma ThereAlgebra(c: int, x: int, y: int, z: int, w: int)
    ensures c * (x + z * y) + c * (x + -z * y) == (2 * c) * x
    ensures c * (x + z * y) - c * (x + -z * y) == z * ((2 * c) * y)
    ensures (z * ((2 * c) * y)) * w == (z * w) * ((2 * c) * y)
    ensures 1 * ((2 * c) * y) == (2 * c) * y
  {
  }

  /** Backward after Forward multiplies by the length. */
  lemma {:induction false} BackwardOfForward(d: nat, k: nat, a: residues)
    requires |a| == Pow2(d)
    ensures Backward(d, k, Forward(d, k, a)) == Scale(Pow2(d), a)
    decreases d
  {
    hide Split, Sums, Differences, Zeta, ZetaInv;
    if d == 0 {
      ScaleByOne(a);
    } else {
      hide Scale;
      var h, z: int := Pow2(d - 1), Zeta(k);
      var l, r := Split(a, h, z), Split(a, h, -z);
      BackwardOfForward(d - 1, 2 * k, l);
      BackwardOfForward(d - 1, 2 * k + 1, r);
      var fl, fr := Forward(d - 1, 2 * k, l), Forward(d - 1, 2 * k + 1, r);
      BackwardOfJoined(d, k, fl, fr);
      ButterflyThere(a, h, k, h);
    }
  }

  lemma BackwardOfJoined(d: nat, k: nat, u: residues, v: residues)
    requires d >= 1 && |u| == |v| == Pow2(d - 1)
    ensures var bu, bv := Backward(d - 1, 2 * k, u), Backward(d - 1, 2 * k + 1, v);
            Backward(d, k, u + v) == Sums(bu, bv) + Differences(bu, bv, ZetaInv(k))
  {
    hide Sums, Differences, ZetaInv;
    assert (u + v)[..|u|] == u && (u + v)[|u|..] == v;
  }

  lemma ScaleByOne(a: residues)
    ensures Scale(1, a) == a
  {
    assert forall j :: 0 <= j < |a| ==> (1 * a[j]) % 12289 == a[j];
  }

  /** The butterfly returns twice what the inverse butterfly was given. */
  lemma ButterflyBack(u: residues, v: residues, k: nat)
    requires |u| == |v|
    ensures var z: int := Zeta(k);
            var a := Sums(u, v) + Differences(u, v, ZetaInv(k));
            Split(a, |u|, z) == Scale(2, u) && Split(a, |u|, -z) == Scale(2, v)
  {
    var z: int := Zeta(k);
    var a := Sums(u, v) + Differences(u, v, ZetaInv(k));
    ZetaInverse(k);
    forall j | 0 <= j < |u|
      ensures Split(a, |u|, z)[j] == Scale(2, u)[j] && Split(a, |u|, -z)[j] == Scale(2, v)[j]
    {
      BackScalar(u[j], v[j], z, ZetaInv(k), a[j], a[j + |u|]);
    }
  }

  lemma BackScalar(u: int, v: int, z: int, w: int, x: int, y: int)
    requires Cong(z * w, 1)
    requires x == (u + v) % 12289 && y == ((u - v) % 12289 * w) % 12289
    ensures (x + z * y) % 12289 == (2 * u) % 12289
    ensures (x + -z * y) % 12289 == (2 * v) % 12289
  {
    CongMod(u + v);
    CongMod(u - v);
    var e := (u - v) % 12289;
    CongMod(e * w);
    assert Cong(z * y, u - v) by {
      hide *;
      CongMul(e, u - v, w);
      CongTrans(y, e * w, (u - v) * w);
      CongMul(y, (u - v) * w, z);
      CongMul(z * w, 1, u - v);
      assert z * ((u - v) * w) == (z * w) * (u - v);
      CongTrans(z * y, (z * w) * (u - v), u - v);
    }
    var t := z * y;
    assert -z * y == -t;
    hide *;
    BackLinear(u, v, x, t);
  }

  lemma BackLinear(u: int, v: int, x: int, t: int)
    requires x == (u + v) % 12289 && Cong(t, u - v)
    ensures (x + t) % 12289 == (2 * u) % 12289 && (x + -t) % 12289 == (2 * v) % 12289
  {
  }

  /** Forward after Backward multiplies by the length. */
  lemma {:induction false} ForwardOfBackward(d: nat, k: nat, b: residues)
    requires |b| == Pow2(d)
    ensures Forward(d, k, Backward(d, k, b)) == Scale(Pow2(d), b)
    decreases d, 0
  {
    if d == 0 {
      ScaleByOne(b);
    } else {
      var h := Pow2(d - 1);
      var u, v := Backward(d - 1, 2 * k, b[..h]), Backward(d - 1, 2 * k + 1, b[h..]);
      ButterflyBack(u, v, k);
      HalfForwardOfBackward(d - 1, 2 * k, b[..h], u);
      HalfForwardOfBackward(d - 1, 2 * k + 1, b[h..], v);
      assert b[..h] + b[h..] == b;
      hide Split, Sums, Differences, Zeta, ZetaInv;
      ScaleAppend(Pow2(d), b[..h], b[h..]);
    }
  }

  lemma HalfForwardOfBackward(d: nat, k: nat, b: residues, u: residues)
    requires |b| == Pow2(d) && u == Backward(d, k, b)
    ensures Forward(d, k, Scale(2, u)) == Scale(Pow2(d + 1), b)
    decreases d, 1
  {
    ForwardOfScale(d, k, 2, u);
    ForwardOfBackward(d, k, b);
    forall j | 0 <= j < |b| ensures Scale(2, Scale(Pow2(d), b))[j] == Scale(2 * Pow2(d), b)[j] {
      DoubleReduced(Pow2(d), b[j]);
    }
  }

  lemma DoubleReduced(c: int, x: int)
    ensures (2 * ((c * x) % 12289)) % 12289 == ((2 * c) * x) % 12289
  {
    assert (2 * c) * x == 2 * (c * x);
  }

  // ----- the transform evaluates the polynomial at the roots of x^n + 1 -----

  /** Node k and everything d levels below it belong to the 2048-node tree. */
  ghost predicate InTree(d: nat, k: nat) {
    1 <= k && (k + 1) * Pow2(d) <= 2048
  }

  /** The value at the j-th leaf, d levels below node k. */
  ghost function Leaf(d: nat, k: nat, j: nat): int {
    NodeValue(k * Pow2(d) + j)
  }

  /** The child of node k whose leaves include the j-th, and the leaf's number there. */
  ghost function ChildFor(d: nat, k: nat, j: nat): (ci: (nat, nat))
    requires d >= 1
  {
    if j < Pow2(d - 1) then (2 * k, j) else (2 * k + 1, j - Pow2(d - 1))
  }

  lemma Descend(d: nat, k: nat, j: nat)
    requires d >= 1 && InTree(d, k) && j < Pow2(d)
    ensures var (c, i) := ChildFor(d, k, j);
            k < 1024 && i < Pow2(d - 1) && InTree(d - 1, c) && Leaf(d, k, j) == Leaf(d - 1, c, i)
  {
    hide NodeValue;
    LeafIndex(k, Pow2(d - 1), Pow2(d), j);
  }

  lemma LeafIndex(k: nat, h: nat, p: nat, j: nat)
    requires 1 <= k && 1 <= h && p == 2 * h && j < p && (k + 1) * p <= 2048
    ensures var c, i := if j < h then 2 * k else 2 * k + 1, if j < h then j else j - h;
            k * p + j == c * h + i && (c + 1) * h <= 2048 && k < 1024
  {
    assert (2 * k + 1) * h == k * p + h && (2 * k) * h == k * p && (2 * k + 2) * h == (k + 1) * p;
    assert k < 1024 by {
      if k >= 1024 {
        MulLe(k + 1, 2, p);
      }
    }
  }

  lemma LeafItself(k: nat)
    ensures Leaf(0, k, 0) == NodeValue(k) && Pow2(0) == 1
  {
    hide NodeValue;
    assert k * 1 + 0 == k;
  }

  /** Climbing d levels from a leaf squares its value d times and arrives at the node's value. */
  lemma {:induction false} LeafPower(d: nat, k: nat, j: nat)
    requires InTree(d, k) && j < Pow2(d)
    ensures Cong(Pow(Leaf(d, k, j), Pow2(d)), NodeValue(k))
    decreases d
  {
    hide NodeValue, Cong, Pow, Leaf, InTree;
    if d == 0 {
      LeafItself(k);
      FirstPower(NodeValue(k));
    } else {
      var (c, i) := ChildFor(d, k, j);
      Descend(d, k, j);
      LeafPower(d - 1, c, i);
      assert k >= 1 by { TreePositive(d, k); }
      LeafPowerStep(k, c, Leaf(d, k, j), Pow2(d - 1));
    }
  }

  lemma TreePositive(d: nat, k: nat)
    requires InTree(d, k)
    ensures k >= 1
  {
  }

  lemma FirstPower(x: int)
    ensures Cong(Pow(x, 1), x)
  {
    assert Pow(x, 1) == x * Pow(x, 0) == x;
    CongMod(x);
  }

  lemma LeafPowerStep(k: nat, c: nat, x: int, h: nat)
    requires 1 <= k < 1024 && (c == 2 * k || c == 2 * k + 1)
    requires Cong(Pow(x, h), NodeValue(c))
    ensures Cong(Pow(x, 2 * h), NodeValue(k))
  {
    hide *;
    PowAdd(x, h, h);
    ChildSquares(k, c);
    CongMul2(Pow(x, h), NodeValue(c), Pow(x, h), NodeValue(c));
    CongTrans(Pow(x, 2 * h), NodeValue(c) * NodeValue(c), NodeValue(k));
  }

  lemma ChildSquares(k: nat, c: nat)
    requires 1 <= k < 1024 && (c == 2 * k || c == 2 * k + 1)
    ensures Cong(NodeValue(c) * NodeValue(c), NodeValue(k))
  {
    hide Cong, Zeta;
    ZetaSquare(k);
    ChildValue(k, c);
    var z: int := Zeta(k);
    assert (0 - z) * (0 - z) == z * z;
  }

  lemma ChildValue(k: nat, c: nat)
    requires 1 <= k && (c == 2 * k || c == 2 * k + 1)
    ensures NodeValue(c) == if c == 2 * k then Zeta(k) else 0 - Zeta(k)
  {
    hide Zeta;
  }

  /** Each half of the butterfly keeps the value at every root of its own modulus. */
  lemma SplitKeepsValue(a: residues, h: nat, z: int, x: int)
    requires |a| == 2 * h && Cong(Pow(x, h), z)
    ensures Cong(Eval(Split(a, h, z), x), Eval(a, x))
  {
    forall j | 0 <= j < h ensures Cong(Split(a, h, z)[j], a[..h][j] + z * a[h..][j]) {
      CongMod(a[j] + z * a[j + h]);
    }
    EvalLinear(Split(a, h, z), a[..h], z, a[h..], x);
    EvalSplit(a, h, x);
    var u, v, e := Eval(a[..h], x), Eval(a[h..], x), Eval(Split(a, h, z), x);
    hide *;
    CongMul(Pow(x, h), z, v);
    CongMod(u);
    CongAdd(u, u, Pow(x, h) * v, z * v);
    CongTrans(e, u + z * v, u + Pow(x, h) * v);
  }

  lemma ForwardAt(d: nat, k: nat, a: residues, j: nat)
    requires d >= 1 && |a| == Pow2(d) && 1 <= k && j < Pow2(d)
    ensures var (c, i) := ChildFor(d, k, j);
            Forward(d, k, a)[j] == Forward(d - 1, c, Split(a, Pow2(d - 1), NodeValue(c)))[i]
  {
    hide NodeValue, Split, Zeta;
    ChildValue(k, 2 * k);
    ChildValue(k, 2 * k + 1);
  }

  /** Output j of the transform below node k is the value of the input at that node's j-th leaf. */
  lemma {:induction false} ForwardEvaluates(d: nat, k: nat, a: residues, j: nat)
    requires |a| == Pow2(d) && InTree(d, k) && j < Pow2(d)
    ensures Cong(Forward(d, k, a)[j], Eval(a, Leaf(d, k, j)))
    decreases d
  {
    hide NodeValue, Cong, Pow, Split, Zeta, Eval, Forward, Leaf, InTree;
    if d == 0 {
      ForwardLeaf(k, a);
      EvalConstant(a, Leaf(0, k, 0));
    } else {
      var (c, i) := ChildFor(d, k, j);
      var s := Split(a, Pow2(d - 1), NodeValue(c));
      TreePositive(d, k);
      Descend(d, k, j);
      ForwardAt(d, k, a, j);
      ForwardEvaluates(d - 1, c, s, i);
      LeafPower(d - 1, c, i);
      SplitKeepsValue(a, Pow2(d - 1), NodeValue(c), Leaf(d, k, j));
      CongTrans(Forward(d, k, a)[j], Eval(s, Leaf(d, k, j)), Eval(a, Leaf(d, k, j)));
    }
  }

  lemma ForwardLeaf(k: nat, a: residues)
    requires |a| == 1
    ensures Forward(0, k, a) == a
  {
  }
}
