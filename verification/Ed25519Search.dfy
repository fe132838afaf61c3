/**
 The key arithmetic of the classic search: the two-pass scalar multiplication over an abstract abelian
 group, and the batched inversion over an abstract field.
 */
module Ed25519Search {
  import opened Bits
  import opened Digits
  import opened Ed25519Scalar

  // ----- the group -----

  datatype Group<!G> = Group(zero: G, add: (G, G) -> G, neg: G -> G)

  ghost predicate IsAbelian<G(!new)>(g: Group<G>) {
    && (forall x, y, z :: g.add(g.add(x, y), z) == g.add(x, g.add(y, z)))
    && (forall x, y :: g.add(x, y) == g.add(y, x))
    && (forall x :: g.add(x, g.zero) == x)
    && (forall x :: g.add(x, g.neg(x)) == g.zero)
  }

  /** n·p for any integer n. */
  ghost function Times<G>(g: Group<G>, n: int, p: G): G
    decreases if n >= 0 then n else 1 - n
  {
    if n == 0 then g.zero
    else if n > 0 then g.add(Times(g, n - 1, p), p)
    else g.neg(Times(g, -n, p))
  }

  lemma NegUnique<G(!new)>(g: Group<G>, x: G, y: G)
    requires IsAbelian(g) && g.add(x, y) == g.zero
    ensures y == g.neg(x) && x == g.neg(y)
  {
    Solve(g, x, y);
    assert g.add(y, x) == g.zero;
    Solve(g, y, x);
  }

  lemma Solve<G(!new)>(g: Group<G>, x: G, y: G)
    requires IsAbelian(g) && g.add(x, y) == g.zero
    ensures y == g.neg(x)
  {
    assert g.add(g.neg(x), g.add(x, y)) == g.add(g.add(g.neg(x), x), y);
    assert g.add(g.neg(x), x) == g.add(x, g.neg(x)) == g.zero;
    assert g.add(g.zero, y) == g.add(y, g.zero) == y;
    assert g.add(g.neg(x), g.zero) == g.neg(x);
  }

  /** One more, for every integer. */
  lemma TimesNext<G(!new)>(g: Group<G>, n: int, p: G)
    requires IsAbelian(g)
    ensures Times(g, n + 1, p) == g.add(Times(g, n, p), p)
  {
    if n < 0 {
      var x, y := Times(g, -n - 1, p), Times(g, -n, p);
      assert y == g.add(x, p);
      assert Times(g, n, p) == g.neg(y);
      NegOfSum(g, x, p);
      assert Times(g, n + 1, p) == g.neg(x) by {
        if n == -1 {
          assert g.add(g.zero, g.zero) == g.zero;
          NegUnique(g, g.zero, g.zero);
        }
      }
    }
  }

  /** -(x + p) + p = -x. */
  lemma NegOfSum<G(!new)>(g: Group<G>, x: G, p: G)
    requires IsAbelian(g)
    ensures g.add(g.neg(g.add(x, p)), p) == g.neg(x)
  {
    var s := g.add(x, p);
    var y := g.add(g.neg(s), p);
    assert g.add(x, y) == g.add(x, g.add(p, g.neg(s)));
    assert g.add(x, g.add(p, g.neg(s))) == g.add(s, g.neg(s));
    NegUnique(g, x, y);
  }

  lemma {:induction false} TimesAdd<G(!new)>(g: Group<G>, m: int, n: int, p: G)
    requires IsAbelian(g)
    ensures Times(g, m + n, p) == g.add(Times(g, m, p), Times(g, n, p))
    decreases if n >= 0 then n else -n
  {
    hide Times;
    if n == 0 {
      TimesZero(g, p);
    } else if n > 0 {
      TimesAdd(g, m, n - 1, p);
      TimesNext(g, m + n - 1, p);
      TimesNext(g, n - 1, p);
    } else {
      TimesAdd(g, m, n + 1, p);
      TimesNext(g, m + n, p);
      TimesNext(g, n, p);
      CancelRight(g, Times(g, m + n, p), g.add(Times(g, m, p), Times(g, n, p)), p);
    }
  }

  lemma TimesZero<G>(g: Group<G>, p: G)
    ensures Times(g, 0, p) == g.zero
  {
  }

  lemma CancelRight<G(!new)>(g: Group<G>, x: G, y: G, p: G)
    requires IsAbelian(g) && g.add(x, p) == g.add(y, p)
    ensures x == y
  {
    assert g.add(g.add(x, p), g.neg(p)) == g.add(x, g.add(p, g.neg(p)));
    assert g.add(g.add(y, p), g.neg(p)) == g.add(y, g.add(p, g.neg(p)));
  }

  lemma TimesNeg<G(!new)>(g: Group<G>, n: int, p: G)
    requires IsAbelian(g)
    ensures Times(g, -n, p) == g.neg(Times(g, n, p))
  {
    TimesAdd(g, n, -n, p);
    TimesZero(g, p);
    hide Times;
    NegUnique(g, Times(g, n, p), Times(g, -n, p));
  }

  // ----- the scalar multiplication -----

  /** The table of the base point's multiples: entry j of row pos is (j + 1)·256^pos·b. */
  ghost predicate IsBaseTable<G>(g: Group<G>, base: seq<seq<G>>, b: G) {
    && |base| == 32
    && (forall pos :: 0 <= pos < 32 ==> |base[pos]| == 8)
    && forall pos, j :: 0 <= pos < 32 && 0 <= j < 8 ==>
         base[pos][j] == Times(g, (j + 1) * Power(256, pos), b)
  }

  /** `ed_select_vartime`: digit·256^pos·b from the table, for a digit in -8..8. */
  function Select<G>(g: Group<G>, base: seq<seq<G>>, pos: nat, digit: int8): G
    requires pos < |base| && |base[pos]| == 8 && -8 <= digit <= 8
  {
    if digit == 0 then g.zero
    else
      var babs := if digit < 0 then -(digit as int) else digit;
      var u := base[pos][babs - 1];
      if digit > 0 then u else g.neg(u)
  }

  lemma TableEntry<G>(g: Group<G>, base: seq<seq<G>>, b: G, pos: nat, m: nat, n: int)
    requires IsBaseTable(g, base, b) && pos < 32 && 1 <= m <= 8 && n == m * Power(256, pos)
    ensures |base| == 32 && |base[pos]| == 8 && base[pos][m - 1] == Times(g, n, b)
  {
    hide Times, Power;
    assert base[pos][m - 1] == Times(g, (m - 1 + 1) * Power(256, pos), b);
  }

  lemma SelectIsMultiple<G(!new)>(g: Group<G>, base: seq<seq<G>>, pos: nat, digit: int8, b: G, n: int)
    requires IsAbelian(g) && IsBaseTable(g, base, b) && pos < 32 && -8 <= digit <= 8
    requires n == digit as int * Power(256, pos)
    ensures Select(g, base, pos, digit) == Times(g, n, b)
  {
    var d: int := digit;
    hide Power, Times, IsAbelian;
    if d == 0 {
      TimesZero(g, b);
      assert 0 * Power(256, pos) == 0;
    } else if d > 0 {
      TableEntry(g, base, b, pos, d, n);
    } else {
      NegateProduct(d, Power(256, pos));
      TableEntry(g, base, b, pos, -d, -n);
      TimesNeg(g, -n, b);
    }
  }

  lemma NegateProduct(d: int, p: int)
    ensures -(d * p) == -d * p
  {
  }

  /** The sum of digits 2j + parity, weighted 256^j, over the first n digit pairs. */
  ghost function HalfSum(e: seq<int>, parity: nat, n: nat): int
    requires parity < 2 && 2 * n <= |e|
  {
    if n == 0 then 0 else HalfSum(e, parity, n - 1) + e[2 * (n - 1) + parity] * Power(256, n - 1)
  }

  /** Even digits plus sixteen times the odd ones make the number. */
  lemma {:induction false} HalvesMakeWhole(e: seq<int>, n: nat)
    requires 2 * n <= |e|
    ensures Little(e[..2 * n], 16) == 16 * HalfSum(e, 1, n) + HalfSum(e, 0, n)
  {
    if n == 0 {
      assert e[..0] == [];
    } else {
      HalvesMakeWhole(e, n - 1);
      var m := 2 * (n - 1);
      var x, y := e[m], e[m + 1];
      assert e[..2 * n] == (e[..m] + [x]) + [y] && e[..m + 1] == e[..m] + [x];
      LittleAppend(e[..m], x, 16);
      LittleAppend(e[..m] + [x], y, 16);
      SixteenSquared(n - 1);
      var p, u, v := Power(256, n - 1), HalfSum(e, 1, n - 1), HalfSum(e, 0, n - 1);
      assert Power(16, m + 1) == 16 * Power(16, m);
      assert HalfSum(e, 1, n) == u + y * p && HalfSum(e, 0, n) == v + x * p;
      hide *;
      HalvesAlgebra(u, v, x, y, p);
    }
  }

  lemma HalvesAlgebra(u: int, v: int, x: int, y: int, p: int)
    ensures (16 * u + v) + p * x + (16 * p) * y == 16 * (u + y * p) + (v + x * p)
  {
  }

  /** One pass of the schedule: add the table multiples for all digits of one parity. */
  method Pass<G(!new)>(g: Group<G>, base: seq<seq<G>>, e: array<int8>, parity: nat, start: G,
                       ghost k: int, ghost b: G)
    returns (h: G)
    requires IsAbelian(g) && IsBaseTable(g, base, b) && e.Length == 64 && parity < 2
    requires forall i :: 0 <= i < 64 ==> -8 <= e[i] <= 8
    requires start == Times(g, k, b)
    ensures h == Times(g, k + HalfSum(e[..], parity, 32), b)
  {
    hide Times, Power, Select, IsAbelian;
    h := start;
    var i := parity;
    while i < 64
      invariant parity <= i <= 64 + parity && i % 2 == parity
      invariant h == Times(g, k + HalfSum(e[..], parity, i / 2), b)
    {
      var t := Select(g, base, i / 2, e[i]);
      ghost var d: int := e[i];
      SelectIsMultiple(g, base, i / 2, e[i], b, d * Power(256, i / 2));
      TimesAdd(g, k + HalfSum(e[..], parity, i / 2), d * Power(256, i / 2), b);
      h := g.add(h, t);
      assert 2 * (i / 2) + parity == i && (i + 2) / 2 == i / 2 + 1;
      i := i + 2;
    }
    assert i / 2 == 32;
  }

  method Double<G(!new)>(g: Group<G>, h: G, ghost k: int, ghost b: G) returns (r: G)
    requires IsAbelian(g) && h == Times(g, k, b)
    ensures r == Times(g, 2 * k, b)
  {
    hide Times;
    TimesAdd(g, k, k, b);
    r := g.add(h, h);
  }

  /** `ed_scalarmult_base_vartime`: the odd digits, times sixteen, plus the even digits. */
  method ScalarMultBase<G(!new)>(g: Group<G>, base: seq<seq<G>>, a: scalar, ghost b: G) returns (h: G)
    requires IsAbelian(g) && IsBaseTable(g, base, b)
    ensures h == Times(g, Little(a, 256), b)
  {
    hide Times, Power, IsAbelian, IsBaseTable, HalfSum, Little;
    var e := Recode(a);
    ghost var odd, even := HalfSum(e[..], 1, 32), HalfSum(e[..], 0, 32);
    TimesZero(g, b);
    h := Pass(g, base, e, 1, g.zero, 0, b);
    h := Double(g, h, odd, b);
    h := Double(g, h, 2 * odd, b);
    h := Double(g, h, 4 * odd, b);
    h := Double(g, h, 8 * odd, b);
    h := Pass(g, base, e, 0, h, 16 * odd, b);
    HalvesMakeWhole(e[..], 32);
    assert e[..][..64] == e[..];
  }

  // ----- the batched inversion -----

  datatype Field<!F> = Field(zero: F, one: F, mul: (F, F) -> F, inv: F -> F)

  ghost predicate IsField<F(!new)>(f: Field<F>) {
    && f.one != f.zero
    && (forall x, y, z :: f.mul(f.mul(x, y), z) == f.mul(x, f.mul(y, z)))
    && (forall x, y :: f.mul(x, y) == f.mul(y, x))
    && (forall x :: f.mul(x, f.one) == x)
    && (forall x :: x != f.zero ==> f.mul(x, f.inv(x)) == f.one)
    && (forall x :: f.mul(x, f.zero) == f.zero)
  }

  lemma InverseUnique<F(!new)>(f: Field<F>, x: F, y: F)
    requires IsField(f) && x != f.zero && f.mul(y, x) == f.one
    ensures y == f.inv(x)
  {
    assert f.mul(f.mul(y, x), f.inv(x)) == f.mul(y, f.mul(x, f.inv(x)));
    assert f.mul(f.one, f.inv(x)) == f.mul(f.inv(x), f.one);
  }

  lemma Undo<F(!new)>(f: Field<F>, x: F, y: F)
    requires IsField(f) && x != f.zero
    ensures f.mul(f.inv(x), f.mul(x, y)) == y
  {
    assert f.mul(f.inv(x), f.mul(x, y)) == f.mul(f.mul(f.inv(x), x), y);
    assert f.mul(f.inv(x), x) == f.mul(x, f.inv(x)) == f.one;
    assert f.mul(f.one, y) == f.mul(y, f.one) == y;
  }

  lemma ProductNonZero<F(!new)>(f: Field<F>, x: F, y: F)
    requires IsField(f) && x != f.zero && y != f.zero
    ensures f.mul(x, y) != f.zero
  {
    hide IsField;
    Undo(f, x, y);
    ZeroAbsorbs(f, f.inv(x));
  }

  lemma ZeroAbsorbs<F(!new)>(f: Field<F>, x: F)
    requires IsField(f)
    ensures f.mul(x, f.zero) == f.zero
  {
  }

  /** z_0·…·z_k. */
  ghost function Product<F>(f: Field<F>, z: seq<F>, k: nat): F
    requires k < |z|
  {
    if k == 0 then z[0] else f.mul(Product(f, z, k - 1), z[k])
  }

  lemma {:induction false} ProductsNonZero<F(!new)>(f: Field<F>, z: seq<F>, k: nat)
    requires IsField(f) && k < |z| && forall i :: 0 <= i < |z| ==> z[i] != f.zero
    ensures Product(f, z, k) != f.zero
  {
    if k == 0 {
    } else {
      ProductsNonZero(f, z, k - 1);
      ProductNonZero(f, Product(f, z, k - 1), z[k]);
    }
  }

  /** Peeling the last factor off the inverse of a product. */
  lemma Peel<F(!new)>(f: Field<F>, p: F, z: F, inv: F)
    requires IsField(f) && f.mul(inv, f.mul(p, z)) == f.one
    ensures f.mul(f.mul(inv, p), z) == f.one
    ensures f.mul(f.mul(inv, z), p) == f.one
  {
    assert f.mul(p, z) == f.mul(z, p);
  }

  /** The first loop of `ed_pubkeys_batch`: acc[k] is the product of the first k + 1 coordinates. */
  method PrefixProducts<F(!new)>(f: Field<F>, z: seq<F>) returns (acc: array<F>)
    requires |z| >= 1
    ensures fresh(acc) && acc.Length == |z|
    ensures forall k :: 0 <= k < |z| ==> acc[k] == Product(f, z, k)
  {
    hide Product;
    acc := new F[|z|](_ => f.one);
    var k := 0;
    while k < |z|
      invariant 0 <= k <= |z|
      invariant forall i :: 0 <= i < k ==> acc[i] == Product(f, z, i)
    {
      LastFactor(f, z, k);
      acc[k] := if k == 0 then z[0] else f.mul(acc[k - 1], z[k]);
      k := k + 1;
    }
  }

  lemma LastFactor<F>(f: Field<F>, z: seq<F>, k: nat)
    requires k < |z|
    ensures k == 0 ==> Product(f, z, k) == z[0]
    ensures k > 0 ==> Product(f, z, k) == f.mul(Product(f, z, k - 1), z[k])
  {
  }

  /**
   The batched inversion of `ed_pubkeys_batch`: prefix products, one inversion, and a peeling loop that
   hands each key the inverse of its own coordinate while inv stays the inverse of what is left.
   */
  method BatchInvert<F(!new)>(f: Field<F>, z: seq<F>) returns (recips: array<F>)
    requires IsField(f) && |z| >= 1 && forall i :: 0 <= i < |z| ==> z[i] != f.zero
    ensures fresh(recips) && recips.Length == |z|
    ensures forall k :: 0 <= k < |z| ==> recips[k] == f.inv(z[k]) && f.mul(recips[k], z[k]) == f.one
  {
    hide IsField, Product;
    var nk := |z|;
    var acc := PrefixProducts(f, z);
    recips := new F[nk](_ => f.one);
    ProductsNonZero(f, z, nk - 1);
    var inv := f.inv(acc[nk - 1]);
    InverseLaw(f, acc[nk - 1]);
    var k := nk - 1;
    while k >= 0
      invariant -1 <= k < nk
      invariant k >= 0 ==> f.mul(inv, Product(f, z, k)) == f.one
      invariant forall i :: k < i < nk ==> recips[i] == f.inv(z[i]) && f.mul(recips[i], z[i]) == f.one
      modifies recips
    {
      LastFactor(f, z, k);
      var recip;
      if k > 0 {
        assert acc[k - 1] == Product(f, z, k - 1);
        Peel(f, acc[k - 1], z[k], inv);
        recip := f.mul(inv, acc[k - 1]);
        inv := f.mul(inv, z[k]);
      } else {
        recip := inv;
      }
      InverseUnique(f, z[k], recip);
      recips[k] := recip;
      k := k - 1;
    }
  }

  lemma InverseLaw<F(!new)>(f: Field<F>, x: F)
    requires IsField(f) && x != f.zero
    ensures f.mul(f.inv(x), x) == f.one
  {
    assert f.mul(f.inv(x), x) == f.mul(x, f.inv(x));
  }

  // ----- a batch of keys -----

  /** A projective point; its encoding uses only the affine coordinates X/Z and Y/Z. */
  datatype Point<F> = Point(x: F, y: F, z: F)

  /** The encodings a batch produces are those of its points one by one. */
  method EncodeBatch<F(!new), E>(f: Field<F>, points: seq<Point<F>>, encode: (F, F) -> E) returns (pks: seq<E>)
    requires IsField(f) && |points| >= 1 && forall k :: 0 <= k < |points| ==> points[k].z != f.zero
    ensures |pks| == |points|
    ensures forall k :: 0 <= k < |points| ==>
      pks[k] == encode(f.mul(points[k].x, f.inv(points[k].z)), f.mul(points[k].y, f.inv(points[k].z)))
  {
    hide IsField;
    var recips := BatchInvert(f, seq(|points|, k requires 0 <= k < |points| => points[k].z));
    pks := [];
    for k := 0 to |points|
      invariant |pks| == k
      invariant forall i :: 0 <= i < k ==>
        pks[i] == encode(f.mul(points[i].x, f.inv(points[i].z)), f.mul(points[i].y, f.inv(points[i].z)))
    {
      pks := pks + [encode(f.mul(points[k].x, recips[k]), f.mul(points[k].y, recips[k]))];
    }
  }
}
