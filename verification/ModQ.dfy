/** Arithmetic modulo the Falcon prime q = 12289: congruence, inverses and Fermat's little theorem. */
module ModQ {
  import opened Bits

  /** Names the exponent q where writing it out would make the solver unroll a power. */
  ghost predicate IsModulus(p: nat) {
    p == 12289
  }

  ghost predicate Cong(a: int, b: int) {
    (a - b) % 12289 == 0
  }

  function Pow(x: int, e: nat): int {
    if e == 0 then 1 else x * Pow(x, e - 1)
  }

  lemma CongAdd(a: int, b: int, c: int, d: int)
    requires Cong(a, b) && Cong(c, d)
    ensures Cong(a + c, b + d) && Cong(a - c, b - d)
  {
  }

  lemma CongTrans(a: int, b: int, c: int)
    requires Cong(a, b) && (Cong(b, c) || Cong(c, b))
    ensures Cong(a, c) && Cong(c, a)
  {
  }

  lemma CongMod(a: int)
    ensures Cong(a, a) && Cong(a % 12289, a) && Cong(a, a % 12289)
  {
  }

  /** Congruence is having a multiple of q as difference. */
  lemma CongWitness(a: int, b: int, k: int)
    requires a - b == 12289 * k
    ensures Cong(a, b) && Cong(b, a)
  {
  }

  lemma CongMul(a: int, b: int, c: int)
    requires Cong(a, b)
    ensures Cong(a * c, b * c) && Cong(c * a, c * b)
  {
    var k := (a - b) / 12289;
    assert a - b == 12289 * k;
    hide Cong;
    assert a * c - b * c == 12289 * (k * c);
    CongWitness(a * c, b * c, k * c);
  }

  lemma CongMul2(a: int, b: int, c: int, d: int)
    requires Cong(a, b) && Cong(c, d)
    ensures Cong(a * c, b * d)
  {
    hide Cong;
    CongMul(a, b, c);
    CongMul(c, d, b);
    CongTrans(a * c, b * c, b * d);
  }

  /** Reduced representatives are unique. */
  lemma CongReduced(a: int, b: int)
    requires 0 <= a < 12289 && 0 <= b < 12289 && Cong(a, b)
    ensures a == b
  {
  }

  lemma {:induction false} PowAdd(x: int, i: nat, j: nat)
    ensures Pow(x, i + j) == Pow(x, i) * Pow(x, j)
  {
    if i == 0 {
    } else {
      PowAdd(x, i - 1, j);
      var a, b := Pow(x, i - 1), Pow(x, j);
      assert Pow(x, i + j) == x * Pow(x, i + j - 1);
      hide Pow;
      assert x * (a * b) == (x * a) * b;
    }
  }

  // ----- q is prime -----

  lemma NoSmallDivisor(d: int)
    requires 2 <= d < 111
    ensures 12289 % d != 0
  {
  }

  /** The quotient of an exact division is itself an exact divisor. */
  lemma MultipleMod(x: int, m: int, k: int)
    requires m > 0 && x == m * k
    ensures x % m == 0
  {
    DivModUnique(x, m, k, 0);
  }

  lemma ProductBound(d: int, e: int)
    requires d >= 111 && d * e == 12289
    ensures e < 111
  {
  }

  lemma QIsPrime(d: int)
    requires 2 <= d < 12289
    ensures 12289 % d != 0
  {
    if 12289 % d == 0 {
      var e := 12289 / d;
      assert 12289 == d * e;
      if d < 111 {
        NoSmallDivisor(d);
      } else {
        assert e < 111 by { ProductBound(d, e); }
        MultipleMod(12289, e, d);
        NoSmallDivisor(e);
      }
    }
  }

  /** Every non-zero residue has an inverse (Euclid's algorithm run on a and q). */
  lemma {:induction false} Inverse(a: int) returns (b: int)
    requires 1 <= a < 12289
    ensures Cong(a * b, 1)
    decreases a
  {
    if a == 1 {
      b := 1;
    } else {
      var k, r := 12289 / a, 12289 % a;
      assert 1 <= r < a by { QIsPrime(a); }
      assert 12289 == a * k + r;
      var c := Inverse(r);
      hide Cong;
      b := -k * c;
      InverseStep(a, k, r, c);
      CongWitness(a * b, r * c, -c);
      CongTrans(a * b, r * c, 1);
    }
  }

  lemma InverseStep(a: int, k: int, r: int, c: int)
    requires 12289 == a * k + r
    ensures a * (-k * c) - r * c == 12289 * -c
  {
    assert a * (-k * c) == -(a * k) * c;
  }

  /** A non-zero factor can be cancelled. */
  lemma Cancel(a: int, x: int, y: int)
    requires !Cong(a, 0) && Cong(a * x, a * y)
    ensures Cong(x, y)
  {
    var c := a % 12289;
    assert 1 <= c < 12289;
    var b := Inverse(c);
    hide Cong;
    CongMod(a);
    CongMul(a, c, b);
    CongTrans(a * b, c * b, 1);
    CancelWith(a, b, x);
    CancelWith(a, b, y);
    CongMul(a * x, a * y, b);
    CongTrans(x, b * (a * x), b * (a * y));
    CongTrans(x, b * (a * y), y);
  }

  lemma CancelWith(a: int, b: int, x: int)
    requires Cong(a * b, 1)
    ensures Cong(b * (a * x), x) && Cong(x, b * (a * x))
  {
    hide Cong;
    CongMul(a * b, 1, x);
    assert b * (a * x) == (a * b) * x;
    CongMod(x);
    CongTrans(b * (a * x), x, x);
  }

  // ----- Fermat's little theorem, from the binomial theorem -----

  function Choose(n: nat, k: nat): nat {
    if k == 0 then 1
    else if n == 0 then 0
    else Choose(n - 1, k - 1) + Choose(n - 1, k)
  }

  lemma {:induction false} ChooseAbsorb(n: nat, k: nat)
    requires 1 <= k && 1 <= n
    ensures k * Choose(n, k) == n * Choose(n - 1, k - 1)
    decreases n
  {
    var c, e := Choose(n - 1, k - 1), Choose(n - 1, k);
    assert Choose(n, k) == c + e;
    if n == 1 {
      assert Choose(0, k) == 0;
      assert k == 1 || c == 0;
    } else {
      ChooseAbsorb(n - 1, k);
      var g := Choose(n - 2, k - 1);
      assert k * e == (n - 1) * g;
      if k == 1 {
        assert c == 1 && g == 1;
      } else {
        ChooseAbsorb(n - 1, k - 1);
        var f := Choose(n - 2, k - 2);
        assert c == f + g;
        hide Choose;
        AbsorbStep(n, k, c, e, f, g);
      }
    }
  }

  lemma AbsorbStep(n: int, k: int, c: int, e: int, f: int, g: int)
    requires (k - 1) * c == (n - 1) * f && k * e == (n - 1) * g && c == f + g
    ensures k * (c + e) == n * c
  {
    assert (n - 1) * c == (n - 1) * f + (n - 1) * g;
  }

  lemma {:induction false} ChooseBeyond(n: nat, k: nat)
    requires n < k
    ensures Choose(n, k) == 0
  {
    if n == 0 {
    } else {
      ChooseBeyond(n - 1, k - 1);
      ChooseBeyond(n - 1, k);
    }
  }

  lemma {:induction false} ChooseAll(n: nat)
    ensures Choose(n, n) == 1
  {
    if n == 0 {
    } else {
      ChooseAll(n - 1);
      ChooseBeyond(n - 1, n);
    }
  }

  /** The first j terms of the expansion of (1 + y)^n. */
  function BinomialSum(n: nat, j: nat, y: int): int {
    if j == 0 then 0 else BinomialSum(n, j - 1, y) + Choose(n, j - 1) * Pow(y, j - 1)
  }

  lemma BinomialTerm(n: nat, j: nat, y: int)
    ensures BinomialSum(n, j + 1, y) == BinomialSum(n, j, y) + Choose(n, j) * Pow(y, j)
  {
  }

  lemma {:induction false} BinomialStep(n: nat, j: nat, y: int)
    ensures BinomialSum(n + 1, j + 1, y) == BinomialSum(n, j + 1, y) + y * BinomialSum(n, j, y)
  {
    if j == 0 {
      BinomialTerm(n + 1, 0, y);
      BinomialTerm(n, 0, y);
    } else {
      BinomialStep(n, j - 1, y);
      BinomialTerm(n + 1, j, y);
      BinomialTerm(n, j, y);
      BinomialTerm(n, j - 1, y);
      var p, c0, c1 := Pow(y, j - 1), Choose(n, j - 1), Choose(n, j);
      assert Pow(y, j) == y * p;
      assert Choose(n + 1, j) == c0 + c1;
      hide *;
      BinomialAlgebra(c0, c1, y, p, BinomialSum(n, j - 1, y));
    }
  }

  lemma BinomialAlgebra(c0: int, c1: int, y: int, p: int, s: int)
    ensures (c0 + c1) * (y * p) + y * s == c1 * (y * p) + y * (s + c0 * p)
  {
  }

  lemma {:induction false} BinomialTheorem(n: nat, y: int, z: int)
    requires z == 1 + y
    ensures Pow(z, n) == BinomialSum(n, n + 1, y)
  {
    if n == 0 {
      assert BinomialSum(0, 1, y) == BinomialSum(0, 0, y) + Choose(0, 0) * Pow(y, 0);
    } else {
      BinomialTheorem(n - 1, y, z);
      BinomialLastTerm(n - 1, y);
      BinomialStep(n - 1, n, y);
      var s := BinomialSum(n - 1, n, y);
      assert Pow(z, n) == z * s;
      hide *;
      assert (1 + y) * s == s + y * s;
    }
  }

  lemma BinomialLastTerm(n: nat, y: int)
    ensures BinomialSum(n, n + 2, y) == BinomialSum(n, n + 1, y)
  {
    ChooseBeyond(n, n + 1);
  }

  /** All terms of (1 + y)^q but the first and the last vanish modulo q. */
  lemma {:induction false} MiddleTermsVanish(p: nat, j: nat, y: int)
    requires IsModulus(p) && 1 <= j <= p
    ensures Cong(BinomialSum(p, j, y), 1)
  {
    hide Cong;
    if j == 1 {
      assert BinomialSum(p, 1, y) == BinomialSum(p, 0, y) + Choose(p, 0) * Pow(y, 0);
      CongMod(1);
    } else {
      MiddleTermsVanish(p, j - 1, y);
      MiddleCoefficientVanishes(p, j - 1);
      var c, w := Choose(p, j - 1), Pow(y, j - 1);
      CongMul(c, 0, w);
      CongAdd(BinomialSum(p, j - 1, y), 1, c * w, 0);
    }
  }

  lemma AllMiddleTermsVanish(p: nat, y: int)
    requires IsModulus(p)
    ensures Cong(BinomialSum(p, p, y), 1)
  {
    MiddleTermsVanish(p, p, y);
  }

  lemma MiddleCoefficientVanishes(p: nat, k: nat)
    requires IsModulus(p) && 1 <= k < p
    ensures Cong(Choose(p, k), 0)
  {
    ChooseAbsorb(p, k);
    assert !Cong(k, 0);
    hide *;
    CongWitness(k * Choose(p, k), k * 0, Choose(p - 1, k - 1));
    Cancel(k, Choose(p, k), 0);
  }

  lemma {:induction false} FrobeniusFixes(p: nat, y: nat)
    requires IsModulus(p)
    ensures Cong(Pow(y, p), y)
  {
    if y == 0 {
      assert Pow(0, p) == 0 * Pow(0, p - 1);
    } else {
      var w := Pow(y - 1, p);
      FrobeniusFixes(p, y - 1);
      FreshmansDream(p, y - 1, y);
      hide *;
      CongAdd(1, 1, w, y - 1);
      CongTrans(Pow(y, p), 1 + w, y);
    }
  }

  lemma FreshmansDream(p: nat, y: int, z: int)
    requires IsModulus(p) && z == 1 + y
    ensures Cong(Pow(z, p), 1 + Pow(y, p)) && Cong(1, 1)
  {
    hide *;
    BinomialTheorem(p, y, z);
    AllMiddleTermsVanish(p, y);
    TopTerm(p, y);
    CongMod(Pow(y, p));
    CongMod(1);
    CongAdd(BinomialSum(p, p, y), 1, Pow(y, p), Pow(y, p));
  }

  lemma TopTerm(n: nat, y: int)
    ensures BinomialSum(n, n + 1, y) == BinomialSum(n, n, y) + Pow(y, n)
  {
    ChooseAll(n);
  }

  lemma Fermat(p: nat, y: nat)
    requires IsModulus(p) && !Cong(y, 0)
    ensures Cong(Pow(y, p - 1), 1)
  {
    FrobeniusFixes(p, y);
    assert Pow(y, p) == y * Pow(y, p - 1);
    hide *;
    assert y * 1 == y;
    Cancel(y, Pow(y, p - 1), 1);
  }
}
