/**
 The twiddle tables of the transform. Entry k holds R·7^rev(k), where rev reverses the ten bits of
 k. Seen as a heap, node k has children 2k and 2k+1, and the facts proved here say that entry k is
 a square root of the value attached to its node.
 */
module Twiddles {
  import opened Bits
  import opened ModQ
  import opened Montgomery

  /** The b low bits of k in reverse order. */
  function Rev(b: nat, k: nat): nat {
    if b == 0 then 0 else (k % 2) * Pow2(b - 1) + Rev(b - 1, k / 2)
  }

  /** 7^rev(k), the k-th twiddle without its Montgomery factor. */
  function Zeta(k: nat): residue {
    Pow(7, Rev(10, k)) % 12289
  }

  /** 8778 = 1/7 raised to rev(k). */
  function ZetaInv(k: nat): residue {
    Pow(8778, Rev(10, k)) % 12289
  }

  function PqGmb(k: nat): residue {
    (4091 * Zeta(k)) % 12289
  }

  function PqIgmb(k: nat): residue {
    (4091 * ZetaInv(k)) % 12289
  }

  /** Node k of the tree works modulo x^t - NodeValue(k): -1 at the root, ±Zeta(k/2) below it. */
  function NodeValue(k: nat): int {
    if k <= 1 then -1 else if k % 2 == 0 then Zeta(k / 2) else -(Zeta(k / 2) as int)
  }

  /** Multiplying by a table entry is multiplying by the twiddle. */
  lemma MontyTwiddle(x: residue, k: nat)
    ensures MqMontymul(x, PqGmb(k)) == (x * Zeta(k)) % 12289
  {
    hide Zeta, MqMontymul;
    TableForm(PqGmb(k), Zeta(k));
    hide PqGmb;
    MontyScale(MqMontymul(x, PqGmb(k)), x, PqGmb(k), Zeta(k));
  }

  lemma MontyInverseTwiddle(x: residue, k: nat)
    ensures MqMontymul(x, PqIgmb(k)) == (x * ZetaInv(k)) % 12289
  {
    hide ZetaInv, MqMontymul;
    TableForm(PqIgmb(k), ZetaInv(k));
    hide PqIgmb;
    MontyScale(MqMontymul(x, PqIgmb(k)), x, PqIgmb(k), ZetaInv(k));
  }

  lemma TableForm(w: int, z: int)
    requires w == (4091 * z) % 12289
    ensures Cong(w, z * 65536)
  {
    CongMod(4091 * z);
    CongWitness(z * 65536, 4091 * z, z * 5);
    CongTrans(w, 4091 * z, z * 65536);
  }

  lemma MontyScale(r: residue, x: int, w: int, z: int)
    requires Cong(r * 65536, x * w) && Cong(w, z * 65536)
    ensures r == (x * z) % 12289
  {
    CongMod(x * z);
    hide Cong;
    CongMul(w, z * 65536, x);
    assert x * (z * 65536) == (x * z) * 65536;
    CongTrans(r * 65536, x * w, (x * z) * 65536);
    CancelR(r, x * z);
    CongTrans(r, x * z, (x * z) % 12289);
    CongReduced(r, (x * z) % 12289);
  }

  lemma {:induction false} RevExtend(b: nat, j: nat)
    requires j < Pow2(b)
    ensures Rev(b + 1, j) == 2 * Rev(b, j)
  {
    if b == 0 {
      assert j == 0;
      assert Rev(1, 0) == 0 * Pow2(0) + Rev(0, 0);
    } else {
      RevExtend(b - 1, j / 2);
      RevStep(b + 1, j);
      RevStep(b, j);
    }
  }

  lemma RevStep(b: nat, k: nat)
    requires b >= 1
    ensures Rev(b, k) == (if k % 2 == 1 then Pow2(b - 1) else 0) + Rev(b - 1, k / 2)
  {
  }

  /** Reversal sends a node's children to half its own exponent, one of them shifted by 512. */
  lemma RevChild(k: nat)
    requires 1 <= k < 1024
    ensures 2 * Rev(10, k) == (if k == 1 then 0 else Rev(10, k / 2)) + (if k % 2 == 1 then Pow2(10) else 0)
  {
    TopPowers();
    hide Rev, Pow2;
    RevStep(10, k);
    RevExtend(9, k / 2);
    if k == 1 {
      RevZero(9);
    }
  }

  lemma TopPowers()
    ensures Pow2(9) == 512 && Pow2(10) == 1024
  {
    assert Pow2(4) == 16;
    hide Pow2;
    Pow2Add(4, 4);
    OneMorePower(8);
    OneMorePower(9);
  }

  lemma OneMorePower(n: nat)
    ensures Pow2(n + 1) == 2 * Pow2(n)
  {
  }

  lemma {:induction false} RevZero(b: nat)
    ensures Rev(b, 0) == 0
  {
    if b == 0 {
    } else {
      RevStep(b, 0);
      RevZero(b - 1);
    }
  }

  /** x squared n times, modulo q. */
  function Squared(x: residue, n: nat): residue
    decreases n
  {
    if n == 0 then x else (Squared(x, n - 1) * Squared(x, n - 1)) % 12289
  }

  lemma {:induction false} SquaredPower(x: residue, n: nat)
    ensures Cong(Pow(x, Pow2(n)), Squared(x, n))
  {
    if n == 0 {
      assert Pow(x, 1) == x * Pow(x, 0);
    } else {
      hide Pow, Cong;
      SquaredPower(x, n - 1);
      assert Pow2(n) == Pow2(n - 1) + Pow2(n - 1);
      SquarePower(x, Pow2(n - 1), Squared(x, n - 1));
    }
  }

  lemma SquarePower(x: int, e: nat, c: int)
    requires Cong(Pow(x, e), c)
    ensures Cong(Pow(x, e + e), (c * c) % 12289)
  {
    CongMod(c * c);
    hide *;
    PowAdd(x, e, e);
    CongMul2(Pow(x, e), c, Pow(x, e), c);
    CongTrans(Pow(x, e + e), c * c, (c * c) % 12289);
  }

  /** 7 is a primitive 2048-th root of unity: its 1024-th power is -1. */
  lemma SevenTo1024()
    ensures Cong(Pow(7, Pow2(10)), -1)
  {
    SquareChain();
    SquaredPower(7, 10);
    hide Pow, Squared;
  }

  lemma SquareChain()
    ensures Squared(7, 0) == 7 && Squared(7, 1) == 49 && Squared(7, 2) == 2401 && Squared(7, 3) == 1260
    ensures Squared(7, 4) == 2319 && Squared(7, 5) == 7468 && Squared(7, 6) == 3542 && Squared(7, 7) == 10984
    ensures Squared(7, 8) == 7143 && Squared(7, 9) == 10810 && Squared(7, 10) == 12288
    ensures Squared(8778, 0) == 8778 && Squared(8778, 1) == 1254 && Squared(8778, 2) == 11813
    ensures Squared(8778, 3) == 5374 && Squared(8778, 4) == 726 && Squared(8778, 5) == 10938
    ensures Squared(8778, 6) == 6429 && Squared(8778, 7) == 4134 && Squared(8778, 8) == 8246
    ensures Squared(8778, 9) == 1479
  {
    assert Squared(7, 1) == 49;
    assert Squared(7, 2) == 2401;
    assert Squared(7, 3) == 1260;
    assert Squared(7, 4) == 2319;
    assert Squared(7, 5) == 7468;
    assert Squared(7, 6) == 3542;
    assert Squared(7, 7) == 10984;
    assert Squared(7, 8) == 7143;
    assert Squared(7, 9) == 10810;
    assert Squared(7, 10) == 12288;
    assert Squared(8778, 1) == 1254;
    assert Squared(8778, 2) == 11813;
    assert Squared(8778, 3) == 5374;
    assert Squared(8778, 4) == 726;
    assert Squared(8778, 5) == 10938;
    assert Squared(8778, 6) == 6429;
    assert Squared(8778, 7) == 4134;
    assert Squared(8778, 8) == 8246;
    assert Squared(8778, 9) == 1479;
  }

  /** Every twiddle is a square root of the value at its node. */
  lemma ZetaSquare(k: nat)
    requires 1 <= k < 1024
    ensures Cong(Zeta(k) * Zeta(k), NodeValue(k))
  {
    RevChild(k);
    ZetaSquareAt(k, Rev(10, k), if k == 1 then 0 else Rev(10, k / 2), Pow2(10));
  }

  lemma ZetaSquareAt(k: nat, e: nat, f: nat, m: nat)
    requires 1 <= k < 1024 && e == Rev(10, k) && m == Pow2(10)
    requires f == if k == 1 then 0 else Rev(10, k / 2)
    requires 2 * e == f + if k % 2 == 1 then m else 0
    ensures Cong(Zeta(k) * Zeta(k), NodeValue(k))
  {
    hide Rev, Pow2, Cong;
    var p, s := Pow(7, e), Pow(7, f);
    var half: int := if k == 1 then 1 else Zeta(k / 2);
    CongMod(s);
    assert Zeta(k) == p % 12289 && (k == 1 ==> s == 1);
    assert NodeValue(k) == if k % 2 == 1 then -half else half;
    SevenTo1024();
    hide *;
    SquareOfRoot(p % 12289, e, f, m, half, k % 2 == 1);
  }

  lemma SquareOfRoot(z: int, e: nat, f: nat, m: nat, half: int, odd: bool)
    requires z == Pow(7, e) % 12289 && 2 * e == f + if odd then m else 0
    requires Cong(Pow(7, f), half) && Cong(Pow(7, m), -1)
    ensures Cong(z * z, if odd then -half else half)
  {
    hide *;
    var p := Pow(7, e);
    PowAdd(7, e, e);
    ReducedSquare(p);
    if odd {
      PowAdd(7, f, m);
      CongMul2(Pow(7, f), half, Pow(7, m), -1);
      assert half * -1 == -half;
      CongTrans(z * z, p * p, -half);
    } else {
      CongTrans(z * z, p * p, half);
    }
  }

  lemma ReducedSquare(p: int)
    ensures Cong((p % 12289) * (p % 12289), p * p)
  {
    CongMod(p);
    CongMul2(p % 12289, p, p % 12289, p);
  }

  lemma {:induction false} InversePowers(x: int, y: int, e: nat)
    requires Cong(x * y, 1)
    ensures Cong(Pow(x, e) * Pow(y, e), 1)
  {
    if e == 0 {
      assert Pow(x, 0) * Pow(y, 0) == 1;
      CongMod(1);
    } else {
      InversePowers(x, y, e - 1);
      var a, b := Pow(x, e - 1), Pow(y, e - 1);
      assert Pow(x, e) * Pow(y, e) == (x * a) * (y * b);
      hide *;
      CongMul2(x * y, 1, a * b, 1);
      assert (x * a) * (y * b) == (x * y) * (a * b);
    }
  }

  /** The inverse table really holds the inverses. */
  lemma ZetaInverse(k: nat)
    ensures Cong(Zeta(k) * ZetaInv(k), 1)
  {
    ZetaInverseAt(k, Rev(10, k));
  }

  lemma ZetaInverseAt(k: nat, e: nat)
    requires e == Rev(10, k)
    ensures Cong(Zeta(k) * ZetaInv(k), 1)
  {
    assert Cong(7 * 8778, 1);
    var p, s := Pow(7, e), Pow(8778, e);
    CongMod(p);
    CongMod(s);
    assert Zeta(k) == p % 12289 && ZetaInv(k) == s % 12289;
    hide *;
    InversePowers(7, 8778, e);
    CongMul2(p % 12289, p, s % 12289, s);
    CongTrans(Zeta(k) * ZetaInv(k), p * s, 1);
  }
}
