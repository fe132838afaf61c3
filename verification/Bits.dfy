/** Unsigned machine words as natural numbers, with their bitwise operators. */
module Bits {
  type int8 = x: int | -0x80 <= x < 0x80
  type uint8 = x: int | 0 <= x < 0x100
  type uint16 = x: int | 0 <= x < 0x1_0000
  type uint32 = x: int | 0 <= x < 0x1_0000_0000
  type uint64 = x: int | 0 <= x < 0x1_0000_0000_0000_0000

  function Pow2(n: nat): (r: nat)
    ensures r >= 1
  {
    if n == 0 then 1 else 2 * Pow2(n - 1)
  }

  /** Bitwise conjunction of two natural numbers, one binary digit at a time. */
  function And(x: nat, y: nat): nat
    decreases x, y
  {
    if x == 0 then 0 else 2 * And(x / 2, y / 2) + (if x % 2 == 1 && y % 2 == 1 then 1 else 0)
  }

  /** Bitwise disjunction of two natural numbers, one binary digit at a time. */
  function Or(x: nat, y: nat): nat
    decreases x, y
  {
    if x == 0 then y else 2 * Or(x / 2, y / 2) + (if x % 2 == 1 || y % 2 == 1 then 1 else 0)
  }

  /** The machine's right shift by `n` bits. */
  function Shr(x: nat, n: nat): nat {
    DivNonNegative(x, Pow2(n));
    x / Pow2(n)
  }

  lemma MulLe(a: int, x: int, y: int)
    requires 0 <= a && x <= y
    ensures a * x <= a * y && x * a <= y * a
  {
  }

  lemma DivNonNegative(x: int, m: int)
    requires 0 <= x && 0 < m
    ensures 0 <= x / m
  {
    var d := x / m;
    assert x == m * d + x % m;
    if d < 0 {
      NegativeProduct(m, d);
    }
  }

  lemma NegativeProduct(m: int, d: int)
    requires 0 < m && d < 0
    ensures m * d <= -m
  {
  }

  lemma {:induction false} Pow2Add(m: nat, n: nat)
    ensures Pow2(m + n) == Pow2(m) * Pow2(n)
  {
    if m == 0 {
    } else {
      Pow2Add(m - 1, n);
      assert Pow2(m + n) == 2 * (Pow2(m - 1) * Pow2(n));
    }
  }

  lemma {:induction false} AndZero(x: nat)
    ensures And(x, 0) == 0
  {
    if x == 0 {
    } else {
      AndZero(x / 2);
    }
  }

  lemma AndDigit(x: nat, y: nat)
    ensures And(x, y) == 2 * And(x / 2, y / 2) + (if x % 2 == 1 && y % 2 == 1 then 1 else 0)
  {
  }

  /** Masking with n low ones is reduction modulo 2^n. */
  lemma {:induction false} AndLowMask(x: nat, n: nat)
    ensures And(x, Pow2(n) - 1) == x % Pow2(n)
    decreases n
  {
    if n == 0 {
      AndZero(x);
    } else if x == 0 {
    } else {
      AndLowMask(x / 2, n - 1);
      var p := Pow2(n - 1);
      AndDigit(x, 2 * p - 1);
      assert (2 * p - 1) / 2 == p - 1;
      hide *;
      HalveMod(x, p);
    }
  }

  lemma HalveMod(x: nat, p: nat)
    requires p >= 1
    ensures x % (2 * p) == 2 * ((x / 2) % p) + x % 2
  {
    var y := x / 2;
    var r := 2 * (y % p) + x % 2;
    assert x == 2 * (p * (y / p) + y % p) + x % 2;
    assert 2 * (p * (y / p)) == (2 * p) * (y / p);
    DivModUnique(x, 2 * p, y / p, r);
  }

  lemma SmallMultipleIsZero(m: int, d: int)
    requires -m < m * d < m
    ensures d == 0
  {
  }

  /** Quotient and remainder are determined by the division identity. */
  lemma DivModUnique(x: int, m: int, k: int, r: int)
    requires m > 0 && 0 <= r < m && x == m * k + r
    ensures x / m == k && x % m == r
  {
    var d := x / m - k;
    assert m * d == r - x % m by {
      assert m * (x / m) == m * k + m * d;
    }
    SmallMultipleIsZero(m, d);
  }

  lemma DivDiv(n: nat, a: nat, b: nat)
    requires a >= 1 && b >= 1
    ensures a * b >= 1 && n / a / b == n / (a * b)
  {
    var d, r := n / a, n % a;
    var e, t := d / b, d % b;
    assert n == a * (b * e + t) + r;
    assert n == (a * b) * e + (a * t + r);
    DivRemainder(a, b, t, r);
    DivModUnique(n, a * b, e, a * t + r);
  }

  lemma DivRemainder(a: int, b: int, t: int, r: int)
    requires 0 <= t < b && 0 <= r < a
    ensures 0 <= a * t + r < a * b
  {
    assert a * t <= a * (b - 1);
  }

  lemma SmallMod(x: int, m: int)
    requires 0 <= x < m
    ensures x % m == x && x / m == 0
  {
    DivModUnique(x, m, 0, x);
  }

  lemma Pow2Is32()
    ensures Pow2(32) == 0x1_0000_0000
  {
    assert Pow2(8) == 256;
    assert Pow2(16) == 256 * Pow2(8);
    assert Pow2(24) == 256 * Pow2(16);
    assert Pow2(32) == 256 * Pow2(24);
  }

  lemma Pow2Is64()
    ensures Pow2(64) == 0x1_0000_0000_0000_0000
  {
    Pow2Is32();
    Pow2Add(32, 32);
  }

  lemma {:induction false} Pow2Monotonic(m: nat, n: nat)
    requires m <= n
    ensures Pow2(m) <= Pow2(n)
  {
    if m == n {
    } else {
      Pow2Monotonic(m, n - 1);
    }
  }

  /** The word with ones in bits n..w and zeros below. */
  function HighMask(w: nat, n: nat): (r: nat)
    requires n <= w
  {
    Pow2Monotonic(n, w);
    Pow2(w) - Pow2(n)
  }

  /** Masking with ones in all but the n low of w bits clears those n bits. */
  lemma {:induction false} AndHighMask(x: nat, w: nat, n: nat)
    requires n <= w && x < Pow2(w)
    ensures And(x, HighMask(w, n)) == x - x % Pow2(n)
    decreases n
  {
    if n == 0 {
      AndLowMask(x, w);
      DivModUnique(x, Pow2(w), 0, x);
    } else if x == 0 {
    } else {
      AndHighMask(x / 2, w - 1, n - 1);
      assert HighMask(w, n) / 2 == HighMask(w - 1, n - 1);
      HalveMod(x, Pow2(n - 1));
    }
  }

  lemma OrZero(x: nat)
    ensures Or(x, 0) == x
    decreases x
  {
    if x != 0 {
      OrZero(x / 2);
    }
  }

  /** Or-ing words whose bits do not overlap adds them. */
  lemma {:induction false} OrDisjoint(x: nat, y: nat, n: nat)
    requires x < Pow2(n)
    ensures Or(x, y * Pow2(n)) == x + y * Pow2(n)
    decreases n
  {
    if x == 0 {
    } else {
      var p := Pow2(n - 1);
      assert y * Pow2(n) == 2 * (y * p);
      OrDisjoint(x / 2, y, n - 1);
    }
  }

  lemma {:induction false} OrCommutes(x: nat, y: nat)
    ensures Or(x, y) == Or(y, x)
    decreases x + y
  {
    if x == 0 {
      OrZero(y);
    } else if y == 0 {
      OrZero(x);
    } else {
      OrCommutes(x / 2, y / 2);
    }
  }
}
