/** The ring Z_q[x]/(x^n + 1): polynomials as coefficient sequences, product and evaluation. */
module Negacyclic {
  import opened ModQ

  function Eval(a: seq<int>, x: int): int {
    if a == [] then 0 else a[0] + x * Eval(a[1..], x)
  }

  /** Coefficientwise equality modulo q. */
  ghost predicate SameModQ(a: seq<int>, b: seq<int>) {
    |a| == |b| && forall j :: 0 <= j < |a| ==> Cong(a[j], b[j])
  }

  /** The product with x in a ring where x^n = -1. */
  function TimesX(h: seq<int>): (r: seq<int>)
    ensures |r| == |h|
  {
    if h == [] then [] else [-h[|h| - 1]] + h[..|h| - 1]
  }

  /** a + c·b, coefficient by coefficient. */
  function AddScaled(a: seq<int>, c: int, b: seq<int>): (r: seq<int>)
    requires |a| == |b|
    ensures |r| == |a|
  {
    seq(|a|, j requires 0 <= j < |a| => a[j] + c * b[j])
  }

  /** f·h modulo x^n + 1, where n = |h| and f may be shorter: Horner's rule in the ring. */
  function NegMul(f: seq<int>, h: seq<int>): (r: seq<int>)
    ensures |r| == |h|
  {
    if f == [] then seq(|h|, _ => 0)
    else AddScaled(NegMul(f[1..], TimesX(h)), f[0], h)
  }

  /** The coefficient that x^i·h contributes at position k: wrapped coefficients change sign. */
  function Wrapped(h: seq<int>, i: nat, k: nat): int
    requires i <= |h| && k < |h|
  {
    if i <= k then h[k - i] else -h[|h| + k - i]
  }

  /** The schoolbook sum over i >= lo of f[i] times the matching coefficient of h. */
  function Convolution(f: seq<int>, h: seq<int>, k: nat, lo: nat): int
    requires |f| <= |h| && k < |h| && lo <= |f|
    decreases |f| - lo
  {
    if lo == |f| then 0 else f[lo] * Wrapped(h, lo, k) + Convolution(f, h, k, lo + 1)
  }

  /** The ring product is the negacyclic convolution of its factors. */
  lemma NegMulIsConvolution(f: seq<int>, h: seq<int>, k: nat)
    requires |f| <= |h| && k < |h|
    ensures NegMul(f, h)[k] == Convolution(f, h, k, 0)
  {
    assert f[0..] == f;
    assert h == Shifted(h, 0);
    ConvolutionFrom(f, h, k, 0);
  }

  /** x^i·h. */
  ghost function Shifted(h: seq<int>, i: nat): (r: seq<int>)
    requires i <= |h|
    ensures |r| == |h|
  {
    seq(|h|, k requires 0 <= k < |h| => Wrapped(h, i, k))
  }

  lemma TimesXAt(h: seq<int>, k: nat)
    requires k < |h|
    ensures TimesX(h)[k] == if k == 0 then -h[|h| - 1] else h[k - 1]
  {
  }

  lemma ShiftedAt(h: seq<int>, i: nat, k: nat)
    requires i <= |h| && k < |h|
    ensures Shifted(h, i)[k] == Wrapped(h, i, k)
  {
  }

  lemma ShiftOnce(h: seq<int>, i: nat)
    requires i < |h|
    ensures TimesX(Shifted(h, i)) == Shifted(h, i + 1)
  {
    hide Shifted, TimesX;
    forall k | 0 <= k < |h| ensures TimesX(Shifted(h, i))[k] == Shifted(h, i + 1)[k] {
      TimesXAt(Shifted(h, i), k);
      ShiftedAt(h, i + 1, k);
      ShiftedAt(h, i, if k == 0 then |h| - 1 else k - 1);
    }
  }

  lemma NegMulAt(f: seq<int>, h: seq<int>, k: nat)
    requires f != [] && k < |h|
    ensures NegMul(f, h)[k] == NegMul(f[1..], TimesX(h))[k] + f[0] * h[k]
  {
  }

  lemma {:induction false} ConvolutionFrom(f: seq<int>, h: seq<int>, k: nat, lo: nat)
    requires |f| <= |h| && k < |h| && lo <= |f|
    ensures NegMul(f[lo..], Shifted(h, lo))[k] == Convolution(f, h, k, lo)
    decreases |f| - lo
  {
    if lo == |f| {
    } else {
      var s := Shifted(h, lo);
      assert s[k] == Wrapped(h, lo, k);
      hide Wrapped, Shifted, TimesX, NegMul;
      ShiftOnce(h, lo);
      NegMulAt(f[lo..], s, k);
      assert f[lo..][1..] == f[lo + 1..];
      ConvolutionFrom(f, h, k, lo + 1);
    }
  }

  // ----- evaluation is a ring homomorphism at every root of x^n + 1 -----

  lemma {:induction false} EvalSplit(a: seq<int>, h: nat, x: int)
    requires h <= |a|
    ensures Eval(a, x) == Eval(a[..h], x) + Pow(x, h) * Eval(a[h..], x)
  {
    if h == 0 {
      assert a[0..] == a;
      assert Pow(x, 0) == 1;
    } else {
      EvalSplit(a[1..], h - 1, x);
      assert a[1..][..h - 1] == a[..h][1..];
      assert a[1..][h - 1..] == a[h..];
      var u, v, p := Eval(a[..h][1..], x), Eval(a[h..], x), Pow(x, h - 1);
      assert Eval(a[1..], x) == u + p * v;
      assert Eval(a, x) == a[0] + x * Eval(a[1..], x);
      assert Eval(a[..h], x) == a[0] + x * u;
      assert Pow(x, h) == x * p;
      hide *;
      SplitAlgebra(x, u, v, p);
    }
  }

  lemma SplitAlgebra(x: int, u: int, v: int, p: int)
    ensures x * (u + p * v) == x * u + (x * p) * v
  {
  }

  /** Evaluation respects linear combinations taken modulo q. */
  lemma {:induction false} EvalLinear(r: seq<int>, a: seq<int>, z: int, b: seq<int>, x: int)
    requires |r| == |a| == |b|
    requires forall j :: 0 <= j < |r| ==> Cong(r[j], a[j] + z * b[j])
    ensures Cong(Eval(r, x), Eval(a, x) + z * Eval(b, x))
  {
    if r == [] {
      assert z * 0 == 0;
    } else {
      EvalLinear(r[1..], a[1..], z, b[1..], x);
      var u, v, w := Eval(r[1..], x), Eval(a[1..], x), Eval(b[1..], x);
      assert Cong(r[0], a[0] + z * b[0]);
      assert Eval(r, x) == r[0] + x * u && Eval(a, x) == a[0] + x * v && Eval(b, x) == b[0] + x * w;
      hide *;
      CongMul(u, v + z * w, x);
      CongAdd(r[0], a[0] + z * b[0], x * u, x * (v + z * w));
      LinearStep(a[0], b[0], v, w, x, z);
    }
  }

  lemma LinearStep(a: int, b: int, v: int, w: int, x: int, z: int)
    ensures a + z * b + x * (v + z * w) == a + x * v + z * (b + x * w)
  {
  }

  lemma {:induction false} EvalZero(n: nat, x: int)
    ensures Eval(seq(n, _ => 0), x) == 0
  {
    if n == 0 {
    } else {
      var z := seq(n, _ => 0);
      assert z[1..] == seq(n - 1, _ => 0);
      EvalZero(n - 1, x);
    }
  }

  lemma EvalTop(h: seq<int>, n: nat, x: int)
    requires |h| == n + 1
    ensures Eval(h, x) == Eval(h[..n], x) + Pow(x, n) * h[n]
    ensures Eval(TimesX(h), x) == -h[n] + x * Eval(h[..n], x)
    ensures Pow(x, |h|) == x * Pow(x, n)
  {
    EvalSplit(h, n, x);
    EvalConstant(h[n..], x);
    assert TimesX(h)[1..] == h[..n];
  }

  lemma EvalConstant(a: seq<int>, x: int)
    requires |a| == 1
    ensures Eval(a, x) == a[0] && Cong(a[0], Eval(a, x))
  {
    assert Eval(a, x) == a[0] + x * Eval(a[1..], x);
    CongMod(a[0]);
  }

  lemma EvalTimesX(h: seq<int>, x: int)
    requires h != [] && Cong(Pow(x, |h|), -1)
    ensures Cong(Eval(TimesX(h), x), x * Eval(h, x))
  {
    hide Cong, Pow, Eval, TimesX;
    var n := |h| - 1;
    EvalTop(h, n, x);
    TimesXStep(x, Eval(h[..n], x), Pow(x, n), h[n]);
  }

  lemma TimesXStep(x: int, t: int, p: int, c: int)
    requires Cong(x * p, -1)
    ensures Cong(-c + x * t, x * (t + p * c))
  {
    hide *;
    TopCoefficient(x, t, p, c);
    CongMul(x * p, -1, c);
    CongMod(x * t);
    CongAdd(x * t, x * t, (x * p) * c, -1 * c);
    CongMod(-c + x * t);
    CongTrans(-c + x * t, -c + x * t, x * t + (x * p) * c);
  }

  lemma TopCoefficient(x: int, t: int, p: int, c: int)
    ensures x * (t + p * c) == x * t + (x * p) * c
    ensures -1 * c == -c
  {
  }

  /** Evaluating a ring product multiplies the evaluations. */
  lemma {:induction false} EvalNegMul(f: seq<int>, h: seq<int>, x: int)
    requires h != [] && Cong(Pow(x, |h|), -1)
    ensures Cong(Eval(NegMul(f, h), x), Eval(f, x) * Eval(h, x))
  {
    if f == [] {
      EvalZero(|h|, x);
      assert 0 * Eval(h, x) == 0;
    } else {
      hide Cong, Pow, TimesX;
      var r := NegMul(f[1..], TimesX(h));
      EvalNegMul(f[1..], TimesX(h), x);
      EvalTimesX(h, x);
      EvalAddScaled(r, f[0], h, x);
      HornerStep(Eval(NegMul(f, h), x), Eval(r, x), f[0],
                 Eval(f[1..], x), Eval(TimesX(h), x), Eval(h, x), x);
    }
  }

  lemma EvalAddScaled(a: seq<int>, c: int, b: seq<int>, x: int)
    requires |a| == |b|
    ensures Cong(Eval(AddScaled(a, c, b), x), Eval(a, x) + c * Eval(b, x))
  {
    hide Cong, Eval;
    forall j | 0 <= j < |a| ensures Cong(AddScaled(a, c, b)[j], a[j] + c * b[j]) {
      CongMod(a[j] + c * b[j]);
    }
    EvalLinear(AddScaled(a, c, b), a, c, b, x);
  }

  lemma HornerStep(e: int, r: int, c: int, u: int, v: int, w: int, x: int)
    requires Cong(e, r + c * w) && Cong(r, u * v) && Cong(v, x * w)
    ensures Cong(e, (c + x * u) * w)
  {
    hide *;
    CongMul(v, x * w, u);
    CongTrans(r, u * v, u * (x * w));
    CongMod(c * w);
    CongAdd(r, u * (x * w), c * w, c * w);
    HornerAlgebra(c, u, w, x);
    CongTrans(e, r + c * w, (c + x * u) * w);
  }

  lemma HornerAlgebra(c: int, u: int, w: int, x: int)
    ensures u * (x * w) + c * w == (c + x * u) * w
  {
  }
}
