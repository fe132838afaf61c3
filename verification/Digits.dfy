/** Numbers written as sequences of digits, most significant first. */
module Digits {
  import opened Bits

  function Power(base: nat, n: nat): (r: nat)
    requires base >= 1
    ensures r >= 1
  {
    if n == 0 then 1 else PowerPositive(base, Power(base, n - 1)); base * Power(base, n - 1)
  }

  lemma PowerPositive(a: nat, b: nat)
    requires a >= 1 && b >= 1
    ensures a * b >= 1
  {
  }

  ghost predicate AreDigits(s: seq<int>, base: nat) {
    forall i :: 0 <= i < |s| ==> 0 <= s[i] < base
  }

  /** The number whose digits are s. */
  function Value(s: seq<int>, base: nat): int {
    if s == [] then 0 else Value(s[..|s| - 1], base) * base + s[|s| - 1]
  }

  lemma ValueAppend(s: seq<int>, d: int, base: nat)
    ensures Value(s + [d], base) == Value(s, base) * base + d
  {
    assert (s + [d])[..|s|] == s;
  }

  lemma ValueLast(s: seq<int>, base: nat)
    requires s != []
    ensures Value(s, base) == Value(s[..|s| - 1], base) * base + s[|s| - 1]
  {
  }

  lemma {:induction false} ValueBound(s: seq<int>, base: nat)
    requires base >= 1 && AreDigits(s, base)
    ensures 0 <= Value(s, base) < Power(base, |s|)
  {
    if s == [] {
    } else {
      var t, d := s[..|s| - 1], s[|s| - 1];
      assert AreDigits(t, base);
      ValueBound(t, base);
      var v, p := Value(t, base), Power(base, |t|);
      assert Power(base, |s|) == base * p;
      hide *;
      AppendBound(v, p, d, base);
    }
  }

  lemma AppendBound(v: int, p: int, d: int, base: int)
    requires 0 <= v < p && 0 <= d < base
    ensures 0 <= v * base + d < base * p
  {
    MulLe(base, 0, v);
    MulLe(base, v + 1, p);
  }

  /** Digit sequences of equal length with equal value are equal. */
  lemma {:induction false} ValueInjective(s: seq<int>, t: seq<int>, base: nat)
    requires base >= 1 && |s| == |t| && AreDigits(s, base) && AreDigits(t, base)
    requires Value(s, base) == Value(t, base)
    ensures s == t
  {
    if s == [] {
    } else {
      var n := |s| - 1;
      var s', t' := s[..n], t[..n];
      assert AreDigits(s', base) && AreDigits(t', base);
      assert Value(s, base) == Value(s', base) * base + s[n];
      assert Value(t, base) == Value(t', base) * base + t[n];
      LastDigit(Value(s', base), s[n], Value(t', base), t[n], base);
      ValueInjective(s', t', base);
      assert s == s' + [s[n]] && t == t' + [t[n]];
    }
  }

  lemma LastDigit(v: int, d: int, w: int, e: int, base: int)
    requires 0 <= d < base && 0 <= e < base && v * base + d == w * base + e
    ensures v == w && d == e
  {
    DivModUnique(v * base + d, base, v, d);
    DivModUnique(v * base + d, base, w, e);
  }

  lemma ConcatStep(a: int, b: int, p: int, base: int, d: int)
    ensures (a * p + b) * base + d == a * (base * p) + (b * base + d)
  {
  }

  /** Splitting off the high part of a number's digits. */
  lemma {:induction false} ValueConcat(s: seq<int>, t: seq<int>, base: nat)
    requires base >= 1
    ensures Value(s + t, base) == Value(s, base) * Power(base, |t|) + Value(t, base)
  {
    if t == [] {
      assert s + t == s;
    } else {
      var t', d := t[..|t| - 1], t[|t| - 1];
      ValueConcat(s, t', base);
      assert s + t == (s + t') + [d];
      ValueAppend(s + t', d, base);
      ValueAppend(t', d, base);
      assert t == t' + [d];
      var a, b, p := Value(s, base), Value(t', base), Power(base, |t'|);
      assert Power(base, |t|) == base * p;
      hide *;
      ConcatStep(a, b, p, base, d);
    }
  }

  // ----- least significant digit first -----

  /** The number whose digits are s, the first being the units. */
  function Little(s: seq<int>, base: nat): int {
    if s == [] then 0 else s[0] + base * Little(s[1..], base)
  }

  lemma LittleStep(d: int, s: seq<int>, base: nat)
    ensures Little([d] + s, base) == d + base * Little(s, base)
  {
    assert ([d] + s)[1..] == s;
  }

  lemma {:induction false} LittleAppend(s: seq<int>, d: int, base: nat)
    requires base >= 1
    ensures Little(s + [d], base) == Little(s, base) + Power(base, |s|) * d
  {
    if s == [] {
      LittleStep(d, [], base);
      assert [] + [d] == [d] == [d] + [];
      assert Power(base, 0) == 1;
    } else {
      var t := s[1..];
      LittleAppend(t, d, base);
      assert Power(base, |s|) == base * Power(base, |t|);
      assert s == [s[0]] + t && s + [d] == [s[0]] + (t + [d]);
      hide *;
      LittleStep(s[0], t, base);
      LittleStep(s[0], t + [d], base);
      AppendAlgebra(base, Little(t, base), Power(base, |t|), d);
    }
  }

  lemma AppendAlgebra(base: int, v: int, p: int, d: int)
    ensures base * (v + p * d) == base * v + (base * p) * d
  {
  }

  lemma PowerNext(base: nat, n: nat)
    requires base >= 1
    ensures Power(base, n + 1) == base * Power(base, n)
  {
  }

  lemma DivBound(buffer: int, base: int, p: int)
    requires 0 <= buffer < base * p && base >= 1
    ensures 0 <= buffer / base < p
  {
    var d := buffer / base;
    assert buffer == base * d + buffer % base;
    if d >= p {
      MulLe(base, p, d);
    }
    DivNonNegative(buffer, base);
  }

  lemma {:induction false} LittleRange(s: seq<int>, base: nat)
    requires base >= 1 && AreDigits(s, base)
    ensures 0 <= Little(s, base) < Power(base, |s|)
  {
    if s == [] {
    } else {
      var t := s[1..];
      assert AreDigits(t, base);
      LittleRange(t, base);
      assert Little(s, base) == s[0] + base * Little(t, base);
      assert Power(base, |s|) == base * Power(base, |t|);
      var d, v, p := s[0], Little(t, base), Power(base, |t|);
      hide *;
      AppendBound(v, p, d, base);
    }
  }

  /** The n low digits of v. */
  function ToDigits(v: nat, base: nat, n: nat): (r: seq<nat>)
    requires base >= 1
    ensures |r| == n
    ensures AreDigits(r, base)
    decreases n
  {
    if n == 0 then [] else
      DivNonNegative(v, base);
      [v % base] + ToDigits(v / base, base, n - 1)
  }

  /** Digit i. */
  lemma {:induction false} DigitAt(v: nat, base: nat, n: nat, i: nat)
    requires base >= 1 && i < n
    ensures ToDigits(v, base, n)[i] == v / Power(base, i) % base
    decreases n
  {
    DivNonNegative(v, base);
    if i == 0 {
    } else {
      DigitAt(v / base, base, n - 1, i - 1);
      PowerNext(base, i - 1);
      DivDiv(v, base, Power(base, i - 1));
    }
  }

  /** A digit sequence is recovered from its value. */
  lemma {:induction false} DigitsOfLittle(s: seq<int>, base: nat)
    requires base >= 1 && AreDigits(s, base)
    ensures Little(s, base) >= 0
    ensures ToDigits(Little(s, base), base, |s|) == s
  {
    if s == [] {
    } else {
      var d, t := s[0], s[1..];
      assert AreDigits(t, base);
      DigitsOfLittle(t, base);
      LittleRange(s, base);
      var v := Little(s, base);
      assert v == d + base * Little(t, base);
      assert 0 <= d < base;
      DivModUnique(v, base, Little(t, base), d);
      assert s == [d] + t;
    }
  }

  lemma QuotientAndRest(v: int, base: int)
    requires base >= 1
    ensures v % base + base * (v / base) == v
  {
  }

  lemma DigitsStep(v: nat, base: nat, n: nat)
    requires base >= 1 && n >= 1
    ensures v / base >= 0
    ensures ToDigits(v, base, n) == [v % base] + ToDigits(v / base, base, n - 1)
    ensures v < Power(base, n) ==> v / base < Power(base, n - 1)
  {
    DivNonNegative(v, base);
    hide Power;
    PowerNext(base, n - 1);
    hide ToDigits;
    if v < Power(base, n) {
      DivBound(v, base, Power(base, n - 1));
    }
  }

  lemma LittleNext(v: nat, base: nat, t: seq<int>)
    requires base >= 1 && Little(t, base) == v / base
    ensures Little([v % base] + t, base) == v
  {
    QuotientAndRest(v, base);
    LittleStep(v % base, t, base);
  }

  /** Enough digits keep the value. */
  lemma {:induction false} LittleOfDigits(v: nat, base: nat, n: nat)
    requires base >= 1 && v < Power(base, n)
    ensures Little(ToDigits(v, base, n), base) == v
    decreases n
  {
    if n == 0 {
    } else {
      hide *;
      DigitsStep(v, base, n);
      LittleOfDigits(v / base, base, n - 1);
      LittleNext(v, base, ToDigits(v / base, base, n - 1));
    }
  }

  lemma {:induction false} LittleZeros(s: seq<int>, n: nat, base: nat)
    requires base >= 1
    ensures Little(s + seq(n, _ => 0), base) == Little(s, base)
  {
    if n == 0 {
      assert s + seq(0, _ => 0) == s;
    } else {
      LittleZeros(s, n - 1, base);
      var t := s + seq(n - 1, _ => 0);
      assert s + seq(n, _ => 0) == t + [0];
      LittleAppend(t, 0, base);
      assert Power(base, |t|) * 0 == 0;
    }
  }

  /** n digits of w bits each are w·n bits. */
  lemma {:induction false} PowerOfPow2(w: nat, base: nat, n: nat, bits: nat)
    requires base == Pow2(w) && bits == w * n
    ensures Power(base, n) == Pow2(bits)
  {
    hide Pow2;
    if n == 0 {
      Pow2OfNone(bits, w);
    } else {
      OneFewer(w, n, bits);
      PowerOfPow2(w, base, n - 1, bits - w);
      Pow2Add(w, bits - w);
    }
  }

  lemma OneFewer(w: nat, n: nat, bits: nat)
    requires n >= 1 && bits == w * n
    ensures bits - w >= 0 && bits - w == w * (n - 1)
  {
    assert w * n == w + w * (n - 1);
  }

  lemma Pow2OfNone(bits: nat, w: nat)
    requires bits == w * 0
    ensures Pow2(bits) == 1
  {
  }
}
