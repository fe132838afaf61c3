/**
 Fixed-base scalar multiplication with signed radix-16 digits, over any abelian group that the base
 point's table was computed in.
 */
module Ed25519Scalar {
  import opened Bits
  import opened Digits

  type scalar = s: seq<uint8> | |s| == 32 && s[31] < 128 witness seq(32, _ => 0)

  /** The two nibbles of every byte. */
  function Nibbles(s: seq<uint8>): (r: seq<int>)
    ensures |r| == 2 * |s|
    ensures forall i :: 0 <= i < |s| ==> r[2 * i] == s[i] % 16 && r[2 * i + 1] == s[i] / 16
  {
    if s == [] then [] else Nibbles(s[..|s| - 1]) + [s[|s| - 1] % 16, s[|s| - 1] / 16]
  }

  lemma {:induction false} NibblesValue(s: seq<uint8>)
    ensures Little(Nibbles(s), 16) == Little(s, 256)
  {
    if s == [] {
    } else {
      var t, b: int := s[..|s| - 1], s[|s| - 1];
      NibblesValue(t);
      assert Nibbles(s) == (Nibbles(t) + [b % 16]) + [b / 16];
      assert s == t + [b];
      hide Nibbles;
      LittleAppend(Nibbles(t), b % 16, 16);
      LittleAppend(Nibbles(t) + [b % 16], b / 16, 16);
      LittleAppend(t, b, 256);
      SixteenSquared(|t|);
      var p := Power(16, 2 * |t|);
      assert Power(16, 2 * |t| + 1) == 16 * p;
      hide *;
      NibbleAlgebra(p, b);
    }
  }

  lemma NibbleAlgebra(p: int, b: int)
    ensures p * (b % 16) + (16 * p) * (b / 16) == p * b
  {
    var q, r := b / 16, b % 16;
    assert b == 16 * q + r;
    assert p * r + (16 * p) * q == p * (16 * q + r);
  }

  lemma {:induction false} SixteenSquared(n: nat)
    ensures Power(16, 2 * n) == Power(256, n)
  {
    if n == 0 {
    } else {
      SixteenSquared(n - 1);
      assert Power(16, 2 * n) == 16 * Power(16, 2 * n - 1);
      assert Power(16, 2 * n - 1) == 16 * Power(16, 2 * n - 2);
    }
  }

  // ----- recoding -----

  /** Carrying out of digit i keeps the number. */
  lemma CarryStep(low: seq<int>, d: int, carry: int, e: int, out: int, rest: seq<int>)
    requires d + carry == e + 16 * out
    ensures Little(low, 16) + Power(16, |low|) * (carry + Little([d] + rest, 16))
         == Little(low + [e], 16) + Power(16, |low| + 1) * (out + Little(rest, 16))
  {
    assert Power(16, |low| + 1) == 16 * Power(16, |low|);
    hide *;
    LittleAppend(low, e, 16);
    LittleStep(d, rest, 16);
    CarryAlgebra(Power(16, |low|), Little(rest, 16), d, carry, e, out);
  }

  lemma CarryAlgebra(p: int, v: int, d: int, carry: int, e: int, out: int)
    requires d + carry == e + 16 * out
    ensures p * (carry + (d + 16 * v)) == p * e + (16 * p) * (out + v)
  {
    assert p * (carry + (d + 16 * v)) == p * (e + 16 * out + 16 * v);
    assert p * (e + 16 * out + 16 * v) == p * e + (16 * p) * (out + v);
  }

  /** The first loop of `ed_scalarmult_base_vartime`: two digits per byte. */
  method LoadNibbles(a: scalar, e: array<int8>)
    requires e.Length == 64
    modifies e
    ensures e[..] == Nibbles(a)
  {
    for i := 0 to 32
      invariant forall k :: 0 <= k < 2 * i ==> e[k] == Nibbles(a)[k]
    {
      e[2 * i] := a[i] % 16;
      e[2 * i + 1] := a[i] / 16 % 16;
    }
  }

  /** The digits below i are final, those from i on are untouched, and with the carry they still make v. */
  ghost predicate Carried(e: seq<int>, n: seq<int>, i: nat, carry: int, v: int) {
    && i < |e| == |n|
    && e[i..] == n[i..]
    && Little(e[..i], 16) + Power(16, i) * (carry + Little(n[i..], 16)) == v
  }

  lemma CarryOver(e: seq<int>, n: seq<int>, i: nat, carry: int, v: int, d: int, out: int)
    requires Carried(e, n, i, carry, v) && i + 1 < |n| && n[i] + carry == d + 16 * out
    ensures Carried(e[i := d], n, i + 1, out, v)
  {
    hide Little, Power;
    var e' := e[i := d];
    assert n[i..] == [n[i]] + n[i + 1..];
    CarryStep(e[..i], n[i], carry, d, out, n[i + 1..]);
    assert e'[..i + 1] == e[..i] + [d];
    assert e'[i + 1..] == e[i..][1..] == n[i + 1..];
  }

  lemma CarryEnds(e: seq<int>, n: seq<int>, carry: int, v: int)
    requires |e| == 64 && Carried(e, n, 63, carry, v)
    ensures e[63] == n[63] && Little(e[63 := e[63] + carry], 16) == v
  {
    hide Little, Power;
    var d := e[63];
    assert e[63..][0] == n[63..][0];
    assert n[63..] == [n[63]];
    EndCarry(e[..63], n[63], carry);
    assert e[63 := d + carry] == e[..63] + [n[63] + carry];
  }

  /** The second loop: digits 0..15 become digits -8..7, the surplus carried upwards. */
  method PropagateCarry(e: array<int8>, ghost n: seq<int>, ghost v: int)
    requires e.Length == 64 && e[..] == n && Little(n, 16) == v
    requires forall k :: 0 <= k < 64 ==> 0 <= n[k] < 16
    requires n[63] < 8
    modifies e
    ensures forall i :: 0 <= i < 64 ==> -8 <= e[i] <= 8
    ensures Little(e[..], 16) == v
  {
    var carry: int8 := 0;
    assert Carried(e[..], n, 0, 0, v) by { StartCarry(n); }
    for i := 0 to 63
      invariant 0 <= carry <= 1
      invariant forall k :: 0 <= k < i ==> -8 <= e[k] < 8
      invariant Carried(e[..], n, i, carry, v)
    {
      ghost var before, c := e[..], carry;
      assert e[i] == e[..][i..][0] == n[i..][0];
      e[i] := e[i] + carry;
      carry := (e[i] + 8) / 16;
      e[i] := e[i] - carry * 16;
      CarryOver(before, n, i, c, v, e[i], carry);
      assert e[..] == before[i := e[i]];
    }
    hide Carried;
    ghost var before := e[..];
    CarryEnds(before, n, carry, v);
    e[63] := e[63] + carry;
    assert e[..] == before[63 := before[63] + carry];
  }

  /** The recoding at the top of `ed_scalarmult_base_vartime`. */
  method Recode(a: scalar) returns (e: array<int8>)
    ensures fresh(e) && e.Length == 64
    ensures forall i :: 0 <= i < 64 ==> -8 <= e[i] <= 8
    ensures Little(e[..], 16) == Little(a, 256)
  {
    hide Little;
    e := new int8[64];
    LoadNibbles(a, e);
    NibblesValue(a);
    forall i | 0 <= i < 64 ensures 0 <= Nibbles(a)[i] < 16 {
      NibbleRange(a, i);
    }
    assert Nibbles(a)[2 * 31 + 1] == a[31] / 16;
    PropagateCarry(e, Nibbles(a), Little(a, 256));
  }

  lemma NibbleRange(a: scalar, i: nat)
    requires i < 64
    ensures 0 <= Nibbles(a)[i] < 16
  {
    var r := Nibbles(a);
    assert i == 2 * (i / 2) || i == 2 * (i / 2) + 1;
    assert r[2 * (i / 2)] == a[i / 2] % 16 && r[2 * (i / 2) + 1] == a[i / 2] / 16;
    hide Nibbles;
  }

  lemma StartCarry(n: seq<int>)
    ensures n[0..] == n && Little(n[..0], 16) + Power(16, 0) * (0 + Little(n[0..], 16)) == Little(n, 16)
  {
    assert n[0..] == n;
  }

  lemma EndCarry(low: seq<int>, d: int, carry: int)
    ensures Little(low, 16) + Power(16, |low|) * (carry + Little([d], 16)) == Little(low + [d + carry], 16)
  {
    hide *;
    OneDigit(d, 16);
    LittleAppend(low, d + carry, 16);
  }

  lemma OneDigit(d: int, base: nat)
    ensures Little([d], base) == d
  {
    LittleStep(d, [], base);
    assert [d] + [] == [d];
  }
}
