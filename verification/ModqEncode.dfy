/** `dev_modq_encode`: packing the public polynomial into 14-bit big-endian fields. */
module ModqEncode {
  import opened Bits
  import opened Digits

  /** One full public key for h: header byte, then the coefficients as one big-endian number. */
  ghost predicate IsEncoding(pk: seq<uint8>, h: seq<uint16>) {
    && |pk| == 1793 && pk[0] == 10
    && Value(pk[1..], 256) == Value(h, 16384)
  }

  /** acc's low `len` bits are the bits not yet written; the others are left over garbage. */
  ghost predicate Pending(out: seq<int>, acc: int, len: nat, coefficients: seq<int>) {
    Value(coefficients, 16384) == Value(out, 256) * Pow2(len) + acc % Pow2(len)
  }

  /** `(acc << 14) | x` on 32 bits. */
  function ShiftIn(acc: uint32, x: uint16): (r: nat)
    requires x < 16384
    ensures r == acc % 262144 * 16384 + x
  {
    ShiftedOut(acc);
    OrField(acc % 262144, x);
    Or((acc * 16384) % 0x1_0000_0000, x)
  }

  lemma OrField(a: nat, x: nat)
    requires x < 16384
    ensures Or(a * 16384, x) == a * 16384 + x
  {
    Fourteen();
    hide Or, Pow2;
    OrDisjoint(x, a, 14);
    OrCommutes(x, a * 16384);
  }

  lemma ShiftedOut(acc: int)
    ensures (acc * 16384) % 0x1_0000_0000 == acc % 262144 * 16384
  {
    var k := acc / 262144;
    assert acc * 16384 == 0x1_0000_0000 * k + acc % 262144 * 16384;
    DivModUnique(acc * 16384, 0x1_0000_0000, k, acc % 262144 * 16384);
  }

  /** Taking in a coefficient keeps the pending bits, up to 18 of them. */
  lemma TakeCoefficient(out: seq<int>, acc: uint32, len: nat, cs: seq<int>, x: uint16)
    requires len <= 18 && x < 16384 && Pending(out, acc, len, cs)
    ensures Pending(out, ShiftIn(acc, x), len + 14, cs + [x])
  {
    Fourteen();
    hide ShiftIn, Value, Pow2;
    ValueAppend(cs, x, 16384);
    Pow2Add(len, 14);
    Pow2Add(len, 18 - len);
    PendingStep(Value(out, 256), Pow2(len), Pow2(18 - len), acc, x, ShiftIn(acc, x));
  }

  lemma Fourteen()
    ensures Pow2(14) == 16384 && Pow2(18) == 262144
  {
  }

  lemma PendingStep(v: int, p: int, k: int, acc: int, x: int, r: int)
    requires p > 0 && p * k == 262144 && 0 <= x < 16384 && r == acc % 262144 * 16384 + x
    ensures (v * p + acc % p) * 16384 + x == v * (p * 16384) + r % (p * 16384)
  {
    ModOfMod(acc, p, k);
    ShiftMod(acc % 262144, p, x, r);
    var m := acc % p;
    assert r % (p * 16384) == m * 16384 + x;
    assert (v * p + m) * 16384 + x == v * (p * 16384) + (m * 16384 + x);
  }

  lemma ModOfMod(x: int, p: int, k: int)
    requires p > 0 && p * k == 262144
    ensures (x % 262144) % p == x % p
  {
    var d, e := x / 262144, (x % 262144) / p;
    assert x == p * (k * d + e) + (x % 262144) % p by {
      assert p * (k * d) == (p * k) * d;
    }
    DivModUnique(x, p, k * d + e, (x % 262144) % p);
  }

  lemma ShiftMod(a: int, p: int, x: int, r: int)
    requires p > 0 && 0 <= x < 16384 && r == a * 16384 + x
    ensures r % (p * 16384) == a % p * 16384 + x
  {
    var d, m := a / p, a % p;
    assert r == (p * 16384) * d + (m * 16384 + x);
    DivModUnique(r, p * 16384, d, m * 16384 + x);
  }

  /** Writing the top eight pending bits keeps the number. */
  lemma WriteByte(out: seq<int>, acc: uint32, len: nat, cs: seq<int>)
    requires Pending(out, acc, len + 8, cs)
    ensures Pending(out + [Shr(acc, len) % 256], acc, len, cs)
  {
    Eight();
    hide Value, Pow2;
    Pow2Add(len, 8);
    ValueAppend(out, Shr(acc, len) % 256, 256);
    ByteStep(Value(out, 256), Pow2(len), acc, Shr(acc, len) % 256);
  }

  lemma Eight()
    ensures Pow2(8) == 256
  {
  }

  lemma ByteStep(v: int, p: int, acc: int, b: int)
    requires p > 0 && b == acc / p % 256
    ensures v * (p * 256) + acc % (p * 256) == (v * 256 + b) * p + acc % p
  {
    TopByte(acc, p);
    var m := acc % p;
    assert acc % (p * 256) == b * p + m;
    hide *;
    assert v * (p * 256) + (b * p + m) == (v * 256 + b) * p + m;
  }

  lemma TopByte(acc: int, p: int)
    requires p > 0
    ensures acc % (p * 256) == acc / p % 256 * p + acc % p
  {
    var d, m, b, k := acc / p, acc % p, acc / p % 256, acc / p / 256;
    assert acc == p * d + m && d == 256 * k + b;
    assert acc == (p * 256) * k + (b * p + m);
    assert 0 <= b * p + m < p * 256 by {
      MulLe(p, b, 255);
      MulLe(p, 0, b);
    }
    DivModUnique(acc, p * 256, k, b * p + m);
  }

  /** `dev_modq_encode`. */
  method DevModqEncode(x: seq<uint16>, pk: array<uint8>)
    requires |x| == 1024 && AreDigits(x, 16384) && pk.Length == 1793
    modifies pk
    ensures IsEncoding(pk[..], x)
  {
    hide Value, ShiftIn, Pow2;
    pk[0] := 10;
    var buf := 1;
    var acc: uint32 := 0;
    var len := 0;
    var u := 0;
    assert Pending([], 0, 0, []) by { NothingPending(); }
    assert pk[1..1] == [] && x[..0] == [];
    while u < 1024
      invariant 0 <= u <= 1024 && 0 <= len < 8 && 1 <= buf <= 1793 && pk[0] == 10
      invariant 8 * (buf - 1) + len == 14 * u
      invariant Pending(pk[1..buf], acc, len, x[..u])
    {
      TakeCoefficient(pk[1..buf], acc, len, x[..u], x[u]);
      assert x[..u] + [x[u]] == x[..u + 1];
      acc := ShiftIn(acc, x[u]);
      len := len + 14;
      while len >= 8
        invariant 0 <= len && 1 <= buf && 8 * (buf - 1) + len == 14 * (u + 1) && pk[0] == 10
        invariant Pending(pk[1..buf], acc, len, x[..u + 1])
      {
        WriteByte(pk[1..buf], acc, len - 8, x[..u + 1]);
        ghost var done := pk[1..buf];
        len := len - 8;
        pk[buf] := Shr(acc, len) % 256;
        buf := buf + 1;
        assert pk[1..buf] == done + [pk[buf - 1]];
      }
      u := u + 1;
    }
    assert pk[1..buf] == pk[..][1..] && x[..1024] == x;
    NothingLeft(pk[1..buf], acc, x);
  }

  lemma NothingPending()
    ensures Pending([], 0, 0, [])
  {
  }

  lemma NothingLeft(out: seq<int>, acc: int, cs: seq<int>)
    requires Pending(out, acc, 0, cs)
    ensures Value(out, 256) == Value(cs, 16384)
  {
  }

  /** The bytes determine the polynomial, and the polynomial determines the bytes. */
  lemma EncodingIsInjective(p: seq<uint8>, q: seq<uint8>, g: seq<uint16>, h: seq<uint16>)
    requires |g| == |h| == 1024 && AreDigits(g, 16384) && AreDigits(h, 16384)
    requires IsEncoding(p, g) && IsEncoding(q, h)
    ensures p == q <==> g == h
  {
    if p == q {
      ValueInjective(g, h, 16384);
    }
    if g == h {
      ValueInjective(p[1..], q[1..], 256);
      assert p == [p[0]] + p[1..] && q == [q[0]] + q[1..];
    }
  }
}
