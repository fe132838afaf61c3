/**
 Branch-free arithmetic modulo q on 32-bit words. Every intermediate is reduced modulo 2^32 where
 the device's `uint32_t` would wrap, so the contracts also say that wrapping does no harm.
 */
module Montgomery {
  import opened Bits
  import opened ModQ

  /** Residues in canonical form. */
  type residue = x: int | 0 <= x < 12289

  /** `x & (0 - b)` for a bit b: all of x when the bit is set and nothing otherwise. */
  function MaskedBy(x: uint32, b: int): (r: uint32)
    requires 0 <= b <= 1
    ensures r == if b == 1 then x else 0
  {
    hide And;
    MaskOrNothing(x, b);
    And(x, (0 - b) % 0x1_0000_0000)
  }

  lemma MaskOrNothing(x: uint32, b: int)
    requires 0 <= b <= 1
    ensures And(x, (0 - b) % 0x1_0000_0000) == if b == 1 then x else 0
  {
    if b == 0 {
      AndZero(x);
    } else {
      Pow2Is32();
      AndLowMask(x, 32);
      SmallMod(x, 0x1_0000_0000);
    }
  }

  /**
   The step that ends every operation: e, wrapped to 32 bits, gets q added back when its top bit
   says that it went below zero.
   */
  function AddBackQ(e: int): (r: residue)
    requires -12289 <= e < 12289
    ensures r == if e < 0 then e + 12289 else e
  {
    hide MaskedBy;
    var d := e % 0x1_0000_0000;
    (d + MaskedBy(12289, d / 0x8000_0000)) % 0x1_0000_0000
  }

  lemma AddedBack(e: int)
    requires -12289 <= e < 12289
    ensures (if e < 0 then e + 12289 else e) == e % 12289 == (e + 12289) % 12289
  {
  }

  function MqConvSmall(x: int8): (r: residue)
    ensures r == x % 12289
  {
    hide AddBackQ;
    AddedBack(x);
    AddBackQ(x)
  }

  function MqAdd(x: residue, y: residue): (r: residue)
    ensures r == (x + y) % 12289
  {
    hide AddBackQ;
    AddedBack(x + y - 12289);
    AddBackQ(x + y - 12289)
  }

  function MqSub(x: residue, y: residue): (r: residue)
    ensures r == (x - y) % 12289
  {
    hide AddBackQ;
    AddedBack(x - y);
    AddBackQ(x - y)
  }

  /** Halving modulo q. */
  function MqRshift1(x: residue): (r: residue)
    ensures (2 * r) % 12289 == x
  {
    hide MaskedBy;
    Halved(x);
    var y := x + MaskedBy(12289, x % 2);
    y / 2
  }

  lemma Halved(x: residue)
    ensures var y := x + if x % 2 == 1 then 12289 else 0;
            0 <= y / 2 < 12289 && (2 * (y / 2)) % 12289 == x
  {
  }

  /** Montgomery product: x·y/65536 modulo q. */
  function MqMontymul(x: residue, y: residue): (r: residue)
    ensures Cong(r * 65536, x * y)
  {
    ProductBound32(x, y);
    MontgomeryReduce(x * y)
  }

  /** The reduction inside the Montgomery product, on the 32-bit product z. */
  function MontgomeryReduce(z: int): (r: residue)
    requires 0 <= z <= 150994944
    ensures Cong(r * 65536, z)
  {
    hide MontgomeryCorrection, AddBackQ;
    var w := MontgomeryCorrection(z);
    AddBackQ((z + w) / 65536 - 12289)
  }

  /** The multiple of q that clears the low half of z; the sum stays below 2q·2^16. */
  function MontgomeryCorrection(z: int): (w: uint32)
    requires 0 <= z <= 150994944
    ensures z + w < 0x1_0000_0000
    ensures (z + w) % 65536 == 0 && (z + w) / 65536 < 2 * 12289
    ensures Cong(z + w, z)
  {
    var low := (z * 12287) % 0x1_0000_0000;
    var m := low % 65536;
    LowHalf(z * 12287, low);
    ClearsLowHalf(z, z * 12287 / 65536, m);
    m * 12289
  }

  lemma LowHalf(x: int, low: int)
    requires low == x % 0x1_0000_0000
    ensures x == 65536 * (x / 65536) + low % 65536
  {
    var k := x / 0x1_0000_0000;
    DivModUnique(x, 65536, 65536 * k + low / 65536, low % 65536);
  }

  lemma ClearsLowHalf(z: int, k: int, m: int)
    requires z * 12287 == 65536 * k + m && 0 <= m < 65536
    ensures (z + m * 12289) % 65536 == 0
  {
    assert z + m * 12289 == 65536 * (2304 * z - 12289 * k);
  }

  lemma ProductBound32(x: int, y: int)
    requires 0 <= x < 12289 && 0 <= y < 12289
    ensures 0 <= x * y <= 150994944
  {
    MulLe(x, y, 12288);
    MulLe(12288, x, 12288);
    assert x * 12288 == 12288 * x;
    MulLe(x, 0, y);
  }

  /** z is the Montgomery form of the e-th power of y. */
  ghost predicate IsMontyPower(z: int, y: int, e: nat) {
    0 <= z < 12289 && Cong(z, Pow(y, e) * 65536)
  }

  lemma CancelR(x: int, y: int)
    requires Cong(x * 65536, y * 65536)
    ensures Cong(x, y)
  {
    CongMul(x * 65536, y * 65536, 2304);
    hide Cong;
    CongWitness(x * 65536 * 2304, x, x * 12287);
    CongWitness(y * 65536 * 2304, y, y * 12287);
    CongTrans(x, x * 65536 * 2304, y * 65536 * 2304);
    CongTrans(x, y * 65536 * 2304, y);
  }

  /** Multiplying Montgomery forms adds the exponents. */
  lemma MontyPowers(a: residue, b: residue, y: int, i: nat, j: nat)
    requires IsMontyPower(a, y, i) && IsMontyPower(b, y, j)
    ensures IsMontyPower(MqMontymul(a, b), y, i + j)
  {
    hide MqMontymul, Cong, Pow;
    PowAdd(y, i, j);
    MontyProduct(MqMontymul(a, b), a, b, Pow(y, i), Pow(y, j));
  }

  lemma MontyProduct(r: int, a: int, b: int, p: int, s: int)
    requires Cong(r * 65536, a * b) && Cong(a, p * 65536) && Cong(b, s * 65536)
    ensures Cong(r, (p * s) * 65536)
  {
    hide *;
    CongMul2(a, p * 65536, b, s * 65536);
    assert (p * 65536) * (s * 65536) == ((p * s) * 65536) * 65536;
    CongTrans(r * 65536, a * b, ((p * s) * 65536) * 65536);
    CancelR(r, (p * s) * 65536);
  }

  /** R2 = 10952 is 2^32 modulo q, so multiplying by it enters Montgomery form. */
  lemma ToMonty(y: residue)
    ensures IsMontyPower(MqMontymul(y, 10952), y, 1)
  {
    assert Pow(y, 1) == y * Pow(y, 0);
    hide MqMontymul, Cong, Pow;
    EnterMonty(MqMontymul(y, 10952), y);
  }

  lemma EnterMonty(r: int, y: int)
    requires Cong(r * 65536, y * 10952)
    ensures Cong(r, y * 65536)
  {
    hide *;
    CongWitness(y * 65536 * 65536, y * 10952, y * 349496);
    CongTrans(r * 65536, y * 10952, y * 65536 * 65536);
    CancelR(r, y * 65536);
  }

  /** x / y modulo q, by the addition chain for the exponent q - 2. */
  function MqDiv12289(x: residue, y: residue): (r: residue) {
    var y0 := MqMontymul(y, 10952);
    var y1 := MqMontymul(y0, y0);
    var y2 := MqMontymul(y1, y0);
    var y3 := MqMontymul(y2, y1);
    var y4 := MqMontymul(y3, y3);
    var y5 := MqMontymul(y4, y4);
    var y6 := MqMontymul(y5, y5);
    var y7 := MqMontymul(y6, y6);
    var y8 := MqMontymul(y7, y7);
    var y9 := MqMontymul(y8, y2);
    var y10 := MqMontymul(y9, y8);
    var y11 := MqMontymul(y10, y10);
    var y12 := MqMontymul(y11, y11);
    var y13 := MqMontymul(y12, y9);
    var y14 := MqMontymul(y13, y13);
    var y15 := MqMontymul(y14, y14);
    var y16 := MqMontymul(y15, y10);
    var y17 := MqMontymul(y16, y16);
    var y18 := MqMontymul(y17, y0);
    MqMontymul(y18, x)
  }

  /** The chain reaches the exponent q - 2 exactly. */
  lemma DivisionChain(x: residue, y: residue, e: nat)
    requires e == 12287
    ensures Cong(MqDiv12289(x, y), Pow(y, e) * x)
  {
    hide IsMontyPower, Pow, Cong, MqMontymul;
    var y0 := MqMontymul(y, 10952);                 ToMonty(y);
    var y1 := MqMontymul(y0, y0);                   MontyPowers(y0, y0, y, 1, 1);
    var y2 := MqMontymul(y1, y0);                   MontyPowers(y1, y0, y, 2, 1);
    var y3 := MqMontymul(y2, y1);                   MontyPowers(y2, y1, y, 3, 2);
    var y4 := MqMontymul(y3, y3);                   MontyPowers(y3, y3, y, 5, 5);
    var y5 := MqMontymul(y4, y4);                   MontyPowers(y4, y4, y, 10, 10);
    var y6 := MqMontymul(y5, y5);                   MontyPowers(y5, y5, y, 20, 20);
    var y7 := MqMontymul(y6, y6);                   MontyPowers(y6, y6, y, 40, 40);
    var y8 := MqMontymul(y7, y7);                   MontyPowers(y7, y7, y, 80, 80);
    var y9 := MqMontymul(y8, y2);                   MontyPowers(y8, y2, y, 160, 3);
    var y10 := MqMontymul(y9, y8);                  MontyPowers(y9, y8, y, 163, 160);
    var y11 := MqMontymul(y10, y10);                MontyPowers(y10, y10, y, 323, 323);
    var y12 := MqMontymul(y11, y11);                MontyPowers(y11, y11, y, 646, 646);
    var y13 := MqMontymul(y12, y9);                 MontyPowers(y12, y9, y, 1292, 163);
    var y14 := MqMontymul(y13, y13);                MontyPowers(y13, y13, y, 1455, 1455);
    var y15 := MqMontymul(y14, y14);                MontyPowers(y14, y14, y, 2910, 2910);
    var y16 := MqMontymul(y15, y10);                MontyPowers(y15, y10, y, 5820, 323);
    var y17 := MqMontymul(y16, y16);                MontyPowers(y16, y16, y, 6143, 6143);
    var y18 := MqMontymul(y17, y0);                 MontyPowers(y17, y0, y, 12286, 1);
    FromMonty(y18, x, y, e);
  }

  lemma FromMonty(z: residue, x: residue, y: int, e: nat)
    requires IsMontyPower(z, y, e)
    ensures Cong(MqMontymul(z, x), Pow(y, e) * x)
  {
    hide MqMontymul, Cong, Pow;
    LeaveMonty(MqMontymul(z, x), z, x, Pow(y, e));
  }

  lemma LeaveMonty(r: int, z: int, x: int, p: int)
    requires Cong(r * 65536, z * x) && Cong(z, p * 65536)
    ensures Cong(r, p * x)
  {
    hide *;
    CongMul(z, p * 65536, x);
    assert (p * 65536) * x == (p * x) * 65536;
    CongTrans(r * 65536, z * x, (p * x) * 65536);
    CancelR(r, p * x);
  }

  /** Division really divides: for a non-zero divisor, quotient times divisor is the dividend. */
  lemma MqDivIsDivision(x: residue, y: residue)
    requires y != 0
    ensures Cong(MqDiv12289(x, y) * y, x)
  {
    DivideWith(x, y, 12287, 12289);
  }

  lemma DivideWith(x: residue, y: residue, e: nat, p: nat)
    requires y != 0 && e == 12287 && IsModulus(p)
    ensures Cong(MqDiv12289(x, y) * y, x)
  {
    assert p - 1 == e + 1 && !Cong(y, 0);
    hide *;
    DivisionChain(x, y, e);
    Fermat(p, y);
    PowNext(y, e);
    QuotientTimesDivisor(MqDiv12289(x, y), Pow(y, e), x, y);
  }

  lemma QuotientTimesDivisor(d: int, w: int, x: int, y: int)
    requires Cong(d, w * x) && Cong(y * w, 1)
    ensures Cong(d * y, x)
  {
    hide *;
    CongMul(d, w * x, y);
    assert (w * x) * y == (y * w) * x;
    CongMul(y * w, 1, x);
    CongTrans(d * y, (y * w) * x, x);
  }

  lemma PowNext(y: int, e: nat)
    ensures Pow(y, e + 1) == y * Pow(y, e)
  {
  }
}
