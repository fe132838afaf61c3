/** Bytes repacked as 11-bit values and back: the same number in another base. */
module Repack {
  import opened Bits
  import opened Digits

  type word11 = x: int | 0 <= x < 2048

  // ----- repacking -----

  /** The written digits and the pending bits make the number read so far. */
  ghost predicate Repacked(out: seq<int>, base: nat, buffer: int, bits: nat, v: int)
    requires base >= 1
  {
    0 <= buffer < Pow2(bits) && Little(out, base) + Power(base, |out|) * buffer == v
  }

  /** Or-ing a value in above the pending bits. */
  lemma TakeIn(out: seq<int>, base: nat, buffer: nat, bits: nat, v: int, x: nat, w: nat, unit: int)
    requires base >= 1 && Repacked(out, base, buffer, bits, v) && x < Pow2(w) && bits + w <= 32
    requires unit == Power(base, |out|) * Pow2(bits)
    ensures x * Pow2(bits) >= 0 && x * Pow2(bits) < 0x1_0000_0000
    ensures Repacked(out, base, Or(buffer, x * Pow2(bits)), bits + w, v + unit * x)
  {
    hide Or, Power, Little;
    Pow2Add(bits, w);
    Pow2Monotonic(bits + w, 32);
    Pow2Is32();
    OrDisjoint(buffer, x, bits);
    hide Pow2;
    TakeInBound(buffer, x, Pow2(bits), Pow2(w));
    TakeInAlgebra(Power(base, |out|), buffer, x, Pow2(bits));
  }

  lemma TakeInBound(buffer: int, x: int, p: int, q: int)
    requires 0 <= buffer < p && 0 <= x < q
    ensures 0 <= x * p && buffer + x * p < p * q
  {
    MulLe(p, x + 1, q);
    MulLe(p, 0, x);
  }

  lemma TakeInAlgebra(b: int, buffer: int, x: int, p: int)
    ensures b * (buffer + x * p) == b * buffer + (b * p) * x
  {
  }

  /** Moving the low digit out of the pending bits. */
  lemma PutOut(out: seq<int>, base: nat, buffer: nat, bits: nat, v: int, w: nat)
    requires base >= 1 && Repacked(out, base, buffer, bits, v) && base == Pow2(w) && w <= bits
    ensures Repacked(out + [buffer % base], base, buffer / base, bits - w, v)
  {
    hide Power, Little;
    LittleAppend(out, buffer % base, base);
    PowerNext(base, |out|);
    Pow2Add(w, bits - w);
    hide Pow2;
    DivBound(buffer, base, Pow2(bits - w));
    PutOutAlgebra(Power(base, |out|), buffer, base);
  }

  lemma PutOutAlgebra(b: int, buffer: int, base: int)
    requires base >= 1
    ensures b * buffer == b * (buffer % base) + (base * b) * (buffer / base)
  {
    var d, m := buffer / base, buffer % base;
    assert buffer == base * d + m;
    assert b * (base * d + m) == b * m + (base * b) * d;
  }

  lemma Sizes()
    ensures Pow2(8) == 256 && Pow2(11) == 2048
  {
  }

  /** Both packings have the same weight at the read position. */
  lemma SameWeight(written: nat, bits: nat, read: nat, outWidth: nat, outBase: nat, inWidth: nat, inBase: nat)
    requires outBase == Pow2(outWidth) && inBase == Pow2(inWidth)
    requires outWidth * written + bits == inWidth * read
    ensures Power(outBase, written) * Pow2(bits) == Power(inBase, read)
  {
    hide Pow2, Power;
    var out, total := outWidth * written, inWidth * read;
    PowerOfPow2(outWidth, outBase, written, out);
    PowerOfPow2(inWidth, inBase, read, total);
    Pow2Add(out, bits);
  }

  /** One iteration's intake, for either packer: the number now covers one more input digit. */
  lemma TakeDigit(out: seq<int>, outWidth: nat, outBase: nat, buffer: nat, bits: nat,
                  s: seq<int>, i: nat, inWidth: nat, inBase: nat)
    requires outBase == Pow2(outWidth) && inBase == Pow2(inWidth) && i < |s| && AreDigits(s, inBase)
    requires outWidth * |out| + bits == inWidth * i && bits + inWidth <= 32
    requires Repacked(out, outBase, buffer, bits, Little(s[..i], inBase))
    ensures s[i] * Pow2(bits) >= 0 && s[i] * Pow2(bits) < 0x1_0000_0000
    ensures Repacked(out, outBase, Or(buffer, s[i] * Pow2(bits)), bits + inWidth, Little(s[..i + 1], inBase))
  {
    hide Or, Power, Little, Pow2, Repacked;
    SameWeight(|out|, bits, i, outWidth, outBase, inWidth, inBase);
    TakeIn(out, outBase, buffer, bits, Little(s[..i], inBase), s[i], inWidth, Power(inBase, i));
    assert s[..i + 1] == s[..i] + [s[i]];
    LittleAppend(s[..i], s[i], inBase);
  }

  /** The number of digits of a width that hold n bits. */
  function DigitCount(n: nat, width: nat): nat
    requires width >= 1
  {
    (n + width - 1) / width
  }

  /** The bytes' number, least significant byte first, in 11-bit digits. */
  ghost function Packed(bytes: seq<uint8>): (r: seq<nat>)
    ensures |r| == DigitCount(8 * |bytes|, 11) && AreDigits(r, 2048)
  {
    LittleRange(bytes, 256);
    ToDigits(Little(bytes, 256), 2048, DigitCount(8 * |bytes|, 11))
  }

  /** The values' number in bytes. */
  ghost function Unpacked(vals: seq<word11>): (r: seq<nat>)
    ensures |r| == DigitCount(11 * |vals|, 8) && AreDigits(r, 256)
  {
    LittleRange(vals, 2048);
    ToDigits(Little(vals, 2048), 256, DigitCount(11 * |vals|, 8))
  }

  /** `to_uint11_array`: the same number in base 2048. */
  method ToUint11Array(bytes: seq<uint8>) returns (out: seq<word11>)
    ensures out == Packed(bytes)
  {
    Sizes();
    hide Little, Power, Pow2, Or, Repacked;
    out := [];
    var buffer: nat, bits := 0, 0;
    NothingRead(bytes, 256, 2048);
    for i := 0 to |bytes|
      invariant bits <= 10 && 11 * |out| + bits == 8 * i
      invariant Repacked(out, 2048, buffer, bits, Little(bytes[..i], 256))
    {
      TakeDigit(out, 11, 2048, buffer, bits, bytes, i, 8, 256);
      buffer := Or(buffer, bytes[i] * Pow2(bits));
      bits := bits + 8;
      if bits >= 11 {
        PutOut(out, 2048, buffer, bits, Little(bytes[..i + 1], 256), 11);
        out := out + [buffer % 2048];
        buffer := buffer / 2048;
        bits := bits - 11;
      }
    }
    assert bytes[..|bytes|] == bytes;
    LastDigitOut(out, 2048, buffer, bits, 11, Little(bytes, 256));
    if bits != 0 {
      out := out + [buffer % 2048];
    }
    DigitsOfLittle(out, 2048);
  }

  /** `to_byte_array`: the same number in base 256. */
  method ToByteArray(vals: seq<word11>) returns (out: seq<uint8>)
    ensures out == Unpacked(vals)
  {
    Sizes();
    hide Little, Power, Pow2, Or, Repacked;
    out := [];
    var buffer: nat, bits := 0, 0;
    NothingRead(vals, 2048, 256);
    for i := 0 to |vals|
      invariant bits <= 7 && 8 * |out| + bits == 11 * i
      invariant Repacked(out, 256, buffer, bits, Little(vals[..i], 2048))
    {
      TakeDigit(out, 8, 256, buffer, bits, vals, i, 11, 2048);
      buffer := Or(buffer, vals[i] * Pow2(bits));
      bits := bits + 11;
      while bits >= 8
        invariant 8 * |out| + bits == 11 * (i + 1)
        invariant Repacked(out, 256, buffer, bits, Little(vals[..i + 1], 2048))
      {
        PutOut(out, 256, buffer, bits, Little(vals[..i + 1], 2048), 8);
        out := out + [buffer % 256];
        buffer := buffer / 256;
        bits := bits - 8;
      }
    }
    assert vals[..|vals|] == vals;
    LastDigitOut(out, 256, buffer, bits, 8, Little(vals, 2048));
    if bits != 0 {
      out := out + [buffer % 256];
    }
    DigitsOfLittle(out, 256);
  }

  lemma NothingRead(s: seq<int>, inBase: nat, outBase: nat)
    requires inBase >= 1 && outBase >= 1
    ensures s[..0] == [] && Repacked([], outBase, 0, 0, Little(s[..0], inBase))
  {
  }

  lemma LastDigitOut(out: seq<int>, base: nat, buffer: nat, bits: nat, w: nat, v: int)
    requires base == Pow2(w) && bits < w && Repacked(out, base, buffer, bits, v)
    ensures bits == 0 ==> Little(out, base) == v
    ensures bits != 0 ==> Little(out + [buffer % base], base) == v
  {
    Pow2Monotonic(bits, w);
    hide Power, Little;
    LittleAppend(out, buffer % base, base);
    if bits == 0 {
      assert Pow2(0) == 1;
      assert Power(base, |out|) * 0 == 0;
    } else {
      SmallMod(buffer, base);
    }
  }

  /** Eleven-bit digits hold every bit of the bytes. */
  lemma PackedValue(bytes: seq<uint8>)
    ensures Little(Packed(bytes), 2048) == Little(bytes, 256)
  {
    hide Little, Power, Pow2, ToDigits;
    var n, count := |bytes|, DigitCount(8 * |bytes|, 11);
    LittleRange(bytes, 256);
    Sizes();
    PowerOfPow2(8, 256, n, 8 * n);
    PowerOfPow2(11, 2048, count, 11 * count);
    Pow2Monotonic(8 * n, 11 * count);
    LittleOfDigits(Little(bytes, 256), 2048, count);
  }

  /** Packing then unpacking gives the bytes back, followed by nothing but zeros. */
  lemma UnpackedOfPacked(bytes: seq<uint8>)
    ensures |Unpacked(Packed(bytes))| >= |bytes|
    ensures Unpacked(Packed(bytes)) == bytes + seq(|Unpacked(Packed(bytes))| - |bytes|, _ => 0)
  {
    hide Little, ToDigits;
    PackedValue(bytes);
    var extra := |Unpacked(Packed(bytes))| - |bytes|;
    LittleZeros(bytes, extra, 256);
    DigitsOfLittle(bytes + seq(extra, _ => 0), 256);
  }

  /** 33 bytes unpacked from 24 values, the last of them zero, pack to the values again. */
  lemma PackedOfUnpacked(vals: seq<word11>)
    requires |vals| == 24 && Unpacked(vals)[32] == 0
    ensures Packed(Unpacked(vals)[..32]) == vals
  {
    hide Little, ToDigits, Power, Pow2;
    var bytes := Unpacked(vals)[..32];
    Room(vals);
    assert Unpacked(vals) == bytes + seq(1, _ => 0);
    LittleZeros(bytes, 1, 256);
    DigitsOfLittle(vals, 2048);
  }

  lemma Room(vals: seq<word11>)
    requires |vals| == 24
    ensures Little(Unpacked(vals), 256) == Little(vals, 2048)
  {
    hide Little, Power, Pow2, ToDigits;
    LittleRange(vals, 2048);
    Sizes();
    PowerOfPow2(11, 2048, 24, 264);
    PowerOfPow2(8, 256, 33, 264);
    LittleOfDigits(Little(vals, 2048), 256, 33);
  }
}
