/** Base32 without padding, as section 6 of RFC 4648 defines it: 5-bit groups of the bit stream. */
module Base32 {
  import opened Bits
  import opened Digits

  const ALPHABET: string := "ABCDEFGHIJKLMNOPQRSTUVWXYZ234567"

  function CharOf(i: int): (c: char)
    requires 0 <= i < 32
  {
    if i < 26 then 'A' + i as char else '2' + (i - 26) as char
  }

  predicate InAlphabet(c: char) {
    'A' <= c <= 'Z' || '2' <= c <= '7'
  }

  function IndexOf(c: char): (i: int)
    requires InAlphabet(c)
    ensures 0 <= i < 32 && CharOf(i) == c
  {
    if c <= '7' then (c - '2') as int + 26 else (c - 'A') as int
  }

  lemma AlphabetIsCharOf(i: int)
    requires 0 <= i < 32
    ensures |ALPHABET| == 32 && ALPHABET[i] == CharOf(i)
    ensures InAlphabet(CharOf(i)) && IndexOf(CharOf(i)) == i
  {
  }

  /** The eight bits of a byte, most significant first. */
  function ByteBits(b: uint8): (r: seq<int>)
    ensures |r| == 8 && AreDigits(r, 2)
    ensures Value(r, 2) == b
  {
    hide Value;
    var r := [b / 128, b / 64 % 2, b / 32 % 2, b / 16 % 2, b / 8 % 2, b / 4 % 2, b / 2 % 2, b % 2];
    EightBits(r);
    Halvings(b);
    r
  }

  lemma Halvings(b: nat)
    ensures b == b / 2 * 2 + b % 2 && b / 2 == b / 4 * 2 + b / 2 % 2 && b / 4 == b / 8 * 2 + b / 4 % 2
    ensures b / 8 == b / 16 * 2 + b / 8 % 2 && b / 16 == b / 32 * 2 + b / 16 % 2
    ensures b / 32 == b / 64 * 2 + b / 32 % 2 && b / 64 == b / 128 * 2 + b / 64 % 2
  {
    DivDiv(b, 2, 2);
    DivDiv(b, 4, 2);
    DivDiv(b, 8, 2);
    DivDiv(b, 16, 2);
    DivDiv(b, 32, 2);
    DivDiv(b, 64, 2);
  }

  lemma EightBits(r: seq<int>)
    requires |r| == 8
    ensures Value(r, 2) == ((((((r[0] * 2 + r[1]) * 2 + r[2]) * 2 + r[3]) * 2 + r[4]) * 2 + r[5]) * 2 + r[6]) * 2 + r[7]
  {
    assert Value(r[..0], 2) == 0;
    forall i | 0 <= i < 8 ensures Value(r[..i + 1], 2) == Value(r[..i], 2) * 2 + r[i] {
      assert r[..i + 1][..i] == r[..i];
    }
    assert r[..8] == r;
    hide Value;
    assert Value(r[..1], 2) == r[0];
    assert Value(r[..2], 2) == r[0] * 2 + r[1];
    assert Value(r[..3], 2) == (r[0] * 2 + r[1]) * 2 + r[2];
    assert Value(r[..4], 2) == ((r[0] * 2 + r[1]) * 2 + r[2]) * 2 + r[3];
  }

  /** The bit stream of a byte string. */
  function BitsOf(s: seq<uint8>): (r: seq<int>)
    ensures |r| == 8 * |s| && AreDigits(r, 2)
  {
    if s == [] then [] else BitsOf(s[..|s| - 1]) + ByteBits(s[|s| - 1])
  }

  lemma {:induction false} BitsOfValue(s: seq<uint8>)
    ensures Value(BitsOf(s), 2) == Value(s, 256)
  {
    if s == [] {
    } else {
      var t, b := s[..|s| - 1], s[|s| - 1];
      BitsOfValue(t);
      ValueConcat(BitsOf(t), ByteBits(b), 2);
      PowersOfTwo();
    }
  }

  lemma PowersOfTwo()
    ensures Power(2, 8) == 256 && Power(2, 5) == 32 && Power(2, 2) == 4
  {
  }

  lemma BitsOfLast(s: seq<uint8>, b: uint8)
    ensures BitsOf(s + [b]) == BitsOf(s) + ByteBits(b)
  {
    hide ByteBits;
    assert (s + [b])[..|s|] == s;
  }

  lemma {:induction false} BitsOfAppend(s: seq<uint8>, t: seq<uint8>)
    ensures BitsOf(s + t) == BitsOf(s) + BitsOf(t)
  {
    if t == [] {
      assert s + t == s;
    } else {
      hide BitsOf, ByteBits;
      var t', b := t[..|t| - 1], t[|t| - 1];
      BitsOfAppend(s, t');
      BitsOfLast(s + t', b);
      BitsOfLast(t', b);
      assert s + t == (s + t') + [b] && t == t' + [b];
      Regroup(BitsOf(s), BitsOf(t'), ByteBits(b));
    }
  }

  lemma Regroup(x: seq<int>, y: seq<int>, z: seq<int>)
    ensures x + (y + z) == (x + y) + z
  {
  }

  /** The values of the 5-bit groups of a bit string whose length is a multiple of five. */
  function Groups(s: seq<int>): (r: seq<int>)
    requires |s| % 5 == 0 && AreDigits(s, 2)
    ensures |r| == |s| / 5 && AreDigits(r, 32)
  {
    if s == [] then []
    else
      var t := s[|s| - 5..];
      ValueBound(t, 2);
      PowersOfTwo();
      Groups(s[..|s| - 5]) + [Value(t, 2)]
  }

  /** Regrouping does not change the number. */
  lemma {:induction false} GroupsValue(s: seq<int>)
    requires |s| % 5 == 0 && AreDigits(s, 2)
    ensures Value(Groups(s), 32) == Value(s, 2)
  {
    if s == [] {
    } else {
      var a, t := s[..|s| - 5], s[|s| - 5..];
      GroupsValue(a);
      assert s == a + t;
      ValueConcat(a, t, 2);
      PowersOfTwo();
      ValueAppend(Groups(a), Value(t, 2), 32);
    }
  }

  /** Cutting between groups cuts the groups. */
  lemma {:induction false} GroupsSplit(s: seq<int>, t: seq<int>)
    requires |s| % 5 == 0 && |t| % 5 == 0 && AreDigits(s, 2) && AreDigits(t, 2)
    ensures AreDigits(s + t, 2) && Groups(s + t) == Groups(s) + Groups(t)
  {
    if t == [] {
      assert s + t == s;
    } else {
      var t', u := t[..|t| - 5], t[|t| - 5..];
      GroupsSplit(s, t');
      assert (s + t)[..|s + t| - 5] == s + t' && (s + t)[|s + t| - 5..] == u;
      assert Groups(s) + (Groups(t') + [Value(u, 2)]) == (Groups(s) + Groups(t')) + [Value(u, 2)];
    }
  }

  /** The zero bits that complete the last group. */
  function PadBits(n: nat): (r: seq<int>)
    ensures (n + |r|) % 5 == 0 && |r| < 5 && AreDigits(r, 2)
  {
    seq((5 - n % 5) % 5, _ => 0)
  }

  /** The alphabet indices of the encoding. */
  function Indices(s: seq<uint8>): (r: seq<int>)
    ensures AreDigits(r, 32) && |r| == (8 * |s| + 4) / 5
  {
    Groups(BitsOf(s) + PadBits(8 * |s|))
  }

  function Letters(r: seq<int>): (s: string)
    requires AreDigits(r, 32)
    ensures |s| == |r|
  {
    seq(|r|, i requires 0 <= i < |r| => CharOf(r[i]))
  }

  function Encode(s: seq<uint8>): (r: string)
    ensures |r| == (8 * |s| + 4) / 5
  {
    Letters(Indices(s))
  }

  /** The encoding's indices are the number of the bytes, shifted by the bits of padding. */
  lemma IndicesValue(s: seq<uint8>)
    ensures Value(Indices(s), 32) == Value(s, 256) * Power(2, |PadBits(8 * |s|)|)
  {
    hide BitsOf, Groups, Value, Power, AreDigits;
    var b, z := BitsOf(s), PadBits(8 * |s|);
    DigitsJoin(b, z);
    BitsOfValue(s);
    GroupsValue(b + z);
    ValueConcat(b, z, 2);
    ZerosValue(z, 2);
  }

  lemma {:induction false} ZerosValue(z: seq<int>, base: nat)
    requires forall i :: 0 <= i < |z| ==> z[i] == 0
    ensures Value(z, base) == 0
  {
    if z == [] {
    } else {
      ZerosValue(z[..|z| - 1], base);
    }
  }

  /** A string of alphabet characters as digits. */
  function DigitsOf(s: string): (r: seq<int>)
    requires forall c :: c in s ==> InAlphabet(c)
    ensures |r| == |s| && AreDigits(r, 32)
  {
    seq(|s|, i requires 0 <= i < |s| => IndexOf(s[i]))
  }

  /** Equal letters are equal digits. */
  lemma LettersMatch(r: seq<int>, s: string)
    requires AreDigits(r, 32) && forall c :: c in s ==> InAlphabet(c)
    ensures Letters(r) == s <==> r == DigitsOf(s)
  {
    forall i | 0 <= i < |r| ensures InAlphabet(CharOf(r[i])) && IndexOf(CharOf(r[i])) == r[i] {
      AlphabetIsCharOf(r[i]);
    }
    if Letters(r) == s {
      forall i | 0 <= i < |r| ensures r[i] == DigitsOf(s)[i] {
        assert Letters(r)[i] == s[i];
      }
    }
    if r == DigitsOf(s) {
      forall i | 0 <= i < |r| ensures Letters(r)[i] == s[i] {
        assert DigitsOf(s)[i] == IndexOf(s[i]);
      }
    }
  }

  lemma GroupsHead(b: seq<int>, p: nat)
    requires |b| % 5 == 0 && AreDigits(b, 2) && 5 * p <= |b|
    ensures Groups(b)[..p] == Groups(b[..5 * p])
  {
    hide Groups;
    assert b == b[..5 * p] + b[5 * p..];
    GroupsSplit(b[..5 * p], b[5 * p..]);
  }

  lemma GroupsLength(s: seq<int>)
    requires |s| % 5 == 0 && AreDigits(s, 2)
    ensures 5 * |Groups(s)| == |s|
  {
    hide Groups;
  }

  lemma DigitsJoin(s: seq<int>, t: seq<int>)
    requires AreDigits(s, 2) && AreDigits(t, 2)
    ensures AreDigits(s + t, 2)
  {
  }

  lemma DigitsCut(s: seq<int>, lo: nat, hi: nat)
    requires lo <= hi <= |s| && AreDigits(s, 2)
    ensures AreDigits(s[lo..hi], 2)
  {
  }

  lemma GroupsTail(x: seq<int>, y: seq<int>, lo: nat)
    requires |x| == 5 * lo && |y| % 5 == 0 && AreDigits(x, 2) && AreDigits(y, 2)
    ensures AreDigits(x + y, 2) && lo <= |Groups(x + y)| && Groups(x + y)[lo..] == Groups(y)
  {
    hide Groups;
    GroupsSplit(x, y);
    GroupsLength(x);
  }

  /** Cutting a run of groups out of the encoding cuts their bits. */
  lemma GroupsSlice(f: seq<int>, lo: nat, hi: nat)
    requires lo <= hi && 5 * hi <= |f| && |f| % 5 == 0 && AreDigits(f, 2)
    ensures AreDigits(f[5 * lo..5 * hi], 2) && hi <= |Groups(f)|
    ensures Groups(f)[lo..hi] == Groups(f[5 * lo..5 * hi])
  {
    hide Groups, AreDigits;
    var h, x, y := f[..5 * hi], f[..5 * lo], f[5 * lo..5 * hi];
    DigitsCut(f, 0, 5 * hi);
    DigitsCut(f, 0, 5 * lo);
    DigitsCut(f, 5 * lo, 5 * hi);
    GroupsLength(f);
    GroupsHead(f, hi);
    assert h == x + y;
    GroupsTail(x, y, lo);
    assert Groups(f)[lo..hi] == Groups(f)[..hi][lo..];
  }

  lemma LettersSlice(r: seq<int>, lo: nat, hi: nat)
    requires lo <= hi <= |r| && AreDigits(r, 32)
    ensures AreDigits(r[lo..hi], 32) && Letters(r)[lo..hi] == Letters(r[lo..hi])
  {
    hide CharOf;
  }

  lemma EncodedSlice(f: seq<int>, lo: nat, hi: nat)
    requires lo <= hi && 5 * hi <= |f| && |f| % 5 == 0 && AreDigits(f, 2)
    ensures AreDigits(f[5 * lo..5 * hi], 2) && hi <= |Groups(f)|
    ensures Letters(Groups(f))[lo..hi] == Letters(Groups(f[5 * lo..5 * hi]))
  {
    hide Groups, AreDigits, Letters;
    GroupsSlice(f, lo, hi);
    LettersSlice(Groups(f), lo, hi);
  }

  /** The first 5·p bits of a byte string's bit stream. */
  ghost function HeadBits(s: seq<uint8>, p: nat): (b: seq<int>)
    requires 5 * p <= 8 * |s|
    ensures |b| == 5 * p && AreDigits(b, 2)
  {
    hide BitsOf, AreDigits;
    DigitsCut(BitsOf(s), 0, 5 * p);
    BitsOf(s)[..5 * p]
  }

  lemma IndicesHead(s: seq<uint8>, p: nat)
    requires 5 * p <= 8 * |s|
    ensures p <= |Indices(s)| && Indices(s)[..p] == Groups(HeadBits(s, p))
  {
    hide BitsOf, Groups, PadBits, AreDigits;
    var z := PadBits(8 * |s|);
    DigitsJoin(BitsOf(s), z);
    var b := BitsOf(s) + z;
    GroupsHead(b, p);
    assert b[..5 * p] == BitsOf(s)[..5 * p];
  }

  /** Characters wholly inside the first bytes do not depend on the bytes that follow. */
  lemma EncodePrefix(s: seq<uint8>, t: seq<uint8>, p: nat)
    requires 5 * p <= 8 * |s|
    ensures p <= |Encode(s)| && p <= |Encode(s + t)| && Encode(s + t)[..p] == Encode(s)[..p]
  {
    hide Indices, BitsOf, Groups, CharOf;
    BitsOfAppend(s, t);
    assert HeadBits(s + t, p) == HeadBits(s, p);
    IndicesHead(s, p);
    IndicesHead(s + t, p);
    var u, v := Indices(s), Indices(s + t);
    assert forall i :: 0 <= i < p ==> u[i] == u[..p][i] && v[i] == v[..p][i];
  }
}
