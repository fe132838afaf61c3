/** Search targets: string patterns, their bit-mask form, and the matchers on both. */
module Targets {
  import opened Bits
  import opened Digits
  import opened Base32
  import opened Address

  datatype Target = Target(prefix: string, suffix: string)

  const LAST_CHARS: string := "AEIMQUY4"

  predicate AllInAlphabet(s: string) {
    forall c :: c in s ==> InAlphabet(c)
  }

  /** What `TargetSet::parse` demands of a pattern. */
  predicate ValidTarget(t: Target) {
    && AllInAlphabet(t.prefix) && AllInAlphabet(t.suffix)
    && (t.prefix != "" || t.suffix != "")
    && (t.suffix != "" ==> t.suffix[|t.suffix| - 1] in LAST_CHARS)
    && |t.prefix| + |t.suffix| <= 58
  }

  predicate FitsDevice(t: Target) {
    ValidTarget(t) && |t.prefix| <= 12 && |t.suffix| <= 13
  }

  predicate StartsWith(s: string, p: string) {
    |p| <= |s| && s[..|p|] == p
  }

  predicate EndsWith(s: string, p: string) {
    |p| <= |s| && s[|s| - |p|..] == p
  }

  /** `matches_display`. */
  predicate MatchesDisplay(t: Target, display: string) {
    StartsWith(display, t.prefix) && EndsWith(display, t.suffix)
  }

  lemma LastChars(c: char)
    ensures c in LAST_CHARS <==> InAlphabet(c) && IndexOf(c) % 4 == 0
  {
  }

  /** Only suffixes that end in one of the last characters can ever match. */
  lemma ImpossibleSuffix(s: string, a: addr32)
    requires s != "" && EndsWith(Display(a), s)
    ensures s[|s| - 1] in LAST_CHARS
  {
    LastCharacter(a);
    hide Display;
    assert Display(a)[57] == Display(a)[58 - |s|..][|s| - 1];
    LastChars(s[|s| - 1]);
  }

  /** Every cut of an address's own display string is a valid pattern, and matches it. */
  lemma OwnPattern(a: addr32, k: nat)
    requires k <= 58
    ensures ValidTarget(Target(Display(a)[..k], Display(a)[k..]))
    ensures MatchesDisplay(Target(Display(a)[..k], Display(a)[k..]), Display(a))
  {
    var d := Display(a);
    forall i | 0 <= i < 58 ensures InAlphabet(d[i]) {
      AlphabetIsCharOf(Indices(a + Checksum(a))[i]);
    }
    hide Display;
    if k < 58 {
      assert d[k..][|d[k..]| - 1] == d[57];
      assert EndsWith(d, d[k..]);
      ImpossibleSuffix(d[k..], a);
    }
  }

  // ----- the bit-mask form -----

  datatype Words = Words(pmask: uint64, pval: uint64, smask: uint64, sval: uint64)

  /** The pattern's 5-bit indices shifted together in a 128-bit word. */
  function FoldBits(s: string): nat
    requires AllInAlphabet(s)
  {
    if s == "" then 0
    else Or((FoldBits(s[..|s| - 1]) * 32) % 0x1_0000_0000_0000_0000_0000_0000_0000_0000, IndexOf(s[|s| - 1]))
  }

  lemma {:induction false} FoldBitsValue(s: string)
    requires AllInAlphabet(s) && |s| <= 25
    ensures FoldBits(s) == Value(DigitsOf(s), 32)
  {
    if s == "" {
    } else {
      var t, i := s[..|s| - 1], IndexOf(s[|s| - 1]);
      FoldBitsValue(t);
      assert DigitsOf(s) == DigitsOf(t) + [i];
      ValueAppend(DigitsOf(t), i, 32);
      ValueBound(DigitsOf(t), 32);
      FoldStep(Value(DigitsOf(t), 32), i, |t|);
    }
  }

  lemma FoldStep(v: nat, i: nat, n: nat)
    requires v < Power(32, n) && n <= 24 && i < 32
    ensures Or((v * 32) % 0x1_0000_0000_0000_0000_0000_0000_0000_0000, i) == v * 32 + i
  {
    FitsIn128(n);
    PowerMonotonic(32, n, 24);
    hide Power, Or;
    SmallMod(v * 32, 0x1_0000_0000_0000_0000_0000_0000_0000_0000);
    assert Pow2(5) == 32;
    OrDisjoint(i, v, 5);
    OrCommutes(i, v * 32);
  }

  lemma FitsIn128(n: nat)
    ensures Power(32, 24) * 32 < 0x1_0000_0000_0000_0000_0000_0000_0000_0000
  {
    assert Power(32, 6) == 0x4000_0000;
    assert Power(32, 12) == 0x1000_0000_0000_0000;
    assert Power(32, 18) == 0x400_0000_0000_0000_0000_0000;
    assert Power(32, 24) == 0x100_0000_0000_0000_0000_0000_0000_0000;
  }

  lemma {:induction false} PowerMonotonic(base: nat, m: nat, n: nat)
    requires base >= 1 && m <= n
    ensures Power(base, m) <= Power(base, n)
    decreases n
  {
    if m == n {
    } else {
      PowerMonotonic(base, m, n - 1);
      MulLe(Power(base, n - 1), 1, base);
    }
  }

  /** `u64::MAX << n`. */
  function HighOnes(n: nat): uint64
    requires n < 64
  {
    0xFFFF_FFFF_FFFF_FFFF * Pow2(n) % 0x1_0000_0000_0000_0000
  }

  /** `device_words`. */
  function DeviceWords(t: Target): Words
    requires FitsDevice(t)
  {
    var p, s := |t.prefix|, |t.suffix|;
    var (pmask, pval) :=
      if p > 0 then
        (HighOnes(64 - 5 * p),
         FoldBits(t.prefix) % 0x1_0000_0000_0000_0000 * Pow2(64 - 5 * p) % 0x1_0000_0000_0000_0000)
      else (0, 0);
    var (smask, sval) :=
      if s > 0 then ((Pow2(5 * s - 2) - 1) % 0x1_0000_0000_0000_0000, FoldBits(t.suffix) / 4 % 0x1_0000_0000_0000_0000)
      else (0, 0);
    Words(pmask, pval, smask, sval)
  }

  predicate MaskMatch(w: Words, hi: uint64, lo: uint64) {
    And(hi, w.pmask) == w.pval && And(lo, w.smask) == w.sval
  }

  /** The first eight bytes and the last eight of address plus checksum, as 64-bit numbers. */
  function Hi(a: addr32): (r: uint64) {
    NonNegativeValue(a[..8]);
    Value(a[..8], 256)
  }

  function Lo(a: addr32): (r: uint64) {
    NonNegativeValue(a[28..] + Checksum(a));
    Value(a[28..] + Checksum(a), 256)
  }

  lemma NonNegativeValue(s: seq<uint8>)
    ensures Value(s, 256) >= 0
    ensures |s| == 8 ==> Value(s, 256) < 0x1_0000_0000_0000_0000
  {
    ValueBound(s, 256);
    assert Power(256, 4) == 0x1_0000_0000;
    assert Power(256, 8) == 0x1_0000_0000_0000_0000;
  }

  lemma PowerOfTwo(n: nat)
    ensures Power(2, n) == Pow2(n)
  {
    assert Pow2(1) == 2;
    PowerOfPow2(1, 2, n, n);
  }

  lemma PowerOf32(n: nat)
    ensures Power(32, n) == Pow2(5 * n)
  {
    assert Pow2(5) == 32;
    PowerOfPow2(5, 32, n, 5 * n);
  }

  lemma FoldBound(s: string)
    requires AllInAlphabet(s) && |s| <= 25
    ensures FoldBits(s) < Pow2(5 * |s|)
  {
    hide FoldBits, Power, Pow2, Value;
    FoldBitsValue(s);
    ValueBound(DigitsOf(s), 32);
    PowerOf32(|s|);
  }

  lemma HighOnesIsHighMask(n: nat)
    requires n < 64
    ensures HighOnes(n) == HighMask(64, n)
  {
    Pow2Is64();
    Pow2Monotonic(n, 63);
    assert Pow2(63) < Pow2(64);
    hide Pow2;
    var p := Pow2(n);
    DivModUnique(0xFFFF_FFFF_FFFF_FFFF * p, 0x1_0000_0000_0000_0000, p - 1, 0x1_0000_0000_0000_0000 - p);
  }

  lemma HighMasked(hi: nat, v: nat, w: nat, k: nat)
    requires k < 64 && hi < Pow2(64) && hi == v * Pow2(k) + w && w < Pow2(k)
    ensures And(hi, HighOnes(k)) == v * Pow2(k)
  {
    hide And, HighOnes, HighMask, Pow2;
    HighOnesIsHighMask(k);
    AndHighMask(hi, 64, k);
    DivModUnique(hi, Pow2(k), v, w);
  }

  lemma ShiftedPattern(f: nat, k: nat)
    requires k < 64 && f < Pow2(64 - k)
    ensures f % 0x1_0000_0000_0000_0000 * Pow2(k) % 0x1_0000_0000_0000_0000 == f * Pow2(k)
  {
    Pow2Is64();
    Pow2Monotonic(64 - k, 64);
    Pow2Add(64 - k, k);
    hide Pow2;
    SmallMod(f, 0x1_0000_0000_0000_0000);
    ShiftedFits(f, Pow2(k), Pow2(64 - k));
    SmallMod(f * Pow2(k), 0x1_0000_0000_0000_0000);
  }

  /** Masking the high part and comparing with a shifted value compares the quotients. */
  lemma HighCompare(hi: nat, v: nat, w: nat, f: nat, k: nat)
    requires k < 64 && hi < Pow2(64) && hi == v * Pow2(k) + w && w < Pow2(k) && f < Pow2(64 - k)
    ensures And(hi, HighOnes(k)) == f % 0x1_0000_0000_0000_0000 * Pow2(k) % 0x1_0000_0000_0000_0000 <==> v == f
  {
    hide *;
    HighMasked(hi, v, w, k);
    ShiftedPattern(f, k);
    SameMultiple(v, f, Pow2(k));
  }

  lemma ShiftedFits(f: nat, p: nat, r: nat)
    requires f < r && p >= 1
    ensures 0 <= f * p < r * p
  {
    MulLe(p, f + 1, r);
    MulLe(p, 0, f);
  }

  lemma SameMultiple(v: int, f: int, p: int)
    requires p >= 1
    ensures v * p == f * p <==> v == f
  {
    if v * p == f * p {
      DivModUnique(v * p, p, v, 0);
      DivModUnique(v * p, p, f, 0);
    }
  }

  /** Comparing a run of 5-bit groups with a pattern is comparing their numbers. */
  lemma GroupsCompare(b: seq<int>, s: string)
    requires AreDigits(b, 2) && |b| == 5 * |s| && AllInAlphabet(s) && |s| <= 25
    ensures Letters(Groups(b)) == s <==> Value(b, 2) == FoldBits(s)
  {
    hide FoldBits, Value, Groups, Letters, DigitsOf;
    var g := Groups(b);
    GroupsValue(b);
    FoldBitsValue(s);
    LettersMatch(g, s);
    if Value(b, 2) == FoldBits(s) {
      ValueInjective(g, DigitsOf(s), 32);
    }
  }

  lemma HiBits(a: addr32)
    ensures AreDigits(BitsOf(a + Checksum(a))[..64], 2)
    ensures Hi(a) == Value(BitsOf(a + Checksum(a))[..64], 2)
  {
    hide Checksum, BitsOf, Value;
    var s := a + Checksum(a);
    assert s == a[..8] + s[8..];
    BitsOfAppend(a[..8], s[8..]);
    assert BitsOf(s)[..64] == BitsOf(a[..8]);
    BitsOfValue(a[..8]);
  }

  lemma LoBits(a: addr32)
    ensures AreDigits(BitsOf(a + Checksum(a))[224..], 2)
    ensures Lo(a) == Value(BitsOf(a + Checksum(a))[224..], 2)
  {
    hide Checksum, BitsOf, Value;
    var s, t := a[..28], a[28..] + Checksum(a);
    assert a + Checksum(a) == s + t;
    BitsOfAppend(s, t);
    assert BitsOf(s + t)[224..] == BitsOf(t);
    BitsOfValue(t);
  }

  /** The bits behind the display string. */
  ghost function Stream(a: addr32): (f: seq<int>)
    ensures |f| == 290 && AreDigits(f, 2)
  {
    hide Checksum, BitsOf, AreDigits;
    assert AreDigits([0, 0], 2) by { ZerosAreDigits(); }
    DigitsJoin(BitsOf(a + Checksum(a)), [0, 0]);
    BitsOf(a + Checksum(a)) + [0, 0]
  }

  lemma ZerosAreDigits()
    ensures AreDigits([0, 0], 2)
  {
  }

  /** The bits behind characters lo..hi. */
  ghost function StreamPart(a: addr32, lo: nat, hi: nat): (f: seq<int>)
    requires lo <= hi <= 58
    ensures |f| == 5 * (hi - lo) && AreDigits(f, 2)
  {
    hide Stream, AreDigits;
    DigitsCut(Stream(a), 5 * lo, 5 * hi);
    Stream(a)[5 * lo..5 * hi]
  }

  lemma DisplayPart(a: addr32, d: string, f: seq<int>, lo: nat, hi: nat)
    requires lo <= hi <= 58 && d == Display(a) && f == StreamPart(a, lo, hi)
    ensures |d| == 58 && |f| % 5 == 0 && AreDigits(f, 2)
    ensures d[lo..hi] == Letters(Groups(f))
  {
    hide Stream, Groups, Letters, Display, AreDigits;
    DisplayIsLetters(a);
    EncodedSlice(Stream(a), lo, hi);
  }

  lemma DisplayIsLetters(a: addr32)
    ensures Display(a) == Letters(Groups(Stream(a)))
  {
    hide Checksum, BitsOf, Groups, Letters, Display;
    DisplayBits(a);
  }

  lemma StreamParts(a: addr32)
    ensures Hi(a) == Value(Stream(a)[..64], 2) && Hi(a) < Pow2(64)
    ensures Lo(a) == Value(Stream(a)[224..288], 2)
  {
    hide Checksum, BitsOf, Value, Pow2, Hi, Lo;
    HiBits(a);
    LoBits(a);
    HiFits(a);
    var b := BitsOf(a + Checksum(a));
    assert Stream(a)[..64] == b[..64];
    assert Stream(a)[224..288] == b[224..];
  }

  lemma HiFits(a: addr32)
    ensures Hi(a) < Pow2(64)
  {
    hide Value, Pow2;
    NonNegativeValue(a[..8]);
    Pow2Is64();
  }

  lemma StreamPadding(a: addr32)
    ensures Stream(a) == Stream(a)[..288] + [0, 0]
  {
    hide Checksum, BitsOf;
  }

  lemma PrefixWords(t: Target)
    requires FitsDevice(t) && t.prefix != ""
    ensures DeviceWords(t).pmask == HighOnes(64 - 5 * |t.prefix|)
    ensures DeviceWords(t).pval
         == FoldBits(t.prefix) % 0x1_0000_0000_0000_0000 * Pow2(64 - 5 * |t.prefix|) % 0x1_0000_0000_0000_0000
  {
    hide FoldBits, Pow2, HighOnes;
  }

  lemma SuffixWords(t: Target)
    requires FitsDevice(t) && t.suffix != ""
    ensures DeviceWords(t).smask == (Pow2(5 * |t.suffix| - 2) - 1) % 0x1_0000_0000_0000_0000
    ensures DeviceWords(t).sval == FoldBits(t.suffix) / 4 % 0x1_0000_0000_0000_0000
  {
    hide FoldBits, Pow2, HighOnes;
  }

  lemma EmptyWords(t: Target)
    requires FitsDevice(t)
    ensures t.prefix == "" ==> DeviceWords(t).pmask == 0 && DeviceWords(t).pval == 0
    ensures t.suffix == "" ==> DeviceWords(t).smask == 0 && DeviceWords(t).sval == 0
    ensures t.suffix != "" ==> DeviceWords(t).smask != 0
  {
    hide FoldBits, Pow2, HighOnes;
    if t.suffix != "" {
      SuffixSizes(|t.suffix|);
      Pow2Monotonic(1, 5 * |t.suffix| - 2);
      assert Pow2(1) == 2 by { PowTwoOne(); }
      SmallMod(Pow2(5 * |t.suffix| - 2) - 1, 0x1_0000_0000_0000_0000);
    }
  }

  lemma PowTwoOne()
    ensures Pow2(1) == 2
  {
  }

  /** The prefix half of the mask form. */
  lemma PrefixMask(t: Target, a: addr32)
    requires FitsDevice(t)
    ensures And(Hi(a), DeviceWords(t).pmask) == DeviceWords(t).pval <==> StartsWith(Display(a), t.prefix)
  {
    hide Stream, Groups, Letters, Display, Value, FoldBits, Pow2, And, HighOnes, DeviceWords, Hi, Lo;
    var p := |t.prefix|;
    EmptyWords(t);
    if p == 0 {
      AndZero(Hi(a));
    } else {
      DisplayPart(a, Display(a), StreamPart(a, 0, p), 0, p);
      StreamParts(a);
      FoldBound(t.prefix);
      PrefixWords(t);
      var b := Stream(a)[..288];
      assert b[..64] == Stream(a)[..64];
      PrefixBits(b, p, Hi(a), t.prefix);
      assert StreamPart(a, 0, p) == b[..5 * p];
      GroupsCompare(b[..5 * p], t.prefix);
      assert Display(a)[0..p] == Display(a)[..p];
    }
  }

  lemma PrefixBits(b: seq<int>, p: nat, hi: nat, prefix: string)
    requires |b| == 288 && AreDigits(b, 2) && 1 <= p <= 12 && |prefix| == p && AllInAlphabet(prefix)
    requires hi == Value(b[..64], 2) && hi < Pow2(64) && FoldBits(prefix) < Pow2(5 * p)
    ensures AreDigits(b[..5 * p], 2)
    ensures And(hi, HighOnes(64 - 5 * p))
              == FoldBits(prefix) % 0x1_0000_0000_0000_0000 * Pow2(64 - 5 * p) % 0x1_0000_0000_0000_0000
       <==> Value(b[..5 * p], 2) == FoldBits(prefix)
  {
    hide Value, FoldBits, Pow2, And, HighOnes;
    var u, v := b[..5 * p], b[5 * p..64];
    DigitsCut(b, 0, 5 * p);
    DigitsCut(b, 5 * p, 64);
    assert b[..64] == u + v;
    ValueConcat(u, v, 2);
    ValueBound(u, 2);
    ValueBound(v, 2);
    PowerOfTwo(|v|);
    HighCompare(hi, Value(u, 2), Value(v, 2), FoldBits(prefix), 64 - 5 * p);
  }

  /** A pattern whose last character is allowed has zeros in its two low bits. */
  lemma SuffixPadding(s: string)
    requires AllInAlphabet(s) && s != "" && |s| <= 25 && s[|s| - 1] in LAST_CHARS
    ensures FoldBits(s) % 4 == 0
  {
    hide FoldBits;
    LastChars(s[|s| - 1]);
    FoldBitsValue(s);
    LastDigitOf(DigitsOf(s), IndexOf(s[|s| - 1]));
  }

  lemma LastDigitOf(d: seq<int>, i: int)
    requires d != [] && d[|d| - 1] == i && i % 4 == 0
    ensures Value(d, 32) % 4 == 0
  {
    hide Value;
    ValueLast(d, 32);
    MultipleOfFour(Value(d[..|d| - 1], 32), i);
  }

  lemma MultipleOfFour(v: int, i: int)
    requires i % 4 == 0
    ensures (v * 32 + i) % 4 == 0
  {
  }

  /** The suffix half of the mask form. */
  lemma SuffixMask(t: Target, a: addr32)
    requires FitsDevice(t)
    ensures And(Lo(a), DeviceWords(t).smask) == DeviceWords(t).sval <==> EndsWith(Display(a), t.suffix)
  {
    hide Stream, Groups, Letters, Display, Value, FoldBits, Pow2, And, HighOnes, DeviceWords, Hi, Lo;
    var s := |t.suffix|;
    EmptyWords(t);
    if s == 0 {
      AndZero(Lo(a));
    } else {
      DisplayPart(a, Display(a), StreamPart(a, 58 - s, 58), 58 - s, 58);
      StreamParts(a);
      FoldBound(t.suffix);
      SuffixPadding(t.suffix);
      SuffixWords(t);
      var b := Stream(a)[..288];
      var r := b[290 - 5 * s..];
      StreamPadding(a);
      assert b[224..] == Stream(a)[224..288];
      assert StreamPart(a, 58 - s, 58) == r + [0, 0];
      SuffixBits(b, s, Lo(a), t.suffix);
      GroupsCompare(r + [0, 0], t.suffix);
    }
  }

  lemma SuffixBits(b: seq<int>, s: nat, lo: nat, suffix: string)
    requires |b| == 288 && AreDigits(b, 2) && 1 <= s <= 13 && |suffix| == s && AllInAlphabet(suffix)
    requires lo == Value(b[224..], 2) && FoldBits(suffix) < Pow2(5 * s) && FoldBits(suffix) % 4 == 0
    ensures AreDigits(b[290 - 5 * s..] + [0, 0], 2)
    ensures And(lo, (Pow2(5 * s - 2) - 1) % 0x1_0000_0000_0000_0000) == FoldBits(suffix) / 4 % 0x1_0000_0000_0000_0000
       <==> Value(b[290 - 5 * s..] + [0, 0], 2) == FoldBits(suffix)
  {
    hide Value, FoldBits, Pow2, And;
    SuffixSizes(s);
    var u, v := b[224..290 - 5 * s], b[290 - 5 * s..];
    DigitsCut(b, 224, 290 - 5 * s);
    DigitsCut(b, 290 - 5 * s, 288);
    assert b[224..] == u + v;
    ValueConcat(u, v, 2);
    ValueBound(u, 2);
    ValueBound(v, 2);
    PowerOfTwo(|v|);
    TwoZeros(v);
    LowCompare(lo, Value(u, 2), Value(v, 2), FoldBits(suffix), 5 * s - 2);
  }

  /** Masking the low part and comparing with the pattern compares the remainders. */
  lemma LowCompare(lo: nat, u: nat, v: nat, f: nat, n: nat)
    requires n <= 63 && lo == u * Pow2(n) + v && v < Pow2(n) <= 0x8000_0000_0000_0000
    requires f < 4 * Pow2(n) && f % 4 == 0
    ensures And(lo, (Pow2(n) - 1) % 0x1_0000_0000_0000_0000) == f / 4 % 0x1_0000_0000_0000_0000 <==> v * 4 == f
  {
    hide Pow2, And;
    AndLowMask(lo, n);
    assert u * Pow2(n) == Pow2(n) * u;
    DivModUnique(lo, Pow2(n), u, v);
    SmallMod(Pow2(n) - 1, 0x1_0000_0000_0000_0000);
    SmallMod(f / 4, 0x1_0000_0000_0000_0000);
  }

  lemma SuffixSizes(s: nat)
    requires 1 <= s <= 13
    ensures Pow2(5 * s - 2) <= 0x8000_0000_0000_0000 && Pow2(5 * s) == 4 * Pow2(5 * s - 2)
  {
    Pow2Is64();
    Pow2Monotonic(5 * s - 2, 63);
    Pow2Add(2, 5 * s - 2);
    assert Pow2(2) == 4 && Pow2(64) == 2 * Pow2(63);
  }

  /** The bit-mask form agrees with string matching on the displayed address, for every address. */
  lemma MaskIsDisplayMatch(t: Target, a: addr32)
    requires FitsDevice(t)
    ensures MaskMatch(DeviceWords(t), Hi(a), Lo(a)) <==> MatchesDisplay(t, Display(a))
  {
    hide Hi, Lo, DeviceWords, Display, And, Value, Checksum, FitsDevice;
    PrefixMask(t, a);
    SuffixMask(t, a);
  }
}
