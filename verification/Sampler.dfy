/**
 The device's SHAKE256 pool and Gaussian sampler. The Keccak permutation is a parameter: nothing here
 depends on what it computes.
 */
module Sampler {
  import opened Bits
  import opened Digits
  import opened Montgomery

  type lanes = s: seq<uint64> | |s| == 25 witness seq(25, _ => 0)
  type seed = s: seq<uint8> | |s| == 32 witness seq(32, _ => 0)

  // ----- the sponge, as section 4 and 6.2 of FIPS 202 define it for this use -----

  /** The one 136-byte block of a 32-byte input: the input, the SHAKE suffix 1111, and pad10*1. */
  function PaddedBlock(s: seed): (r: seq<uint8>)
    ensures |r| == 136
  {
    s + [0x1F] + seq(102, _ => 0) + [0x80]
  }

  /** The state after absorbing the block into the zero state: seventeen little-endian lanes. */
  ghost predicate Absorbed(a: seq<uint64>, s: seed) {
    && |a| == 25
    && (forall i :: 0 <= i < 17 ==> a[i] == Little(PaddedBlock(s)[8 * i..8 * i + 8], 256))
    && (forall i :: 17 <= i < 25 ==> a[i] == 0)
  }

  function Iterate(perm: lanes -> lanes, a: lanes, n: nat): lanes {
    if n == 0 then a else perm(Iterate(perm, a, n - 1))
  }

  /** The k-th 64-bit output of the sponge. */
  function Output(perm: lanes -> lanes, a: lanes, k: nat): uint64 {
    Iterate(perm, a, k / 17 + 1)[k % 17]
  }

  /** Loading eight bytes, least significant first, with shifts. */
  method LoadLe64(p: seq<uint8>) returns (v: uint64)
    requires |p| == 8
    ensures v == Little(p, 256)
  {
    hide Little, Or, Pow2;
    v := 0;
    var j := 0;
    assert Little(p[..0], 256) == 0 by { NoBytes(p[..0]); }
    while j < 8
      invariant 0 <= j <= 8
      invariant v == Little(p[..j], 256)
    {
      TakeLeByte(p, j, v);
      v := Or(v, p[j] * Pow2(8 * j) % 0x1_0000_0000_0000_0000);
      j := j + 1;
    }
    assert p[..8] == p;
  }

  lemma NoBytes(s: seq<int>)
    requires s == []
    ensures Little(s, 256) == 0
  {
  }

  lemma ByteBase()
    ensures Pow2(8) == 256
  {
  }

  lemma TakeLeByte(p: seq<uint8>, j: nat, v: nat)
    requires |p| == 8 && j < 8 && v == Little(p[..j], 256)
    ensures 0 <= p[j] * Pow2(8 * j) % 0x1_0000_0000_0000_0000
    ensures Or(v, p[j] * Pow2(8 * j) % 0x1_0000_0000_0000_0000) == Little(p[..j + 1], 256) < 0x1_0000_0000_0000_0000
  {
    hide Little, Or, Pow2, Power;
    LittleRange(p[..j], 256);
    LittleRange(p[..j + 1], 256);
    assert Pow2(8) == 256 by { ByteBase(); }
    PowerOfPow2(8, 256, j, 8 * j);
    PowerOfPow2(8, 256, j + 1, 8 * (j + 1));
    Pow2Is64();
    Pow2Monotonic(8 * (j + 1), 64);
    assert p[..j + 1] == p[..j] + [p[j]];
    LittleAppend(p[..j], p[j], 256);
    var t, b: int := Pow2(8 * j), p[j];
    MulLe(t, 0, b);
    assert b * t == t * b;
    SmallMod(b * t, 0x1_0000_0000_0000_0000);
    OrDisjoint(v, b, 8 * j);
  }

  // ----- the pool -----

  class Shake {
    const perm: lanes -> lanes
    const a: array<uint64>
    const pool: array<uint64>
    var idx: nat
    /** The absorbed state, and how many words have been squeezed since. */
    ghost var start: lanes
    ghost var squeezed: nat

    ghost predicate Valid()
      reads this, a, pool
    {
      && a.Length == 25 && pool.Length == 17 && a != pool && idx <= 17
      && if squeezed == 0 then idx == 17 && a[..] == start
         else
           && idx == (squeezed - 1) % 17 + 1
           && a[..] == Iterate(perm, start, (squeezed - 1) / 17 + 1)
           && pool[..] == a[..17]
    }

    /** `shake_init_seed32`. */
    constructor (perm: lanes -> lanes, s: seed)
      ensures Valid() && squeezed == 0 && Absorbed(start, s) && this.perm == perm && fresh(a) && fresh(pool)
    {
      this.perm := perm;
      a := new uint64[25](_ => 0);
      pool := new uint64[17](_ => 0);
      idx, squeezed := 17, 0;
      new;
      FillState(a, s);
      start := a[..];
    }

    /** `shake_squeeze_u64`. */
    method Squeeze() returns (w: uint64)
      requires Valid()
      modifies this`idx, this`squeezed, a, pool
      ensures Valid() && squeezed == old(squeezed) + 1
      ensures w == Output(perm, start, old(squeezed))
      ensures w == Iterate(perm, start, old(squeezed) / 17 + 1)[old(squeezed) % 17]
    {
      hide Iterate, Output;
      ghost var k := squeezed;
      PoolArithmetic(k);
      OneMorePermutation(perm, start, k);
      if idx == 17 {
        Refill(a, pool, perm);
        idx := 0;
      }
      assert a[..] == Iterate(perm, start, k / 17 + 1) && idx == k % 17;
      w := pool[idx];
      assert w == a[..][idx];
      idx := idx + 1;
      squeezed := squeezed + 1;
    }
  }

  /** One permutation of the state, whose rate lanes become the pool. */
  method Refill(a: array<uint64>, pool: array<uint64>, perm: lanes -> lanes)
    requires a.Length == 25 && pool.Length == 17 && a != pool
    modifies a, pool
    ensures a[..] == perm(old(a[..])) && pool[..] == a[..17]
  {
    var next := perm(a[..]);
    forall i | 0 <= i < 25 {
      a[i] := next[i];
    }
    forall i | 0 <= i < 17 {
      pool[i] := a[i];
    }
  }

  lemma OneMorePermutation(perm: lanes -> lanes, start: lanes, k: nat)
    ensures Iterate(perm, start, k / 17 + 1) == perm(Iterate(perm, start, k / 17))
    ensures k == 0 ==> Iterate(perm, start, k / 17) == start
    ensures Output(perm, start, k) == Iterate(perm, start, k / 17 + 1)[k % 17]
  {
  }

  lemma PoolArithmetic(k: nat)
    ensures k > 0 && k % 17 == 0 ==> (k - 1) % 17 == 16 && (k - 1) / 17 + 1 == k / 17
    ensures k > 0 && k % 17 != 0 ==> (k - 1) % 17 + 1 == k % 17 && (k - 1) / 17 == k / 17
  {
  }

  /** The lane-filling part of `shake_init_seed32`. */
  method FillState(a: array<uint64>, s: seed)
    requires a.Length == 25 && forall i :: 0 <= i < 25 ==> a[i] == 0
    modifies a
    ensures Absorbed(a[..], s)
    ensures forall i :: 0 <= i < 4 ==> a[i] == Little(s[8 * i..8 * i + 8], 256)
    ensures a[4] == 0x1F && a[16] == 0x8000_0000_0000_0000
    ensures forall i :: 5 <= i < 25 && i != 16 ==> a[i] == 0
  {
    hide Little;
    var b := PaddedBlock(s);
    var i := 0;
    while i < 4
      invariant 0 <= i <= 4
      invariant forall k :: 0 <= k < i ==> a[k] == Little(s[8 * k..8 * k + 8], 256)
      invariant forall k :: i <= k < 25 ==> a[k] == 0
    {
      var v := LoadLe64(s[8 * i..8 * i + 8]);
      a[i] := v;
      i := i + 1;
    }
    a[4] := 0x1F;
    a[16] := 0x80 * 0x100_0000_0000_0000;
    ConstantLanes();
    assert forall k :: 0 <= k < 4 ==> s[8 * k..8 * k + 8] == b[8 * k..8 * k + 8];
    assert b[32..40] == [0x1F, 0, 0, 0, 0, 0, 0, 0];
    assert b[128..136] == [0, 0, 0, 0, 0, 0, 0, 0x80];
    forall k | 5 <= k < 16 ensures b[8 * k..8 * k + 8] == [0, 0, 0, 0, 0, 0, 0, 0] {
    }
  }

  lemma ConstantLanes()
    ensures Little([0x1F, 0, 0, 0, 0, 0, 0, 0], 256) == 0x1F
    ensures Little([0, 0, 0, 0, 0, 0, 0, 0x80], 256) == 0x80 * 0x100_0000_0000_0000
    ensures Little([0, 0, 0, 0, 0, 0, 0, 0], 256) == 0
  {
  }

  // ----- one Gaussian sample -----

  const GAUSS: seq<uint64> := [
    1283868770400643928, 6416574995475331444, 4078260278032692663, 2353523259288686585,
    1227179971273316331, 575931623374121527, 242543240509105209, 91437049221049666,
    30799446349977173, 9255276791179340, 2478152334826140, 590642893610164,
    125206034929641, 23590435911403, 3948334035941, 586753615614,
    77391054539, 9056793210, 940121950, 86539696,
    7062824, 510971, 32764, 1862,
    94, 4, 0
  ]

  function Gauss(k: nat): (g: uint64)
    requires k < 27
    ensures g < 0x8000_0000_0000_0000
    ensures k == 26 ==> g == 0
  {
    assert |GAUSS| == 27;
    GAUSS[k]
  }

  /** The first table index from k on whose entry is not above the draw. */
  function FirstNotAbove(u: int, k: nat): (r: nat)
    requires u >= 0 && k <= 26
    ensures k <= r <= 26 && Gauss(r) <= u && forall i :: k <= i < r ==> Gauss(i) > u
    decreases 26 - k
  {
    if Gauss(k) <= u then k else FirstNotAbove(u, k + 1)
  }

  /**
   The sampler in plain words: the first draw gives a sign and says whether the result is zero; the
   second, without its top bit, picks the magnitude from the table.
   */
  function PlainGauss(r0: uint64, r1: uint64): (v: int)
    ensures -26 <= v <= 26
  {
    var m := if r0 % 0x8000_0000_0000_0000 < Gauss(0) then 0 else FirstNotAbove(r1 % 0x8000_0000_0000_0000, 1);
    if r0 >= 0x8000_0000_0000_0000 then -m else m
  }

  // What a sample must be, from its two words and the table alone.

  /** From entry 1 on, the table falls strictly. */
  lemma TableFalls(i: nat, j: nat)
    requires 1 <= i < j <= 26
    ensures Gauss(i) > Gauss(j)
    decreases j - i
  {
    if j == i + 1 {
      assert i == 1 || i == 2 || i == 3 || i == 4 || i == 5 || i == 6 || i == 7 || i == 8 || i == 9 || i == 10
          || i == 11 || i == 12 || i == 13 || i == 14 || i == 15 || i == 16 || i == 17 || i == 18 || i == 19
          || i == 20 || i == 21 || i == 22 || i == 23 || i == 24 || i == 25;
    } else {
      hide Gauss;
      TableFalls(i, i + 1);
      TableFalls(i + 1, j);
    }
  }

  /** How many of the entries 1 to n are above u. */
  ghost function Above(u: int, n: nat): (c: nat)
    requires n <= 26
    ensures c <= n
  {
    if n == 0 then 0 else Above(u, n - 1) + if Gauss(n) > u then 1 else 0
  }

  /**
   The first word's top bit is the sign; the result is zero exactly when that word's other bits are below
   entry 0; otherwise the magnitude is one more than the number of entries above the second word's.
   */
  ghost predicate IsSample(x: int, r0: uint64, r1: uint64) {
    && (x < 0 ==> r0 >= 0x8000_0000_0000_0000)
    && (x > 0 ==> r0 < 0x8000_0000_0000_0000)
    && (x == 0 <==> r0 % 0x8000_0000_0000_0000 < Gauss(0))
    && (x != 0 ==> (if x < 0 then -x else x) == 1 + Above(r1 % 0x8000_0000_0000_0000, 26))
  }

  lemma {:induction false} CountIsIndex(u: int, m: nat, n: nat)
    requires u >= 0 && 1 <= m <= 26 && n <= 26 && Gauss(m) <= u && forall i :: 1 <= i < m ==> Gauss(i) > u
    ensures Above(u, n) == if n < m then n else m - 1
  {
    hide Gauss;
    if n == 0 {
    } else {
      CountIsIndex(u, m, n - 1);
      if n > m {
        TableFalls(m, n);
      }
    }
  }

  lemma PlainIsSample(r0: uint64, r1: uint64)
    ensures IsSample(PlainGauss(r0, r1), r0, r1)
  {
    hide Gauss, Above, FirstNotAbove;
    var u := r1 % 0x8000_0000_0000_0000;
    CountIsIndex(u, FirstNotAbove(u, 1), 26);
  }

  /** `r & ~(1 << 63)`. */
  function DropTop(r: uint64): (u: uint64)
    ensures u == r % 0x8000_0000_0000_0000
  {
    hide And;
    TopMask(r);
    And(r, 0x7FFF_FFFF_FFFF_FFFF)
  }

  lemma TopMask(r: nat)
    ensures And(r, 0x7FFF_FFFF_FFFF_FFFF) == r % 0x8000_0000_0000_0000
  {
    Pow2Is64();
    assert Pow2(64) == 2 * Pow2(63);
    hide And, Pow2;
    AndLowMask(r, 63);
  }

  /** `(r - g) >> 63` on 64 bits: 1 exactly when r is below g. */
  function Below(r: int, g: int): (b: int)
    requires 0 <= r < 0x8000_0000_0000_0000 && 0 <= g < 0x8000_0000_0000_0000
    ensures b == if r < g then 1 else 0
  {
    (r - g) % 0x1_0000_0000_0000_0000 / 0x8000_0000_0000_0000
  }

  /** `(v ^ (0 - neg)) + neg` as a signed 32-bit number. */
  function NegateIf(v: uint32, neg: int): (r: int)
    requires v < 0x8000_0000 && 0 <= neg <= 1
    ensures r == if neg == 1 then -(v as int) else v
  {
    var x := if neg == 1 then 0xFFFF_FFFF - v else v;
    var y := (x + neg) % 0x1_0000_0000;
    if y < 0x8000_0000 then y else y - 0x1_0000_0000
  }

  lemma OrLeftZero(k: nat)
    ensures Or(0, k) == k
  {
  }

  /** The branch-free walk over the whole table; f is 1 when the magnitude is already known to be zero. */
  method WalkTable(f0: int, r: nat) returns (v: uint32)
    requires 0 <= f0 <= 1 && r < 0x8000_0000_0000_0000
    ensures v == if f0 == 1 then 0 else FirstNotAbove(r, 1)
  {
    hide Or, Gauss, FirstNotAbove;
    var f := f0;
    v := 0;
    ghost var want := FirstNotAbove(r, 1);
    var k := 1;
    while k < 27
      invariant 1 <= k <= 27 && 0 <= f <= 1 && v <= 26
      invariant f == if f0 == 1 || k > want then 1 else 0
      invariant v == if f0 == 0 && k > want then want else 0
    {
      WalkStep(r, k);
      var t := 1 - Below(r, Gauss(k));
      OrZero(v);
      OrLeftZero(k);
      v := Or(v, MaskedBy(k, t * (1 - f)));
      f := if t == 1 then 1 else f;
      k := k + 1;
    }
  }

  /** `dev_mkgauss`: two draws, the walk, and the sign. */
  method DevMkGauss(s: Shake) returns (x: int)
    requires s.Valid()
    modifies s`idx, s`squeezed, s.a, s.pool
    ensures s.Valid() && s.squeezed == old(s.squeezed) + 2
    ensures x == GaussAt(s.perm, s.start, old(s.squeezed))
    ensures IsSample(x, Output(s.perm, s.start, old(s.squeezed)), Output(s.perm, s.start, old(s.squeezed) + 1))
    ensures -26 <= x <= 26
  {
    hide IsSample, Or, Output, Gauss, FirstNotAbove, Shake.Valid;
    var r0 := s.Squeeze();
    var neg := r0 / 0x8000_0000_0000_0000;
    var f := Below(DropTop(r0), Gauss(0));
    var r1 := s.Squeeze();
    var v := WalkTable(f, DropTop(r1));
    x := NegateIf(v, neg);
    PlainIsSample(r0, r1);
  }

  lemma WalkStep(r: int, k: nat)
    requires r >= 0 && 1 <= k <= 26
    ensures Gauss(k) <= r ==> FirstNotAbove(r, 1) <= k
    ensures Gauss(k) > r ==> FirstNotAbove(r, 1) != k
  {
    hide Gauss;
  }

  /** The sample made from words k and k + 1 of the stream. */
  function GaussAt(perm: lanes -> lanes, start: lanes, k: nat): (v: int)
    ensures -26 <= v <= 26
  {
    PlainGauss(Output(perm, start, k), Output(perm, start, k + 1))
  }

  // ----- one polynomial -----

  /** The sum of a polynomial's coefficients. */
  function Sum(f: seq<int>): int {
    if f == [] then 0 else Sum(f[..|f| - 1]) + f[|f| - 1]
  }

  lemma SumAppend(f: seq<int>, x: int)
    ensures Sum(f + [x]) == Sum(f) + x
  {
    assert (f + [x])[..|f|] == f;
  }

  /** The samples from word k on, one after the other. */
  ghost function Samples(perm: lanes -> lanes, start: lanes, k: nat, n: nat): (r: seq<int>)
    ensures |r| == n
  {
    seq(n, i requires 0 <= i < n => GaussAt(perm, start, k + 2 * i))
  }

  /**
   The polynomial taken from the stream at word k: 1023 samples as they come, then the first sample,
   after `tries` others, that makes the sum odd.
   */
  ghost predicate IsPolyAt(f: seq<int>, perm: lanes -> lanes, start: lanes, k: nat, tries: nat) {
    && |f| == 1024 && f[..1023] == Samples(perm, start, k, 1023)
    && f[1023] == GaussAt(perm, start, k + 2 * (1023 + tries))
    && Sum(f) % 2 == 1
    && forall i: nat :: i < tries ==> LeavesEven(Sum(f[..1023]), perm, start, k, i)
  }

  /** Coefficient u is made of words k + 2u and k + 2u + 1, the last one of those that ended the loop. */
  lemma PolySamples(f: seq<int>, perm: lanes -> lanes, start: lanes, k: nat, tries: nat, u: nat)
    requires IsPolyAt(f, perm, start, k, tries) && u < 1024
    ensures var w := k + 2 * (if u < 1023 then u else 1023 + tries);
            IsSample(f[u], Output(perm, start, w), Output(perm, start, w + 1))
    ensures Sum(f) % 2 == 1
  {
    hide Output, IsSample, PlainGauss, Sum, LeavesEven;
    assert u < 1023 ==> f[u] == f[..1023][u];
    var w := k + 2 * (if u < 1023 then u else 1023 + tries);
    PlainIsSample(Output(perm, start, w), Output(perm, start, w + 1));
  }

  /** The i-th candidate for the last coefficient makes the sum even. */
  ghost predicate LeavesEven(body: int, perm: lanes -> lanes, start: lanes, k: nat, i: nat) {
    (body + GaussAt(perm, start, k + 2 * (1023 + i))) % 2 == 0
  }

  /** The loop for the last coefficient is still drawing after so many draws: all of them left the sum even. */
  ghost predicate Spent(perm: lanes -> lanes, start: lanes, k: nat, budget: nat) {
    forall i: nat :: i < budget ==> LeavesEven(Sum(Samples(perm, start, k, 1023)), perm, start, k, i)
  }

  /**
   `dev_poly_small_mkgauss`, with the first `budget` draws of the loop for the last coefficient, which
   the device repeats without bound; ok says whether the loop has been left by then.
   */
  method DevPolySmallMkgauss(s: Shake, f: array<int8>, budget: nat) returns (ok: bool, ghost tries: nat)
    requires s.Valid() && f.Length == 1024
    modifies s`idx, s`squeezed, s.a, s.pool, f
    ensures s.Valid()
    ensures ok ==> tries < budget && IsPolyAt(f[..], s.perm, s.start, old(s.squeezed), tries)
    ensures ok ==> s.squeezed == old(s.squeezed) + 2 * (1024 + tries)
    ensures !ok <==> Spent(s.perm, s.start, old(s.squeezed), budget)
  {
    hide *;
    ghost var k := s.squeezed;
    var mod2 := FillBody(s, f);
    ghost var body := Samples(s.perm, s.start, k, 1023);
    tries := 0;
    SpentNone(s.perm, s.start, k);
    var left := budget;
    while left > 0
      invariant left >= 0 && left + tries == budget
      invariant s.Valid() && s.squeezed == k + 2 * (1023 + tries)
      invariant f[..1023] == body && mod2 == Sum(body) % 2
      invariant Spent(s.perm, s.start, k, tries)
      decreases left
    {
      var sv := DevMkGauss(s);
      left := left - 1;
      NextParity(mod2, Sum(body), sv);
      if !(sv < -127 || sv > 127 || (mod2 + sv % 2) % 2 == 0) {
        f[1023] := sv;
        assert f[..] == body + [sv];
        PolyDone(body, sv, s.perm, s.start, k, tries, budget);
        return true, tries;
      }
      SpentNext(body, sv, s.perm, s.start, k, tries);
      tries := tries + 1;
    }
    ok := false;
  }

  lemma PolyDone(body: seq<int>, x: int, perm: lanes -> lanes, start: lanes, k: nat, tries: nat, budget: nat)
    requires body == Samples(perm, start, k, 1023) && x == GaussAt(perm, start, k + 2 * (1023 + tries))
    requires (Sum(body) + x) % 2 != 0 && Spent(perm, start, k, tries) && tries < budget
    ensures IsPolyAt(body + [x], perm, start, k, tries) && !Spent(perm, start, k, budget)
  {
    hide GaussAt, Sum, Samples;
    SumAppend(body, x);
    assert (body + [x])[..1023] == body;
    assert !LeavesEven(Sum(body), perm, start, k, tries);
  }

  lemma SpentNone(perm: lanes -> lanes, start: lanes, k: nat)
    ensures Spent(perm, start, k, 0)
  {
  }

  lemma SpentNext(body: seq<int>, x: int, perm: lanes -> lanes, start: lanes, k: nat, tries: nat)
    requires body == Samples(perm, start, k, 1023) && x == GaussAt(perm, start, k + 2 * (1023 + tries))
    requires (Sum(body) + x) % 2 == 0 && Spent(perm, start, k, tries)
    ensures Spent(perm, start, k, tries + 1)
  {
    hide GaussAt, Sum, Samples;
  }

  /** The first 1023 coefficients, none of which is ever rejected. */
  method FillBody(s: Shake, f: array<int8>) returns (mod2: int)
    requires s.Valid() && f.Length == 1024
    modifies s`idx, s`squeezed, s.a, s.pool, f
    ensures s.Valid() && s.squeezed == old(s.squeezed) + 2 * 1023
    ensures f[..1023] == Samples(s.perm, s.start, old(s.squeezed), 1023)
    ensures mod2 == Sum(f[..1023]) % 2
  {
    hide *;
    ghost var k := s.squeezed;
    mod2 := 0;
    var u := 0;
    NoSamples(f[..0], s.perm, s.start, k);
    while u < 1023
      invariant 0 <= u <= 1023
      invariant s.Valid() && s.squeezed == k + 2 * u
      invariant f[..u] == Samples(s.perm, s.start, k, u)
      invariant mod2 == Sum(f[..u]) % 2
    {
      var sv := DevMkGauss(s);
      ghost var was := f[..u];
      NextParity(mod2, Sum(was), sv);
      mod2 := (mod2 + sv % 2) % 2;
      f[u] := sv;
      assert f[..u + 1] == was + [sv];
      OneMoreSample(was, sv, s.perm, s.start, k, u);
      u := u + 1;
    }
  }

  lemma NextParity(mod2: int, sum: int, x: int)
    requires mod2 == sum % 2
    ensures (mod2 + x % 2) % 2 == (sum + x) % 2
  {
  }

  lemma NoSamples(f: seq<int>, perm: lanes -> lanes, start: lanes, k: nat)
    requires f == []
    ensures Sum(f) == 0 && f == Samples(perm, start, k, 0)
  {
  }

  lemma OneMoreSample(f: seq<int>, x: int, perm: lanes -> lanes, start: lanes, k: nat, u: nat)
    requires f == Samples(perm, start, k, u) && x == GaussAt(perm, start, k + 2 * u)
    ensures f + [x] == Samples(perm, start, k, u + 1)
    ensures Sum(f + [x]) == Sum(f) + x
  {
    hide GaussAt, Sum;
    SumAppend(f, x);
  }
}
