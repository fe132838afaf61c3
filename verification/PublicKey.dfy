/** From a keygen seed to the encoded public key of its first sample: the device's whole per-key pipeline. */
module PublicKey {
  import opened Bits
  import opened Digits
  import opened ModQ
  import opened Negacyclic
  import opened NttLoops
  import opened FalconPublic
  import opened ModqEncode
  import opened Sampler
  import Sha512Spec
  import Sha512
  import Address

  /** pk encodes a reduced h that is the one quotient of g by f. */
  ghost predicate EncodesQuotient(pk: seq<uint8>, f: seq<int>, g: seq<int>, h: seq<uint16>) {
    |h| == 1024 && AllReduced(h) && IsTheQuotient(f, g, h) && IsEncoding(pk, h)
  }

  ghost predicate IsPublicKey(pk: seq<uint8>, f: seq<int>, g: seq<int>) {
    exists h: seq<uint16> :: EncodesQuotient(pk, f, g, h)
  }

  lemma SameReduced(h: seq<uint16>, h': seq<uint16>)
    requires AllReduced(h) && AllReduced(h') && SameModQ(h, h')
    ensures h == h'
  {
    forall j | 0 <= j < |h| ensures h[j] == h'[j] {
      CongReduced(h[j], h'[j]);
    }
  }

  /** A pair of polynomials has one public key. */
  lemma PublicKeyUnique(pk: seq<uint8>, pk': seq<uint8>, f: seq<int>, g: seq<int>)
    requires IsPublicKey(pk, f, g) && IsPublicKey(pk', f, g)
    ensures pk == pk'
  {
    hide Value, NegMul, SameModQ;
    var h: seq<uint16> :| EncodesQuotient(pk, f, g, h);
    var h': seq<uint16> :| EncodesQuotient(pk', f, g, h');
    SameReduced(h, h');
    ValueInjective(pk[1..], pk'[1..], 256);
    assert pk == [pk[0]] + pk[1..] && pk' == [pk'[0]] + pk'[1..];
  }

  // ----- existence -----

  lemma SameCapacity()
    ensures Power(256, 1792) == Power(16384, 1024)
  {
    assert Pow2(8) == 256;
    Fourteen();
    hide Pow2, Power;
    PowerOfPow2(8, 256, 1792, 14336);
    PowerOfPow2(14, 16384, 1024, 14336);
  }

  /** Every reduced polynomial has an encoding. */
  lemma EncodingExists(h: seq<uint16>) returns (pk: seq<uint8>)
    requires |h| == 1024 && AreDigits(h, 16384)
    ensures IsEncoding(pk, h)
  {
    hide Value, Power;
    ValueBound(h, 16384);
    SameCapacity();
    var n := Value(h, 16384);
    Sha512.BigEndianValue(n, 1792);
    pk := [10] + Sha512Spec.BigEndian(n, 1792);
    assert pk[1..] == Sha512Spec.BigEndian(n, 1792);
  }

  /** A pair with an invertible f has a public key. */
  lemma PublicKeyExists(f: poly, g: poly) returns (pk: seq<uint8>)
    requires Invertible(f)
    ensures IsPublicKey(pk, f, g)
  {
    hide Invertible, IsTheQuotient, IsEncoding, Transform, InverseNtt, Quotients, NoZero;
    Ten();
    UnitIffNoZero(10, f);
    var h := InverseNtt(10, Quotients(Transform(10, g), Transform(10, f)));
    QuotientsSolve(10, f, g, h);
    var words: seq<uint16> := h;
    assert AllReduced(words) && AreDigits(words, 16384);
    pk := EncodingExists(words);
    assert EncodesQuotient(pk, f, g, words);
  }

  /** The constant polynomial 1. */
  function ConstantOne(): poly {
    [1] + seq(1023, _ => 0)
  }

  lemma OneIsInvertible()
    ensures Invertible(ConstantOne())
  {
    hide Invertible, Transform;
    Ten();
    var f := ConstantOne();
    assert f == One(1024);
    forall j | 0 <= j < 1024 ensures Transform(10, f)[j] != 0 {
      TransformEvaluates(10, f, j);
      EvalOne(1024, Root(10, j));
      hide Root;
      if Transform(10, f)[j] == 0 {
        ZeroIsNotOne();
      }
    }
    UnitIffNoZero(10, f);
  }

  // ----- sampling -----

  /** f and then g are the first two polynomials of the seed's stream. */
  ghost predicate SampledAs(f: seq<int>, g: seq<int>, perm: lanes -> lanes, s: seed, start: lanes, m: nat, n: nat) {
    Absorbed(start, s) && IsPolyAt(f, perm, start, 0, m) && IsPolyAt(g, perm, start, 2 * (1024 + m), n)
  }

  ghost predicate IsFirstSample(f: seq<int>, g: seq<int>, perm: lanes -> lanes, s: seed) {
    exists start: lanes, m: nat, n: nat :: SampledAs(f, g, perm, s, start, m, n)
  }

  lemma SamePoly(f: seq<int>, f': seq<int>, perm: lanes -> lanes, start: lanes, k: nat, n: nat, n': nat)
    requires IsPolyAt(f, perm, start, k, n) && IsPolyAt(f', perm, start, k, n') && n <= n'
    ensures f == f' && n == n'
  {
    hide GaussAt, Sum;
    SumAppend(f[..1023], f[1023]);
    assert f == f[..1023] + [f[1023]] && f' == f'[..1023] + [f'[1023]];
    assert n < n' ==> LeavesEven(Sum(f'[..1023]), perm, start, k, n);
  }

  lemma AbsorbedUnique(a: lanes, a': lanes, s: seed)
    requires Absorbed(a, s) && Absorbed(a', s)
    ensures a == a'
  {
    hide PaddedBlock, Little;
    forall i | 0 <= i < 25 ensures a[i] == a'[i] {
      if i < 17 {
        assert a[i] == Little(PaddedBlock(s)[8 * i..8 * i + 8], 256);
      }
    }
  }

  /** A seed has one first sample. */
  lemma FirstSampleUnique(f: seq<int>, g: seq<int>, f': seq<int>, g': seq<int>, perm: lanes -> lanes, s: seed)
    requires IsFirstSample(f, g, perm, s) && IsFirstSample(f', g', perm, s)
    ensures f == f' && g == g'
  {
    hide IsPolyAt, Absorbed;
    var start: lanes, m: nat, n: nat :| SampledAs(f, g, perm, s, start, m, n);
    var start': lanes, m': nat, n': nat :| SampledAs(f', g', perm, s, start', m', n');
    AbsorbedUnique(start, start', s);
    if m <= m' {
      SamePoly(f, f', perm, start, 0, m, m');
    } else {
      SamePoly(f', f, perm, start, 0, m', m);
    }
    if n <= n' {
      SamePoly(g, g', perm, start, 2 * (1024 + m), n, n');
    } else {
      SamePoly(g', g, perm, start, 2 * (1024 + m), n', n);
    }
  }

  /** The stream begins with f: two words a coefficient. */
  lemma StreamBeginsWithF(f: seq<int>, g: seq<int>, perm: lanes -> lanes, s: seed, start: lanes, u: nat)
    requires IsFirstSample(f, g, perm, s) && Absorbed(start, s) && u < 1023
    ensures |f| == |g| == 1024
    ensures IsSample(f[u], Output(perm, start, 2 * u), Output(perm, start, 2 * u + 1))
  {
    hide Output, IsSample, Absorbed;
    var start': lanes, m: nat, n: nat :| SampledAs(f, g, perm, s, start', m, n);
    AbsorbedUnique(start, start', s);
    PolySamples(f, perm, start, 0, m, u);
  }

  /** f and g are the first sample, and no last coefficient takes more than `budget` draws. */
  ghost predicate SampledWithin(f: seq<int>, g: seq<int>, perm: lanes -> lanes, s: seed, budget: nat) {
    exists start: lanes, m: nat, n: nat :: SampledAs(f, g, perm, s, start, m, n) && m < budget && n < budget
  }

  lemma SpentMeansNone(f: seq<int>, perm: lanes -> lanes, start: lanes, k: nat, n: nat, budget: nat)
    requires Spent(perm, start, k, budget) && IsPolyAt(f, perm, start, k, n)
    ensures n >= budget
  {
    hide GaussAt, Sum, Samples;
    SumAppend(f[..1023], f[1023]);
    assert f == f[..1023] + [f[1023]];
    assert n < budget ==> LeavesEven(Sum(f[..1023]), perm, start, k, n);
  }

  /** Running out on either polynomial means that no sample fits the budget. */
  lemma NothingWithin(f: seq<int>, perm: lanes -> lanes, s: seed, start: lanes, first: bool, m: nat, budget: nat)
    requires Absorbed(start, s)
    requires if first then Spent(perm, start, 0, budget)
             else IsPolyAt(f, perm, start, 0, m) && Spent(perm, start, 2 * (1024 + m), budget)
    ensures forall f', g' :: !SampledWithin(f', g', perm, s, budget)
  {
    hide IsPolyAt, Spent, Absorbed;
    forall f', g' ensures !SampledWithin(f', g', perm, s, budget) {
      if SampledWithin(f', g', perm, s, budget) {
        var start': lanes, m': nat, n': nat :| SampledAs(f', g', perm, s, start', m', n') && m' < budget && n' < budget;
        AbsorbedUnique(start, start', s);
        if first {
          SpentMeansNone(f', perm, start, 0, m', budget);
        } else {
          SameTries(f, f', perm, start, m, m');
          SpentMeansNone(g', perm, start, 2 * (1024 + m), n', budget);
        }
      }
    }
  }

  lemma SameTries(f: seq<int>, f': seq<int>, perm: lanes -> lanes, start: lanes, m: nat, m': nat)
    requires IsPolyAt(f, perm, start, 0, m) && IsPolyAt(f', perm, start, 0, m')
    ensures m == m'
  {
    hide IsPolyAt;
    if m <= m' {
      SamePoly(f, f', perm, start, 0, m, m');
    } else {
      SamePoly(f', f, perm, start, 0, m', m);
    }
  }

  /** `dev_sample_fg`, with at most `budget` draws for each last coefficient: it fails only if that is not enough. */
  method DevSampleFg(perm: lanes -> lanes, s: seed, f: array<int8>, g: array<int8>, budget: nat) returns (ok: bool)
    requires f.Length == g.Length == 1024 && f != g
    modifies f, g
    ensures ok ==> SampledWithin(f[..], g[..], perm, s, budget)
    ensures !ok ==> forall f', g' :: !SampledWithin(f', g', perm, s, budget)
  {
    hide IsPolyAt, Absorbed, LeavesEven, Sum, Samples, SampledWithin;
    var shake := new Shake(perm, s);
    ghost var m, n;
    ok, m := DevPolySmallMkgauss(shake, f, budget);
    ghost var was := f[..];
    if !ok {
      NothingWithin(was, perm, s, shake.start, true, m, budget);
      return;
    }
    ok, n := DevPolySmallMkgauss(shake, g, budget);
    if !ok {
      NothingWithin(was, perm, s, shake.start, false, m, budget);
      return;
    }
    Sampled(was, g[..], perm, s, shake.start, m, n, budget);
  }

  lemma Sampled(f: seq<int>, g: seq<int>, perm: lanes -> lanes, s: seed, start: lanes, m: nat, n: nat, budget: nat)
    requires SampledAs(f, g, perm, s, start, m, n) && m < budget && n < budget
    ensures SampledWithin(f, g, perm, s, budget)
  {
    hide SampledAs;
  }

  /** A sample within a budget is the first sample. */
  lemma WithinIsFirst(f: seq<int>, g: seq<int>, perm: lanes -> lanes, s: seed, budget: nat)
    requires SampledWithin(f, g, perm, s, budget)
    ensures IsFirstSample(f, g, perm, s)
  {
    hide SampledAs;
  }

  // ----- the whole pipeline -----

  /** "PQK" and "f1" in ASCII. */
  const KEY_PREFIX: seq<uint8> := [80, 81, 75, 102, 49]

  lemma PrefixIs()
    ensures KEY_PREFIX == Address.Ascii("PQKf1")
  {
  }

  /** `keygen_seed_from_entropy`. */
  function KeygenSeed(entropy: seq<uint8>): seed {
    Sha512Spec.Sha512_256(KEY_PREFIX + entropy)
  }

  /** `dev_seed_from_entropy`: the same hash from two pieces. */
  method DevSeedFromEntropy(entropy: seq<uint8>, out: array<uint8>)
    requires |entropy| == 32 && out.Length == 32
    modifies out
    ensures out[..] == KeygenSeed(entropy)
    ensures out[..] == Sha512Spec.Sha512_256(Address.Ascii("PQKf1") + entropy)
  {
    PrefixIs();
    hide Address.Ascii;
    hide Sha512Spec.Sha512_256, Sha512.Flatten;
    Address.TwoPieces(KEY_PREFIX, entropy);
    Sha512.HashPieces([KEY_PREFIX, entropy], out);
  }

  datatype Outcome = NotSampled | Singular(f: poly, g: poly) | Key(f: poly, g: poly, pk: seq<uint8>)

  /** `dev_pubkey_from_seed`: the public key of the seed's first sample, unless f has no inverse. */
  method DevPubkeyFromSeed(perm: lanes -> lanes, s: seed, budget: nat) returns (r: Outcome)
    ensures !r.NotSampled? ==> IsFirstSample(r.f, r.g, perm, s)
    ensures r.NotSampled? ==> forall f, g :: !SampledWithin(f, g, perm, s, budget)
    ensures r.Singular? ==> !Invertible(r.f)
    ensures r.Key? ==> Invertible(r.f) && IsPublicKey(r.pk, r.f, r.g)
  {
    hide IsFirstSample, SampledWithin, Invertible, IsTheQuotient, IsEncoding;
    var f, g := new int8[1024], new int8[1024];
    var sampled := DevSampleFg(perm, s, f, g, budget);
    if !sampled {
      return NotSampled;
    }
    WithinIsFirst(f[..], g[..], perm, s, budget);
    var h, tt, pk := new uint16[1024], new uint16[1024], new uint8[1793];
    var ok := DevComputePublic(f[..], g[..], h, tt);
    if !ok {
      return Singular(f[..], g[..]);
    }
    assert AreDigits(h[..], 16384);
    DevModqEncode(h[..], pk);
    assert EncodesQuotient(pk[..], f[..], g[..], h[..]);
    r := Key(f[..], g[..], pk[..]);
  }
}
