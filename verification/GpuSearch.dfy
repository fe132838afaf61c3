/**
 The GPU search for post-quantum addresses against the CPU search, for one entropy: the kernel's
 thread, the host's check of its hit, and the CPU worker.

 The reference key generator, the curve test and the Keccak permutation are parameters.
 */
module GpuSearch {
  import opened Wrappers
  import opened Bits
  import opened FalconPublic
  import opened PublicKey
  import opened Sampler
  import opened SaltSearch
  import Address
  import TargetSet

  // ----- the reference key generator -----

  /** A seed's attempts, which of them are accepted, and the public key of an accepted one. */
  datatype Reference = Reference(
    attempt: (seed, nat) -> (poly, poly),
    accepts: (poly, poly) -> bool,
    publicKey: (poly, poly) -> seq<uint8>)

  /** Attempt 0 is the first sample of the stream; the key of an accepted attempt is its public key. */
  ghost predicate Faithful(ref: Reference, perm: lanes -> lanes) {
    && (forall s: seed, f: poly, g: poly :: IsFirstSample(f, g, perm, s) ==> ref.attempt(s, 0) == (f, g))
    && (forall f: poly, g: poly :: ref.accepts(f, g) ==> IsPublicKey(ref.publicKey(f, g), f, g))
  }

  /** Some first sample of the seed, if it has one. */
  ghost function SampleOf(perm: lanes -> lanes, s: seed): (poly, poly) {
    hide IsFirstSample;
    if exists f: poly, g: poly :: IsFirstSample(f, g, perm, s) then
      var f: poly, g: poly :| IsFirstSample(f, g, perm, s);
      (f, g)
    else
      (ConstantOne(), ConstantOne())
  }

  ghost function KeyOf(f: poly, g: poly): seq<uint8> {
    hide IsPublicKey;
    if exists pk: seq<uint8> :: IsPublicKey(pk, f, g) then
      var pk: seq<uint8> :| IsPublicKey(pk, f, g);
      pk
    else
      []
  }

  /** The generator that accepts exactly the invertible f, and after the first sample tries f = 1. */
  ghost function Lenient(perm: lanes -> lanes): Reference {
    hide SampleOf, KeyOf, Invertible;
    Reference(
      (s, n) => if n == 0 then SampleOf(perm, s) else (ConstantOne(), ConstantOne()),
      (f, g) => Invertible(f),
      KeyOf)
  }

  /** Faithful generators exist, and can have a key for every seed. */
  lemma FaithfulExists(perm: lanes -> lanes)
    ensures Faithful(Lenient(perm), perm) && forall s: seed :: Keygen(Lenient(perm), s).Some?
  {
    hide IsFirstSample, IsPublicKey, Invertible;
    var ref := Lenient(perm);
    forall s: seed, f: poly, g: poly | IsFirstSample(f, g, perm, s) ensures ref.attempt(s, 0) == (f, g) {
      FirstSampleUnique(f, g, SampleOf(perm, s).0, SampleOf(perm, s).1, perm, s);
    }
    forall f: poly, g: poly | ref.accepts(f, g) ensures IsPublicKey(ref.publicKey(f, g), f, g) {
      var pk := PublicKeyExists(f, g);
    }
    forall s: seed ensures Keygen(ref, s).Some? {
      OneIsInvertible();
      assert AcceptsAttempt(ref, s, 1);
      assert FirstAccepted(ref, s, 0) || FirstAccepted(ref, s, 1);
    }
  }

  predicate AcceptsAttempt(ref: Reference, s: seed, n: nat) {
    ref.accepts(ref.attempt(s, n).0, ref.attempt(s, n).1)
  }

  ghost predicate FirstAccepted(ref: Reference, s: seed, n: nat) {
    AcceptsAttempt(ref, s, n) && forall m: nat :: m < n ==> !AcceptsAttempt(ref, s, m)
  }

  /** `keygen_from_seed`: the public key of the first accepted attempt. */
  ghost function Keygen(ref: Reference, s: seed): Option<seq<uint8>> {
    if exists n: nat :: FirstAccepted(ref, s, n) then
      var n: nat :| FirstAccepted(ref, s, n);
      Some(ref.publicKey(ref.attempt(s, n).0, ref.attempt(s, n).1))
    else
      None
  }

  /** When attempt 0 is accepted, the whole generator stops there. */
  lemma KeygenStopsAtOnce(ref: Reference, s: seed)
    requires AcceptsAttempt(ref, s, 0)
    ensures Keygen(ref, s) == Some(ref.publicKey(ref.attempt(s, 0).0, ref.attempt(s, 0).1))
  {
    assert FirstAccepted(ref, s, 0);
    hide AcceptsAttempt;
    forall n: nat | FirstAccepted(ref, s, n) ensures n == 0 {
    }
  }

  /** What the CPU records for an entropy. */
  ghost predicate CpuResult(q: search, ref: Reference, entropy: seq<uint8>, v: Record) {
    var pk := Keygen(ref, KeygenSeed(entropy));
    pk.Some? && CpuFinds(q, AddressesOf(pk.value), v)
  }

  // ----- the kernel's thread -----

  /** The device's public key for an entropy. */
  ghost predicate DeviceKey(perm: lanes -> lanes, entropy: seq<uint8>, f: poly, g: poly, pk: seq<uint8>) {
    IsFirstSample(f, g, perm, KeygenSeed(entropy)) && Invertible(f) && IsPublicKey(pk, f, g)
  }

  /**
   One thread of `pq_search_kernel`, up to its hit, with at most `steps` iterations of the salt loop.
   2^32 of them are enough to tell whether it ends; `SaltSearch.LoopEndsExactly` says when it does.
   */
  method KernelThread(perm: lanes -> lanes, q: search, entropy: seq<uint8>, budget: nat, steps: nat)
    returns (key: Outcome, state: LoopState)
    requires |entropy| == 32 && q.maxSalt < 0x1_0000_0000 && FitGpu(q.list)
    ensures key.Key? ==> DeviceKey(perm, entropy, key.f, key.g, key.pk)
    ensures key.Key? ==> LoopRight(q, AddressesOf(key.pk), steps, state)
    ensures key.Key? && steps >= 0x1_0000_0000 ==> (state.Left? <==> LoopEnds(q, AddressesOf(key.pk)))
    ensures key.Singular? ==> !Invertible(key.f) && IsFirstSample(key.f, key.g, perm, KeygenSeed(entropy))
    ensures key.NotSampled? ==> forall f, g :: !SampledWithin(f, g, perm, KeygenSeed(entropy), budget)
    ensures !key.Key? ==> state == Left(None)
  {
    hide LoopRight, LoopEnds, FitGpu, IsFirstSample, SampledWithin, KeygenSeed, Invertible, IsPublicKey, AddressesOf,
         DeviceKey;
    var sd := new uint8[32];
    DevSeedFromEntropy(entropy, sd);
    key := DevPubkeyFromSeed(perm, sd[..], budget);
    state := Left(None);
    if key.Key? {
      IsDeviceKey(perm, entropy, key.f, key.g, key.pk);
      state := SaltLoop(q, key.pk, steps);
      StepsTell(q, AddressesOf(key.pk), steps, state);
    }
  }

  lemma IsDeviceKey(perm: lanes -> lanes, entropy: seq<uint8>, f: poly, g: poly, pk: seq<uint8>)
    requires IsFirstSample(f, g, perm, KeygenSeed(entropy)) && Invertible(f) && IsPublicKey(pk, f, g)
    ensures DeviceKey(perm, entropy, f, g, pk) && |pk| == 1793
  {
    hide IsFirstSample, Invertible, KeygenSeed;
  }

  // ----- the host's check -----

  /** What `verify_one` accepts: attempt 0, an active target, compliance, and the canonical salt when asked. */
  ghost predicate Verifies(q: search, ref: Reference, entropy: seq<uint8>, salt: uint8, v: Record) {
    var fg := ref.attempt(KeygenSeed(entropy), 0);
    var key := AddressesOf(ref.publicKey(fg.0, fg.1));
    && ref.accepts(fg.0, fg.1) && v.salt == salt && Usable(q, key, v)
    && (q.canonicalOnly ==> CanonicalFrom(key, q.compliant, 0) == Some(salt))
  }

  /** The verdict on a hit. */
  function Verdict(q: search, ref: Reference, entropy: seq<uint8>, salt: uint8): (r: Option<Record>)
    ensures forall v :: r == Some(v) <==> Verifies(q, ref, entropy, salt, v)
  {
    hide MatchOf, KeygenSeed, AddressesOf;
    var fg := ref.attempt(KeygenSeed(entropy), 0);
    var key := AddressesOf(ref.publicKey(fg.0, fg.1));
    var target := MatchOf(q, key(salt));
    if ref.accepts(fg.0, fg.1) && target.Some? && q.compliant(key(salt))
       && (q.canonicalOnly ==> CanonicalFrom(key, q.compliant, 0) == Some(salt))
    then Some(Record(salt, key(salt), target.value)) else None
  }

  /** `verify_one`. */
  method VerifyOne(targets: TargetSet.TargetSet, ref: Reference, compliant: addr32 -> bool,
                   canonicalOnly: bool, entropy: seq<uint8>, salt: uint8, ghost maxSalt: nat)
    returns (r: Option<Record>)
    requires targets.Valid()
    ensures forall v ::
      r == Some(v) <==> Verifies(SearchOf(targets, compliant, canonicalOnly, maxSalt), ref, entropy, salt, v)
  {
    hide Address.Display, TargetSet.FirstMatchFrom, KeygenSeed, AddressesOf;
    var fg := ref.attempt(KeygenSeed(entropy), 0);
    if !ref.accepts(fg.0, fg.1) {
      return None;
    }
    var key := AddressesOf(ref.publicKey(fg.0, fg.1));
    var addr := key(salt);
    var target := targets.FirstMatchDisplay(Address.Display(addr));
    if target.None? || !compliant(addr) {
      return None;
    }
    if canonicalOnly && CanonicalFrom(key, compliant, 0) != Some(salt) {
      return None;
    }
    r := Some(Record(salt, addr, target.value));
  }

  // ----- the theorems -----

  /** The device and the generator agree on attempt 0 and, when it is accepted, on the key. */
  lemma SameKey(ref: Reference, perm: lanes -> lanes, entropy: seq<uint8>, f: poly, g: poly, pk: seq<uint8>)
    requires Faithful(ref, perm) && DeviceKey(perm, entropy, f, g, pk)
    ensures ref.attempt(KeygenSeed(entropy), 0) == (f, g)
    ensures ref.accepts(f, g) ==> ref.publicKey(f, g) == pk && Keygen(ref, KeygenSeed(entropy)) == Some(pk)
  {
    hide IsFirstSample, IsPublicKey, KeygenSeed, Invertible;
    if ref.accepts(f, g) {
      PublicKeyUnique(pk, ref.publicKey(f, g), f, g);
      KeygenStopsAtOnce(ref, KeygenSeed(entropy));
    }
  }

  /** The device hits at v's salt, and the host's check turns the hit into v. */
  ghost predicate GpuResult(q: search, ref: Reference, entropy: seq<uint8>, pk: seq<uint8>, v: Record) {
    KernelFinds(q, AddressesOf(pk), v.salt) && Verifies(q, ref, entropy, v.salt, v)
  }

  /**
   For every entropy, the GPU search's result is the CPU's, and it has one exactly when the CPU does,
   the first sample is accepted, the salt is in range, and no lower salt matches an active target.
   */
  lemma GpuResultExactly(q: search, ref: Reference, perm: lanes -> lanes, entropy: seq<uint8>,
                         f: poly, g: poly, pk: seq<uint8>, v: Record)
    requires Faithful(ref, perm) && DeviceKey(perm, entropy, f, g, pk)
    ensures GpuResult(q, ref, entropy, pk, v)
      <==> && CpuResult(q, ref, entropy, v) && ref.accepts(f, g)
           && v.salt <= q.maxSalt && LowestMatch(q, AddressesOf(pk), v.salt)
  {
    hide Faithful, DeviceKey, Keygen, KeygenSeed, KernelFinds, Usable, CpuFinds, LowestMatch, AddressesOf;
    SameKey(ref, perm, entropy, f, g, pk);
    GpuFindsExactly(q, AddressesOf(pk), v);
  }
}
