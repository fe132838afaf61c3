/**
 The kernel end to end: what its threads leave in the hit buffer, and what becomes of those records on
 the host, in one batch and over a run.
 */
module KernelHits {
  import opened Wrappers
  import opened Bits
  import opened FalconPublic
  import opened PublicKey
  import opened Sampler
  import opened HitBuffer
  import opened Sequences
  import opened SaltSearch
  import opened GpuSearch
  import opened Emissions
  import opened Launches
  import GpuRun
  import VerifyHits

  /** A record of the hit buffer. */
  datatype RawHit = RawHit(entropy: entropy, salt: uint8)

  type results = seq<Option<RawHit>>

  // ----- one thread -----

  /** The thread for an entropy hits at this salt. */
  ghost predicate ThreadHit(perm: lanes -> lanes, q: search, e: entropy, salt: uint8) {
    exists f: poly, g: poly, pk: seq<uint8> :: HitWith(perm, q, e, salt, f, g, pk)
  }

  ghost predicate HitWith(perm: lanes -> lanes, q: search, e: entropy, salt: uint8,
                          f: poly, g: poly, pk: seq<uint8>) {
    DeviceKey(perm, e, f, g, pk) && KernelFinds(q, AddressesOf(pk), salt)
  }

  /** An entropy has one device key. */
  lemma DeviceKeyUnique(perm: lanes -> lanes, e: entropy, f: poly, g: poly, pk: seq<uint8>,
                        f': poly, g': poly, pk': seq<uint8>)
    requires DeviceKey(perm, e, f, g, pk) && DeviceKey(perm, e, f', g', pk')
    ensures f == f' && g == g' && pk == pk'
  {
    hide IsFirstSample, IsPublicKey, Invertible, KeygenSeed;
    FirstSampleUnique(f, g, f', g', perm, KeygenSeed(e));
    PublicKeyUnique(pk, pk', f, g);
  }

  /** An entropy has one hit at most. */
  lemma ThreadHitUnique(perm: lanes -> lanes, q: search, e: entropy, s: uint8, t: uint8)
    requires ThreadHit(perm, q, e, s) && ThreadHit(perm, q, e, t)
    ensures s == t
  {
    hide DeviceKey, AddressesOf, MatchAt;
    var f: poly, g: poly, pk: seq<uint8> :| HitWith(perm, q, e, s, f, g, pk);
    var f': poly, g': poly, pk': seq<uint8> :| HitWith(perm, q, e, t, f', g', pk');
    DeviceKeyUnique(perm, e, f, g, pk, f', g', pk');
  }

  /** What the thread of key k must record: the key's entropy and its lowest matching salt, or nothing. */
  ghost predicate KeyResult(perm: lanes -> lanes, q: search, base: entropy, start: uint64, k: nat,
                            r: Option<RawHit>) {
    match r
    case None => forall s :: !ThreadHit(perm, q, KeyEntropy(base, start, k), s)
    case Some(h) => h.entropy == KeyEntropy(base, start, k) && ThreadHit(perm, q, h.entropy, h.salt)
  }

  lemma HitIsResult(perm: lanes -> lanes, q: search, base: entropy, start: uint64, k: nat,
                    f: poly, g: poly, pk: seq<uint8>, salt: uint8)
    requires DeviceKey(perm, KeyEntropy(base, start, k), f, g, pk) && KernelFinds(q, AddressesOf(pk), salt)
    ensures KeyResult(perm, q, base, start, k, Some(RawHit(KeyEntropy(base, start, k), salt)))
  {
    hide DeviceKey, AddressesOf, KernelFinds, KeyEntropy;
    assert HitWith(perm, q, KeyEntropy(base, start, k), salt, f, g, pk);
  }

  lemma NoHitIsResult(perm: lanes -> lanes, q: search, base: entropy, start: uint64, k: nat,
                      f: poly, g: poly, pk: seq<uint8>)
    requires DeviceKey(perm, KeyEntropy(base, start, k), f, g, pk)
    requires forall s :: !KernelFinds(q, AddressesOf(pk), s)
    ensures KeyResult(perm, q, base, start, k, None)
  {
    hide DeviceKey, AddressesOf, KernelFinds, KeyEntropy;
    var e := KeyEntropy(base, start, k);
    forall s ensures !ThreadHit(perm, q, e, s) {
      if ThreadHit(perm, q, e, s) {
        var f': poly, g': poly, pk': seq<uint8> :| HitWith(perm, q, e, s, f', g', pk');
        DeviceKeyUnique(perm, e, f, g, pk, f', g', pk');
      }
    }
  }

  lemma SingularIsResult(perm: lanes -> lanes, q: search, base: entropy, start: uint64, k: nat, f: poly, g: poly)
    requires IsFirstSample(f, g, perm, KeygenSeed(KeyEntropy(base, start, k))) && !Invertible(f)
    ensures KeyResult(perm, q, base, start, k, None)
  {
    hide IsFirstSample, Invertible, IsPublicKey, AddressesOf, KernelFinds, KeyEntropy, KeygenSeed;
    var e := KeyEntropy(base, start, k);
    forall s ensures !ThreadHit(perm, q, e, s) {
      if ThreadHit(perm, q, e, s) {
        var f': poly, g': poly, pk': seq<uint8> :| HitWith(perm, q, e, s, f', g', pk');
        FirstSampleUnique(f, g, f', g', perm, KeygenSeed(e));
      }
    }
  }

  /** The thread for an entropy is not done: its draws do not suffice, or its salt loop is still running. */
  ghost predicate OutOfSteps(perm: lanes -> lanes, q: search, e: entropy, budget: nat, steps: nat) {
    || (forall f: poly, g: poly :: !SampledWithin(f, g, perm, KeygenSeed(e), budget))
    || exists f: poly, g: poly, pk: seq<uint8> :: StillAtWork(perm, q, e, steps, f, g, pk)
  }

  ghost predicate StillAtWork(perm: lanes -> lanes, q: search, e: entropy, steps: nat,
                              f: poly, g: poly, pk: seq<uint8>) {
    DeviceKey(perm, e, f, g, pk) && RunsFor(q, AddressesOf(pk), steps)
  }

  lemma TooFewDraws(perm: lanes -> lanes, q: search, e: entropy, budget: nat, steps: nat)
    requires forall f, g :: !SampledWithin(f, g, perm, KeygenSeed(e), budget)
    ensures OutOfSteps(perm, q, e, budget, steps)
  {
    hide SampledWithin, StillAtWork, KeygenSeed;
  }

  lemma TooFewSalts(perm: lanes -> lanes, q: search, e: entropy, budget: nat, steps: nat,
                    f: poly, g: poly, pk: seq<uint8>, state: LoopState)
    requires DeviceKey(perm, e, f, g, pk) && LoopRight(q, AddressesOf(pk), steps, state) && state.Running?
    ensures OutOfSteps(perm, q, e, budget, steps)
  {
    hide DeviceKey, RunsFor, KernelFinds, AddressesOf, SampledWithin, KeygenSeed;
    assert StillAtWork(perm, q, e, steps, f, g, pk);
  }

  /**
   The thread of key k, from its counter to its record; done unless its sampling or its salt loop ran
   out of steps.
   */
  method WholeThread(perm: lanes -> lanes, q: search, base: entropy, start: uint64, k: nat,
                     budget: nat, steps: nat)
    returns (done: bool, r: Option<RawHit>)
    requires q.maxSalt < 0x1_0000_0000 && FitGpu(q.list)
    ensures done ==> KeyResult(perm, q, base, start, k, r)
    ensures !done ==> OutOfSteps(perm, q, KeyEntropy(base, start, k), budget, steps)
  {
    hide KeyResult, OutOfSteps, KeyEntropy, DeriveEntropy, IsFirstSample, SampledWithin, Invertible, DeviceKey,
         KernelFinds, AddressesOf, FitGpu, KeygenSeed, LoopEnds, RunsFor;
    var buffer := new uint8[32];
    WriteEntropy(base, (start + k) % 0x1_0000_0000_0000_0000, buffer);
    var e: entropy := buffer[..];
    KeyEntropyIs(base, start, k);
    var key, state := KernelThread(perm, q, e, budget, steps);
    r := None;
    match key {
      case NotSampled =>
        done := false;
        TooFewDraws(perm, q, e, budget, steps);
      case Singular(f, g) =>
        SingularIsResult(perm, q, base, start, k, f, g);
        done := true;
      case Key(f, g, pk) =>
        done := state.Left?;
        if done {
          if state.hit.Some? {
            HitIsResult(perm, q, base, start, k, f, g, pk, state.hit.value);
            r := Some(RawHit(e, state.hit.value));
          } else {
            NoHitIsResult(perm, q, base, start, k, f, g, pk);
          }
        } else {
          TooFewSalts(perm, q, e, budget, steps, f, g, pk, state);
        }
    }
  }

  lemma KeyEntropyIs(base: entropy, start: uint64, k: nat)
    ensures KeyEntropy(base, start, k) == DeriveEntropy(base, (start + k) % 0x1_0000_0000_0000_0000)
  {
    hide DeriveEntropy;
  }

  // ----- the buffer of one batch -----

  ghost predicate ThreadResults(perm: lanes -> lanes, q: search, base: entropy, start: uint64, rs: results) {
    && |rs| <= 0x1_0000_0000_0000_0000
    && forall k :: 0 <= k < |rs| ==> KeyResult(perm, q, base, start, k, rs[k])
  }

  /** A record stands for key k: its entropy, and its lowest matching salt. */
  ghost predicate StandsFor(perm: lanes -> lanes, q: search, base: entropy, start: uint64, h: RawHit, k: nat) {
    h.entropy == KeyEntropy(base, start, k) && ThreadHit(perm, q, h.entropy, h.salt)
  }

  lemma WriteStandsFor(perm: lanes -> lanes, q: search, base: entropy, start: uint64, rs: results, maxHits: int31,
                       b: Buffer<RawHit>, w: nat)
    requires ThreadResults(perm, q, base, start, rs) && Fates(rs, maxHits, b) && w < |b.writes|
    ensures b.writes[w].key < |rs|
    ensures b.writes[w].record.entropy == KeyEntropy(base, start, b.writes[w].key)
    ensures StandsFor(perm, q, base, start, b.writes[w].record, b.writes[w].key)
  {
    WriteIsRecord(rs, maxHits, b, w);
    hide ThreadHit, KeyEntropy, Fates;
    assert KeyResult(perm, q, base, start, b.writes[w].key, rs[b.writes[w].key]);
  }

  /**
   A finished kernel with at most 2^31 hits: slot i holds the record of the i-th key that was granted a
   slot, at its lowest matching salt, and no two records have the same entropy.
   */
  lemma BufferRecords(perm: lanes -> lanes, q: search, base: entropy, start: uint64, rs: results, maxHits: int31,
                      b: Buffer<RawHit>, steps: nat)
    requires ThreadResults(perm, q, base, start, rs)
    requires Reachable(rs, maxHits, b, steps) && AllFinished(b) && |MatchingKeys(rs)| <= 0x8000_0000
    ensures forall i: nat :: i < |b.granted| && i < maxHits ==> SlotStandsFor(perm, q, base, start, b, i)
    ensures forall v, w :: 0 <= v < w < |b.writes| ==> b.writes[v].record.entropy != b.writes[w].record.entropy
  {
    hide Reachable, Grants, Fates, AllFinished, MatchingKeys, ThreadResults, SlotStandsFor, SlotHolds, Distinct;
    ReachableInv(rs, maxHits, b, steps);
    FinishedBuffer(rs, maxHits, b, steps);
    RecordsDiffer(perm, q, base, start, rs, maxHits, b);
    forall i: nat | i < |b.granted| && i < maxHits ensures SlotStandsFor(perm, q, base, start, b, i) {
      SlotRecord(perm, q, base, start, rs, maxHits, b, i);
    }
  }

  lemma RecordsDiffer(perm: lanes -> lanes, q: search, base: entropy, start: uint64, rs: results, maxHits: int31,
                      b: Buffer<RawHit>)
    requires ThreadResults(perm, q, base, start, rs) && Grants(rs, b) && Fates(rs, maxHits, b)
    ensures forall v, w :: 0 <= v < w < |b.writes| ==> b.writes[v].record.entropy != b.writes[w].record.entropy
  {
    hide *;
    KeysInBatch(perm, q, base, start, rs);
    forall v, w | 0 <= v < w < |b.writes| ensures b.writes[v].record.entropy != b.writes[w].record.entropy {
      WriteStandsFor(perm, q, base, start, rs, maxHits, b, v);
      WriteStandsFor(perm, q, base, start, rs, maxHits, b, w);
      KeysDiffer(rs, maxHits, b, v, w);
      DifferentKeys(base, start, b.writes[v].key, b.writes[w].key);
    }
  }

  /** Slot i was written with the record of the i-th granted key. */
  ghost predicate SlotStandsFor(perm: lanes -> lanes, q: search, base: entropy, start: uint64,
                                b: Buffer<RawHit>, i: nat) {
    && i < |b.granted|
    && exists w :: 0 <= w < |b.writes| && b.writes[w].slot == i
                   && StandsFor(perm, q, base, start, b.writes[w].record, b.granted[i])
  }

  lemma SlotRecord(perm: lanes -> lanes, q: search, base: entropy, start: uint64, rs: results, maxHits: int31,
                   b: Buffer<RawHit>, i: nat)
    requires ThreadResults(perm, q, base, start, rs) && SlotHolds(rs, b, i)
    ensures SlotStandsFor(perm, q, base, start, b, i)
  {
    hide KeyEntropy, ThreadHit;
    var w :| 0 <= w < |b.writes| && b.writes[w].slot == i && Some(b.writes[w].record) == rs[b.granted[i]];
    assert KeyResult(perm, q, base, start, b.granted[i], rs[b.granted[i]]);
    assert StandsFor(perm, q, base, start, b.writes[w].record, b.granted[i]);
  }

  lemma KeysInBatch(perm: lanes -> lanes, q: search, base: entropy, start: uint64, rs: results)
    requires ThreadResults(perm, q, base, start, rs)
    ensures |rs| <= 0x1_0000_0000_0000_0000
  {
    hide KeyResult;
  }

  /** When everything fits, every key that hits has its record: its entropy and its lowest matching salt. */
  lemma EveryHitIsRecorded(perm: lanes -> lanes, q: search, base: entropy, start: uint64, rs: results, maxHits: int31,
                           b: Buffer<RawHit>, steps: nat, k: nat, salt: uint8)
    requires ThreadResults(perm, q, base, start, rs) && k < |rs|
    requires Reachable(rs, maxHits, b, steps) && AllFinished(b) && |MatchingKeys(rs)| <= maxHits
    requires ThreadHit(perm, q, KeyEntropy(base, start, k), salt)
    ensures exists w :: 0 <= w < |b.writes| && b.writes[w].record == RawHit(KeyEntropy(base, start, k), salt)
  {
    hide KeyEntropy, ThreadHit, Reachable;
    assert KeyResult(perm, q, base, start, k, rs[k]);
    assert k in MatchingKeys(rs);
    NothingLost(rs, maxHits, b, steps, k);
    var i: nat :| SlotHolds(rs, b, i) && b.granted[i] == k;
    var w :| 0 <= w < |b.writes| && b.writes[w].slot == i && Some(b.writes[w].record) == rs[k];
    ThreadHitUnique(perm, q, KeyEntropy(base, start, k), b.writes[w].record.salt, salt);
  }

  // ----- on the host -----

  type launch = Launch<RawHit>

  ghost predicate IsLaunch(perm: lanes -> lanes, q: search, l: launch) {
    && ThreadResults(perm, q, l.base, l.start, l.rs) && HasFinished(l)
    && HostReads(l, PqCount(l.buffer.counter, l.maxHits))
  }

  /** A finished kernel's records can be copied exactly when the counter does not read as negative. */
  lemma LaunchExists(perm: lanes -> lanes, q: search, l: launch)
    requires ThreadResults(perm, q, l.base, l.start, l.rs) && HasFinished(l)
    ensures (exists hits: seq<RawHit> :: IsLaunch(perm, q, l.(hits := hits)))
       <==> |MatchingKeys(l.rs)| % 0x1_0000_0000 < 0x8000_0000
  {
    PqCanRead(l);
    hide ThreadResults, HostReads, MatchingKeys, PqCount, Reachable, AllFinished;
    var n := PqCount(l.buffer.counter, l.maxHits);
    if CanRead(l, n) {
      var hits: seq<RawHit> :| HostReads(l.(hits := hits), n);
      assert IsLaunch(perm, q, l.(hits := hits));
    }
    if hits: seq<RawHit> :| IsLaunch(perm, q, l.(hits := hits)) {
      assert HostReads(l.(hits := hits), n);
    }
  }

  /** Every copied record stands for a key of the batch. */
  lemma CopiedStandsFor(perm: lanes -> lanes, q: search, l: launch, i: nat) returns (k: nat)
    requires IsLaunch(perm, q, l) && i < |l.hits|
    ensures k < |l.rs| && StandsFor(perm, q, l.base, l.start, l.hits[i], k)
  {
    hide HasFinished, Copied, KeyEntropy, ThreadHit;
    assert Copied(l, i);
    k := CopiedIsResult(l, i);
    assert KeyResult(perm, q, l.base, l.start, k, l.rs[k]);
  }

  /** `verify_hits` on the copied records: each verdict is the host's check of that record. */
  ghost predicate Checked(q: search, ref: Reference, hits: seq<RawHit>, vs: GpuRun.verdicts) {
    && |vs| == |hits|
    && forall i, v :: 0 <= i < |hits| ==> Judged(q, ref, hits[i], vs[i], v)
  }

  ghost predicate Judged(q: search, ref: Reference, h: RawHit, r: Option<Record>, v: Record) {
    r == Some(v) <==> Verifies(q, ref, h.entropy, h.salt, v)
  }

  /** `verify_hits` with `verify_one`, its threads' steps taken in any order. */
  method CheckHits(q: search, ref: Reference, hits: seq<RawHit>, threads: nat, schedule: seq<nat>)
    returns (vs: GpuRun.verdicts)
    requires threads >= 1
    ensures Checked(q, ref, hits, vs)
  {
    hide Verdict, Verifies;
    vs := VerifyHits.VerifyHits(hits, (h: RawHit) => Verdict(q, ref, h.entropy, h.salt), threads, schedule);
  }

  /** A thread's hit that the host accepts is the CPU's record for that entropy. */
  lemma HitIsCpuResult(perm: lanes -> lanes, q: search, ref: Reference, e: entropy, salt: uint8, v: Record)
    requires Faithful(ref, perm) && ThreadHit(perm, q, e, salt) && Verifies(q, ref, e, salt, v)
    ensures CpuResult(q, ref, e, v)
  {
    hide Faithful, DeviceKey, KernelFinds, AddressesOf, CpuResult, KeygenSeed, Usable;
    var f: poly, g: poly, pk: seq<uint8> :| HitWith(perm, q, e, salt, f, g, pk);
    assert GpuResult(q, ref, e, pk, v);
    GpuResultExactly(q, ref, perm, e, f, g, pk, v);
  }

  /** The verdicts meet what the batch loop assumes of them. */
  lemma CheckedMatches(q: search, ref: Reference, hits: seq<RawHit>, vs: GpuRun.verdicts)
    requires Checked(q, ref, hits, vs)
    ensures GpuRun.Matching(q.list, vs)
  {
    hide Usable, KeygenSeed, AddressesOf, GpuRun.RecordMatches;
    forall i | 0 <= i < |vs| && vs[i].Some? ensures GpuRun.RecordMatches(q.list, vs[i].value) {
      var v := vs[i].value;
      assert Judged(q, ref, hits[i], vs[i], v);
      var fg := ref.attempt(KeygenSeed(hits[i].entropy), 0);
      GpuRun.UsableMatches(q, AddressesOf(ref.publicKey(fg.0, fg.1)), v);
    }
  }

  // ----- what one batch finds -----

  /** The CPU records v for key k, by its first attempt, in the device's range, and no lower salt matches. */
  ghost predicate Findable(perm: lanes -> lanes, q: search, ref: Reference, l: launch, k: nat, v: Record) {
    && k < |l.rs|
    && exists f: poly, g: poly, pk: seq<uint8> ::
         FindableWith(perm, q, ref, KeyEntropy(l.base, l.start, k), v, f, g, pk)
  }

  ghost predicate FindableWith(perm: lanes -> lanes, q: search, ref: Reference, e: entropy, v: Record,
                               f: poly, g: poly, pk: seq<uint8>) {
    && DeviceKey(perm, e, f, g, pk) && CpuResult(q, ref, e, v) && ref.accepts(f, g)
    && v.salt <= q.maxSalt && LowestMatch(q, AddressesOf(pk), v.salt)
  }

  /** For one entropy, a hit that passes the host's check is a findable record, and the other way round. */
  lemma FindableIsGpuResult(perm: lanes -> lanes, q: search, ref: Reference, e: entropy, v: Record)
    requires Faithful(ref, perm)
    ensures ThreadHit(perm, q, e, v.salt) && Verifies(q, ref, e, v.salt, v)
      <==> exists f: poly, g: poly, pk: seq<uint8> :: FindableWith(perm, q, ref, e, v, f, g, pk)
  {
    hide Faithful, DeviceKey, KernelFinds, AddressesOf, CpuResult, Verifies, LowestMatch;
    if ThreadHit(perm, q, e, v.salt) && Verifies(q, ref, e, v.salt, v) {
      var f: poly, g: poly, pk: seq<uint8> :| HitWith(perm, q, e, v.salt, f, g, pk);
      assert GpuResult(q, ref, e, pk, v);
      GpuResultExactly(q, ref, perm, e, f, g, pk, v);
      assert FindableWith(perm, q, ref, e, v, f, g, pk);
    }
    if f: poly, g: poly, pk: seq<uint8> :| FindableWith(perm, q, ref, e, v, f, g, pk) {
      GpuResultExactly(q, ref, perm, e, f, g, pk, v);
      assert HitWith(perm, q, e, v.salt, f, g, pk);
    }
  }

  /** Whatever the host's check accepts is findable. */
  lemma VerdictIsFindable(perm: lanes -> lanes, q: search, ref: Reference, l: launch, vs: GpuRun.verdicts, i: nat)
    returns (k: nat)
    requires Faithful(ref, perm) && IsLaunch(perm, q, l) && Checked(q, ref, l.hits, vs)
    requires i < |vs| && vs[i].Some?
    ensures Findable(perm, q, ref, l, k, vs[i].value)
  {
    hide Faithful, KeyEntropy, ThreadHit, Verifies, IsLaunch, FindableWith;
    k := CopiedStandsFor(perm, q, l, i);
    var v := vs[i].value;
    assert Judged(q, ref, l.hits[i], vs[i], v);
    VerdictSalt(q, ref, l.hits[i].entropy, l.hits[i].salt, v);
    FindableIsGpuResult(perm, q, ref, KeyEntropy(l.base, l.start, k), v);
  }

  lemma VerdictSalt(q: search, ref: Reference, e: entropy, salt: uint8, v: Record)
    requires Verifies(q, ref, e, salt, v)
    ensures v.salt == salt
  {
    hide Usable, KeygenSeed, AddressesOf;
  }

  lemma FindableHits(perm: lanes -> lanes, q: search, ref: Reference, l: launch, k: nat, v: Record)
    requires Faithful(ref, perm) && Findable(perm, q, ref, l, k, v)
    ensures k < |l.rs| && ThreadHit(perm, q, KeyEntropy(l.base, l.start, k), v.salt)
    ensures Verifies(q, ref, KeyEntropy(l.base, l.start, k), v.salt, v)
  {
    hide Faithful, KeyEntropy, ThreadHit, Verifies, FindableWith;
    FindableIsGpuResult(perm, q, ref, KeyEntropy(l.base, l.start, k), v);
  }

  lemma KeyRecorded(perm: lanes -> lanes, q: search, l: launch, k: nat, salt: uint8)
    requires IsLaunch(perm, q, l) && k < |l.rs| && ThreadHit(perm, q, KeyEntropy(l.base, l.start, k), salt)
    ensures l.rs[k] == Some(RawHit(KeyEntropy(l.base, l.start, k), salt))
  {
    hide KeyEntropy, ThreadHit, HasFinished, HostReads;
    assert KeyResult(perm, q, l.base, l.start, k, l.rs[k]);
    ThreadHitUnique(perm, q, KeyEntropy(l.base, l.start, k), l.rs[k].value.salt, salt);
  }

  lemma CopyFits(perm: lanes -> lanes, q: search, l: launch)
    requires IsLaunch(perm, q, l) && |MatchingKeys(l.rs)| <= l.maxHits
    ensures HasFinished(l) && HostReads(l, |MatchingKeys(l.rs)|)
  {
    hide ThreadResults, HostReads, MatchingKeys, PqCount, EdCount, Reachable, AllFinished;
    CopiedCount(l.rs, l.maxHits, l.buffer, l.steps);
  }

  lemma JudgedAs(q: search, ref: Reference, hits: seq<RawHit>, vs: GpuRun.verdicts, i: nat, v: Record)
    requires Checked(q, ref, hits, vs) && i < |hits|
    ensures |vs| == |hits| && (vs[i] == Some(v) <==> Verifies(q, ref, hits[i].entropy, hits[i].salt, v))
  {
    hide Verifies;
    assert Judged(q, ref, hits[i], vs[i], v);
  }

  /** When everything fits, a findable record is among the verdicts. */
  lemma FindableIsFound(perm: lanes -> lanes, q: search, ref: Reference, l: launch, vs: GpuRun.verdicts,
                        k: nat, v: Record)
    requires Faithful(ref, perm) && IsLaunch(perm, q, l) && Checked(q, ref, l.hits, vs)
    requires |MatchingKeys(l.rs)| <= l.maxHits && Findable(perm, q, ref, l, k, v)
    ensures Some(v) in vs
  {
    hide *;
    FindableHits(perm, q, ref, l, k, v);
    KeyRecorded(perm, q, l, k, v.salt);
    CopyFits(perm, q, l);
    CopyIsComplete(l, k);
    var i: nat :| i < |l.hits| && l.hits[i] == l.rs[k].value;
    JudgedAs(q, ref, l.hits, vs, i, v);
  }

  /**
   A batch with room for all its hits: the host's verdicts are exactly what the CPU records for its
   keys by their first attempts, in the device's range, below no other matching salt.
   */
  lemma BatchFindsExactly(perm: lanes -> lanes, q: search, ref: Reference, l: launch, vs: GpuRun.verdicts, v: Record)
    requires Faithful(ref, perm) && IsLaunch(perm, q, l) && Checked(q, ref, l.hits, vs)
    requires |MatchingKeys(l.rs)| <= l.maxHits
    ensures Some(v) in vs <==> exists k: nat :: Findable(perm, q, ref, l, k, v)
  {
    hide Faithful, IsLaunch, Checked, MatchingKeys, Findable;
    if Some(v) in vs {
      var i: nat :| i < |vs| && vs[i] == Some(v);
      var k := VerdictIsFindable(perm, q, ref, l, vs, i);
    }
    if k: nat :| Findable(perm, q, ref, l, k, v) {
      FindableIsFound(perm, q, ref, l, vs, k, v);
    }
  }

  // ----- a whole run -----

  /** The search that batch n launches: the same, with the flags that the earlier batches left. */
  ghost function SearchAt(q: search, retire: bool, siblings: bool, batches: seq<GpuRun.verdicts>, count: nat, n: nat)
    : search
    requires n <= |batches|
  {
    hide FlagsAfter, GpuRun.RunLog;
    q.(active := FlagsAfter(q.active, retire, GpuRun.RunLog(q.active, retire, siblings, batches, count, n)))
  }

  /** v is what the CPU records for the entropy of some key of the launch. */
  ghost predicate CpuFindsInBatch(q: search, ref: Reference, l: launch, v: Record) {
    exists k: nat :: k < |l.rs| && CpuResult(q, ref, KeyEntropy(l.base, l.start, k), v)
  }

  lemma VerdictIsCpuResult(perm: lanes -> lanes, q: search, ref: Reference, l: launch, vs: GpuRun.verdicts, i: nat)
    requires Faithful(ref, perm) && IsLaunch(perm, q, l) && Checked(q, ref, l.hits, vs)
    requires i < |vs| && vs[i].Some?
    ensures CpuFindsInBatch(q, ref, l, vs[i].value)
  {
    hide Faithful, CpuResult, KeyEntropy, ThreadHit, Verifies;
    var k := CopiedStandsFor(perm, q, l, i);
    assert Judged(q, ref, l.hits[i], vs[i], vs[i].value);
    HitIsCpuResult(perm, q, ref, l.hits[i].entropy, l.hits[i].salt, vs[i].value);
    assert CpuResult(q, ref, KeyEntropy(l.base, l.start, k), vs[i].value);
  }

  /** Every emission comes from a verdict of its own batch. */
  lemma {:induction false} EmissionIsVerdict(start: seq<bool>, retire: bool, siblings: bool,
                                             batches: seq<GpuRun.verdicts>, count: nat, n: nat, e: nat)
    returns (j: nat)
    requires n <= |batches| && e < |GpuRun.RunLog(start, retire, siblings, batches, count, n)|
    ensures var x := GpuRun.RunLog(start, retire, siblings, batches, count, n)[e];
            x.batch < n && j < |batches[x.batch]| && batches[x.batch][j] == Some(x.found)
  {
    hide GpuRun.Due, FlagsAfter;
    if n == 0 {
      assert false;
    } else {
      var log := GpuRun.RunLog(start, retire, siblings, batches, count, n - 1);
      if e < |log| {
        j := EmissionIsVerdict(start, retire, siblings, batches, count, n - 1, e);
      } else {
        var b := GpuRun.Batch(FlagsAfter(start, retire, log), retire, siblings, batches[n - 1], |log|, n - 1);
        j := GpuRun.DueEntry(b, |b.hits|, e - |log|);
      }
    }
  }

  /**
   Every address that a GPU run emits is what the CPU search, with the targets active when the batch was
   launched, records for the entropy of some key of that batch.
   */
  lemma RunEmitsCpuResults(perm: lanes -> lanes, q: search, ref: Reference, retire: bool, siblings: bool,
                           launches: seq<launch>, batches: seq<GpuRun.verdicts>, count: nat, ran: nat, e: nat)
    requires Faithful(ref, perm) && ran <= |batches| == |launches|
    requires forall n :: 0 <= n < ran ==>
      BatchRuns(perm, SearchAt(q, retire, siblings, batches, count, n), ref, launches[n], batches[n])
    requires e < |GpuRun.RunLog(q.active, retire, siblings, batches, count, ran)|
    ensures var x := GpuRun.RunLog(q.active, retire, siblings, batches, count, ran)[e];
            x.batch < ran
            && CpuFindsInBatch(SearchAt(q, retire, siblings, batches, count, x.batch), ref, launches[x.batch], x.found)
  {
    hide Faithful, SearchAt, CpuFindsInBatch, IsLaunch, Checked, GpuRun.RunLog;
    var j := EmissionIsVerdict(q.active, retire, siblings, batches, count, ran, e);
    var x := GpuRun.RunLog(q.active, retire, siblings, batches, count, ran)[e];
    var n := x.batch;
    var qn := SearchAt(q, retire, siblings, batches, count, n);
    assert BatchRuns(perm, qn, ref, launches[n], batches[n]);
    VerdictIsCpuResult(perm, qn, ref, launches[n], batches[n], j);
  }

  /** A batch: a launch, and the host's verdicts on what it copied. */
  ghost predicate BatchRuns(perm: lanes -> lanes, q: search, ref: Reference, l: launch, vs: GpuRun.verdicts) {
    IsLaunch(perm, q, l) && Checked(q, ref, l.hits, vs)
  }
}
