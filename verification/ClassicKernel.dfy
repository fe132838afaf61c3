/**
 The classic GPU search end to end: from the seeds of a launch through the batched key arithmetic, the
 matcher and the hit buffer to what a run prints.
 */
module ClassicKernel {
  import opened Wrappers
  import opened Bits
  import opened Digits
  import opened Targets
  import opened Ed25519Scalar
  import opened Ed25519Search
  import opened HitBuffer
  import opened Launches
  import opened Emissions
  import opened ClassicSearch
  import Address
  import DeviceMatch
  import SaltSearch
  import TargetSet

  type addr32 = Address.addr32

  // ----- the curve -----

  /**
   The group with its base point, the field of its coordinates, the affine coordinates of a point, their
   encoding, and the clamped hash of a seed.
   */
  datatype Curve<!G, !F> = Curve(group: Group<G>, base: G, field: Field<F>, affine: G -> (F, F),
                                 encode: (F, F) -> addr32, scalarOf: entropy -> scalar)

  /** A seed's address is its public key: the encoded multiple of the base point. */
  ghost function AddressOf<G, F>(c: Curve<G, F>, seed: entropy): addr32 {
    hide Times, Little;
    var a := c.affine(Times(c.group, Little(c.scalarOf(seed), 256), c.base));
    c.encode(a.0, a.1)
  }

  ghost function AddressIn<G, F>(c: Curve<G, F>): entropy -> addr32 {
    hide AddressOf;
    (seed: entropy) => AddressOf(c, seed)
  }

  /** Projective coordinates that stand for this point. */
  ghost predicate StandsForPoint<G, F>(c: Curve<G, F>, p: Point<F>, g: G) {
    && p.z != c.field.zero
    && (c.field.mul(p.x, c.field.inv(p.z)), c.field.mul(p.y, c.field.inv(p.z))) == c.affine(g)
  }

  /** Whatever projective coordinates the arithmetic arrives at for a seed's point, they stand for it. */
  ghost predicate AreCoordinates<G(!new), F>(c: Curve<G, F>, coords: (entropy, G) -> Point<F>) {
    forall seed, g :: StandsForPoint(c, coords(seed, g), g)
  }

  /** The group and field laws, and the shipped table of multiples of the base point. */
  ghost predicate IsCurve<G(!new), F(!new)>(c: Curve<G, F>, table: seq<seq<G>>) {
    IsAbelian(c.group) && IsField(c.field) && IsBaseTable(c.group, table, c.base)
  }

  /** `ed_pubkeys_batch`: a scalar multiplication for each seed, and one inversion for all. */
  method PubkeysBatch<G(!new), F(!new)>(c: Curve<G, F>, table: seq<seq<G>>, coords: (entropy, G) -> Point<F>,
                                        seeds: seq<entropy>)
    returns (pks: seq<addr32>)
    requires IsCurve(c, table) && AreCoordinates(c, coords) && |seeds| >= 1
    ensures |pks| == |seeds| && forall k :: 0 <= k < |seeds| ==> pks[k] == AddressOf(c, seeds[k])
  {
    hide IsAbelian, IsField, IsBaseTable, Times, Little;
    var points: seq<Point<F>> := [];
    ghost var gs: seq<G> := [];
    for k := 0 to |seeds|
      invariant |points| == |gs| == k
      invariant forall i :: 0 <= i < k ==>
        gs[i] == Times(c.group, Little(c.scalarOf(seeds[i]), 256), c.base) && StandsForPoint(c, points[i], gs[i])
    {
      var g := ScalarMultBase(c.group, table, c.scalarOf(seeds[k]), c.base);
      assert StandsForPoint(c, coords(seeds[k], g), g);
      points := points + [coords(seeds[k], g)];
      gs := gs + [g];
    }
    pks := EncodeBatch(c.field, points, c.encode);
    forall k | 0 <= k < |seeds| ensures pks[k] == AddressOf(c, seeds[k]) {
      assert StandsForPoint(c, points[k], gs[k]);
    }
  }

  // ----- the threads -----

  /** An address matches some target of the uploaded table. */
  ghost predicate Matches(targets: seq<Target>, a: addr32) {
    exists t :: t in targets && MatchesDisplay(t, Address.Display(a))
  }

  /** What must be recorded for key k: its seed, if its address matches. */
  ghost function SeedResult(matches: entropy -> bool, base: entropy, start: uint64, k: nat): Option<entropy> {
    hide KeyEntropy;
    if matches(KeyEntropy(base, start, k)) then Some(KeyEntropy(base, start, k)) else None
  }

  ghost predicate SeedResults(matches: entropy -> bool, base: entropy, start: uint64, first: nat,
                              rs: seq<Option<entropy>>) {
    forall k :: 0 <= k < |rs| ==> rs[k] == SeedResult(matches, base, start, first + k)
  }

  /** The seeds whose addresses match the table. */
  ghost function Hitting(address: entropy -> addr32, targets: seq<Target>): entropy -> bool {
    hide Matches;
    (seed: entropy) => Matches(targets, address(seed))
  }

  /** `ed_derive_seed` for some consecutive keys. */
  method DeriveSeeds(base: entropy, start: uint64, first: nat, nk: nat) returns (seeds: seq<entropy>)
    ensures |seeds| == nk && forall k :: 0 <= k < nk ==> seeds[k] == KeyEntropy(base, start, first + k)
  {
    hide DeriveEntropy;
    seeds := [];
    for k := 0 to nk
      invariant |seeds| == k && forall i :: 0 <= i < k ==> seeds[i] == KeyEntropy(base, start, first + i)
    {
      var out := new uint8[32];
      WriteEntropy(base, (start + (first + k)) % 0x1_0000_0000_0000_0000, out);
      seeds := seeds + [out[..]];
    }
  }

  const KEYS_PER_THREAD: nat := 8

  /** One thread of `ed_search_kernel`: at most eight consecutive keys. */
  method SearchThread<G(!new), F(!new)>(c: Curve<G, F>, table: seq<seq<G>>, coords: (entropy, G) -> Point<F>,
                                        targets: seq<Target>, base: entropy, start: uint64, items: nat, thread: nat)
    returns (rs: seq<Option<entropy>>)
    requires IsCurve(c, table) && AreCoordinates(c, coords) && SaltSearch.FitGpu(targets)
    ensures SeedResults(Hitting(AddressIn(c), targets), base, start, thread * 8, rs)
    ensures |rs| == if items <= thread * 8 then 0 else if items - thread * 8 < 8 then items - thread * 8 else 8
  {
    hide IsCurve, AreCoordinates, FitsDevice, MatchesDisplay, Address.Display, KeyEntropy, AddressOf;
    rs := [];
    var first := thread * KEYS_PER_THREAD;
    if first >= items {
      return;
    }
    var nk := if items - first < KEYS_PER_THREAD then items - first else KEYS_PER_THREAD;
    var seeds := DeriveSeeds(base, start, first, nk);
    var pks := PubkeysBatch(c, table, coords, seeds);
    for k := 0 to nk
      invariant |rs| == k && SeedResults(Hitting(AddressIn(c), targets), base, start, first, rs)
    {
      var found := DeviceMatch.MatchDisplayOnDevice(pks[k], targets);
      assert found <==> Hitting(AddressIn(c), targets)(seeds[k]);
      rs := rs + [if found then Some(seeds[k]) else None];
    }
  }

  /** All the threads of a launch, enough of them for its items. */
  method SearchKernel<G(!new), F(!new)>(c: Curve<G, F>, table: seq<seq<G>>, coords: (entropy, G) -> Point<F>,
                                        targets: seq<Target>, base: entropy, start: uint64, items: nat, threads: nat)
    returns (rs: seq<Option<entropy>>)
    requires IsCurve(c, table) && AreCoordinates(c, coords) && SaltSearch.FitGpu(targets)
    requires threads * 8 >= items
    ensures |rs| == items && SeedResults(Hitting(AddressIn(c), targets), base, start, 0, rs)
  {
    hide IsCurve, AreCoordinates, SaltSearch.FitGpu, SeedResult, Hitting;
    rs := [];
    for thread := 0 to threads
      invariant |rs| == if items <= thread * 8 then items else thread * 8
      invariant SeedResults(Hitting(AddressIn(c), targets), base, start, 0, rs)
    {
      var more := SearchThread(c, table, coords, targets, base, start, items, thread);
      rs := rs + more;
    }
  }

  // ----- the buffer -----

  ghost predicate BufferOf(matches: entropy -> bool, base: entropy, start: uint64, rs: seq<Option<entropy>>,
                           maxHits: int31, b: Buffer<entropy>, steps: nat) {
    && SeedResults(matches, base, start, 0, rs) && |rs| <= 0x1_0000_0000_0000_0000
    && Reachable(rs, maxHits, b, steps) && AllFinished(b)
  }

  /** The classic buffer holds only seeds of the batch that match, each once, however many there are. */
  lemma SeedRecords(matches: entropy -> bool, base: entropy, start: uint64, rs: seq<Option<entropy>>, maxHits: int31,
                    b: Buffer<entropy>, steps: nat)
    requires BufferOf(matches, base, start, rs, maxHits, b, steps)
    ensures forall w :: 0 <= w < |b.writes| ==>
      && matches(b.writes[w].record) && b.writes[w].key < |rs|
      && b.writes[w].record == KeyEntropy(base, start, b.writes[w].key)
    ensures forall v, w :: 0 <= v < w < |b.writes| ==> b.writes[v].record != b.writes[w].record
  {
    ReachableInv(rs, maxHits, b, steps);
    hide Reachable, Grants, Fates, AllFinished, KeyEntropy;
    forall w | 0 <= w < |b.writes|
      ensures matches(b.writes[w].record) && b.writes[w].key < |rs|
      ensures b.writes[w].record == KeyEntropy(base, start, b.writes[w].key)
    {
      WriteIsRecord(rs, maxHits, b, w);
      assert rs[b.writes[w].key] == SeedResult(matches, base, start, 0 + b.writes[w].key);
    }
    forall v, w | 0 <= v < w < |b.writes| ensures b.writes[v].record != b.writes[w].record {
      KeysDiffer(rs, maxHits, b, v, w);
      DifferentKeys(base, start, b.writes[v].key, b.writes[w].key);
    }
  }

  /** When everything fits, every matching seed of the batch is in the buffer. */
  lemma NoSeedLost(matches: entropy -> bool, base: entropy, start: uint64, rs: seq<Option<entropy>>, maxHits: int31,
                   b: Buffer<entropy>, steps: nat, k: nat)
    requires BufferOf(matches, base, start, rs, maxHits, b, steps) && |MatchingKeys(rs)| <= maxHits
    requires k < |rs| && matches(KeyEntropy(base, start, k))
    ensures exists w :: 0 <= w < |b.writes| && b.writes[w].record == KeyEntropy(base, start, k)
  {
    hide Reachable, AllFinished, KeyEntropy;
    assert rs[k] == SeedResult(matches, base, start, 0 + k);
    assert k in MatchingKeys(rs);
    NothingLost(rs, maxHits, b, steps, k);
    hide MatchingKeys;
    var i: nat :| SlotHolds(rs, b, i) && b.granted[i] == k;
  }

  // ----- the host's copy -----

  type launch = Launch<entropy>

  /** A launch for the targets active at its start; `ed_search_batch` returns l.hits. */
  ghost predicate IsLaunch(matches: entropy -> bool, l: launch) {
    && l.start == RunStart(l.base) && |l.rs| <= 0x1_0000_0000_0000_0000
    && SeedResults(matches, l.base, l.start, 0, l.rs) && HasFinished(l)
    && HostReads(l, EdCount(l.buffer.counter, l.maxHits))
  }

  /** Whatever the finished kernel has found, the host can copy its records. */
  lemma LaunchExists(matches: entropy -> bool, l: launch) returns (hits: seq<entropy>)
    requires l.start == RunStart(l.base) && |l.rs| <= 0x1_0000_0000_0000_0000
    requires SeedResults(matches, l.base, l.start, 0, l.rs) && HasFinished(l)
    ensures IsLaunch(matches, l.(hits := hits))
  {
    EdCanRead(l);
    hide SeedResults, HostReads, EdCount, Reachable, AllFinished, RunStart;
    hits :| HostReads(l.(hits := hits), EdCount(l.buffer.counter, l.maxHits));
  }

  /** The seed of some key of the launch. */
  ghost predicate IsSeedOf(l: launch, seed: entropy) {
    exists k: nat :: k < |l.rs| && seed == KeyEntropy(l.base, RunStart(l.base), k)
  }

  /** Every seed that the host gets is one of the batch's and matches. */
  lemma HitIsMatchingSeed(matches: entropy -> bool, l: launch, i: nat)
    requires IsLaunch(matches, l) && i < |l.hits|
    ensures IsSeedOf(l, l.hits[i]) && matches(l.hits[i])
  {
    hide HasFinished, KeyEntropy, RunStart, Copied;
    var k := CopiedIsResult(l, i);
    assert l.rs[k] == SeedResult(matches, l.base, l.start, 0 + k);
  }

  /** No seed comes twice. */
  lemma HitsDiffer(matches: entropy -> bool, l: launch, i: nat, j: nat)
    requires IsLaunch(matches, l) && i < j < |l.hits|
    ensures l.hits[i] != l.hits[j]
  {
    hide HasFinished, KeyEntropy, RunStart, Copied;
    var k, m := CopiedApart(l, i, j);
    assert l.rs[k] == SeedResult(matches, l.base, l.start, 0 + k);
    assert l.rs[m] == SeedResult(matches, l.base, l.start, 0 + m);
    DifferentKeys(l.base, l.start, k, m);
  }

  /** When everything fits, the host gets exactly the matching seeds of the batch. */
  lemma HitsExactly(matches: entropy -> bool, l: launch, seed: entropy)
    requires IsLaunch(matches, l) && |MatchingKeys(l.rs)| <= l.maxHits
    ensures seed in l.hits <==> IsSeedOf(l, seed) && matches(seed)
  {
    CopiedCount(l.rs, l.maxHits, l.buffer, l.steps);
    hide Reachable, AllFinished, KeyEntropy, RunStart, Copied, EdCount, PqCount, MatchingKeys;
    if seed in l.hits {
      var i: nat :| i < |l.hits| && l.hits[i] == seed;
      HitIsMatchingSeed(matches, l, i);
    }
    if IsSeedOf(l, seed) && matches(seed) {
      var k: nat :| k < |l.rs| && seed == KeyEntropy(l.base, RunStart(l.base), k);
      assert l.rs[k] == SeedResult(matches, l.base, l.start, 0 + k);
      CopyIsComplete(l, k);
    }
  }

  // ----- a whole run -----

  /** The display strings of a batch's hits, as the host derives them again. */
  ghost function Displays(address: entropy -> addr32, hits: seq<entropy>): (r: seq<string>)
    ensures |r| == |hits|
  {
    hide Address.Display;
    seq(|hits|, i requires 0 <= i < |hits| => Address.Display(address(hits[i])))
  }

  /** The targets still active after these emissions, and the seeds that match one of them. */
  ghost function MatchingAfter(address: entropy -> addr32, q: run, log: seq<emission>): entropy -> bool {
    hide FlagsAfter, SaltSearch.ActiveTargets;
    Hitting(address, SaltSearch.ActiveTargets(q.list, FlagsAfter(q.start, q.retire, log)))
  }

  /** Batch n of a run, launched for the targets that the first `lo` emissions left. */
  ghost predicate BatchRuns(address: entropy -> addr32, q: run, log: seq<emission>, lo: nat, n: nat, l: launch) {
    && lo <= |log| && n < |q.batches| && q.batches[n] == Displays(address, l.hits)
    && IsLaunch(MatchingAfter(address, q, log[..lo]), l)
  }

  /** The run's batches come from these launches. */
  ghost predicate RunsOn(address: entropy -> addr32, q: run, log: seq<emission>, cuts: seq<nat>, ran: nat,
                         launches: seq<launch>) {
    && |launches| == |q.batches| >= ran && |cuts| == ran + 1
    && forall n :: 0 <= n < ran ==> BatchRuns(address, q, log, cuts[n], n, launches[n])
  }

  /** Some active target matches exactly when the host's matcher finds one. */
  lemma FoundIfMatching(list: seq<Target>, active: seq<bool>, a: addr32)
    requires |list| == |active|
    ensures TargetSet.FirstMatchFrom(list, active, Address.Display(a), 0).Some?
       <==> Matches(SaltSearch.ActiveTargets(list, active), a)
  {
    hide MatchesDisplay, Address.Display, SaltSearch.ActiveTargets;
    var r := TargetSet.FirstMatchFrom(list, active, Address.Display(a), 0);
    if r.Some? {
      assert list[r.value] in SaltSearch.ActiveTargets(list, active);
    }
  }

  /** The host's check never fails: every hit matches a target that was active when the batch was launched. */
  lemma HostAgrees(address: entropy -> addr32, q: run, log: seq<emission>, lo: nat, n: nat, l: launch, i: nat)
    requires BatchRuns(address, q, log, lo, n, l) && i < |l.hits|
    ensures MatchAfter(BatchAfter(q, log[..lo], n), [], i).Some?
  {
    hide IsLaunch, FlagsAfter, Matches, SaltSearch.ActiveTargets, TargetSet.FirstMatchFrom, Address.Display;
    HitIsMatchingSeed(MatchingAfter(address, q, log[..lo]), l, i);
    var b := BatchAfter(q, log[..lo], n);
    NoMore(b.start, b.retire);
    FoundIfMatching(q.list, b.start, address(l.hits[i]));
  }

  lemma NoMore(start: seq<bool>, retire: bool)
    ensures FlagsAfter<nat>(start, retire, []) == start
  {
  }

  /** A batch with a hit emits an address, as long as one is wanted. */
  lemma HitMeansEmission(b: batch, log: seq<emission>, room: nat)
    requires Greedy(b, log, |b.displays|, room) && room >= 1 && b.displays != []
    requires MatchAfter(b, [], 0).Some?
    ensures |log| >= 1
  {
    hide MatchAfter;
    assert log[..0] == [];
    assert Between(log, 0, 0) ==> Passed(b, log, 0, 0, room);
  }

  /**
   Every address that a classic GPU run emits is that of a seed of its own batch, and matches the target
   it is emitted for.
   */
  lemma EmissionIsSeed(address: entropy -> addr32, q: run, log: seq<emission>, cuts: seq<nat>, ran: nat,
                       launches: seq<launch>, e: nat)
    requires RunsOn(address, q, log, cuts, ran, launches)
    requires AllMatch(q.list, q.batches, log) && BatchesBelow(log, ran) && e < |log|
    ensures log[e].target < |q.list| && log[e].batch < ran && log[e].found < |launches[log[e].batch].hits|
    ensures var seed := launches[log[e].batch].hits[log[e].found];
            && IsSeedOf(launches[log[e].batch], seed)
            && MatchesDisplay(q.list[log[e].target], Address.Display(address(seed)))
  {
    hide IsLaunch, MatchesDisplay, Address.Display, IsSeedOf;
    var n := log[e].batch;
    assert HitMatches(q.list, q.batches, log[e]);
    assert BatchRuns(address, q, log, cuts[n], n, launches[n]);
    HitIsMatchingSeed(MatchingAfter(address, q, log[..cuts[n]]), launches[n], log[e].found);
  }

  /** A batch of a run that has a hit emits at least one address while some are wanted. */
  lemma BatchEmits(address: entropy -> addr32, q: run, log: seq<emission>, cuts: seq<nat>, ran: nat,
                   launches: seq<launch>, n: nat)
    requires RunsOn(address, q, log, cuts, ran, launches) && GreedyRun(q, log, cuts, ran) && n < ran
    requires launches[n].hits != [] && cuts[n] < q.count
    ensures cuts[n] < cuts[n + 1]
  {
    hide *;
    BatchOfRun(address, q, log, cuts, ran, launches, n);
    PartOfRun(q, log, cuts, ran, n);
    HostAgrees(address, q, log, cuts[n], n, launches[n], 0);
    HitMeansEmission(BatchAfter(q, log[..cuts[n]], n), log[cuts[n]..cuts[n + 1]], q.count - cuts[n]);
  }

  /** Part n of the log is greedy on batch n. */
  lemma PartOfRun(q: run, log: seq<emission>, cuts: seq<nat>, ran: nat, n: nat)
    requires GreedyRun(q, log, cuts, ran) && n < ran
    ensures |cuts| == ran + 1 && n < |q.batches| && cuts[n] <= cuts[n + 1] <= |log| <= q.count
    ensures var b := BatchAfter(q, log[..cuts[n]], n);
            b.displays == q.batches[n] && Greedy(b, log[cuts[n]..cuts[n + 1]], |b.displays|, q.count - cuts[n])
  {
    hide Greedy;
    assert GreedyPart(q, log, cuts[n], cuts[n + 1], n);
  }

  /** Some seed of the launch matches. */
  ghost predicate SomeMatch(matches: entropy -> bool, l: launch) {
    exists seed :: IsSeedOf(l, seed) && matches(seed)
  }

  lemma SomeMatchCounts(matches: entropy -> bool, l: launch)
    requires IsLaunch(matches, l)
    ensures SomeMatch(matches, l) <==> |MatchingKeys(l.rs)| >= 1
  {
    hide HasFinished, HostReads, KeyEntropy, RunStart;
    if seed :| IsSeedOf(l, seed) && matches(seed) {
      var k: nat :| k < |l.rs| && seed == KeyEntropy(l.base, RunStart(l.base), k);
      assert l.rs[k] == SeedResult(matches, l.base, l.start, 0 + k);
      assert k in MatchingKeys(l.rs);
    }
    if k: nat :| k in MatchingKeys(l.rs) {
      assert l.rs[k] == SeedResult(matches, l.base, l.start, 0 + k);
      assert IsSeedOf(l, KeyEntropy(l.base, RunStart(l.base), k));
    }
  }

  /**
   While addresses are wanted, a batch with any room emits one exactly when its hit counter has not come
   back to zero; below 2^32 matches that is when some seed of it matches a target active at its launch.
   */
  lemma EmitsExactly(address: entropy -> addr32, q: run, log: seq<emission>, cuts: seq<nat>, ran: nat,
                     launches: seq<launch>, n: nat)
    requires RunsOn(address, q, log, cuts, ran, launches) && GreedyRun(q, log, cuts, ran) && n < ran
    requires cuts[n] < q.count && launches[n].maxHits >= 1
    ensures cuts[n] < cuts[n + 1] <==> |MatchingKeys(launches[n].rs)| % 0x1_0000_0000 != 0
    ensures |MatchingKeys(launches[n].rs)| < 0x1_0000_0000 ==>
              cuts[n] <= |log|
              && (cuts[n] < cuts[n + 1] <==> SomeMatch(MatchingAfter(address, q, log[..cuts[n]]), launches[n]))
  {
    hide *;
    BatchOfRun(address, q, log, cuts, ran, launches, n);
    var matches := MatchingAfter(address, q, log[..cuts[n]]);
    HitsUnlessWrapped(matches, launches[n]);
    SomeMatchCounts(matches, launches[n]);
    if launches[n].hits != [] {
      BatchEmits(address, q, log, cuts, ran, launches, n);
    } else {
      NoHitNoEmission(q, log, cuts, ran, n);
    }
  }

  lemma BatchOfRun(address: entropy -> addr32, q: run, log: seq<emission>, cuts: seq<nat>, ran: nat,
                   launches: seq<launch>, n: nat)
    requires RunsOn(address, q, log, cuts, ran, launches) && n < ran
    ensures |cuts| == ran + 1 && ran <= |launches| == |q.batches| && cuts[n] <= |log|
    ensures BatchRuns(address, q, log, cuts[n], n, launches[n])
    ensures q.batches[n] == Displays(address, launches[n].hits)
    ensures IsLaunch(MatchingAfter(address, q, log[..cuts[n]]), launches[n])
  {
    hide IsLaunch, MatchingAfter;
    assert BatchRuns(address, q, log, cuts[n], n, launches[n]);
  }

  lemma HitsUnlessWrapped(matches: entropy -> bool, l: launch)
    requires IsLaunch(matches, l) && l.maxHits >= 1
    ensures l.hits != [] <==> |MatchingKeys(l.rs)| % 0x1_0000_0000 != 0
  {
    hide HasFinished, MatchingKeys, SeedResults, Copied, RunStart;
    CounterOf(l);
  }

  lemma NoHitNoEmission(q: run, log: seq<emission>, cuts: seq<nat>, ran: nat, n: nat)
    requires GreedyRun(q, log, cuts, ran) && n < ran && n < |q.batches| && q.batches[n] == []
    ensures cuts[n] == cuts[n + 1]
  {
    hide *;
    PartOfRun(q, log, cuts, ran, n);
    EmptyBatch(BatchAfter(q, log[..cuts[n]], n), log[cuts[n]..cuts[n + 1]], q.count - cuts[n]);
  }

  lemma EmptyBatch(b: batch, log: seq<emission>, room: nat)
    requires Greedy(b, log, |b.displays|, room) && b.displays == []
    ensures log == []
  {
    hide Emitted, Passed, Between;
    assert |log| > 0 ==> log[0].found < |b.displays|;
  }
}
