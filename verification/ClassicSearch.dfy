/** The classic (ed25519) search loops: one CPU run of consecutive seeds, and the GPU batch loop. */
module ClassicSearch {
  import opened Wrappers
  import opened Targets
  import opened HitBuffer
  import opened Emissions
  import Address
  import TargetSet

  // ----- one CPU run -----

  /** How a run ended: with a match, on seeing the stop flag, or after its last seed. */
  datatype RunEnd = Hit(seed: entropy, target: nat) | Stopped | Exhausted

  /** The targets, what their flags read at the i-th seed of the run, and each seed's address. */
  datatype Matcher = Matcher(list: seq<Target>, flags: nat -> seq<bool>, address: entropy -> Address.addr32)

  ghost predicate HasFlags(m: Matcher) {
    forall i :: |m.flags(i)| == |m.list|
  }

  /** The i-th seed of the run from a base: the base itself, then its successors. */
  function SeedAt(base: entropy, i: nat): entropy {
    hide KeyEntropy, RunStart;
    KeyEntropy(base, RunStart(base), i)
  }

  /** Target t is active at the i-th seed, and this seed's address matches it. */
  ghost predicate MatchesTarget(m: Matcher, i: nat, seed: entropy, t: nat)
    requires HasFlags(m)
  {
    hide MatchesDisplay, Address.Display;
    t < |m.list| && m.flags(i)[t] && MatchesDisplay(m.list[t], Address.Display(m.address(seed)))
  }

  /** The first target active by then that the i-th seed's address matches; `TargetSet.FirstMatch` finds it. */
  function MatchOfSeed(m: Matcher, base: entropy, i: nat): (r: Option<nat>)
    requires HasFlags(m)
    ensures r.Some? ==> MatchesTarget(m, i, SeedAt(base, i), r.value)
  {
    hide MatchesDisplay, Address.Display, SeedAt;
    TargetSet.FirstMatchFrom(m.list, m.flags(i), Address.Display(m.address(SeedAt(base, i))), 0)
  }

  /**
   One run of `cpu_worker` from a base. `stop` is what the stop flag reads after so many seeds. The first
   match ends the run, the stop flag is obeyed at every 1024th seed, and every seed tried is counted once.
   */
  method CpuRun(m: Matcher, base: entropy, stop: nat -> bool, keys: nat) returns (end: RunEnd, counted: nat)
    requires HasFlags(m)
    ensures keys <= counted <= keys + 32768
    ensures forall i :: 0 <= i < counted - keys - (if end.Hit? then 1 else 0) ==> MatchOfSeed(m, base, i).None?
    ensures end.Hit? ==>
              && counted > keys && end.seed == SeedAt(base, counted - keys - 1)
              && MatchOfSeed(m, base, counted - keys - 1) == Some(end.target)
    ensures end.Hit? ==> MatchesTarget(m, counted - keys - 1, end.seed, end.target)
    ensures NeverStopped(stop, counted - keys - (if end.Exhausted? then 0 else 1))
    ensures end.Stopped? ==> (counted - keys) % 1024 == 0 && stop(counted - keys)
    ensures end.Exhausted? ==> counted == keys + 32768
  {
    hide SeedAt, MatchOfSeed, MatchesTarget;
    var done := 0;
    counted := keys;
    var i := 0;
    while i < 32768
      invariant 0 <= i <= 32768 && 0 <= done < 1024 && counted + done == keys + i && i % 1024 == done
      invariant forall k :: 0 <= k < i ==> MatchOfSeed(m, base, k).None?
      invariant NeverStopped(stop, i)
    {
      var seed := SeedAt(base, i);
      done := done + 1;
      var t := MatchOfSeed(m, base, i);
      if t.Some? {
        counted := counted + done;
        return Hit(seed, t.value), counted;
      }
      i := i + 1;
      if done == 1024 {
        counted := counted + done;
        done := 0;
        if stop(i) {
          return Stopped, counted;
        }
      }
    }
    return Exhausted, counted + done;
  }

  /** At every check among the first n seeds the stop flag was clear. */
  ghost predicate NeverStopped(stop: nat -> bool, n: int) {
    forall k: nat :: 0 < k <= n && k % 1024 == 0 ==> !stop(k)
  }

  /** No two seeds of a run are equal, and the first is the base. */
  lemma RunSeeds(base: entropy, i: nat, j: nat)
    requires i < j < 32768
    ensures SeedAt(base, i) != SeedAt(base, j) && SeedAt(base, 0) == base
  {
    hide KeyEntropy, RunStart;
    EntropiesDiffer(base, RunStart(base), i, j);
    FirstKeyIsBase(base);
  }

  // ----- one batch of the GPU search -----

  /** An emission, found at this hit of its batch. */
  type emission = Emission<nat>

  /**
   A batch: the targets, their flags when it began, the mode, the display strings of its hits, how many
   addresses were emitted before it, and its index.
   */
  datatype ClassicBatch = ClassicBatch(list: seq<Target>, start: seq<bool>, retire: bool, siblings: bool,
                                       displays: seq<string>, found: nat, index: nat)

  type batch = b: ClassicBatch | |b.list| == |b.start| witness ClassicBatch([], [], true, true, [], 0, 0)

  /** The first target that hit j matches, among those still active after the emissions. */
  ghost function MatchAfter(b: batch, log: seq<emission>, j: nat): (r: Option<nat>)
    requires j < |b.displays|
    ensures r.Some? ==>
              && r.value < |b.list| && FlagsAfter(b.start, b.retire, log)[r.value]
              && MatchesDisplay(b.list[r.value], b.displays[j])
  {
    hide FlagsAfter, MatchesDisplay;
    TargetSet.FirstMatchFrom(b.list, FlagsAfter(b.start, b.retire, log), b.displays[j], 0)
  }

  /** Entry e is a hit's first target still active after the entries before it, under the next number. */
  ghost predicate Emitted(b: batch, log: seq<emission>, e: nat)
    requires e < |log|
  {
    && log[e].found < |b.displays| && (e > 0 ==> log[e - 1].found < log[e].found)
    && MatchAfter(b, log[..e], log[e].found) == Some(log[e].target)
    && log[e].number == b.found + e + 1 && log[e].batch == b.index
    && (b.siblings || e == 0)
  }

  /** Hit j comes after e entries and before the next. */
  ghost predicate Between(log: seq<emission>, e: nat, j: nat)
    requires e <= |log|
  {
    (e > 0 ==> log[e - 1].found < j) && (e < |log| ==> j < log[e].found)
  }

  /** Hit j was rightly passed over when e entries had been made. */
  ghost predicate Passed(b: batch, log: seq<emission>, e: nat, j: nat, room: nat)
    requires e <= |log| && j < |b.displays|
  {
    MatchAfter(b, log[..e], j).None? || (!b.siblings && e >= 1) || e == room
  }

  /**
   The emissions of the first n hits: each for the first target still active that it matches, and
   nothing is passed over that could have been emitted.
   */
  ghost predicate Greedy(b: batch, log: seq<emission>, n: nat, room: nat)
    requires n <= |b.displays|
  {
    && |log| <= room
    && (forall e :: 0 <= e < |log| ==> Emitted(b, log, e) && log[e].found < n)
    && forall e, j :: 0 <= e <= |log| && 0 <= j < n && Between(log, e, j) ==> Passed(b, log, e, j, room)
  }

  lemma GreedyPasses(b: batch, log: seq<emission>, n: nat, room: nat)
    requires n < |b.displays| && Greedy(b, log, n, room) && Passed(b, log, |log|, n, room)
    ensures Greedy(b, log, n + 1, room)
  {
    hide Passed, Emitted;
    assert forall e :: 0 <= e < |log| ==> Emitted(b, log, e) && log[e].found < n;
    forall e, j | 0 <= e <= |log| && 0 <= j < n + 1 && Between(log, e, j) ensures Passed(b, log, e, j, room) {
    }
  }

  lemma GreedyEmits(b: batch, log: seq<emission>, n: nat, room: nat, t: nat)
    requires n < |b.displays| && Greedy(b, log, n, room) && |log| < room
    requires MatchAfter(b, log, n) == Some(t) && (b.siblings || log == [])
    ensures Greedy(b, log + [Emission(b.found + |log| + 1, b.index, t, n)], n + 1, room)
  {
    hide MatchAfter;
    var more := log + [Emission(b.found + |log| + 1, b.index, t, n)];
    assert more[..|log|] == log[..|log|] == log;
    forall e | 0 <= e < |more| ensures Emitted(b, more, e) && more[e].found < n + 1 {
      if e < |log| {
        assert Emitted(b, log, e) && more[..e] == log[..e];
      } else if e > 0 {
        assert Emitted(b, log, e - 1);
      }
    }
    forall e, j | 0 <= e <= |more| && 0 <= j < n + 1 && Between(more, e, j) ensures Passed(b, more, e, j, room) {
      assert more[|log|].found == n;
      assert e <= |log| && j < n;
      assert more[..e] == log[..e] && Between(log, e, j);
      assert Passed(b, log, e, j, room);
    }
  }

  ghost function BatchOf(targets: TargetSet.TargetSet, siblings: bool, displays: seq<string>, found: nat, index: nat)
    : batch
    requires targets.Valid()
    reads targets.active
  {
    ClassicBatch(targets.list, targets.active[..], targets.retire, siblings, displays, found, index)
  }

  /** The loop over one batch's hits. */
  method EmitClassicBatch(targets: TargetSet.TargetSet, displays: seq<string>, siblings: bool, found: nat, index: nat,
                          count: nat)
    returns (log: seq<emission>)
    requires targets.Valid() && found < count
    modifies targets.active
    ensures Greedy(old(BatchOf(targets, siblings, displays, found, index)), log, |displays|, count - found)
    ensures targets.active[..] == FlagsAfter(old(targets.active[..]), targets.retire, log)
  {
    hide Greedy, FlagsAfter;
    ghost var b := BatchOf(targets, siblings, displays, found, index);
    ghost var room := count - found;
    log := [];
    NothingYet(b, room);
    var i := 0;
    while i < |displays|
      invariant i <= |displays| && |log| < room && Greedy(b, log, i, room)
      invariant targets.active[..] == FlagsAfter(b.start, b.retire, log)
    {
      assert log[..|log|] == log;
      var t := targets.FirstMatchDisplay(displays[i]);
      if t.None? || (!siblings && |log| >= 1) {
        GreedyPasses(b, log, i, room);
        i := i + 1;
        continue;
      }
      GreedyEmits(b, log, i, room, t.value);
      var e: emission := Emission(found + |log| + 1, index, t.value, i);
      FlagsNext(b.start, b.retire, log, e);
      var won := targets.Claim(t.value);
      log := log + [e];
      i := i + 1;
      var left := targets.AnyActive();
      if found + |log| >= count || !left {
        break;
      }
    }
    RestPasses(b, log, i, room);
  }

  lemma NothingYet(b: batch, room: nat)
    ensures Greedy(b, [], 0, room) && FlagsAfter<nat>(b.start, b.retire, []) == b.start
  {
  }

  /** Once the room is used up or no target is active, every later hit is passed over. */
  lemma RestPasses(b: batch, log: seq<emission>, i: nat, room: nat)
    requires i <= |b.displays| && Greedy(b, log, i, room)
    requires i == |b.displays| || |log| == room || true !in FlagsAfter(b.start, b.retire, log)
    ensures Greedy(b, log, |b.displays|, room)
    decreases |b.displays| - i
  {
    hide Greedy, FlagsAfter;
    assert log[..|log|] == log;
    if i < |b.displays| {
      GreedyPasses(b, log, i, room);
      RestPasses(b, log, i + 1, room);
    }
  }

  // ----- a whole run of the GPU search -----

  /** Every emission is for a target that its hit's display string matches. */
  ghost predicate AllMatch(list: seq<Target>, batches: seq<seq<string>>, log: seq<emission>) {
    forall e :: 0 <= e < |log| ==> HitMatches(list, batches, log[e])
  }

  ghost predicate HitMatches(list: seq<Target>, batches: seq<seq<string>>, e: emission) {
    && e.batch < |batches| && e.found < |batches[e.batch]| && e.target < |list|
    && MatchesDisplay(list[e.target], batches[e.batch][e.found])
  }

  /** An entry's target was active when its batch began, and no earlier entry retired it. */
  lemma EntryIsActive(b: batch, log: seq<emission>, e: nat)
    requires e < |log| && Emitted(b, log, e)
    ensures log[e].target < |b.list| && b.start[log[e].target]
    ensures b.retire ==> !WasHit(log[..e], log[e].target)
    ensures MatchesDisplay(b.list[log[e].target], b.displays[log[e].found])
  {
    hide WasHit, MatchesDisplay;
  }

  /** The emissions of a batch make a good batch. */
  lemma GreedyIsGood(b: batch, log: seq<emission>, room: nat, batches: seq<seq<string>>)
    requires Greedy(b, log, |b.displays|, room) && b.index < |batches| && batches[b.index] == b.displays
    ensures GoodBatch(b.start, b.retire, b.siblings, b.found, b.index, log) && AllMatch(b.list, batches, log)
  {
    forall e | 0 <= e < |log|
      ensures log[e].number == b.found + e + 1 && log[e].batch == b.index
      ensures log[e].target < |b.start| && b.start[log[e].target]
      ensures HitMatches(b.list, batches, log[e])
    {
      assert Emitted(b, log, e);
      EntryIsActive(b, log, e);
    }
    forall d, e | 0 <= d < e < |log| ensures b.retire ==> log[d].target != log[e].target {
      assert Emitted(b, log, e);
      EntryIsActive(b, log, e);
      assert log[..e][d] == log[d];
      EntryIsHit(log[..e], d);
    }
    if |log| >= 2 {
      assert Emitted(b, log, 1);
    }
  }

  lemma MatchesJoin(list: seq<Target>, batches: seq<seq<string>>, log: seq<emission>, more: seq<emission>)
    requires AllMatch(list, batches, log) && AllMatch(list, batches, more)
    ensures AllMatch(list, batches, log + more)
  {
    hide HitMatches;
  }

  /** A run: the targets, their flags at the start, the mode, the batches' display strings and the wanted count. */
  datatype ClassicRun = ClassicRun(list: seq<Target>, start: seq<bool>, retire: bool, siblings: bool,
                                   batches: seq<seq<string>>, count: nat)

  type run = q: ClassicRun | |q.list| == |q.start| witness ClassicRun([], [], true, true, [], 0)

  /** Batch n, after these emissions. */
  ghost function BatchAfter(q: run, log: seq<emission>, n: nat): batch
    requires n < |q.batches|
  {
    hide FlagsAfter;
    ClassicBatch(q.list, FlagsAfter(q.start, q.retire, log), q.retire, q.siblings, q.batches[n], |log|, n)
  }

  /** Batch n's part of the log is greedy, on the flags that the emissions before it left. */
  ghost predicate GreedyPart(q: run, log: seq<emission>, lo: nat, hi: nat, n: nat) {
    && lo <= hi <= |log| <= q.count && n < |q.batches|
    && Greedy(BatchAfter(q, log[..lo], n), log[lo..hi], |q.batches[n]|, q.count - lo)
  }

  /** The log is the batches' greedy parts; part n begins at cuts[n]. */
  ghost predicate GreedyRun(q: run, log: seq<emission>, cuts: seq<nat>, ran: nat) {
    && |cuts| == ran + 1 && cuts[0] == 0 && cuts[ran] == |log| <= q.count
    && forall n :: 0 <= n < ran ==> GreedyPart(q, log, cuts[n], cuts[n + 1], n)
  }

  lemma PartStays(q: run, log: seq<emission>, lo: nat, hi: nat, n: nat, more: seq<emission>)
    requires GreedyPart(q, log, lo, hi, n) && |log| + |more| <= q.count
    ensures GreedyPart(q, log + more, lo, hi, n)
  {
    hide Greedy, BatchAfter;
    assert (log + more)[..lo] == log[..lo] && (log + more)[lo..hi] == log[lo..hi];
  }

  lemma NewPart(q: run, log: seq<emission>, n: nat, more: seq<emission>)
    requires n < |q.batches| && |log| + |more| <= q.count
    requires Greedy(BatchAfter(q, log, n), more, |q.batches[n]|, q.count - |log|)
    ensures GreedyPart(q, log + more, |log|, |log + more|, n)
  {
    hide Greedy, BatchAfter;
    assert (log + more)[..|log|] == log && (log + more)[|log|..|log + more|] == more;
  }

  lemma GreedyRunExtends(q: run, log: seq<emission>, cuts: seq<nat>, ran: nat, more: seq<emission>)
    requires GreedyRun(q, log, cuts, ran) && ran < |q.batches| && |log| + |more| <= q.count
    requires Greedy(BatchAfter(q, log, ran), more, |q.batches[ran]|, q.count - |log|)
    ensures GreedyRun(q, log + more, cuts + [|log + more|], ran + 1)
  {
    hide Greedy, GreedyPart, BatchAfter;
    var all, ends := log + more, cuts + [|log + more|];
    NewPart(q, log, ran, more);
    forall n | 0 <= n < ran + 1 ensures GreedyPart(q, all, ends[n], ends[n + 1], n) {
      if n < ran {
        PartStays(q, log, cuts[n], cuts[n + 1], n, more);
      }
    }
  }

  lemma GreedyFits(b: batch, log: seq<emission>, n: nat, room: nat)
    requires n <= |b.displays| && Greedy(b, log, n, room)
    ensures |log| <= room
  {
  }

  /** After n batches the count is not met and some target is left. */
  ghost predicate StillWanted(q: run, log: seq<emission>, cuts: seq<nat>, n: nat) {
    hide FlagsAfter;
    n < |cuts| && cuts[n] <= |log| && cuts[n] < q.count && true in FlagsAfter(q.start, q.retire, log[..cuts[n]])
  }

  lemma WantsMore(q: run, log: seq<emission>, cuts: seq<nat>, n: nat)
    requires n < |cuts| && cuts[n] == |log| < q.count && true in FlagsAfter(q.start, q.retire, log)
    ensures StillWanted(q, log, cuts, n)
  {
    hide FlagsAfter;
    assert log[..|log|] == log;
  }

  lemma StillBehind(q: run, log: seq<emission>, cuts: seq<nat>, ran: nat, more: seq<emission>)
    requires forall n :: 0 < n <= ran ==> StillWanted(q, log, cuts, n)
    ensures forall n :: 0 < n <= ran ==> StillWanted(q, log + more, cuts + [|log + more|], n)
  {
    hide FlagsAfter;
    forall n | 0 < n <= ran ensures StillWanted(q, log + more, cuts + [|log + more|], n) {
      assert StillWanted(q, log, cuts, n);
      assert (log + more)[..cuts[n]] == log[..cuts[n]];
    }
  }

  ghost function RunOf(targets: TargetSet.TargetSet, siblings: bool, batches: seq<seq<string>>, count: nat): run
    requires targets.Valid()
    reads targets.active
  {
    ClassicRun(targets.list, targets.active[..], targets.retire, siblings, batches, count)
  }

  /**
   The batch loop of the classic GPU search, on whatever display strings the batches' hits have. It
   stops only when the count is met, no target is left, or the batch limit is reached.
   */
  method CmdGpuClassic(targets: TargetSet.TargetSet, siblings: bool, batches: seq<seq<string>>, count: nat, limit: nat)
    returns (log: seq<emission>, ran: nat, ghost cuts: seq<nat>)
    requires targets.Valid() && count >= 1
    modifies targets.active
    ensures ran <= |batches| && |log| <= count
    ensures GreedyRun(old(RunOf(targets, siblings, batches, count)), log, cuts, ran)
    ensures GoodLog(old(targets.active[..]), targets.retire, siblings, log) && BatchesBelow(log, ran)
    ensures AllMatch(targets.list, batches, log)
    ensures targets.active[..] == FlagsAfter(old(targets.active[..]), targets.retire, log)
    ensures ran < |batches| ==> |log| == count || true !in targets.active[..] || ran == limit != 0
    ensures limit != 0 ==> ran <= limit
    ensures forall n :: 0 < n < ran ==> StillWanted(old(RunOf(targets, siblings, batches, count)), log, cuts, n)
  {
    hide StillWanted, Greedy, GreedyRun, GoodLog, FlagsAfter, BatchesBelow, AllMatch;
    ghost var q := RunOf(targets, siblings, batches, count);
    log, ran, cuts := [], 0, [0];
    NoneYet(q);
    while ran < |batches|
      invariant ran <= |batches| && |log| < count && (limit != 0 ==> ran < limit)
      invariant forall n :: 0 < n <= ran ==> StillWanted(q, log, cuts, n)
      invariant BatchesBelow(log, ran) && AllMatch(targets.list, batches, log)
      invariant GreedyRun(q, log, cuts, ran) && |cuts| == ran + 1 && cuts[ran] == |log|
      invariant GoodLog(q.start, targets.retire, siblings, log)
      invariant targets.active[..] == FlagsAfter(q.start, targets.retire, log)
    {
      ghost var b := BatchOf(targets, siblings, batches[ran], |log|, ran);
      assert b == BatchAfter(q, log, ran);
      var more := EmitClassicBatch(targets, batches[ran], siblings, |log|, ran, count);
      GreedyFits(b, more, |batches[ran]|, count - |log|);
      GreedyIsGood(b, more, count - |log|, batches);
      GoodLogExtends(q.start, targets.retire, siblings, log, ran, more);
      MatchesJoin(targets.list, batches, log, more);
      FlagsJoin(q.start, targets.retire, log, more);
      GreedyRunExtends(q, log, cuts, ran, more);
      StillBehind(q, log, cuts, ran, more);
      log := log + more;
      cuts := cuts + [|log|];
      ran := ran + 1;
      var left := targets.AnyActive();
      if |log| >= count || !left || (limit != 0 && ran >= limit) {
        break;
      }
      WantsMore(q, log, cuts, ran);
    }
  }

  lemma NoneYet(q: run)
    ensures GoodLog<nat>(q.start, q.retire, q.siblings, []) && BatchesBelow<nat>([], 0)
    ensures FlagsAfter<nat>(q.start, q.retire, []) == q.start
    ensures AllMatch(q.list, q.batches, []) && GreedyRun(q, [], [0], 0)
  {
  }
}
