/**
 The device's shared hit buffer: each key of a batch that matches takes a slot number with one
 atomicAdd and, if the number is below max_hits, writes its record there. Keys interleave freely.
 */
module HitBuffer {
  import opened Wrappers
  import opened Bits
  import opened Digits
  import opened Sequences

  /** A granted key knows its slot; its grant number is history. */
  datatype Phase = Idle | Granted(slot: uint32, grant: nat) | Finished

  /** One record copied into the buffer. */
  datatype Write<R> = Write(slot: uint32, record: R, key: nat, grant: nat)

  /** What became of a grant. */
  datatype Fate = Pending | Dropped | Written(write: nat)

  /**
   The counter and the keys' phases; then, as history, the keys in the order of their grants, the
   fate of each grant, and the writes so far.
   */
  datatype Buffer<R> = Buffer(
    phases: seq<Phase>,
    counter: uint32,
    granted: seq<nat>,
    fate: seq<Fate>,
    writes: seq<Write<R>>)

  /** `(int)x` for a 32-bit word. */
  function AsInt(x: uint32): int {
    if x < 0x8000_0000 then x else x - 0x1_0000_0000
  }

  type int31 = x: int | 0 <= x < 0x8000_0000

  ghost predicate Init<R>(results: seq<Option<R>>, b: Buffer<R>) {
    && |b.phases| == |results| && (forall k :: 0 <= k < |b.phases| ==> b.phases[k] == Idle)
    && b.counter == 0 && b.granted == [] && b.fate == [] && b.writes == []
  }

  /** The next atomic step of the thread working on key k. */
  function Step<R>(results: seq<Option<R>>, maxHits: int31, b: Buffer<R>, k: nat): Option<Buffer<R>>
    requires k < |b.phases| == |results|
  {
    match b.phases[k]
    case Idle =>
      if results[k].Some? then
        Some(b.(phases := b.phases[k := Granted(b.counter, |b.granted|)],
                counter := (b.counter + 1) % 0x1_0000_0000,
                granted := b.granted + [k], fate := b.fate + [Pending]))
      else Some(b.(phases := b.phases[k := Finished]))
    case Granted(slot, g) =>
      if g >= |b.fate| || results[k].None? then None
      else if AsInt(slot) < maxHits then
        Some(b.(phases := b.phases[k := Finished], writes := b.writes + [Write(slot, results[k].value, k, g)],
                fate := b.fate[g := Written(|b.writes|)]))
      else Some(b.(phases := b.phases[k := Finished], fate := b.fate[g := Dropped]))
    case Finished => None
  }

  ghost predicate Next<R>(results: seq<Option<R>>, maxHits: int31, b: Buffer<R>, k: nat, b': Buffer<R>) {
    k < |b.phases| == |results| && Step(results, maxHits, b, k) == Some(b')
  }

  function MatchingKeys<R>(results: seq<Option<R>>): (r: set<nat>) {
    set k | 0 <= k < |results| && results[k].Some?
  }

  function Elements(s: seq<nat>): set<nat> {
    set x | x in s
  }

  lemma ElementsAppend(t: seq<nat>, x: nat)
    ensures Elements(t + [x]) == Elements(t) + {x}
  {
    forall y ensures y in Elements(t + [x]) <==> y in Elements(t) + {x} {
      assert y in t + [x] <==> y in t || y == x;
    }
  }

  /** A sequence without repetitions has as many entries as elements. */
  lemma {:induction false} DistinctCount(s: seq<nat>)
    requires Distinct(s)
    ensures |s| == |Elements(s)|
  {
    if s == [] {
      assert Elements(s) == {};
    } else {
      var t, x := s[..|s| - 1], s[|s| - 1];
      assert s == t + [x];
      DistinctCount(t);
      ElementsAppend(t, x);
      assert x !in Elements(t);
      hide Elements;
    }
  }

  // ----- the invariant -----

  /** Grants go to different matching keys, in the order of the counter. */
  ghost predicate Grants<R>(results: seq<Option<R>>, b: Buffer<R>) {
    && |b.phases| == |results| && Distinct(b.granted) && |b.fate| == |b.granted|
    && b.counter == |b.granted| % 0x1_0000_0000
    && (forall k: nat :: k in b.granted <==> k < |results| && results[k].Some? && b.phases[k] != Idle)
    && (forall k :: 0 <= k < |b.phases| && b.phases[k].Granted? ==>
          && b.phases[k].grant < |b.granted| && b.granted[b.phases[k].grant] == k
          && b.phases[k].slot == b.phases[k].grant % 0x1_0000_0000)
  }

  /** Each grant is pending with its key, dropped, or at one place among the writes. */
  ghost predicate Fates<R>(results: seq<Option<R>>, maxHits: int31, b: Buffer<R>) {
    && |b.fate| == |b.granted|
    && (forall g :: 0 <= g < |b.fate| ==> FateRight(results, maxHits, b, g))
    && (forall w :: 0 <= w < |b.writes| ==>
          b.writes[w].grant < |b.fate| && b.fate[b.writes[w].grant] == Written(w))
    && (forall k :: 0 <= k < |b.phases| && b.phases[k].Granted? ==>
          b.phases[k].grant < |b.fate| && b.fate[b.phases[k].grant] == Pending)
  }

  ghost predicate FateRight<R>(results: seq<Option<R>>, maxHits: int31, b: Buffer<R>, g: nat)
    requires g < |b.fate| == |b.granted|
  {
    var slot := g % 0x1_0000_0000;
    match b.fate[g]
    case Pending => b.granted[g] < |b.phases| && b.phases[b.granted[g]] == Granted(slot, g)
    case Dropped => AsInt(slot) >= maxHits
    case Written(w) => AsInt(slot) < maxHits && w < |b.writes| && Wrote(results, b, w, slot, g)
  }

  /** Write w is grant g's record, in this slot. */
  ghost predicate Wrote<R>(results: seq<Option<R>>, b: Buffer<R>, w: nat, slot: uint32, g: nat)
    requires w < |b.writes| && g < |b.granted|
  {
    && b.granted[g] < |results| && results[b.granted[g]].Some?
    && b.writes[w] == Write(slot, results[b.granted[g]].value, b.granted[g], g)
  }

  lemma GrantsAfterGrant<R(!new)>(results: seq<Option<R>>, maxHits: int31, b: Buffer<R>, k: nat, b': Buffer<R>)
    requires Grants(results, b) && Next(results, maxHits, b, k, b') && b.phases[k] == Idle && results[k].Some?
    ensures Grants(results, b')
  {
    assert forall x :: x in b'.granted <==> x in b.granted || x == k;
  }

  lemma GrantsAfterOther<R(!new)>(results: seq<Option<R>>, maxHits: int31, b: Buffer<R>, k: nat, b': Buffer<R>)
    requires Grants(results, b) && Next(results, maxHits, b, k, b') && !(b.phases[k] == Idle && results[k].Some?)
    ensures Grants(results, b')
  {
  }

  lemma GrantsKept<R(!new)>(results: seq<Option<R>>, maxHits: int31, b: Buffer<R>, k: nat, b': Buffer<R>)
    requires Grants(results, b) && Next(results, maxHits, b, k, b')
    ensures Grants(results, b')
  {
    hide Grants;
    if b.phases[k] == Idle && results[k].Some? {
      GrantsAfterGrant(results, maxHits, b, k, b');
    } else {
      GrantsAfterOther(results, maxHits, b, k, b');
    }
  }

  lemma FatesKept<R(!new)>(results: seq<Option<R>>, maxHits: int31, b: Buffer<R>, k: nat, b': Buffer<R>)
    requires Grants(results, b) && Fates(results, maxHits, b) && Next(results, maxHits, b, k, b')
    ensures Fates(results, maxHits, b')
  {
    forall g | 0 <= g < |b'.fate| ensures FateRight(results, maxHits, b', g) {
      if g < |b.fate| {
        assert FateRight(results, maxHits, b, g);
      }
    }
  }

  ghost predicate Reachable<R(!new)>(results: seq<Option<R>>, maxHits: int31, b: Buffer<R>, steps: nat)
    decreases steps
  {
    if steps == 0 then Init(results, b)
    else exists a: Buffer<R>, k: nat :: Reachable(results, maxHits, a, steps - 1) && Next(results, maxHits, a, k, b)
  }

  lemma {:induction false} ReachableInv<R(!new)>(results: seq<Option<R>>, maxHits: int31, b: Buffer<R>, steps: nat)
    requires Reachable(results, maxHits, b, steps)
    ensures Grants(results, b) && Fates(results, maxHits, b)
    decreases steps
  {
    if steps == 0 {
    } else {
      var a: Buffer<R>, k: nat :| Reachable(results, maxHits, a, steps - 1) && Next(results, maxHits, a, k, b);
      ReachableInv(results, maxHits, a, steps - 1);
      hide Grants, Fates, Next;
      GrantsKept(results, maxHits, a, k, b);
      FatesKept(results, maxHits, a, k, b);
    }
  }

  ghost predicate AllFinished<R>(b: Buffer<R>) {
    forall k :: 0 <= k < |b.phases| ==> b.phases[k] == Finished
  }

  /** At the end exactly the matching keys have been granted slots. */
  lemma AllGranted<R(!new)>(results: seq<Option<R>>, b: Buffer<R>)
    requires Grants(results, b) && AllFinished(b)
    ensures |b.granted| == |MatchingKeys(results)|
    ensures forall k: nat :: k in b.granted <==> k in MatchingKeys(results)
  {
    DistinctCount(b.granted);
    assert Elements(b.granted) == MatchingKeys(results);
  }

  /** The buffer as the host reads it: slot i holds the record of one matching key, written once. */
  ghost predicate SlotHolds<R>(results: seq<Option<R>>, b: Buffer<R>, i: nat) {
    && i < |b.granted| && b.granted[i] < |results|
    && exists w :: 0 <= w < |b.writes| && b.writes[w].slot == i && Some(b.writes[w].record) == results[b.granted[i]]
  }

  /** A write goes to the slot with its own grant number, as long as those fit 31 bits. */
  lemma WriteAt<R(!new)>(results: seq<Option<R>>, maxHits: int31, b: Buffer<R>, w: nat)
    requires Fates(results, maxHits, b) && w < |b.writes| && |b.granted| <= 0x8000_0000
    ensures b.writes[w].slot == b.writes[w].grant < |b.granted| && b.writes[w].slot < maxHits
  {
    assert FateRight(results, maxHits, b, b.writes[w].grant);
  }

  lemma WritesDiffer<R(!new)>(results: seq<Option<R>>, maxHits: int31, b: Buffer<R>, v: nat, w: nat)
    requires Fates(results, maxHits, b) && v < w < |b.writes| && |b.granted| <= 0x8000_0000
    ensures b.writes[v].slot != b.writes[w].slot
  {
    WriteAt(results, maxHits, b, v);
    WriteAt(results, maxHits, b, w);
    assert b.fate[b.writes[v].grant] == Written(v) && b.fate[b.writes[w].grant] == Written(w);
  }

  /** A write holds the record of its own key. */
  lemma WriteIsRecord<R(!new)>(results: seq<Option<R>>, maxHits: int31, b: Buffer<R>, w: nat)
    requires Fates(results, maxHits, b) && w < |b.writes|
    ensures b.writes[w].key < |results| && results[b.writes[w].key] == Some(b.writes[w].record)
    ensures b.writes[w].grant < |b.granted| && b.granted[b.writes[w].grant] == b.writes[w].key
  {
    assert FateRight(results, maxHits, b, b.writes[w].grant);
  }

  /** No key is written twice. */
  lemma KeysDiffer<R(!new)>(results: seq<Option<R>>, maxHits: int31, b: Buffer<R>, v: nat, w: nat)
    requires Grants(results, b) && Fates(results, maxHits, b) && v < w < |b.writes|
    ensures b.writes[v].key != b.writes[w].key
  {
    assert b.fate[b.writes[v].grant] == Written(v) && b.fate[b.writes[w].grant] == Written(w);
    assert Distinct(b.granted);
    hide Fates, Grants;
    WriteIsRecord(results, maxHits, b, v);
    WriteIsRecord(results, maxHits, b, w);
  }

  lemma SlotFilled<R(!new)>(results: seq<Option<R>>, maxHits: int31, b: Buffer<R>, i: nat)
    requires Grants(results, b) && Fates(results, maxHits, b) && AllFinished(b)
    requires i < |b.granted| <= 0x8000_0000 && i < maxHits
    ensures SlotHolds(results, b, i)
  {
    assert FateRight(results, maxHits, b, i);
    assert b.granted[i] in b.granted;
    assert b.writes[b.fate[i].write].slot == i;
  }

  /**
   With at most 2^31 matching keys, a finished kernel has written every slot below
   min(matches, max_hits) exactly once, no other slot, and each with a different matching key.
   */
  lemma FinishedBuffer<R(!new)>(results: seq<Option<R>>, maxHits: int31, b: Buffer<R>, steps: nat)
    requires Reachable(results, maxHits, b, steps) && AllFinished(b)
    requires |MatchingKeys(results)| <= 0x8000_0000
    ensures |b.granted| == |MatchingKeys(results)| && Distinct(b.granted)
    ensures forall k: nat :: k in b.granted <==> k in MatchingKeys(results)
    ensures forall i: nat :: i < |b.granted| && i < maxHits ==> SlotHolds(results, b, i)
    ensures forall w :: 0 <= w < |b.writes| ==> b.writes[w].slot < maxHits && b.writes[w].slot < |b.granted|
    ensures forall v, w :: 0 <= v < w < |b.writes| ==> b.writes[v].slot != b.writes[w].slot
  {
    ReachableInv(results, maxHits, b, steps);
    AllGranted(results, b);
    assert Distinct(b.granted);
    hide Reachable, Grants, Fates, AllFinished, SlotHolds, MatchingKeys, Distinct;
    forall w | 0 <= w < |b.writes| ensures b.writes[w].slot < maxHits && b.writes[w].slot < |b.granted| {
      WriteAt(results, maxHits, b, w);
    }
    forall v, w | 0 <= v < w < |b.writes| ensures b.writes[v].slot != b.writes[w].slot {
      WritesDiffer(results, maxHits, b, v, w);
    }
    forall i: nat | i < |b.granted| && i < maxHits ensures SlotHolds(results, b, i) {
      SlotFilled(results, maxHits, b, i);
    }
  }

  /** When everything fits, the buffer holds one record for every matching key. */
  lemma NothingLost<R(!new)>(results: seq<Option<R>>, maxHits: int31, b: Buffer<R>, steps: nat, k: nat)
    requires Reachable(results, maxHits, b, steps) && AllFinished(b)
    requires |MatchingKeys(results)| <= maxHits && k in MatchingKeys(results)
    ensures exists i: nat :: SlotHolds(results, b, i) && b.granted[i] == k
  {
    FinishedBuffer(results, maxHits, b, steps);
    hide Reachable, MatchingKeys, SlotHolds;
    assert k in b.granted;
    var i :| 0 <= i < |b.granted| && b.granted[i] == k;
    assert SlotHolds(results, b, i);
  }

  /**
   The kernel compares slots as signed numbers. A finished kernel keeps all its writes below max_hits
   exactly when there are at most 2^31 matching keys.
   */
  lemma WritesInRange<R(!new)>(results: seq<Option<R>>, maxHits: int31, b: Buffer<R>, steps: nat)
    requires Reachable(results, maxHits, b, steps) && AllFinished(b)
    ensures (forall w :: 0 <= w < |b.writes| ==> b.writes[w].slot < maxHits)
       <==> |MatchingKeys(results)| <= 0x8000_0000
  {
    if |MatchingKeys(results)| <= 0x8000_0000 {
      FinishedBuffer(results, maxHits, b, steps);
    } else {
      ReachableInv(results, maxHits, b, steps);
      AllGranted(results, b);
      hide Reachable;
      var g: nat := 0x8000_0000;
      assert FateRight(results, maxHits, b, g);
      assert b.granted[g] in b.granted;
      assert b.writes[b.fate[g].write].slot == 0x8000_0000;
    }
  }

  // ----- runs to the end -----

  /** In every reachable state each unfinished thread has a step. */
  lemma NeverStuck<R(!new)>(results: seq<Option<R>>, maxHits: int31, b: Buffer<R>, steps: nat, k: nat)
    requires Reachable(results, maxHits, b, steps) && k < |b.phases| && b.phases[k] != Finished
    ensures |b.phases| == |results| && Step(results, maxHits, b, k).Some?
  {
    ReachableInv(results, maxHits, b, steps);
    hide Reachable;
    if b.phases[k].Granted? {
      assert b.granted[b.phases[k].grant] in b.granted;
    }
  }

  /** The first n keys have finished and the others have not begun. */
  ghost predicate DoneUpTo<R>(results: seq<Option<R>>, b: Buffer<R>, n: nat) {
    |b.phases| == |results| && forall k :: 0 <= k < |b.phases| ==> b.phases[k] == if k < n then Finished else Idle
  }

  lemma TakeStep<R(!new)>(results: seq<Option<R>>, maxHits: int31, b: Buffer<R>, steps: nat, k: nat)
    returns (b': Buffer<R>)
    requires Reachable(results, maxHits, b, steps) && k < |b.phases| && b.phases[k] != Finished
    ensures |b.phases| == |results| && Step(results, maxHits, b, k) == Some(b')
    ensures Reachable(results, maxHits, b', steps + 1)
  {
    NeverStuck(results, maxHits, b, steps, k);
    b' := Step(results, maxHits, b, k).value;
    assert Next(results, maxHits, b, k, b');
  }

  lemma FinishKey<R(!new)>(results: seq<Option<R>>, maxHits: int31, b: Buffer<R>, steps: nat, n: nat)
    returns (b': Buffer<R>, steps': nat)
    requires Reachable(results, maxHits, b, steps) && n < |results| && DoneUpTo(results, b, n)
    ensures Reachable(results, maxHits, b', steps') && DoneUpTo(results, b', n + 1)
  {
    hide Reachable;
    b' := TakeStep(results, maxHits, b, steps, n);
    steps' := steps + 1;
    if results[n].Some? {
      b' := TakeStep(results, maxHits, b', steps', n);
      steps' := steps' + 1;
    }
  }

  /** The threads taken one after the other are one way for the kernel to finish. */
  lemma {:induction false} RunKeys<R(!new)>(results: seq<Option<R>>, maxHits: int31, n: nat)
    returns (b: Buffer<R>, steps: nat)
    requires n <= |results|
    ensures Reachable(results, maxHits, b, steps) && DoneUpTo(results, b, n)
  {
    if n == 0 {
      b, steps := Buffer(seq(|results|, _ => Idle), 0, [], [], []), 0;
    } else {
      b, steps := RunKeys(results, maxHits, n - 1);
      b, steps := FinishKey(results, maxHits, b, steps, n - 1);
    }
  }

  /** Whatever the threads find, the kernel can finish. */
  lemma CanFinish<R(!new)>(results: seq<Option<R>>, maxHits: int31) returns (b: Buffer<R>, steps: nat)
    ensures Reachable(results, maxHits, b, steps) && AllFinished(b)
  {
    b, steps := RunKeys(results, maxHits, |results|);
  }

  // ----- the copied count -----

  /** The number of records the host copies: `pq_cuda_search` clamps with a signed comparison. */
  function PqCount(counter: uint32, maxHits: int31): uint32 {
    if AsInt(counter) > maxHits then maxHits else counter
  }

  /** `ed_cuda_search` clamps with an unsigned one. */
  function EdCount(counter: uint32, maxHits: int31): uint32 {
    if counter > maxHits then maxHits else counter
  }

  function Min(a: nat, b: nat): nat {
    if a <= b then a else b
  }

  lemma CounterIs<R(!new)>(results: seq<Option<R>>, maxHits: int31, b: Buffer<R>, steps: nat)
    requires Reachable(results, maxHits, b, steps) && AllFinished(b)
    ensures b.counter == |MatchingKeys(results)| % 0x1_0000_0000
  {
    ReachableInv(results, maxHits, b, steps);
    AllGranted(results, b);
    hide Reachable, MatchingKeys, Fates, AllFinished;
  }

  /**
   The two clamps against the wanted minimum, for a finished kernel. The unsigned one errs when the
   counter has wrapped to below the capacity, the signed one also when the counter reads as negative.
   */
  lemma CopiedCount<R(!new)>(results: seq<Option<R>>, maxHits: int31, b: Buffer<R>, steps: nat)
    requires Reachable(results, maxHits, b, steps) && AllFinished(b)
    ensures var n := |MatchingKeys(results)|;
            EdCount(b.counter, maxHits) == Min(n, maxHits)
            <==> n < 0x1_0000_0000 || maxHits <= n % 0x1_0000_0000
    ensures var n := |MatchingKeys(results)|;
            PqCount(b.counter, maxHits) == Min(n, maxHits)
            <==> n < 0x8000_0000 || maxHits <= n % 0x1_0000_0000 < 0x8000_0000
  {
    hide *;
    CounterIs(results, maxHits, b, steps);
    Clamps(b.counter, maxHits, |MatchingKeys(results)|);
  }

  lemma Clamps(counter: uint32, maxHits: int31, n: nat)
    requires counter == n % 0x1_0000_0000
    ensures EdCount(counter, maxHits) == Min(n, maxHits)
       <==> n < 0x1_0000_0000 || maxHits <= n % 0x1_0000_0000
    ensures PqCount(counter, maxHits) == Min(n, maxHits)
       <==> n < 0x8000_0000 || maxHits <= n % 0x1_0000_0000 < 0x8000_0000
  {
  }

  /** A batch whose keys all match. */
  function AllMatching<R>(n: nat, record: R): (r: seq<Option<R>>)
    ensures |r| == n
  {
    seq(n, _ => Some(record))
  }

  lemma {:induction false} AllMatchingCount<R>(n: nat, record: R)
    ensures |MatchingKeys(AllMatching(n, record))| == n
  {
    if n == 0 {
      assert MatchingKeys(AllMatching(0, record)) == {};
    } else {
      AllMatchingCount(n - 1, record);
      assert MatchingKeys(AllMatching(n, record)) == MatchingKeys(AllMatching(n - 1, record)) + {n - 1};
    }
  }

  /** With 2^31 + 1 matching keys, whatever the capacity, some finished kernel has written outside the buffer. */
  lemma WritesOutOfRange<R(!new)>(record: R, maxHits: int31) returns (b: Buffer<R>, steps: nat)
    ensures Reachable(AllMatching(0x8000_0001, record), maxHits, b, steps) && AllFinished(b)
    ensures exists w :: 0 <= w < |b.writes| && b.writes[w].slot >= maxHits
  {
    hide Reachable, AllFinished, MatchingKeys, AllMatching;
    var results := AllMatching(0x8000_0001, record);
    b, steps := CanFinish(results, maxHits);
    AllMatchingCount(0x8000_0001, record);
    WritesInRange(results, maxHits, b, steps);
  }

  /** With 2^31 matching keys, whatever the capacity, the signed clamp copies a wrong number of records. */
  lemma WrongCount<R(!new)>(record: R, maxHits: int31) returns (b: Buffer<R>, steps: nat)
    ensures Reachable(AllMatching(0x8000_0000, record), maxHits, b, steps) && AllFinished(b)
    ensures PqCount(b.counter, maxHits) != Min(0x8000_0000, maxHits)
  {
    hide Reachable, AllFinished, MatchingKeys, AllMatching, PqCount, EdCount, Min;
    b, steps := CanFinish(AllMatching(0x8000_0000, record), maxHits);
    AllMatchingCount(0x8000_0000, record);
    CopiedCount(AllMatching(0x8000_0000, record), maxHits, b, steps);
  }

  /** With 2^32 matching keys the counter is back at zero, and either clamp copies nothing. */
  lemma NothingCopied<R(!new)>(record: R, maxHits: int31) returns (b: Buffer<R>, steps: nat)
    ensures Reachable(AllMatching(0x1_0000_0000, record), maxHits, b, steps) && AllFinished(b)
    ensures EdCount(b.counter, maxHits) == PqCount(b.counter, maxHits) == 0
  {
    hide Reachable, AllFinished, MatchingKeys, AllMatching;
    b, steps := CanFinish(AllMatching(0x1_0000_0000, record), maxHits);
    AllMatchingCount(0x1_0000_0000, record);
    CounterIs(AllMatching(0x1_0000_0000, record), maxHits, b, steps);
  }

  // ----- the keys of a batch -----

  type entropy = s: seq<uint8> | |s| == 32 witness seq(32, _ => 0)

  /** `derive_entropy`, `ed_derive_seed` and `seed_at`: the counter replaces bytes 24..32. */
  function DeriveEntropy(base: entropy, counter: uint64): entropy {
    base[..24] + ToDigits(counter, 256, 8)
  }

  /** The loops of `derive_entropy`: copy the base, then write the counter, least significant byte first. */
  method WriteEntropy(base: entropy, counter: uint64, out: array<uint8>)
    requires out.Length == 32
    modifies out
    ensures out[..] == DeriveEntropy(base, counter)
    ensures out[..24] == base[..24] && Little(out[24..], 256) == counter
  {
    CounterValue(counter);
    hide Little, ToDigits, Pow2, Power;
    var i := 0;
    while i < 32
      invariant 0 <= i <= 32 && out[..i] == base[..i]
    {
      out[i] := base[i];
      i := i + 1;
    }
    i := 0;
    while i < 8
      invariant 0 <= i <= 8 && out[..24] == base[..24]
      invariant out[24..24 + i] == ToDigits(counter, 256, 8)[..i]
    {
      CounterByte(counter, i);
      out[24 + i] := Shr(counter, 8 * i) % 256;
      assert out[24..24 + i + 1] == out[24..24 + i] + [out[24 + i]];
      i := i + 1;
    }
    ghost var digits := ToDigits(counter, 256, 8);
    assert digits[..8] == digits;
    assert out[24..32] == digits;
    assert out[..32] == out[..] && out[24..32] == out[24..];
    assert out[..] == out[..24] + out[24..];
  }

  lemma CounterValue(counter: uint64)
    ensures Little(ToDigits(counter, 256, 8), 256) == counter
  {
    EightDigits();
    LittleOfDigits(counter, 256, 8);
  }

  lemma CounterByte(counter: nat, i: nat)
    requires i < 8
    ensures Shr(counter, 8 * i) % 256 == ToDigits(counter, 256, 8)[i]
  {
    assert Pow2(8) == 256;
    hide Pow2, Power;
    PowerOfPow2(8, 256, i, 8 * i);
    DigitAt(counter, 256, 8, i);
  }

  lemma EightDigits()
    ensures Power(256, 8) == 0x1_0000_0000_0000_0000
  {
    Pow2Is64();
    assert Pow2(8) == 256;
    PowerOfPow2(8, 256, 8, 64);
  }

  lemma EightBytes(s: seq<uint8>)
    requires |s| == 8
    ensures 0 <= Little(s, 256) < 0x1_0000_0000_0000_0000
  {
    EightDigits();
    LittleRange(s, 256);
  }

  /** `run_start`: the counter that a base holds in its own last bytes. */
  function RunStart(base: entropy): (c: uint64) {
    EightBytes(base[24..]);
    Little(base[24..], 256)
  }

  /** The entropy of key i of a batch; the counter wraps at 2^64. */
  function KeyEntropy(base: entropy, start: uint64, i: nat): entropy {
    DeriveEntropy(base, (start + i) % 0x1_0000_0000_0000_0000)
  }

  /** A key's entropy is the base with the key's own counter in its last eight bytes. */
  lemma KeyEntropyParts(base: entropy, start: uint64, i: nat)
    ensures KeyEntropy(base, start, i)[..24] == base[..24]
    ensures RunStart(KeyEntropy(base, start, i)) == (start + i) % 0x1_0000_0000_0000_0000
  {
    var c := (start + i) % 0x1_0000_0000_0000_0000;
    CounterValue(c);
    hide ToDigits, Little;
    assert KeyEntropy(base, start, i)[24..] == ToDigits(c, 256, 8);
  }

  /** All the entropies of a batch of at most 2^64 keys differ, wherever the counter starts. */
  lemma EntropiesDiffer(base: entropy, start: uint64, i: nat, j: nat)
    requires i < j < 0x1_0000_0000_0000_0000
    ensures KeyEntropy(base, start, i) != KeyEntropy(base, start, j)
  {
    var c, d := (start + i) % 0x1_0000_0000_0000_0000, (start + j) % 0x1_0000_0000_0000_0000;
    assert c != d;
    hide ToDigits, Little, Power;
    EightDigits();
    LittleOfDigits(c, 256, 8);
    LittleOfDigits(d, 256, 8);
    assert KeyEntropy(base, start, i)[24..] == ToDigits(c, 256, 8);
    assert KeyEntropy(base, start, j)[24..] == ToDigits(d, 256, 8);
  }

  lemma DifferentKeys(base: entropy, start: uint64, j: nat, k: nat)
    requires j < 0x1_0000_0000_0000_0000 && k < 0x1_0000_0000_0000_0000 && j != k
    ensures KeyEntropy(base, start, j) != KeyEntropy(base, start, k)
  {
    if j < k {
      EntropiesDiffer(base, start, j, k);
    } else {
      EntropiesDiffer(base, start, k, j);
    }
  }

  /** The batch that starts at the base's own counter begins with the base itself. */
  lemma FirstKeyIsBase(base: entropy)
    ensures KeyEntropy(base, RunStart(base), 0) == base
  {
    DigitsOfLittle(base[24..], 256);
    hide ToDigits, Little;
    StartsAtBase(base, RunStart(base));
  }

  lemma StartsAtBase(base: entropy, c: nat)
    requires c < 0x1_0000_0000_0000_0000 && ToDigits(c, 256, 8) == base[24..]
    ensures KeyEntropy(base, c, 0) == base
  {
    hide ToDigits;
    assert base == base[..24] + base[24..];
  }
}
