/** The batch loop of the GPU search: which verified hits are emitted, in each batch and over a whole run. */
module GpuRun {
  import opened Wrappers
  import opened Targets
  import opened SaltSearch
  import opened Emissions
  import Address
  import TargetSet

  type emission = Emission<Record>

  type verdicts = seq<Option<Record>>

  // ----- which hits of one batch deserve emission -----

  /**
   A batch of verified hits: the flags when it began, the mode, how many addresses were emitted before
   it, and its index.
   */
  datatype Batch = Batch(active: seq<bool>, retire: bool, siblings: bool, hits: verdicts, found: nat, index: nat)

  /** The i-th hit passed the check and its target was active when the batch began. */
  predicate Live(b: Batch, i: nat) {
    i < |b.hits| && b.hits[i].Some? && TargetOf(b, i) < |b.active| && b.active[TargetOf(b, i)]
  }

  function TargetOf(b: Batch, i: nat): nat
    requires i < |b.hits| && b.hits[i].Some?
  {
    b.hits[i].value.target
  }

  /** A live hit j keeps the later live hit i from being emitted. */
  predicate RulesOut(b: Batch, j: nat, i: nat)
    requires Live(b, i) && Live(b, j)
  {
    !b.siblings || (b.retire && TargetOf(b, j) == TargetOf(b, i))
  }

  /** A live hit that no earlier live hit rules out. */
  ghost predicate Fresh(b: Batch, i: nat) {
    Live(b, i) && forall j :: 0 <= j < i && Live(b, j) ==> !RulesOut(b, j, i)
  }

  /** The fresh hits among the first n, in order. */
  ghost function Candidates(b: Batch, n: nat): (r: seq<nat>)
    ensures forall a :: 0 <= a < |r| ==> r[a] < n && Fresh(b, r[a])
    ensures forall i: nat :: i < n && Fresh(b, i) ==> i in r
    ensures forall a, c :: 0 <= a < c < |r| ==> r[a] < r[c]
  {
    hide Fresh;
    if n == 0 then [] else Candidates(b, n - 1) + if Fresh(b, n - 1) then [n - 1] else []
  }

  lemma {:induction false} CandidatesPrefix(b: Batch, m: nat, n: nat)
    requires m <= n
    ensures Candidates(b, m) <= Candidates(b, n)
    ensures (forall i :: m <= i < n ==> !Fresh(b, i)) ==> Candidates(b, m) == Candidates(b, n)
  {
    hide Fresh;
    if m == n {
    } else {
      CandidatesPrefix(b, m, n - 1);
    }
  }

  /** Hit i as the batch's e-th emission. */
  function EmissionOf(b: Batch, e: nat, i: nat): emission
    requires Live(b, i)
  {
    Emission(b.found + e + 1, b.index, TargetOf(b, i), b.hits[i].value)
  }

  /** The emissions of these hits, numbered on from those before the batch. */
  ghost function Numbered(b: Batch, picks: seq<nat>): (r: seq<emission>)
    requires forall a :: 0 <= a < |picks| ==> Live(b, picks[a])
    ensures |r| == |picks|
  {
    seq(|picks|, e requires 0 <= e < |picks| && Live(b, picks[e]) =>
      EmissionOf(b, e, picks[e]))
  }

  /** The emissions of the first n hits, were there no limit. */
  ghost function Due(b: Batch, n: nat): (r: seq<emission>)
    ensures |r| == |Candidates(b, n)|
  {
    Numbered(b, Candidates(b, n))
  }

  /** For every live hit there is a fresh one at it or before it, with its target where siblings are allowed. */
  lemma {:induction false} FreshFor(b: Batch, j: nat) returns (f: nat)
    requires Live(b, j)
    ensures f <= j && Fresh(b, f)
    ensures b.siblings ==> TargetOf(b, f) == TargetOf(b, j)
    decreases j
  {
    if Fresh(b, j) {
      f := j;
    } else {
      var i :| 0 <= i < j && Live(b, i) && RulesOut(b, i, j);
      f := FreshFor(b, i);
    }
  }

  /** What was hit among the first n is what some live hit there targets. */
  lemma HitMeansLive(b: Batch, n: nat, k: nat)
    requires WasHit(Due(b, n), k)
    ensures exists j :: 0 <= j < n && Live(b, j) && TargetOf(b, j) == k
  {
    var picks := Candidates(b, n);
    var e :| 0 <= e < |picks| && Due(b, n)[e].target == k;
    assert picks[e] < n && Fresh(b, picks[e]);
  }

  lemma LiveMeansHit(b: Batch, n: nat, j: nat)
    requires j < n && Live(b, j)
    ensures Due(b, n) != []
    ensures b.siblings ==> WasHit(Due(b, n), TargetOf(b, j))
  {
    var f := FreshFor(b, j);
    var picks := Candidates(b, n);
    var e :| 0 <= e < |picks| && picks[e] == f;
    assert Due(b, n)[e].target == TargetOf(b, f);
  }

  /** The emissions of a batch withhold nothing: what a live hit comes to among those due. */
  lemma NothingWithheld(b: Batch, j: nat)
    requires Live(b, j)
    ensures Due(b, |b.hits|) != []
    ensures b.siblings ==> WasHit(Due(b, |b.hits|), TargetOf(b, j))
    ensures b.siblings && !b.retire ==> IsDue(b, b.hits[j].value)
  {
    LiveMeansHit(b, |b.hits|, j);
    if b.siblings && !b.retire {
      assert Fresh(b, j);
      var picks := Candidates(b, |b.hits|);
      var e :| 0 <= e < |picks| && picks[e] == j;
      assert Due(b, |b.hits|)[e].found == b.hits[j].value;
    }
  }

  /** The record is among the emissions due. */
  ghost predicate IsDue(b: Batch, v: Record) {
    hide Due;
    exists e :: 0 <= e < |Due(b, |b.hits|)| && Due(b, |b.hits|)[e].found == v
  }

  /** The checks at emission time, on the current flags and log, come to freshness. */
  lemma CheckIsFresh(b: Batch, active: seq<bool>, i: nat)
    requires i < |b.hits| && active == FlagsAfter(b.active, b.retire, Due(b, i))
    ensures Fresh(b, i)
      <==> b.hits[i].Some? && TargetOf(b, i) < |active| && active[TargetOf(b, i)] && (b.siblings || Due(b, i) == [])
  {
    hide Fresh, Due, WasHit;
    if Live(b, i) {
      var k := TargetOf(b, i);
      FreshUnfolds(b, i);
      if WasHit(Due(b, i), k) {
        HitMeansLive(b, i, k);
      }
      if Due(b, i) != [] {
        FirstDue(b, i);
      }
      if !Fresh(b, i) {
        var j :| 0 <= j < i && Live(b, j) && RulesOut(b, j, i);
        LiveMeansHit(b, i, j);
      }
    } else {
      FreshIsLive(b, i);
    }
  }

  lemma FreshIsLive(b: Batch, i: nat)
    ensures Fresh(b, i) ==> Live(b, i)
  {
  }

  lemma FreshUnfolds(b: Batch, i: nat)
    requires Live(b, i)
    ensures Fresh(b, i) <==> forall j :: 0 <= j < i && Live(b, j) ==> !RulesOut(b, j, i)
  {
  }

  lemma FirstDue(b: Batch, n: nat)
    requires Due(b, n) != []
    ensures exists j :: 0 <= j < n && Live(b, j)
  {
    var picks := Candidates(b, n);
    assert picks[0] < n && Fresh(b, picks[0]);
  }

  /** With no target left, no later hit is fresh. */
  lemma NoneLeft(b: Batch, active: seq<bool>, n: nat)
    requires active == FlagsAfter(b.active, b.retire, Due(b, n)) && true !in active
    ensures forall i :: n <= i < |b.hits| ==> !Fresh(b, i)
  {
    hide Due;
    forall i | n <= i < |b.hits| ensures !Fresh(b, i) {
      if Live(b, i) {
        assert !active[TargetOf(b, i)];
        HitMeansLive(b, n, TargetOf(b, i));
      }
    }
  }

  /** One more hit changes the emissions due exactly when it is fresh. */
  lemma NextDue(b: Batch, i: nat)
    ensures !Fresh(b, i) ==> Due(b, i + 1) == Due(b, i)
    ensures Fresh(b, i) ==> Live(b, i)
    ensures Fresh(b, i) ==> Due(b, i + 1) == Due(b, i) + [EmissionOf(b, |Due(b, i)|, i)]
  {
    FreshIsLive(b, i);
    assert Candidates(b, i + 1) == Candidates(b, i) + if Fresh(b, i) then [i] else [];
    hide Candidates, Fresh;
  }

  /** The first `room` entries. */
  function Taken(log: seq<emission>, room: nat): seq<emission> {
    if |log| <= room then log else log[..room]
  }

  /** Verdicts name targets that their addresses match. */
  ghost predicate Matching(list: seq<Target>, hits: verdicts) {
    forall i :: 0 <= i < |hits| && hits[i].Some? ==> RecordMatches(list, hits[i].value)
  }

  ghost predicate RecordMatches(list: seq<Target>, v: Record) {
    v.target < |list| && MatchesDisplay(list[v.target], Address.Display(v.addr))
  }

  ghost function BatchOf(targets: TargetSet.TargetSet, siblings: bool, hits: verdicts, found: nat, index: nat): Batch
    reads targets.active
  {
    Batch(targets.active[..], targets.retire, siblings, hits, found, index)
  }

  /** One batch emits the fresh hits in order, as many as the count has room for. */
  method EmitBatch(targets: TargetSet.TargetSet, siblings: bool, hits: verdicts, found: nat, index: nat, count: nat)
    returns (log: seq<emission>)
    requires targets.Valid() && found < count && Matching(targets.list, hits)
    modifies targets.active
    ensures log == Taken(Due(old(BatchOf(targets, siblings, hits, found, index)), |hits|), count - found)
    ensures targets.active[..] == FlagsAfter(old(targets.active[..]), targets.retire, log)
  {
    hide Fresh, Candidates, Due, MatchesDisplay, Address.Display, FlagsAfter;
    ghost var b := BatchOf(targets, siblings, hits, found, index);
    log := [];
    NothingDue(b);
    var i := 0;
    while i < |hits|
      invariant i <= |hits| && found + |log| < count
      invariant log == Due(b, i) && targets.active[..] == FlagsAfter(b.active, targets.retire, log)
    {
      CheckIsFresh(b, targets.active[..], i);
      NextDue(b, i);
      if hits[i].None? || !targets.active[hits[i].value.target] {
        i := i + 1;
        continue;
      }
      if !siblings && |log| >= 1 {
        i := i + 1;
        continue;
      }
      assert Fresh(b, i);
      var e := Emission(found + |log| + 1, index, hits[i].value.target, hits[i].value);
      FlagsNext(b.active, targets.retire, log, e);
      var won := targets.Claim(hits[i].value.target);
      log := log + [e];
      i := i + 1;
      var left := targets.AnyActive();
      if found + |log| >= count || !left {
        break;
      }
    }
    Finished(b, targets.active[..], i, log, count - found);
  }

  /** However the loop ended, what was emitted is what was due, up to the room. */
  lemma Finished(b: Batch, active: seq<bool>, i: nat, log: seq<emission>, room: nat)
    requires i <= |b.hits| && log == Due(b, i) && active == FlagsAfter(b.active, b.retire, log)
    requires |log| <= room && (i == |b.hits| || |log| == room || true !in active)
    ensures log == Taken(Due(b, |b.hits|), room)
  {
    hide Fresh, Candidates, Due;
    if true !in active {
      NoneLeft(b, active, i);
    }
    CandidatesPrefix(b, i, |b.hits|);
    DuePrefix(b, i, |b.hits|);
  }

  lemma NothingDue(b: Batch)
    ensures Due(b, 0) == [] && b.active == FlagsAfter(b.active, b.retire, Due(b, 0))
  {
  }

  lemma DuePrefix(b: Batch, m: nat, n: nat)
    requires Candidates(b, m) <= Candidates(b, n)
    ensures Due(b, m) <= Due(b, n)
    ensures Candidates(b, m) == Candidates(b, n) ==> Due(b, m) == Due(b, n)
  {
    hide Candidates;
  }

  // ----- a whole run -----

  /** Every emission is for a target that its address matches. */
  ghost predicate AllMatch(list: seq<Target>, log: seq<emission>) {
    forall e :: 0 <= e < |log| ==> log[e].target == log[e].found.target && RecordMatches(list, log[e].found)
  }

  /** What is due makes a good batch. */
  lemma DueIsGood(list: seq<Target>, b: Batch, room: nat, more: seq<emission>)
    requires more == Taken(Due(b, |b.hits|), room) && Matching(list, b.hits)
    ensures GoodBatch(b.active, b.retire, b.siblings, b.found, b.index, more) && AllMatch(list, more)
  {
    hide Due, RecordMatches;
    forall e | 0 <= e < |more|
      ensures more[e].number == b.found + e + 1 && more[e].batch == b.index
      ensures more[e].target < |b.active| && b.active[more[e].target]
      ensures more[e].target == more[e].found.target && RecordMatches(list, more[e].found)
    {
      var j := DueEntry(b, |b.hits|, e);
      assert RecordMatches(list, b.hits[j].value);
    }
    forall d, e | 0 <= d < e < |more|
      ensures b.retire ==> more[d].target != more[e].target
    {
      DuePair(b, |b.hits|, d, e);
    }
    if |more| >= 2 {
      DuePair(b, |b.hits|, 0, 1);
    }
  }

  /** What is due, one by one: a live hit's record, under the next number. */
  lemma DueEntry(b: Batch, n: nat, e: nat) returns (j: nat)
    requires e < |Due(b, n)|
    ensures Live(b, j) && Due(b, n)[e] == EmissionOf(b, e, j)
  {
    j := Candidates(b, n)[e];
  }

  /** What is due, two by two: different targets if they retire, and never two without siblings. */
  lemma DuePair(b: Batch, n: nat, d: nat, e: nat)
    requires d < e < |Due(b, n)|
    ensures b.siblings && (b.retire ==> Due(b, n)[d].target != Due(b, n)[e].target)
  {
    var picks := Candidates(b, n);
    assert picks[d] < picks[e] && Live(b, picks[d]) && Fresh(b, picks[e]);
    assert !RulesOut(b, picks[d], picks[e]);
  }

  lemma MatchesJoin(list: seq<Target>, log: seq<emission>, more: seq<emission>)
    requires AllMatch(list, log) && AllMatch(list, more)
    ensures AllMatch(list, log + more)
  {
    hide RecordMatches;
  }

  /** The log after n batches: each adds its fresh hits, on the flags that the emissions before it left. */
  ghost function RunLog(start: seq<bool>, retire: bool, siblings: bool, batches: seq<verdicts>, count: nat, n: nat)
    : (r: seq<emission>)
    requires n <= |batches|
    ensures |r| <= count
  {
    hide Due, FlagsAfter;
    if n == 0 then [] else
      var log := RunLog(start, retire, siblings, batches, count, n - 1);
      var b := Batch(FlagsAfter(start, retire, log), retire, siblings, batches[n - 1], |log|, n - 1);
      log + Taken(Due(b, |b.hits|), count - |log|)
  }

  /** After n batches the count is not met and some target is left. */
  ghost predicate StillWanted(start: seq<bool>, retire: bool, siblings: bool, batches: seq<verdicts>, count: nat,
                              n: nat)
  {
    hide FlagsAfter, RunLog;
    && n <= |batches| && |RunLog(start, retire, siblings, batches, count, n)| < count
    && true in FlagsAfter(start, retire, RunLog(start, retire, siblings, batches, count, n))
  }

  lemma WantsMore(start: seq<bool>, retire: bool, siblings: bool, batches: seq<verdicts>, count: nat, n: nat)
    requires n <= |batches| && |RunLog(start, retire, siblings, batches, count, n)| < count
    requires true in FlagsAfter(start, retire, RunLog(start, retire, siblings, batches, count, n))
    ensures StillWanted(start, retire, siblings, batches, count, n)
  {
    hide FlagsAfter, RunLog;
  }

  lemma TakenFits(log: seq<emission>, room: nat)
    ensures |Taken(log, room)| <= room
  {
  }

  lemma RunLogStep(start: seq<bool>, b: Batch, batches: seq<verdicts>, count: nat, n: nat, log: seq<emission>)
    requires n < |batches| && log == RunLog(start, b.retire, b.siblings, batches, count, n)
    requires b.active == FlagsAfter(start, b.retire, log)
    requires b.hits == batches[n] && b.found == |log| && b.index == n
    ensures RunLog(start, b.retire, b.siblings, batches, count, n + 1) == log + Taken(Due(b, |b.hits|), count - |log|)
  {
    hide Due, FlagsAfter;
  }

  /**
   The batch loop of `cmd_gpu`, on whatever the batches' verified hits are. It stops only when the
   count is met, no target is left, or the batch limit is reached.
   */
  method CmdGpu(targets: TargetSet.TargetSet, siblings: bool, batches: seq<verdicts>, count: nat, limit: nat)
    returns (log: seq<emission>, ran: nat)
    requires targets.Valid() && count >= 1
    requires forall n :: 0 <= n < |batches| ==> Matching(targets.list, batches[n])
    modifies targets.active
    ensures ran <= |batches|
    ensures log == RunLog(old(targets.active[..]), targets.retire, siblings, batches, count, ran)
    ensures |log| <= count && GoodLog(old(targets.active[..]), targets.retire, siblings, log)
    ensures AllMatch(targets.list, log) && BatchesBelow(log, ran)
    ensures targets.active[..] == FlagsAfter(old(targets.active[..]), targets.retire, log)
    ensures ran < |batches| ==> |log| == count || true !in targets.active[..] || ran == limit != 0
    ensures limit != 0 ==> ran <= limit
    ensures forall n :: 0 < n < ran ==>
      StillWanted(old(targets.active[..]), targets.retire, siblings, batches, count, n)
  {
    hide StillWanted, Due, Matching, GoodLog, FlagsAfter, BatchesBelow, Taken, AllMatch;
    ghost var start := targets.active[..];
    log, ran := [], 0;
    NoneYet(targets.list, start, targets.retire, siblings);
    assert RunLog(start, targets.retire, siblings, batches, count, 0) == [];
    hide RunLog;
    while ran < |batches|
      invariant ran <= |batches| && |log| < count && (limit != 0 ==> ran < limit)
      invariant forall n :: 0 < n <= ran ==> StillWanted(start, targets.retire, siblings, batches, count, n)
      invariant BatchesBelow(log, ran) && AllMatch(targets.list, log)
      invariant log == RunLog(start, targets.retire, siblings, batches, count, ran)
      invariant GoodLog(start, targets.retire, siblings, log)
      invariant targets.active[..] == FlagsAfter(start, targets.retire, log)
    {
      ghost var b := BatchOf(targets, siblings, batches[ran], |log|, ran);
      RunLogStep(start, b, batches, count, ran, log);
      var more := EmitBatch(targets, siblings, batches[ran], |log|, ran, count);
      TakenFits(Due(b, |b.hits|), count - |log|);
      DueIsGood(targets.list, b, count - |log|, more);
      GoodLogExtends(start, targets.retire, siblings, log, ran, more);
      MatchesJoin(targets.list, log, more);
      FlagsJoin(start, targets.retire, log, more);
      log := log + more;
      ran := ran + 1;
      var left := targets.AnyActive();
      if |log| >= count || !left {
        break;
      }
      WantsMore(start, targets.retire, siblings, batches, count, ran);
      if limit != 0 && ran >= limit {
        break;
      }
    }
  }

  lemma NoneYet(list: seq<Target>, start: seq<bool>, retire: bool, siblings: bool)
    ensures GoodLog<Record>(start, retire, siblings, []) && BatchesBelow<Record>([], 0) && AllMatch(list, [])
    ensures FlagsAfter<Record>(start, retire, []) == start
  {
  }

  /** What the host's check accepts is what the batch loop may assume of a hit. */
  lemma UsableMatches(q: search, key: addresses, v: Record)
    requires Usable(q, key, v)
    ensures RecordMatches(q.list, v) && q.active[v.target]
  {
    hide MatchesDisplay, Address.Display;
  }
}
