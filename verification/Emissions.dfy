/** What a GPU run prints, batch by batch, and which targets that retires. */
module Emissions {
  /** One printed address: its number, the batch it came from, the target it is for, and what was found. */
  datatype Emission<R> = Emission(number: nat, batch: nat, target: nat, found: R)

  // ----- retirement -----

  /** A target that was hit. */
  predicate WasHit<R>(log: seq<Emission<R>>, k: nat) {
    exists e :: 0 <= e < |log| && log[e].target == k
  }

  lemma HitInEither<R>(log: seq<Emission<R>>, more: seq<Emission<R>>, k: nat)
    ensures WasHit(log + more, k) <==> WasHit(log, k) || WasHit(more, k)
  {
    if WasHit(log, k) {
      var e :| 0 <= e < |log| && log[e].target == k;
      assert (log + more)[e] == log[e];
    }
    if WasHit(more, k) {
      var e :| 0 <= e < |more| && more[e].target == k;
      assert (log + more)[|log| + e] == more[e];
    }
  }

  /** The active flags after the emissions: in retiring mode every target that was hit is off. */
  ghost function FlagsAfter<R>(start: seq<bool>, retire: bool, log: seq<Emission<R>>): (r: seq<bool>)
    ensures |r| == |start|
  {
    hide WasHit;
    seq(|start|, k requires 0 <= k < |start| => start[k] && !(retire && WasHit(log, k)))
  }

  lemma FlagsNext<R>(start: seq<bool>, retire: bool, log: seq<Emission<R>>, e: Emission<R>)
    requires e.target < |start|
    ensures var flags := FlagsAfter(start, retire, log);
            FlagsAfter(start, retire, log + [e]) == if retire then flags[e.target := false] else flags
  {
    forall k: nat ensures WasHit(log + [e], k) <==> WasHit(log, k) || k == e.target {
      HitInEither(log, [e], k);
      assert [e][0].target == e.target;
    }
    hide WasHit;
  }

  lemma FlagsJoin<R>(start: seq<bool>, retire: bool, log: seq<Emission<R>>, more: seq<Emission<R>>)
    ensures FlagsAfter(FlagsAfter(start, retire, log), retire, more) == FlagsAfter(start, retire, log + more)
  {
    forall k: nat ensures WasHit(log + more, k) <==> WasHit(log, k) || WasHit(more, k) {
      HitInEither(log, more, k);
    }
    hide WasHit;
  }

  // ----- what a run's output must be -----

  /**
   The emissions of a run: numbered from 1, each for a target that was active at the start; no target
   twice when targets retire, no batch twice when siblings are not allowed.
   */
  ghost predicate GoodLog<R>(start: seq<bool>, retire: bool, siblings: bool, log: seq<Emission<R>>) {
    && (forall e :: 0 <= e < |log| ==>
          log[e].number == e + 1 && log[e].target < |start| && start[log[e].target])
    && (forall d, e :: 0 <= d < e < |log| ==> (retire ==> log[d].target != log[e].target))
    && (forall d, e :: 0 <= d < e < |log| ==> (!siblings ==> log[d].batch < log[e].batch))
  }

  ghost predicate BatchesBelow<R>(log: seq<Emission<R>>, n: nat) {
    forall e :: 0 <= e < |log| ==> log[e].batch < n
  }

  /** The same for one batch, with the flags when it began and the emissions before it. */
  ghost predicate GoodBatch<R>(active: seq<bool>, retire: bool, siblings: bool, found: nat, index: nat,
                               log: seq<Emission<R>>) {
    && (forall e :: 0 <= e < |log| ==>
          && log[e].number == found + e + 1 && log[e].batch == index
          && log[e].target < |active| && active[log[e].target])
    && (forall d, e :: 0 <= d < e < |log| ==> (retire ==> log[d].target != log[e].target))
    && (siblings || |log| <= 1)
  }

  /** A good batch after a good run is a good run. */
  lemma GoodLogExtends<R>(start: seq<bool>, retire: bool, siblings: bool, log: seq<Emission<R>>, index: nat,
                          more: seq<Emission<R>>)
    requires GoodLog(start, retire, siblings, log) && BatchesBelow(log, index)
    requires GoodBatch(FlagsAfter(start, retire, log), retire, siblings, |log|, index, more)
    ensures GoodLog(start, retire, siblings, log + more) && BatchesBelow(log + more, index + 1)
  {
    var all := log + more;
    forall d, e | 0 <= d < e < |all|
      ensures retire ==> all[d].target != all[e].target
      ensures !siblings ==> all[d].batch < all[e].batch
    {
      if d < |log| <= e {
        EntryIsHit(log, d);
        assert all[e] == more[e - |log|];
      }
    }
  }

  lemma EntryIsHit<R>(log: seq<Emission<R>>, d: nat)
    requires d < |log|
    ensures WasHit(log, log[d].target)
  {
  }
}
