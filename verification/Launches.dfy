/** One launch of a search kernel: the buffer that its threads leave, and the records the host copies. */
module Launches {
  import opened Wrappers
  import opened Bits
  import opened HitBuffer

  /** The keys of the launch, what their threads find, the buffer after so many steps, and the host's copy. */
  datatype Launch<R> = Launch(base: entropy, start: uint64, maxHits: int31, rs: seq<Option<R>>, buffer: Buffer<R>,
                              steps: nat, hits: seq<R>)

  ghost predicate HasFinished<R(!new)>(l: Launch<R>) {
    Reachable(l.rs, l.maxHits, l.buffer, l.steps) && AllFinished(l.buffer)
  }

  /** The host's i-th record is what some thread wrote to slot i. */
  ghost predicate Copied<R>(l: Launch<R>, i: nat)
    requires i < |l.hits|
  {
    exists w :: 0 <= w < |l.buffer.writes| && l.buffer.writes[w].slot == i && l.buffer.writes[w].record == l.hits[i]
  }

  /** The host has copied the first n slots. */
  ghost predicate HostReads<R(!new)>(l: Launch<R>, n: nat) {
    |l.hits| == n && forall i :: 0 <= i < n ==> Copied(l, i)
  }

  /** Every copied record is the result of some key. */
  lemma CopiedIsResult<R(!new)>(l: Launch<R>, i: nat) returns (k: nat)
    requires HasFinished(l) && i < |l.hits| && Copied(l, i)
    ensures k < |l.rs| && l.rs[k] == Some(l.hits[i])
  {
    ReachableInv(l.rs, l.maxHits, l.buffer, l.steps);
    hide Reachable, Grants, Fates, AllFinished;
    var w :| 0 <= w < |l.buffer.writes| && l.buffer.writes[w].slot == i && l.buffer.writes[w].record == l.hits[i];
    WriteIsRecord(l.rs, l.maxHits, l.buffer, w);
    k := l.buffer.writes[w].key;
  }

  /** Two copied records are the results of two keys. */
  lemma CopiedApart<R(!new)>(l: Launch<R>, i: nat, j: nat) returns (k: nat, m: nat)
    requires HasFinished(l) && i < j < |l.hits| && Copied(l, i) && Copied(l, j)
    ensures k < |l.rs| && m < |l.rs| && k != m
    ensures l.rs[k] == Some(l.hits[i]) && l.rs[m] == Some(l.hits[j])
  {
    ReachableInv(l.rs, l.maxHits, l.buffer, l.steps);
    hide Reachable, Grants, Fates, AllFinished;
    var v :| 0 <= v < |l.buffer.writes| && l.buffer.writes[v].slot == i && l.buffer.writes[v].record == l.hits[i];
    var w :| 0 <= w < |l.buffer.writes| && l.buffer.writes[w].slot == j && l.buffer.writes[w].record == l.hits[j];
    WriteIsRecord(l.rs, l.maxHits, l.buffer, v);
    WriteIsRecord(l.rs, l.maxHits, l.buffer, w);
    if v < w {
      KeysDiffer(l.rs, l.maxHits, l.buffer, v, w);
    } else {
      KeysDiffer(l.rs, l.maxHits, l.buffer, w, v);
    }
    k, m := l.buffer.writes[v].key, l.buffer.writes[w].key;
  }

  /** When everything fits, a full copy holds the result of every key that has one. */
  lemma CopyIsComplete<R(!new)>(l: Launch<R>, k: nat)
    requires HasFinished(l) && |MatchingKeys(l.rs)| <= l.maxHits && HostReads(l, |MatchingKeys(l.rs)|)
    requires k < |l.rs| && l.rs[k].Some?
    ensures l.rs[k].value in l.hits
  {
    assert k in MatchingKeys(l.rs);
    FinishedBuffer(l.rs, l.maxHits, l.buffer, l.steps);
    NothingLost(l.rs, l.maxHits, l.buffer, l.steps, k);
    hide Reachable, MatchingKeys, AllFinished;
    var i: nat :| SlotHolds(l.rs, l.buffer, i) && l.buffer.granted[i] == k;
    assert Copied(l, i);
    assert l.hits[i] == l.rs[k].value;
  }

  // ----- can the host copy that many? -----

  ghost predicate SlotWritten<R>(b: Buffer<R>, i: nat) {
    exists w :: 0 <= w < |b.writes| && b.writes[w].slot == i
  }

  lemma SlotsWritten<R(!new)>(l: Launch<R>, i: nat)
    requires HasFinished(l) && i < |MatchingKeys(l.rs)| && i < l.maxHits
    ensures SlotWritten(l.buffer, i)
  {
    ReachableInv(l.rs, l.maxHits, l.buffer, l.steps);
    AllGranted(l.rs, l.buffer);
    hide Reachable, MatchingKeys;
    assert FateRight(l.rs, l.maxHits, l.buffer, i);
    assert l.buffer.granted[i] in l.buffer.granted;
    assert l.buffer.writes[l.buffer.fate[i].write].slot == i;
  }

  /** The slot just past the capacity is never written. */
  lemma FirstBeyond<R(!new)>(l: Launch<R>)
    requires HasFinished(l)
    ensures !SlotWritten(l.buffer, l.maxHits)
  {
    ReachableInv(l.rs, l.maxHits, l.buffer, l.steps);
    hide Reachable, Grants;
    forall w | 0 <= w < |l.buffer.writes| ensures l.buffer.writes[w].slot != l.maxHits {
      assert FateRight(l.rs, l.maxHits, l.buffer, l.buffer.writes[w].grant);
    }
  }

  lemma {:induction false} ReadWritten<R(!new)>(l: Launch<R>, n: nat) returns (hits: seq<R>)
    requires forall i: nat :: i < n ==> SlotWritten(l.buffer, i)
    ensures HostReads(l.(hits := hits), n)
  {
    if n == 0 {
      hits := [];
    } else {
      var front := ReadWritten(l, n - 1);
      assert SlotWritten(l.buffer, n - 1);
      var w :| 0 <= w < |l.buffer.writes| && l.buffer.writes[w].slot == n - 1;
      hits := front + [l.buffer.writes[w].record];
      forall i | 0 <= i < n ensures Copied(l.(hits := hits), i) {
        assert i < n - 1 ==> Copied(l.(hits := front), i);
      }
    }
  }

  ghost predicate CanRead<R(!new)>(l: Launch<R>, n: nat) {
    exists hits: seq<R> :: HostReads(l.(hits := hits), n)
  }

  /** Every record that the unsigned clamp makes the classic host copy has been written. */
  lemma EdCanRead<R(!new)>(l: Launch<R>)
    requires HasFinished(l)
    ensures CanRead(l, EdCount(l.buffer.counter, l.maxHits))
  {
    CounterOf(l);
    hide HasFinished, SlotWritten, HostReads, MatchingKeys;
    var n := EdCount(l.buffer.counter, l.maxHits);
    forall i: nat | i < n ensures SlotWritten(l.buffer, i) {
      SlotsWritten(l, i);
    }
    var hits := ReadWritten(l, n);
  }

  /** With the signed clamp that holds exactly when the counter does not read as negative. */
  lemma PqCanRead<R(!new)>(l: Launch<R>)
    requires HasFinished(l)
    ensures CanRead(l, PqCount(l.buffer.counter, l.maxHits))
       <==> |MatchingKeys(l.rs)| % 0x1_0000_0000 < 0x8000_0000
  {
    CounterOf(l);
    hide HasFinished, SlotWritten, MatchingKeys;
    var n := PqCount(l.buffer.counter, l.maxHits);
    if l.buffer.counter < 0x8000_0000 {
      hide HostReads;
      forall i: nat | i < n ensures SlotWritten(l.buffer, i) {
        SlotsWritten(l, i);
      }
      var hits := ReadWritten(l, n);
    } else if CanRead(l, n) {
      var hits: seq<R> :| HostReads(l.(hits := hits), n);
      assert Copied(l.(hits := hits), l.maxHits);
      FirstBeyond(l);
      CopiedIsWritten(l.(hits := hits), l.maxHits);
    }
  }

  lemma CopiedIsWritten<R(!new)>(l: Launch<R>, i: nat)
    requires i < |l.hits| && Copied(l, i)
    ensures SlotWritten(l.buffer, i)
  {
  }

  lemma CounterOf<R(!new)>(l: Launch<R>)
    requires HasFinished(l)
    ensures l.buffer.counter == |MatchingKeys(l.rs)| % 0x1_0000_0000 <= |MatchingKeys(l.rs)|
  {
    hide Reachable, MatchingKeys, AllFinished;
    CounterIs(l.rs, l.maxHits, l.buffer, l.steps);
  }
}
