/**
 The counting protocol that CPU workers run when they find a match (`record_hit` and
 `record_cpu_hit`), as a state machine: one transition per atomic operation, in any interleaving of
 any number of workers.
 */
module HitProtocol {
  import opened Wrappers

  /** Where a worker stands. The phases after Matched are the program points of `record_hit`. */
  datatype Phase =
    | Searching
    | Matched(target: nat)
    | Claimed(target: nat)
    | Over                           // fetch_add returned n >= count; fetch_sub is next
    | Undone                         // the over-count is undone; storing stop is next
    | Winner(target: nat, n: nat)    // fetch_add returned n < count; waiting for the io lock
    | Recording(target: nat, n: nat) // holds the lock; writing and printing is next
    | Scanning(i: nat)               // printed; `any_active` reads flag i next
    | Stopping                       // holds the lock; storing stop is next
    | Exited

  datatype Config = Config(count: nat, retire: bool)

  /** A printed hit: its number and its target. */
  datatype Record = Record(number: nat, target: nat)

  /** Where the n-th winner is now. */
  datatype Place = With(worker: nat) | Printed(entry: nat)

  /**
   The shared atomics and the workers' phases. The last three fields are history: the winners'
   targets in the order of their fetch_add, where each winner is, and the hits printed so far.
   */
  datatype State = State(
    phases: seq<Phase>,
    active: seq<bool>,
    hits: nat,
    stop: bool,
    lock: Option<nat>,
    won: seq<nat>,
    place: seq<Place>,
    log: seq<Record>)
  {
    function At(w: nat, p: Phase): State
      requires w < |phases|
    {
      this.(phases := phases[w := p])
    }
  }

  predicate Init(c: Config, s: State) {
    && c.count >= 1 && |s.active| >= 1
    && (forall w :: 0 <= w < |s.phases| ==> s.phases[w] == Searching)
    && (forall t :: 0 <= t < |s.active| ==> s.active[t])
    && s.hits == 0 && !s.stop && s.lock == None && s.won == [] && s.place == [] && s.log == []
  }

  /** What the environment decides for a worker outside `record_hit`. */
  datatype Choice = Find(target: nat) | SeeStop | EntropyFails

  /** The next atomic step of worker w, if it has one. */
  function Step(c: Config, s: State, w: nat, x: Choice): Option<State>
    requires w < |s.phases|
  {
    match s.phases[w]
    case Searching =>
      (match x
       case Find(t) => if t < |s.active| then Some(s.At(w, Matched(t))) else None
       case SeeStop => if s.stop then Some(s.At(w, Exited)) else None
       case EntropyFails => Some(s.At(w, Exited).(stop := true)))
    case Matched(t) => Some(Claim(c, s, w, t))
    case Claimed(t) => Some(FetchAdd(c, s, w, t))
    case Over => if s.hits >= 1 then Some(s.At(w, Undone).(hits := s.hits - 1)) else None
    case Undone => Some(s.At(w, Searching).(stop := true))
    case Winner(t, n) => if s.lock == None then Some(s.At(w, Recording(t, n)).(lock := Some(w))) else None
    case Recording(t, n) => if n < |s.place| then Some(Print(c, s, w, t, n)) else None
    case Scanning(i) =>
      if i >= |s.active| then Some(s.At(w, Stopping))
      else if s.active[i] then Some(s.At(w, Searching).(lock := None))
      else Some(s.At(w, Scanning(i + 1)))
    case Stopping => Some(s.At(w, Searching).(stop := true, lock := None))
    case Exited => None
  }

  predicate Next(c: Config, s: State, w: nat, x: Choice, s': State) {
    w < |s.phases| && Step(c, s, w, x) == Some(s')
  }

  /** `targets.claim(t)`: a compare-and-exchange in retiring mode, always granted otherwise. */
  function Claim(c: Config, s: State, w: nat, t: nat): State
    requires w < |s.phases|
  {
    if !c.retire then s.At(w, Claimed(t))
    else if t < |s.active| && s.active[t] then s.At(w, Claimed(t)).(active := s.active[t := false])
    else s.At(w, Searching)
  }

  /** `hits.fetch_add(1)` and the comparison with the budget. */
  function FetchAdd(c: Config, s: State, w: nat, t: nat): State
    requires w < |s.phases|
  {
    var n := s.hits;
    if n >= c.count then s.At(w, Over).(hits := n + 1)
    else s.At(w, Winner(t, n)).(hits := n + 1, won := s.won + [t], place := s.place + [With(w)])
  }

  /** The record is printed as hit n + 1; meeting the budget skips the scan. */
  function Print(c: Config, s: State, w: nat, t: nat, n: nat): State
    requires w < |s.phases| && n < |s.place|
  {
    s.At(w, if n + 1 >= c.count then Stopping else Scanning(0))
    .(log := s.log + [Record(n + 1, t)], place := s.place[n := Printed(|s.log|)])
  }

  // ----- counting workers -----

  predicate IsOver(p: Phase) { p.Over? }

  predicate Holds(p: Phase) { p.Winner? || p.Recording? }

  function Count(f: Phase -> bool, ps: seq<Phase>): nat {
    if ps == [] then 0 else Count(f, ps[..|ps| - 1]) + (if f(ps[|ps| - 1]) then 1 else 0)
  }

  lemma {:induction false} CountUpdate(f: Phase -> bool, ps: seq<Phase>, w: nat, p: Phase)
    requires w < |ps|
    ensures Count(f, ps[w := p]) == Count(f, ps) - (if f(ps[w]) then 1 else 0) + (if f(p) then 1 else 0)
  {
    var n := |ps| - 1;
    if w == n {
      assert ps[w := p][..n] == ps[..n];
    } else {
      CountUpdate(f, ps[..n], w, p);
      assert ps[w := p][..n] == ps[..n][w := p];
    }
  }

  lemma {:induction false} CountNone(f: Phase -> bool, ps: seq<Phase>)
    ensures Count(f, ps) == 0 <==> forall w :: 0 <= w < |ps| ==> !f(ps[w])
  {
    if ps == [] {
    } else {
      CountNone(f, ps[..|ps| - 1]);
    }
  }

  // ----- the invariant, in five parts -----

  /** Hits are the winners plus the over-counts not yet undone, and those occur only when the budget is spent. */
  predicate Budget(c: Config, s: State) {
    && s.hits == |s.won| + Count(IsOver, s.phases)
    && |s.won| <= c.count
    && (Count(IsOver, s.phases) > 0 ==> |s.won| == c.count)
  }

  /** Each number is with exactly one worker or at exactly one place in the log. */
  predicate Numbers(s: State) {
    && |s.place| == |s.won| == |s.log| + Count(Holds, s.phases)
    && (forall n :: 0 <= n < |s.place| ==> PlaceRight(s, n))
    && (forall w :: 0 <= w < |s.phases| && Holds(s.phases[w]) ==>
          s.phases[w].n < |s.place| && s.place[s.phases[w].n] == With(w))
    && (forall k :: 0 <= k < |s.log| ==>
          1 <= s.log[k].number <= |s.place| && s.place[s.log[k].number - 1] == Printed(k))
  }

  predicate PlaceRight(s: State, n: nat)
    requires n < |s.place| == |s.won|
  {
    match s.place[n]
    case With(w) => w < |s.phases| && Holds(s.phases[w]) && s.phases[w].n == n && s.phases[w].target == s.won[n]
    case Printed(k) => k < |s.log| && s.log[k] == Record(n + 1, s.won[n])
  }

  /** In retiring mode the targets of winners and claimants are retired and pairwise different. */
  predicate Retired(c: Config, s: State) {
    && (!c.retire ==> forall t :: 0 <= t < |s.active| ==> s.active[t])
    && (forall w :: 0 <= w < |s.phases| && s.phases[w].Matched? ==> s.phases[w].target < |s.active|)
    && (c.retire ==>
          && (forall n :: 0 <= n < |s.won| ==> s.won[n] < |s.active| && !s.active[s.won[n]])
          && (forall m, n :: 0 <= m < n < |s.won| ==> s.won[m] != s.won[n])
          && (forall w :: 0 <= w < |s.phases| && s.phases[w].Claimed? ==>
                s.phases[w].target < |s.active| && !s.active[s.phases[w].target] && s.phases[w].target !in s.won)
          && (forall v, w :: 0 <= v < w < |s.phases| && s.phases[v].Claimed? && s.phases[w].Claimed? ==>
                s.phases[v].target != s.phases[w].target))
  }

  /** The io lock is held exactly by the worker that is writing, scanning or stopping. */
  predicate InLock(p: Phase) { p.Recording? || p.Scanning? || p.Stopping? }

  predicate Exclusive(s: State) {
    && (s.lock.Some? ==> s.lock.value < |s.phases|)
    && forall w :: 0 <= w < |s.phases| ==> (InLock(s.phases[w]) <==> s.lock == Some(w))
  }

  /** Between a granted claim and the end of `record_hit`. */
  predicate InRecord(p: Phase) {
    p.Claimed? || p.Over? || p.Undone? || p.Winner? || InLock(p)
  }

  /** A worker that will certainly store stop: the last winner, or one already on its way. */
  predicate WillStop(c: Config, p: Phase) {
    p.Undone? || p.Stopping? || (Holds(p) && p.n + 1 >= c.count)
  }

  /** When the budget is spent, or no target is left, stop is set or somebody is about to set it. */
  predicate Winding(c: Config, s: State) {
    && (|s.won| == c.count ==> s.stop || exists w :: 0 <= w < |s.phases| && WillStop(c, s.phases[w]))
    && (true !in s.active ==> s.stop || exists w :: 0 <= w < |s.phases| && InRecord(s.phases[w]))
    && (forall w :: 0 <= w < |s.phases| && s.phases[w].Exited? ==> s.stop)
  }

  /** The budget is met, or no target is left. */
  predicate StopIsDue(c: Config, s: State) {
    |s.won| == c.count || true !in s.active
  }

  /** What a worker's phase says about the budget and the flags. */
  predicate PhaseRight(c: Config, s: State, p: Phase) {
    match p
    case Over => |s.won| == c.count
    case Undone => |s.won| == c.count
    case Scanning(i) => i <= |s.active| && true !in s.active[..i]
    case Stopping => StopIsDue(c, s)
    case _ => true
  }

  predicate PhasesRight(c: Config, s: State) {
    forall w :: 0 <= w < |s.phases| ==> PhaseRight(c, s, s.phases[w])
  }

  predicate Inv(c: Config, s: State) {
    Budget(c, s) && Numbers(s) && Retired(c, s) && Exclusive(s) && Winding(c, s) && PhasesRight(c, s)
  }

  lemma InitInv(c: Config, s: State)
    requires Init(c, s)
    ensures Inv(c, s)
  {
    CountNone(IsOver, s.phases);
    CountNone(Holds, s.phases);
    assert s.active[0] in s.active;
  }

  lemma OnlyOneMoves(c: Config, s: State, w: nat, x: Choice, s': State)
    requires Next(c, s, w, x, s')
    ensures |s'.phases| == |s.phases| && s'.phases == s.phases[w := s'.phases[w]] && |s'.active| == |s.active|
  {
  }

  lemma BudgetFrame(c: Config, s: State, w: nat, s': State)
    requires Budget(c, s) && w < |s.phases| == |s'.phases| && s'.phases == s.phases[w := s'.phases[w]]
    requires s'.won == s.won && s'.hits == s.hits && !IsOver(s.phases[w]) && !IsOver(s'.phases[w])
    ensures Budget(c, s')
  {
    CountUpdate(IsOver, s.phases, w, s'.phases[w]);
    hide Count;
  }

  lemma BudgetAfterFetchAdd(c: Config, s: State, w: nat, t: nat)
    requires Budget(c, s) && w < |s.phases| && s.phases[w] == Claimed(t)
    ensures Budget(c, FetchAdd(c, s, w, t))
  {
    CountUpdate(IsOver, s.phases, w, FetchAdd(c, s, w, t).phases[w]);
    hide Count;
  }

  lemma BudgetAfterUndo(c: Config, s: State, w: nat)
    requires Budget(c, s) && w < |s.phases| && s.phases[w] == Over && s.hits >= 1
    ensures Budget(c, s.At(w, Undone).(hits := s.hits - 1))
  {
    CountUpdate(IsOver, s.phases, w, Undone);
    hide Count;
  }

  lemma BudgetKept(c: Config, s: State, w: nat, x: Choice, s': State)
    requires Budget(c, s) && Next(c, s, w, x, s')
    ensures Budget(c, s')
  {
    OnlyOneMoves(c, s, w, x, s');
    hide Budget;
    match s.phases[w]
    case Claimed(t) => BudgetAfterFetchAdd(c, s, w, t);
    case Over => BudgetAfterUndo(c, s, w);
    case _ => BudgetFrame(c, s, w, s');
  }

  /** A step that leaves the bookkeeping alone and neither gains nor loses a number. */
  lemma NumbersFrame(s: State, w: nat, s': State)
    requires Numbers(s) && w < |s.phases| == |s'.phases| && s'.phases == s.phases[w := s'.phases[w]]
    requires s'.won == s.won && s'.place == s.place && s'.log == s.log
    requires Holds(s.phases[w]) == Holds(s'.phases[w])
    requires Holds(s.phases[w]) ==>
               s'.phases[w].n == s.phases[w].n && s'.phases[w].target == s.phases[w].target
    ensures Numbers(s')
  {
    CountUpdate(Holds, s.phases, w, s'.phases[w]);
    hide Count;
    forall n | 0 <= n < |s'.place| ensures PlaceRight(s', n) {
      assert PlaceRight(s, n);
    }
  }

  lemma NumbersAfterFetchAdd(c: Config, s: State, w: nat, t: nat)
    requires Budget(c, s) && Numbers(s) && w < |s.phases| && s.phases[w] == Claimed(t) && s.hits < c.count
    ensures Numbers(FetchAdd(c, s, w, t))
  {
    var s' := FetchAdd(c, s, w, t);
    CountUpdate(Holds, s.phases, w, s'.phases[w]);
    hide Count;
    assert s.hits == |s.won|;
    forall n | 0 <= n < |s'.place| ensures PlaceRight(s', n) {
      if n < |s.place| {
        assert PlaceRight(s, n);
      }
    }
  }

  lemma NumbersAfterPrint(c: Config, s: State, w: nat, t: nat, n: nat)
    requires Numbers(s) && w < |s.phases| && s.phases[w] == Recording(t, n)
    ensures n < |s.place| && Numbers(Print(c, s, w, t, n))
  {
    var s' := Print(c, s, w, t, n);
    CountUpdate(Holds, s.phases, w, s'.phases[w]);
    hide Count;
    assert PlaceRight(s, n);
    forall m | 0 <= m < |s'.place| ensures PlaceRight(s', m) {
      assert PlaceRight(s, m);
    }
  }

  lemma NumbersKept(c: Config, s: State, w: nat, x: Choice, s': State)
    requires Budget(c, s) && Numbers(s) && Next(c, s, w, x, s')
    ensures Numbers(s')
  {
    OnlyOneMoves(c, s, w, x, s');
    hide Numbers, Budget;
    match s.phases[w]
    case Claimed(t) =>
      if s.hits < c.count {
        NumbersAfterFetchAdd(c, s, w, t);
      } else {
        NumbersFrame(s, w, s');
      }
    case Recording(t, n) => NumbersAfterPrint(c, s, w, t, n);
    case _ => NumbersFrame(s, w, s');
  }

  /** A step that touches neither flags nor winners and grants no claim. */
  lemma RetiredFrame(c: Config, s: State, w: nat, s': State)
    requires Retired(c, s) && w < |s.phases| == |s'.phases| && s'.phases == s.phases[w := s'.phases[w]]
    requires s'.won == s.won && s'.active == s.active
    requires !s'.phases[w].Claimed? && (s'.phases[w].Matched? ==> s'.phases[w].target < |s.active|)
    ensures Retired(c, s')
  {
  }

  lemma RetiredAfterClaim(c: Config, s: State, w: nat, t: nat)
    requires Retired(c, s) && w < |s.phases| && s.phases[w] == Matched(t)
    ensures Retired(c, Claim(c, s, w, t))
  {
  }

  lemma RetiredAfterFetchAdd(c: Config, s: State, w: nat, t: nat)
    requires Retired(c, s) && w < |s.phases| && s.phases[w] == Claimed(t) && s.hits < c.count
    ensures Retired(c, FetchAdd(c, s, w, t))
  {
    var s' := FetchAdd(c, s, w, t);
    assert forall u :: u in s'.won <==> u in s.won || u == t;
  }

  lemma RetiredKept(c: Config, s: State, w: nat, x: Choice, s': State)
    requires Retired(c, s) && Next(c, s, w, x, s')
    ensures Retired(c, s')
  {
    OnlyOneMoves(c, s, w, x, s');
    hide Retired;
    match s.phases[w]
    case Matched(t) => RetiredAfterClaim(c, s, w, t);
    case Claimed(t) =>
      if s.hits < c.count {
        RetiredAfterFetchAdd(c, s, w, t);
      } else {
        RetiredFrame(c, s, w, s');
      }
    case _ => RetiredFrame(c, s, w, s');
  }

  lemma ExclusiveKept(c: Config, s: State, w: nat, x: Choice, s': State)
    requires Exclusive(s) && Next(c, s, w, x, s')
    ensures Exclusive(s')
  {
    OnlyOneMoves(c, s, w, x, s');
    hide Exclusive;
    ExclusiveMove(s, w, s');
  }

  /** A worker moves without touching the lock, or takes it when it is free, or gives it back. */
  lemma ExclusiveMove(s: State, w: nat, s': State)
    requires Exclusive(s) && w < |s.phases| == |s'.phases| && s'.phases == s.phases[w := s'.phases[w]]
    requires if InLock(s.phases[w]) == InLock(s'.phases[w]) then s'.lock == s.lock
             else if InLock(s.phases[w]) then s'.lock == None
             else s.lock == None && s'.lock == Some(w)
    ensures Exclusive(s')
  {
  }

  lemma WindingKept(c: Config, s: State, w: nat, x: Choice, s': State)
    requires Budget(c, s) && Winding(c, s) && Next(c, s, w, x, s')
    ensures Winding(c, s')
  {
    OnlyOneMoves(c, s, w, x, s');
    BudgetStop(c, s, w, x, s');
    TargetsStop(c, s, w, x, s');
  }

  lemma BudgetStop(c: Config, s: State, w: nat, x: Choice, s': State)
    requires Budget(c, s) && Winding(c, s) && Next(c, s, w, x, s')
    ensures |s'.won| == c.count ==> s'.stop || exists v :: 0 <= v < |s'.phases| && WillStop(c, s'.phases[v])
  {
    OnlyOneMoves(c, s, w, x, s');
    if |s'.won| == c.count && !s'.stop {
      if |s.won| == c.count {
        var v :| 0 <= v < |s.phases| && WillStop(c, s.phases[v]);
        assert WillStop(c, s'.phases[v]);
      } else {
        assert WillStop(c, s'.phases[w]);
      }
    }
  }

  lemma TargetsStop(c: Config, s: State, w: nat, x: Choice, s': State)
    requires Winding(c, s) && Next(c, s, w, x, s')
    ensures true !in s'.active ==> s'.stop || exists v :: 0 <= v < |s'.phases| && InRecord(s'.phases[v])
  {
    OnlyOneMoves(c, s, w, x, s');
    if true !in s'.active && !s'.stop {
      if true !in s.active {
        var v :| 0 <= v < |s.phases| && InRecord(s.phases[v]);
        assert InRecord(s'.phases[v]);
      } else {
        assert InRecord(s'.phases[w]);
      }
    }
  }

  /** No step takes a winner back or lights a flag again. */
  lemma OnlyForward(c: Config, s: State, w: nat, x: Choice, s': State)
    requires Budget(c, s) && Next(c, s, w, x, s')
    ensures |s.won| <= |s'.won| <= c.count && |s'.active| == |s.active|
    ensures forall t :: 0 <= t < |s.active| && s'.active[t] ==> s.active[t]
  {
    hide Count;
  }

  lemma PhaseStays(c: Config, s: State, s': State, p: Phase)
    requires PhaseRight(c, s, p) && |s.won| <= |s'.won| <= c.count && |s'.active| == |s.active|
    requires forall t :: 0 <= t < |s.active| && s'.active[t] ==> s.active[t]
    ensures PhaseRight(c, s', p)
  {
    NoneBelow(s.active, s'.active, |s.active|);
    if p.Scanning? {
      NoneBelow(s.active, s'.active, p.i);
    }
    assert s.active[..|s.active|] == s.active && s'.active[..|s.active|] == s'.active;
  }

  lemma NoneBelow(a: seq<bool>, b: seq<bool>, i: nat)
    requires i <= |a| == |b| && forall t :: 0 <= t < |a| && b[t] ==> a[t]
    ensures true !in a[..i] ==> true !in b[..i]
  {
    assert forall t :: 0 <= t < i ==> a[..i][t] == a[t] && b[..i][t] == b[t];
  }

  /** The worker that moves is right about the flags and the budget, in its new phase. */
  lemma MoverIsRight(c: Config, s: State, w: nat, x: Choice, s': State)
    requires Budget(c, s) && Numbers(s) && PhasesRight(c, s) && Next(c, s, w, x, s')
    ensures PhaseRight(c, s', s'.phases[w])
  {
    assert PhaseRight(c, s, s.phases[w]);
    hide Count;
    if s.phases[w].Scanning? {
      var i := s.phases[w].i;
      assert i < |s.active| ==> s.active[..i + 1] == s.active[..i] + [s.active[i]];
      assert s.active[..|s.active|] == s.active;
    }
  }

  lemma PhasesKept(c: Config, s: State, w: nat, x: Choice, s': State)
    requires Budget(c, s) && Numbers(s) && PhasesRight(c, s) && Next(c, s, w, x, s')
    ensures PhasesRight(c, s')
  {
    OnlyOneMoves(c, s, w, x, s');
    OnlyForward(c, s, w, x, s');
    MoverIsRight(c, s, w, x, s');
    hide PhaseRight, Budget, Numbers, Next;
    forall v | 0 <= v < |s'.phases| ensures PhaseRight(c, s', s'.phases[v]) {
      if v != w {
        PhaseStays(c, s, s', s.phases[v]);
      }
    }
  }

  // ----- all executions -----

  ghost predicate Reachable(c: Config, s: State, steps: nat)
    decreases steps
  {
    if steps == 0 then Init(c, s)
    else exists r: State, w: nat, x: Choice :: Reachable(c, r, steps - 1) && Next(c, r, w, x, s)
  }

  lemma {:induction false} ReachableInv(c: Config, s: State, steps: nat)
    requires Reachable(c, s, steps)
    ensures Inv(c, s)
    decreases steps
  {
    if steps == 0 {
      InitInv(c, s);
    } else {
      var r: State, w: nat, x: Choice :| Reachable(c, r, steps - 1) && Next(c, r, w, x, s);
      ReachableInv(c, r, steps - 1);
      hide Next, Budget, Numbers, Retired, Exclusive, Winding, PhasesRight;
      PhasesKept(c, r, w, x, s);
      BudgetKept(c, r, w, x, s);
      NumbersKept(c, r, w, x, s);
      RetiredKept(c, r, w, x, s);
      ExclusiveKept(c, r, w, x, s);
      WindingKept(c, r, w, x, s);
    }
  }

  /** The printed numbers are pairwise different numbers among 1..emitted, one per winner. */
  ghost predicate DistinctNumbers(log: seq<Record>, bound: nat) {
    && (forall k :: 0 <= k < |log| ==> 1 <= log[k].number <= bound)
    && (forall j, k :: 0 <= j < k < |log| ==> log[j].number != log[k].number)
  }

  lemma LogNumbers(s: State)
    requires Numbers(s)
    ensures |s.log| <= |s.won| && DistinctNumbers(s.log, |s.won|)
  {
    hide Count;
    assert forall k :: 0 <= k < |s.log| ==> s.place[s.log[k].number - 1] == Printed(k);
  }

  lemma LogTarget(s: State, k: nat)
    requires Numbers(s) && k < |s.log|
    ensures 1 <= s.log[k].number <= |s.won| && s.won[s.log[k].number - 1] == s.log[k].target
  {
    hide Count;
    var n := s.log[k].number - 1;
    assert s.place[n] == Printed(k);
    assert PlaceRight(s, n);
  }

  /** In every reachable state at most `count` hits are printed, under different numbers. */
  lemma NeverTooMany(c: Config, s: State, steps: nat)
    requires Reachable(c, s, steps)
    ensures |s.log| <= |s.won| <= c.count
    ensures DistinctNumbers(s.log, |s.won|)
    ensures s.hits <= c.count + Count(IsOver, s.phases)
  {
    ReachableInv(c, s, steps);
    hide Count, Numbers, Retired, Exclusive, Winding, DistinctNumbers;
    LogNumbers(s);
  }

  lemma WinnersDiffer(c: Config, s: State, m: nat, n: nat)
    requires Retired(c, s) && c.retire && m < |s.won| && n < |s.won| && m != n
    ensures s.won[m] != s.won[n]
  {
    if m < n {
      assert s.won[m] != s.won[n];
    }
  }

  /** In retiring mode no target is printed twice. */
  lemma NoTargetTwice(c: Config, s: State, steps: nat, j: nat, k: nat)
    requires Reachable(c, s, steps) && c.retire && j < k < |s.log|
    ensures s.log[j].target != s.log[k].target
  {
    ReachableInv(c, s, steps);
    hide Reachable, Count, Numbers, Retired, Exclusive, Winding, Budget;
    LogNumbers(s);
    LogTarget(s, j);
    LogTarget(s, k);
    WinnersDiffer(c, s, s.log[j].number - 1, s.log[k].number - 1);
  }

  /** Two workers are never inside the io lock together. */
  lemma LockExcludes(c: Config, s: State, steps: nat, v: nat, w: nat)
    requires Reachable(c, s, steps) && v < |s.phases| && w < |s.phases|
    requires InLock(s.phases[v]) && InLock(s.phases[w])
    ensures v == w
  {
    ReachableInv(c, s, steps);
    hide Reachable, Budget, Numbers, Retired, Winding;
  }

  /** No worker is inside `record_hit`. */
  predicate Quiet(s: State) {
    forall w :: 0 <= w < |s.phases| ==> !InRecord(s.phases[w])
  }

  /**
   Once no worker is mid-record, `hits` is the number of hits printed, every number 1..hits has been
   printed exactly once, and stop is set if the budget is met or no target is left.
   */
  lemma QuietState(c: Config, s: State, steps: nat)
    requires Reachable(c, s, steps) && Quiet(s)
    ensures s.hits == |s.log| <= c.count
    ensures DistinctNumbers(s.log, s.hits)
    ensures forall n :: 1 <= n <= s.hits ==> IsPrinted(s.log, n)
    ensures |s.log| == c.count || true !in s.active ==> s.stop
  {
    ReachableInv(c, s, steps);
    NeverTooMany(c, s, steps);
    NobodyCounts(s);
    assert |s.won| == c.count ==> s.stop;
    hide Count, Budget, Retired, Exclusive, Winding;
    forall n | 1 <= n <= s.hits ensures IsPrinted(s.log, n) {
      assert PlaceRight(s, n - 1);
      assert s.log[s.place[n - 1].entry].number == n;
    }
  }

  lemma NobodyCounts(s: State)
    requires Quiet(s)
    ensures Count(IsOver, s.phases) == 0 && Count(Holds, s.phases) == 0
  {
    CountNone(IsOver, s.phases);
    CountNone(Holds, s.phases);
  }

  predicate IsPrinted(log: seq<Record>, n: nat) {
    exists k :: 0 <= k < |log| && log[k].number == n
  }

  /** What `run` returns when all workers have exited: exactly the number of hits printed. */
  lemma RunReturns(c: Config, s: State, steps: nat)
    requires Reachable(c, s, steps) && |s.phases| >= 1
    requires forall w :: 0 <= w < |s.phases| ==> s.phases[w] == Exited
    ensures s.hits == |s.log| <= c.count && s.stop
  {
    QuietState(c, s, steps);
    ReachableInv(c, s, steps);
    assert s.phases[0].Exited?;
  }

  /** Stop is stored only when entropy fails, the budget is met, or no target is left. */
  lemma StopOnlyWhenDue(c: Config, r: State, steps: nat, w: nat, x: Choice, s: State)
    requires Reachable(c, r, steps) && Next(c, r, w, x, s) && s.stop && !r.stop
    ensures (r.phases[w] == Searching && x == EntropyFails) || StopIsDue(c, s)
  {
    ReachableInv(c, r, steps);
    hide Reachable, Budget, Numbers, Retired, Exclusive, Winding;
    assert PhaseRight(c, r, r.phases[w]);
  }

  // ----- one worker alone -----

  /** Some steps of worker w lead from s to s'. */
  ghost predicate Alone(c: Config, s: State, w: nat, s': State, n: nat)
    decreases n
  {
    if n == 0 then s' == s
    else exists r: State, x: Choice :: Alone(c, s, w, r, n - 1) && Next(c, r, w, x, s')
  }

  lemma OneStep(c: Config, s: State, w: nat, r: State, n: nat, x: Choice, s': State)
    requires Alone(c, s, w, r, n) && Next(c, r, w, x, s')
    ensures Alone(c, s, w, s', n + 1)
  {
    hide Next;
  }

  /** After the scan and, if no flag is set, the stop. */
  function AfterScan(s: State, w: nat): State
    requires w < |s.phases|
  {
    if true in s.active then s.At(w, Searching).(lock := None) else s.At(w, Searching).(stop := true, lock := None)
  }

  lemma ScanEnds(c: Config, s0: State, w: nat, s: State, n: nat)
    requires w < |s.phases| && s.phases[w] == Scanning(|s.active|) && true !in s.active && Alone(c, s0, w, s, n)
    ensures Alone(c, s0, w, AfterScan(s, w), n + 2)
  {
    hide Alone;
    var r := s.At(w, Stopping);
    OneStep(c, s0, w, s, n, SeeStop, r);
    Overwritten(s.phases, w, Stopping, Searching);
    OneStep(c, s0, w, r, n + 1, SeeStop, AfterScan(s, w));
  }

  lemma ScanFinds(c: Config, s0: State, w: nat, s: State, n: nat, i: nat)
    requires w < |s.phases| && s.phases[w] == Scanning(i) && i < |s.active| && s.active[i] && Alone(c, s0, w, s, n)
    ensures Alone(c, s0, w, AfterScan(s, w), n + 1)
  {
    hide Alone;
    assert s.active[i] in s.active;
    OneStep(c, s0, w, s, n, SeeStop, AfterScan(s, w));
  }

  lemma ScanNext(c: Config, s0: State, w: nat, s: State, n: nat, i: nat) returns (r: State)
    requires w < |s.phases| && s.phases[w] == Scanning(i) && i < |s.active| && !s.active[i] && Alone(c, s0, w, s, n)
    ensures r == s.At(w, Scanning(i + 1)) && Alone(c, s0, w, r, n + 1) && AfterScan(r, w) == AfterScan(s, w)
  {
    hide Alone;
    r := s.At(w, Scanning(i + 1));
    OneStep(c, s0, w, s, n, SeeStop, r);
    Overwritten(s.phases, w, Scanning(i + 1), Searching);
  }

  lemma ScanOn(c: Config, s0: State, w: nat, s: State, n: nat, i: nat) returns (m: nat)
    requires w < |s.phases| && s.phases[w] == Scanning(i) && i <= |s.active| && true !in s.active[..i]
    requires Alone(c, s0, w, s, n)
    ensures Alone(c, s0, w, AfterScan(s, w), m)
    decreases |s.active| - i
  {
    hide Alone, AfterScan, Next;
    if i == |s.active| {
      assert s.active[..i] == s.active;
      ScanEnds(c, s0, w, s, n);
      m := n + 2;
    } else if s.active[i] {
      ScanFinds(c, s0, w, s, n, i);
      m := n + 1;
    } else {
      assert s.active[..i + 1] == s.active[..i] + [s.active[i]];
      var r := ScanNext(c, s0, w, s, n, i);
      m := ScanOn(c, s0, w, r, n + 1, i + 1);
    }
  }

  /** The flags after a claim. */
  function Claimable(c: Config, s: State, t: nat): seq<bool>
    requires t < |s.active|
  {
    if c.retire then s.active[t := false] else s.active
  }

  /** The state in which hit t has been printed as the next one, its worker being in this phase. */
  function Emitted(c: Config, s: State, w: nat, t: nat, p: Phase): State
    requires w < |s.phases| && t < |s.active|
  {
    s.At(w, p).(
      active := Claimable(c, s, t), hits := s.hits + 1, won := s.won + [t], place := s.place + [Printed(|s.log|)],
      log := s.log + [Record(s.hits + 1, t)])
  }

  /** What a hit on an active target comes to while the budget is open. */
  function AfterHit(c: Config, s: State, w: nat, t: nat): State
    requires w < |s.phases| && t < |s.active|
  {
    var done := Emitted(c, s, w, t, Searching);
    done.(stop := s.stop || s.hits + 1 >= c.count || true !in done.active)
  }

  lemma Overwritten(ps: seq<Phase>, w: nat, p: Phase, q: Phase)
    requires w < |ps|
    ensures ps[w := p][w := q] == ps[w := q]
  {
  }

  lemma NoSteps(c: Config, s: State, w: nat)
    ensures Alone(c, s, w, s, 0)
  {
  }

  lemma BudgetOpen(c: Config, s: State, steps: nat)
    requires Reachable(c, s, steps) && s.hits < c.count
    ensures |s.place| == |s.won| == s.hits
  {
    ReachableInv(c, s, steps);
    hide Count, Reachable, Retired, Exclusive, Winding, PhasesRight;
  }

  /** Claim, fetch_add and lock. */
  lemma UpToLock(c: Config, s: State, w: nat, t: nat) returns (r: State)
    requires w < |s.phases| && s.phases[w] == Matched(t) && t < |s.active| && s.active[t]
    requires s.hits < c.count && s.lock == None
    ensures Alone(c, s, w, r, 3)
    ensures r == s.At(w, Recording(t, s.hits)).(active := Claimable(c, s, t), hits := s.hits + 1, won := s.won + [t],
                                                place := s.place + [With(w)], lock := Some(w))
  {
    hide Alone;
    NoSteps(c, s, w);
    var r1 := Claim(c, s, w, t);
    OneStep(c, s, w, s, 0, SeeStop, r1);
    var r2 := FetchAdd(c, r1, w, t);
    OneStep(c, s, w, r1, 1, SeeStop, r2);
    r := r2.At(w, Recording(t, s.hits)).(lock := Some(w));
    OneStep(c, s, w, r2, 2, SeeStop, r);
    Overwritten(s.phases, w, Claimed(t), Winner(t, s.hits));
    Overwritten(s.phases, w, Winner(t, s.hits), Recording(t, s.hits));
  }

  /** And the record is printed. */
  lemma UpToPrint(c: Config, s: State, w: nat, t: nat) returns (r: State)
    requires w < |s.phases| && s.phases[w] == Matched(t) && t < |s.active| && s.active[t]
    requires |s.place| == s.hits < c.count && s.lock == None
    ensures Alone(c, s, w, r, 4)
    ensures r == Emitted(c, s, w, t, if s.hits + 1 >= c.count then Stopping else Scanning(0)).(lock := Some(w))
  {
    hide Alone;
    var q := UpToLock(c, s, w, t);
    r := Print(c, q, w, t, s.hits);
    OneStep(c, s, w, q, 3, SeeStop, r);
    Overwritten(s.phases, w, Recording(t, s.hits), r.phases[w]);
    assert q.place[s.hits := Printed(|s.log|)] == s.place + [Printed(|s.log|)];
  }

  /**
   A worker with a match of an active target, while the budget is open and nobody holds the lock, prints
   it under the next number, retires its target if targets retire, and stores stop exactly when due.
   */
  lemma HitIsPrinted(c: Config, s: State, steps: nat, w: nat, t: nat) returns (n: nat)
    requires Reachable(c, s, steps) && w < |s.phases| && s.phases[w] == Matched(t) && t < |s.active|
    requires s.active[t] && s.hits < c.count && s.lock == None
    ensures Alone(c, s, w, AfterHit(c, s, w, t), n)
  {
    hide Reachable, Alone, Claimable;
    BudgetOpen(c, s, steps);
    var r := UpToPrint(c, s, w, t);
    Overwritten(s.phases, w, r.phases[w], Searching);
    if s.hits + 1 >= c.count {
      OneStep(c, s, w, r, 4, SeeStop, r.At(w, Searching).(stop := true, lock := None));
      n := 5;
    } else {
      n := ScanOn(c, s, w, r, 4, 0);
    }
  }

  /** A hit after the budget is spent leaves hits and output alone, and stores stop. */
  lemma LateHit(c: Config, s: State, w: nat, t: nat)
    requires w < |s.phases| && s.phases[w] == Matched(t) && t < |s.active| && s.active[t] && s.hits >= c.count
    ensures Alone(c, s, w, s.At(w, Searching).(stop := true, active := Claimable(c, s, t)), 4)
  {
    hide Alone;
    NoSteps(c, s, w);
    var r1 := Claim(c, s, w, t);
    OneStep(c, s, w, s, 0, SeeStop, r1);
    var r2 := FetchAdd(c, r1, w, t);
    OneStep(c, s, w, r1, 1, SeeStop, r2);
    var r3 := r2.At(w, Undone).(hits := r2.hits - 1);
    OneStep(c, s, w, r2, 2, SeeStop, r3);
    OneStep(c, s, w, r3, 3, SeeStop, r3.At(w, Searching).(stop := true));
    Overwritten(s.phases, w, Claimed(t), Over);
    Overwritten(s.phases, w, Over, Undone);
    Overwritten(s.phases, w, Undone, Searching);
  }

  /** A hit on a retired target changes nothing. */
  lemma LostRace(c: Config, s: State, w: nat, t: nat)
    requires c.retire && w < |s.phases| && s.phases[w] == Matched(t) && t < |s.active| && !s.active[t]
    ensures Alone(c, s, w, s.At(w, Searching), 1)
  {
    NoSteps(c, s, w);
    OneStep(c, s, w, s, 0, SeeStop, s.At(w, Searching));
  }

  // ----- progress -----

  /** In a reachable state no worker blocks but on the lock: an undo never underflows, a record has its number. */
  lemma NeverBlocked(c: Config, s: State, steps: nat, w: nat, x: Choice)
    requires Reachable(c, s, steps) && w < |s.phases|
    requires s.phases[w] != Searching && s.phases[w] != Exited
    requires s.phases[w].Winner? ==> s.lock == None
    ensures Step(c, s, w, x).Some?
  {
    ReachableInv(c, s, steps);
    hide Reachable, Retired, Exclusive, Winding;
    if s.phases[w] == Over {
      CountNone(IsOver, s.phases);
    }
  }

  lemma HolderInLock(c: Config, s: State, steps: nat)
    requires Reachable(c, s, steps) && s.lock.Some?
    ensures s.lock.value < |s.phases| && InLock(s.phases[s.lock.value])
  {
    ReachableInv(c, s, steps);
    hide Reachable, Budget, Numbers, Retired, Winding;
  }

  /** No deadlock: while some worker has not exited, some worker has a step. */
  lemma NoDeadlock(c: Config, s: State, steps: nat, w: nat) returns (v: nat, x: Choice)
    requires Reachable(c, s, steps) && w < |s.phases| && s.phases[w] != Exited
    ensures v < |s.phases| && Step(c, s, v, x).Some?
  {
    hide Reachable;
    v, x := w, EntropyFails;
    if s.phases[w].Winner? && s.lock.Some? {
      HolderInLock(c, s, steps);
      v := s.lock.value;
    }
    if s.phases[v] != Searching {
      NeverBlocked(c, s, steps, v, x);
    }
  }
}
