/** One key's salts: what the CPU worker records for it, and what the kernel reports. */
module SaltSearch {
  import opened Wrappers
  import opened Bits
  import opened Base32
  import opened Targets
  import Address
  import DeviceMatch
  import TargetSet

  type addr32 = Address.addr32

  /** A key's address at each salt. */
  type addresses = uint8 -> addr32

  function AddressesOf(pk: seq<uint8>): addresses {
    salt => Address.PqAddress(salt, pk)
  }

  /** The targets, which of them are still active, the curve test, and the mode. */
  datatype Search = Search(list: seq<Target>, active: seq<bool>, compliant: addr32 -> bool,
                           canonicalOnly: bool, maxSalt: nat)

  type search = q: Search | |q.list| == |q.active| witness Search([], [], _ => true, true, 0)

  /** One usable address. */
  datatype Record = Record(salt: uint8, addr: addr32, target: nat)

  /** The first active target that an address matches. */
  function MatchOf(q: search, a: addr32): Option<nat> {
    TargetSet.FirstMatchFrom(q.list, q.active, Address.Display(a), 0)
  }

  predicate CompliantAt(key: addresses, compliant: addr32 -> bool, salt: uint8) {
    compliant(key(salt))
  }

  predicate MatchAt(q: search, key: addresses, salt: uint8) {
    MatchOf(q, key(salt)).Some?
  }

  /** `canonical_pq_salt`, from a salt on: the lowest one with a compliant address. */
  function CanonicalFrom(key: addresses, compliant: addr32 -> bool, salt: nat): (r: Option<uint8>)
    requires salt <= 256
    ensures r.Some? ==> salt <= r.value && CompliantAt(key, compliant, r.value)
    ensures forall s: uint8 :: salt <= s && (r.Some? ==> s < r.value) ==> !CompliantAt(key, compliant, s)
    decreases 256 - salt
  {
    if salt == 256 then None
    else if CompliantAt(key, compliant, salt) then Some(salt)
    else CanonicalFrom(key, compliant, salt + 1)
  }

  // ----- the CPU worker -----

  /** v is an address of the key that matches and is compliant. */
  ghost predicate Usable(q: search, key: addresses, v: Record) {
    v.addr == key(v.salt) && CompliantAt(key, q.compliant, v.salt) && MatchOf(q, v.addr) == Some(v.target)
  }

  /** What the CPU records for a key: its canonical salt's address, or the lowest usable one in range. */
  ghost predicate CpuFinds(q: search, key: addresses, v: Record) {
    && Usable(q, key, v)
    && if q.canonicalOnly then
         forall s: uint8 :: s < v.salt ==> !CompliantAt(key, q.compliant, s)
       else
         && v.salt <= q.maxSalt
         && forall s: uint8 :: s < v.salt ==> !(CompliantAt(key, q.compliant, s) && MatchAt(q, key, s))
  }

  /** One record at most. */
  lemma CpuFindsOne(q: search, key: addresses, v: Record, w: Record)
    requires CpuFinds(q, key, v) && CpuFinds(q, key, w)
    ensures v == w
  {
    hide MatchOf;
    assert MatchAt(q, key, v.salt) && MatchAt(q, key, w.salt);
  }

  ghost function SearchOf(targets: TargetSet.TargetSet, compliant: addr32 -> bool, canonicalOnly: bool, maxSalt: nat)
    : search
    requires targets.Valid()
    reads targets.active
  {
    Search(targets.list, targets.active[..], compliant, canonicalOnly, maxSalt)
  }

  /** One key of `worker`, with the lazy matcher: it records exactly what it should, or nothing. */
  method WorkerKey(targets: TargetSet.TargetSet, compliant: addr32 -> bool, canonicalOnly: bool,
                   maxSalt: uint16, key: addresses)
    returns (r: Option<Record>)
    requires targets.Valid()
    ensures r.Some? ==> CpuFinds(SearchOf(targets, compliant, canonicalOnly, maxSalt), key, r.value)
    ensures r.None? ==> forall v :: !CpuFinds(SearchOf(targets, compliant, canonicalOnly, maxSalt), key, v)
  {
    hide Address.Display, TargetSet.FirstMatchFrom;
    ghost var q := SearchOf(targets, compliant, canonicalOnly, maxSalt);
    if canonicalOnly {
      var c := CanonicalFrom(key, compliant, 0);
      if c.Some? {
        var a := key(c.value);
        var t := targets.FirstMatch(a);
        assert t == MatchOf(q, a);
        if t.Some? {
          r := Some(Record(c.value, a, t.value));
          return;
        }
        OnlyCanonical(q, key, c.value);
      }
      return None;
    }
    var salt: nat := 0;
    while salt <= maxSalt
      invariant salt <= maxSalt + 1
      invariant forall s: uint8 :: s < salt ==> !(CompliantAt(key, compliant, s) && MatchAt(q, key, s))
    {
      var low: uint8 := salt % 256;
      var a := key(low);
      var t := targets.FirstMatch(a);
      assert t == MatchOf(q, a);
      if t.Some? && compliant(a) {
        r := Some(Record(low, a, t.value));
        return;
      }
      salt := salt + 1;
    }
    NoneInRange(q, key);
    r := None;
  }

  /** In canonical mode only the canonical salt counts. */
  lemma OnlyCanonical(q: search, key: addresses, c: uint8)
    requires q.canonicalOnly && CompliantAt(key, q.compliant, c) && !MatchAt(q, key, c)
    requires forall s: uint8 :: s < c ==> !CompliantAt(key, q.compliant, s)
    ensures forall v :: !CpuFinds(q, key, v)
  {
    hide MatchOf, CompliantAt;
    forall v ensures !CpuFinds(q, key, v) {
      assert CpuFinds(q, key, v) ==> v.salt == c;
    }
  }

  lemma NoneInRange(q: search, key: addresses)
    requires !q.canonicalOnly
    requires forall s: uint8 :: s <= q.maxSalt ==> !(CompliantAt(key, q.compliant, s) && MatchAt(q, key, s))
    ensures forall v :: !CpuFinds(q, key, v)
  {
    hide MatchOf, CompliantAt;
    forall v ensures !CpuFinds(q, key, v) {
      assert CpuFinds(q, key, v) ==> MatchAt(q, key, v.salt);
    }
  }

  // ----- the kernel -----

  /** `device_table`: the targets that go to the device. */
  function ActiveTargets(list: seq<Target>, active: seq<bool>): (r: seq<Target>)
    requires |list| == |active|
    ensures forall t :: t in r <==> exists i :: 0 <= i < |list| && active[i] && list[i] == t
  {
    if list == [] then [] else
      var n := |list| - 1;
      assert list == list[..n] + [list[n]] && active == active[..n] + [active[n]];
      ActiveTargets(list[..n], active[..n]) + if active[n] then [list[n]] else []
  }

  /** The table matches an address exactly when the host finds an active target for it. */
  lemma TableAgrees(q: search, a: addr32)
    ensures (exists t :: t in ActiveTargets(q.list, q.active) && MatchesDisplay(t, Address.Display(a)))
      <==> MatchOf(q, a).Some?
  {
    hide MatchesDisplay, Address.Display, ActiveTargets;
    var r := MatchOf(q, a);
    if r.Some? {
      assert q.list[r.value] in ActiveTargets(q.list, q.active);
    }
    if t :| t in ActiveTargets(q.list, q.active) && MatchesDisplay(t, Address.Display(a)) {
      var i :| 0 <= i < |q.list| && q.active[i] && q.list[i] == t;
    }
  }

  /** The kernel's hit: the lowest matching salt, compliant or not. */
  ghost predicate KernelFinds(q: search, key: addresses, salt: uint8) {
    salt <= q.maxSalt && MatchAt(q, key, salt) && forall s: uint8 :: s < salt ==> !MatchAt(q, key, s)
  }

  /** `check_gpu`. */
  predicate FitGpu(list: seq<Target>) {
    forall t :: t in list ==> FitsDevice(t)
  }

  /** The kernel's address and matcher at one salt. */
  method TrySalt(q: search, pk: seq<uint8>, salt: uint8, addr: array<uint8>) returns (found: bool)
    requires FitGpu(q.list) && |pk| == 1793 && addr.Length == 32
    modifies addr
    ensures found <==> MatchAt(q, AddressesOf(pk), salt)
  {
    hide Address.PqAddress, FitsDevice, MatchOf, ActiveTargets;
    Address.DevPqAddr32(pk, salt, addr);
    found := DeviceMatch.MatchDisplayOnDevice(addr[..], ActiveTargets(q.list, q.active));
    TableAgrees(q, addr[..]);
  }

  /** The salt counter before iteration i of the kernel's loop: 32 bits, so it wraps. */
  function SaltCounter(i: nat): uint32 {
    i % 0x1_0000_0000
  }

  /** Iteration i passes the loop guard and finds nothing. */
  predicate GoesOn(q: search, key: addresses, i: nat) {
    SaltCounter(i) <= q.maxSalt && !MatchAt(q, key, SaltCounter(i) % 256)
  }

  /** The loop is not left in this many iterations. */
  ghost predicate RunsFor(q: search, key: addresses, steps: nat) {
    forall i: nat :: i < steps ==> GoesOn(q, key, i)
  }

  /** How the kernel's salt loop stands after so many iterations. */
  datatype LoopState = Running | Left(hit: Option<uint8>)

  /**
   The loop is running after so many iterations exactly when none of them leaves it; if it has been
   left, its hit is the lowest matching salt in range, or there is none.
   */
  ghost predicate LoopRight(q: search, key: addresses, steps: nat, r: LoopState) {
    && (r.Running? <==> RunsFor(q, key, steps))
    && (r.Left? && r.hit.Some? ==> KernelFinds(q, key, r.hit.value))
    && (r.Left? && r.hit.None? ==> forall s :: !KernelFinds(q, key, s))
  }

  /** The first `steps` iterations of the kernel's salt loop, for any bound. */
  method SaltLoop(q: search, pk: seq<uint8>, steps: nat) returns (r: LoopState)
    requires FitGpu(q.list) && |pk| == 1793 && q.maxSalt < 0x1_0000_0000
    ensures LoopRight(q, AddressesOf(pk), steps, r)
  {
    hide *;
    var addr := new uint8[32];
    var salt: uint32 := 0;
    var i := 0;
    NoIterations(q, AddressesOf(pk));
    while i < steps
      invariant i <= steps && salt == SaltCounter(i)
      invariant RunsFor(q, AddressesOf(pk), i)
    {
      if salt > q.maxSalt {
        LeftByGuard(q, AddressesOf(pk), i, steps);
        return Left(None);
      }
      var found := TrySalt(q, pk, salt % 256, addr);
      if found {
        LeftByHit(q, AddressesOf(pk), i, steps);
        return Left(Some(salt % 256));
      }
      OneMoreIteration(q, AddressesOf(pk), i);
      salt := (salt + 1) % 0x1_0000_0000;
      i := i + 1;
    }
    StillRunning(q, AddressesOf(pk), steps);
    r := Running;
  }

  lemma NoIterations(q: search, key: addresses)
    ensures SaltCounter(0) == 0 && RunsFor(q, key, 0)
  {
  }

  lemma OneMoreIteration(q: search, key: addresses, i: nat)
    requires RunsFor(q, key, i) && SaltCounter(i) <= q.maxSalt && !MatchAt(q, key, SaltCounter(i) % 256)
    ensures RunsFor(q, key, i + 1) && SaltCounter(i + 1) == (SaltCounter(i) + 1) % 0x1_0000_0000
  {
    hide MatchAt;
  }

  lemma StillRunning(q: search, key: addresses, steps: nat)
    requires RunsFor(q, key, steps)
    ensures LoopRight(q, key, steps, Running)
  {
  }

  /** Leaving by the guard happens on the counter's first pass, after every salt in range. */
  lemma LeftByGuard(q: search, key: addresses, i: nat, steps: nat)
    requires SaltCounter(i) > q.maxSalt && RunsFor(q, key, i) && i < steps
    ensures LoopRight(q, key, steps, Left(None))
  {
    hide MatchAt;
    assert SaltCounter(i) <= i;
    assert !GoesOn(q, key, i);
    forall s: uint8 | s <= q.maxSalt ensures !MatchAt(q, key, s) {
      assert GoesOn(q, key, s);
    }
  }

  /** Leaving by a hit happens within the first 256 iterations, at the lowest matching salt. */
  lemma LeftByHit(q: search, key: addresses, i: nat, steps: nat)
    requires SaltCounter(i) <= q.maxSalt && MatchAt(q, key, SaltCounter(i) % 256)
    requires RunsFor(q, key, i) && i < steps
    ensures LoopRight(q, key, steps, Left(Some(SaltCounter(i) % 256)))
  {
    hide MatchAt;
    assert !GoesOn(q, key, i);
    var s := SaltCounter(i) % 256;
    assert s <= SaltCounter(i) <= i;
    assert SaltCounter(s) % 256 == s;
    assert i == s by {
      assert s < i ==> GoesOn(q, key, s);
    }
    forall t: uint8 | t < s ensures !MatchAt(q, key, t) {
      assert GoesOn(q, key, t);
    }
  }

  /** Some iteration leaves the loop. */
  ghost predicate LoopEnds(q: search, key: addresses) {
    exists i: nat :: !GoesOn(q, key, i)
  }

  /** The kernel's salt loop ends exactly when the bound is below 2^32 - 1 or some salt matches. */
  lemma LoopEndsExactly(q: search, key: addresses)
    requires q.maxSalt < 0x1_0000_0000
    ensures LoopEnds(q, key) <==> q.maxSalt < 0xFFFF_FFFF || exists s: uint8 :: MatchAt(q, key, s)
    ensures LoopEnds(q, key) <==> !RunsFor(q, key, 0x1_0000_0000)
  {
    hide MatchAt;
    if q.maxSalt < 0xFFFF_FFFF {
      assert !GoesOn(q, key, 0xFFFF_FFFF);
    } else if s: uint8 :| MatchAt(q, key, s) {
      assert SaltCounter(s) % 256 == s;
      assert !GoesOn(q, key, s);
    }
  }

  /** Having been left means ending, and 2^32 iterations are enough to tell. */
  lemma StepsTell(q: search, key: addresses, steps: nat, r: LoopState)
    requires q.maxSalt < 0x1_0000_0000 && LoopRight(q, key, steps, r)
    ensures r.Left? ==> LoopEnds(q, key)
    ensures r.Running? && steps >= 0x1_0000_0000 ==> !LoopEnds(q, key)
  {
    hide GoesOn, MatchAt;
    LoopEndsExactly(q, key);
  }

  // ----- a loop that never ends -----

  /** The one target with a two-character prefix, numbered v. */
  function TwoLetters(v: nat): Target
    requires v < 1024
  {
    Target([CharOf(v / 32), CharOf(v % 32)], "")
  }

  /** The number of a display string's first two characters. */
  function HeadNumber(a: addr32): nat {
    hide Address.Display;
    var d := Address.Display(a);
    if InAlphabet(d[0]) && InAlphabet(d[1]) then IndexOf(d[0]) * 32 + IndexOf(d[1]) else 0
  }

  lemma TwoLettersMatch(v: nat, a: addr32)
    requires v < 1024 && MatchesDisplay(TwoLetters(v), Address.Display(a))
    ensures HeadNumber(a) == v
  {
    hide Address.Display, CharOf, IndexOf;
    var d := Address.Display(a);
    assert d[..2] == [CharOf(v / 32), CharOf(v % 32)];
    assert d[0] == d[..2][0] && d[1] == d[..2][1];
    AlphabetIsCharOf(v / 32);
    AlphabetIsCharOf(v % 32);
  }

  lemma TwoLettersFit(v: nat)
    requires v < 1024
    ensures FitsDevice(TwoLetters(v))
  {
    hide CharOf, IndexOf;
    AlphabetIsCharOf(v / 32);
    AlphabetIsCharOf(v % 32);
  }

  /** The head numbers of a key's addresses. */
  ghost function HeadNumbers(key: addresses, n: nat): (r: set<nat>)
    requires n <= 256
    ensures |r| <= n
    ensures forall s: uint8 :: s < n ==> HeadNumber(key(s)) in r
  {
    hide HeadNumber;
    if n == 0 then {} else HeadNumbers(key, n - 1) + {HeadNumber(key(n - 1))}
  }

  ghost function Below(n: nat): (r: set<nat>)
    ensures |r| == n
    ensures forall v: nat :: v in r <==> v < n
  {
    if n == 0 then {} else Below(n - 1) + {n - 1}
  }

  /** 256 addresses cannot begin with 257 different pairs of characters. */
  lemma FreeHead(key: addresses) returns (v: nat)
    ensures v < 1024 && forall s: uint8 :: HeadNumber(key(s)) != v
  {
    hide *;
    var used, all := HeadNumbers(key, 256), Below(257);
    if all <= used {
      CardinalitySubset(all, used);
      assert false;
    }
    v := Outside(all, used);
  }

  lemma Outside(all: set<nat>, used: set<nat>) returns (v: nat)
    requires !(all <= used)
    ensures v in all && v !in used
  {
    v :| v in all && v !in used;
  }

  lemma {:induction false} CardinalitySubset(s: set<nat>, t: set<nat>)
    requires s <= t
    ensures |s| <= |t|
  {
    if s == {} {
    } else {
      var x :| x in s;
      CardinalitySubset(s - {x}, t - {x});
    }
  }

  /** The search for one active target at the largest bound. */
  ghost function Unbounded(t: Target, canonicalOnly: bool): search {
    Search([t], [true], _ => true, canonicalOnly, 0xFFFF_FFFF)
  }

  /** For every key there is a valid target for which the kernel's salt loop never ends. */
  lemma EveryKeyCanHang(key: addresses, canonicalOnly: bool) returns (t: Target)
    ensures FitsDevice(t) && !LoopEnds(Unbounded(t, canonicalOnly), key)
  {
    hide *;
    var v := FreeHead(key);
    t := TwoLetters(v);
    TwoLettersFit(v);
    forall s: uint8 ensures !MatchAt(Unbounded(t, canonicalOnly), key, s) {
      UnboundedMatch(t, canonicalOnly, key, s);
      if MatchAt(Unbounded(t, canonicalOnly), key, s) {
        TwoLettersMatch(v, key(s));
      }
    }
    UnboundedNeverEnds(t, canonicalOnly, key);
  }

  lemma UnboundedMatch(t: Target, canonicalOnly: bool, key: addresses, s: uint8)
    ensures MatchAt(Unbounded(t, canonicalOnly), key, s) ==> MatchesDisplay(t, Address.Display(key(s)))
  {
    hide MatchesDisplay, Address.Display;
  }

  lemma UnboundedNeverEnds(t: Target, canonicalOnly: bool, key: addresses)
    requires forall s: uint8 :: !MatchAt(Unbounded(t, canonicalOnly), key, s)
    ensures !LoopEnds(Unbounded(t, canonicalOnly), key)
  {
    hide MatchAt, LoopEnds;
    LoopEndsExactly(Unbounded(t, canonicalOnly), key);
  }

  // ----- the two searches on one key -----

  /** The kernel's hit at v's salt survives the host's compliance and canonical checks. */
  ghost predicate GpuFinds(q: search, key: addresses, v: Record) {
    && KernelFinds(q, key, v.salt) && Usable(q, key, v)
    && (q.canonicalOnly ==> CanonicalFrom(key, q.compliant, 0) == Some(v.salt))
  }

  /** No salt below v's matches any active target. */
  ghost predicate LowestMatch(q: search, key: addresses, salt: uint8) {
    forall s: uint8 :: s < salt ==> !MatchAt(q, key, s)
  }

  /**
   The GPU finds what the CPU finds exactly when the salt is in the device's range and no lower salt
   matches, compliant or not.
   */
  lemma GpuFindsExactly(q: search, key: addresses, v: Record)
    ensures GpuFinds(q, key, v) <==> CpuFinds(q, key, v) && v.salt <= q.maxSalt && LowestMatch(q, key, v.salt)
  {
    hide MatchOf, CompliantAt;
  }

  /** The target that wants an address's first character. */
  function FirstLetter(a: addr32): Target {
    Target(Address.Display(a)[..1], "")
  }

  lemma FirstLetterMatches(a: addr32)
    ensures MatchesDisplay(FirstLetter(a), Address.Display(a))
  {
    hide Address.Display;
    assert EndsWith(Address.Display(a), "");
  }

  /** Two targets: the first characters of the addresses at salts 0 and 1. */
  ghost function Trap(key: addresses, compliant: addr32 -> bool, canonicalOnly: bool): search {
    hide Address.Display;
    Search([FirstLetter(key(0)), FirstLetter(key(1))], [true, true], compliant, canonicalOnly, 255)
  }

  /**
   The GPU search is not complete, whatever the curve test: for every key whose address is compliant at
   salt 1 and not at salt 0 there are two targets for which the CPU records salt 1 and the GPU nothing.
   */
  lemma NotComplete(key: addresses, compliant: addr32 -> bool, canonicalOnly: bool)
    requires !compliant(key(0)) && compliant(key(1))
    ensures exists v :: CpuFinds(Trap(key, compliant, canonicalOnly), key, v) && v.salt == 1
    ensures forall v :: !GpuFinds(Trap(key, compliant, canonicalOnly), key, v)
  {
    hide Address.Display, FirstLetter, MatchesDisplay;
    var q := Trap(key, compliant, canonicalOnly);
    FirstLetterMatches(key(0));
    FirstLetterMatches(key(1));
    assert q.list[0] == FirstLetter(key(0)) && q.list[1] == FirstLetter(key(1));
    assert MatchAt(q, key, 0) && MatchAt(q, key, 1);
    hide TargetSet.FirstMatchFrom;
    var v := Record(1, key(1), MatchOf(q, key(1)).value);
    assert CpuFinds(q, key, v);
    forall w ensures !GpuFinds(q, key, w) {
      assert GpuFinds(q, key, w) ==> w.salt == 0;
    }
  }
}
