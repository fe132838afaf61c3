/** The validated target list, its retirement flags, and the host's two matchers. */
module TargetSet {
  import opened Wrappers
  import opened Base32
  import opened Address
  import opened Targets

  // ----- validation and deduplication -----

  datatype ParseError = BadCharacter | EmptyPattern | BadLastCharacter | TooLong | NoTargets | TooMany

  /** The first complaint `parse` has about one pattern. */
  function Complaint(t: Target): (e: Option<ParseError>)
    ensures e.None? <==> ValidTarget(t)
  {
    if !AllInAlphabet(t.prefix) || !AllInAlphabet(t.suffix) then Some(BadCharacter)
    else if t.prefix == "" && t.suffix == "" then Some(EmptyPattern)
    else if t.suffix != "" && t.suffix[|t.suffix| - 1] !in LAST_CHARS then Some(BadLastCharacter)
    else if |t.prefix| + |t.suffix| > 58 then Some(TooLong)
    else None
  }

  /** Every combination, the prefixes varying slowest. */
  function Product(ps: seq<string>, ss: seq<string>): seq<Target> {
    if ps == [] then [] else Product(ps[..|ps| - 1], ss) + Row(ps[|ps| - 1], ss)
  }

  function Row(p: string, ss: seq<string>): seq<Target> {
    seq(|ss|, i requires 0 <= i < |ss| => Target(p, ss[i]))
  }

  lemma {:induction false} ProductLength(ps: seq<string>, ss: seq<string>)
    ensures |Product(ps, ss)| == |ps| * |ss|
  {
    if ps == [] {
    } else {
      ProductLength(ps[..|ps| - 1], ss);
      assert |ps| * |ss| == (|ps| - 1) * |ss| + |ss|;
    }
  }

  /** Prefix i with suffix j stands at i·|ss| + j. */
  lemma {:induction false} ProductAt(ps: seq<string>, ss: seq<string>, i: nat, j: nat)
    requires i < |ps| && j < |ss|
    ensures 0 <= i * |ss| + j < |Product(ps, ss)| && Product(ps, ss)[i * |ss| + j] == Target(ps[i], ss[j])
  {
    var n := |ps| - 1;
    var front := ps[..n];
    ProductLength(front, ss);
    if i == n {
      assert Product(ps, ss)[|Product(front, ss)| + j] == Row(ps[n], ss)[j];
    } else {
      ProductAt(front, ss, i, j);
    }
  }

  /** The expansion holds exactly the combinations of a given prefix and a given suffix. */
  lemma {:induction false} ProductHas(ps: seq<string>, ss: seq<string>, t: Target)
    ensures t in Product(ps, ss) <==> t.prefix in ps && t.suffix in ss
  {
    if ps == [] {
    } else {
      var n := |ps| - 1;
      ProductHas(ps[..n], ss, t);
      assert ps == ps[..n] + [ps[n]];
      if t.prefix == ps[n] && t.suffix in ss {
        var j :| 0 <= j < |ss| && ss[j] == t.suffix;
        assert Row(ps[n], ss)[j] == t;
      }
    }
  }

  /** First occurrences, in order. */
  function Dedup(ts: seq<Target>): (r: seq<Target>)
    ensures forall t :: t in r <==> t in ts
    ensures forall i, j :: 0 <= i < j < |r| ==> r[i] != r[j]
  {
    if ts == [] then []
    else
      var r, t := Dedup(ts[..|ts| - 1]), ts[|ts| - 1];
      assert forall x :: x in ts <==> x in ts[..|ts| - 1] || x == t;
      if t in r then r else r + [t]
  }

  /** Where a pattern first occurs. */
  function FirstIndex(ts: seq<Target>, t: Target): (i: nat)
    requires t in ts
    ensures i < |ts| && ts[i] == t && t !in ts[..i]
  {
    if ts[0] == t then 0 else
      assert forall i :: 0 <= i < |ts[1..]| ==> ts[1..][i] == ts[i + 1];
      var i := 1 + FirstIndex(ts[1..], t);
      assert ts[..i] == [ts[0]] + ts[1..][..i - 1];
      i
  }

  lemma FirstIndexUnique(ts: seq<Target>, t: Target, i: nat)
    requires t in ts && i < |ts| && ts[i] == t && t !in ts[..i]
    ensures FirstIndex(ts, t) == i
  {
    var j := FirstIndex(ts, t);
    assert forall k :: 0 <= k < i ==> ts[k] in ts[..i];
    assert forall k :: 0 <= k < j ==> ts[k] in ts[..j];
  }

  /** Deduplication keeps the patterns in the order of their first occurrences. */
  lemma {:induction false} DedupKeepsOrder(ts: seq<Target>, i: nat, j: nat)
    requires i < j < |Dedup(ts)|
    ensures Dedup(ts)[i] in ts && Dedup(ts)[j] in ts
    ensures FirstIndex(ts, Dedup(ts)[i]) < FirstIndex(ts, Dedup(ts)[j])
  {
    var n := |ts| - 1;
    var front, r := ts[..n], Dedup(ts);
    var r' := Dedup(front);
    DedupStep(ts);
    hide Dedup;
    SameIndex(ts, n, r[i]);
    if j < |r'| {
      DedupKeepsOrder(front, i, j);
      SameIndex(ts, n, r[j]);
    } else {
      FirstIndexUnique(ts, ts[n], n);
    }
  }

  lemma DedupStep(ts: seq<Target>)
    requires ts != []
    ensures var n := |ts| - 1;
            Dedup(ts) == if ts[n] in ts[..n] then Dedup(ts[..n]) else Dedup(ts[..n]) + [ts[n]]
  {
  }

  lemma SameIndex(ts: seq<Target>, n: nat, t: Target)
    requires n <= |ts| && t in ts[..n]
    ensures t in ts && FirstIndex(ts, t) == FirstIndex(ts[..n], t) < n
  {
    var a := FirstIndex(ts[..n], t);
    assert ts[..a] == ts[..n][..a] && ts[a] == ts[..n][a];
    FirstIndexUnique(ts, t, a);
  }

  lemma DedupKeepsSome(ts: seq<Target>)
    ensures ts != [] ==> Dedup(ts) != []
  {
    if ts != [] {
      assert ts[0] in Dedup(ts);
    }
  }

  datatype Parsed = Parsed(list: seq<Target>, retire: bool, maxPrefix: nat)

  /** The longest prefix is the length of some prefix, and none is longer. */
  ghost predicate IsMaxPrefix(list: seq<Target>, m: nat) {
    && (forall t :: t in list ==> |t.prefix| <= m)
    && (list == [] ==> m == 0)
    && (list != [] ==> exists t :: t in list && |t.prefix| == m)
  }

  method Expand(ps: seq<string>, ss: seq<string>) returns (list: seq<Target>)
    ensures list == Product(ps, ss)
  {
    list := [];
    for i := 0 to |ps|
      invariant list == Product(ps[..i], ss)
    {
      ghost var done := list;
      for j := 0 to |ss|
        invariant list == done + Row(ps[i], ss)[..j]
      {
        list := list + [Target(ps[i], ss[j])];
      }
      assert ps[..i + 1][..i] == ps[..i];
    }
    assert ps[..|ps|] == ps;
  }

  ghost predicate AllValid(ts: seq<Target>) {
    forall i :: 0 <= i < |ts| ==> ValidTarget(ts[i])
  }

  /** The error is the complaint about the first bad pattern. */
  ghost predicate IsFirstComplaint(ts: seq<Target>, e: ParseError) {
    exists i :: 0 <= i < |ts| && AllValid(ts[..i]) && Complaint(ts[i]) == Some(e)
  }

  lemma ComplaintAt(ts: seq<Target>, i: nat, e: ParseError)
    requires i < |ts| && AllValid(ts[..i]) && Complaint(ts[i]) == Some(e)
    ensures IsFirstComplaint(ts, e)
  {
    hide AllValid, Complaint;
  }

  lemma AllValidNext(ts: seq<Target>, i: nat)
    requires i < |ts|
    ensures AllValid(ts[..i + 1]) <==> AllValid(ts[..i]) && ValidTarget(ts[i])
    ensures !ValidTarget(ts[i]) ==> !AllValid(ts)
  {
    hide ValidTarget;
    assert ts[..i + 1] == ts[..i] + [ts[i]];
  }

  lemma DedupNext(ts: seq<Target>, i: nat)
    requires i < |ts|
    ensures Dedup(ts[..i + 1]) == if ts[i] in Dedup(ts[..i]) then Dedup(ts[..i]) else Dedup(ts[..i]) + [ts[i]]
  {
    assert ts[..i + 1][..i] == ts[..i];
  }

  /** The loop of `TargetSet::parse`: reject the first bad pattern, keep first occurrences. */
  method CheckAll(candidates: seq<Target>) returns (r: Result<seq<Target>, ParseError>)
    ensures r.Success? <==> AllValid(candidates)
    ensures r.Success? ==> r.value == Dedup(candidates)
    ensures r.Failure? ==> IsFirstComplaint(candidates, r.error)
  {
    hide ValidTarget, Complaint;
    var dedup := [];
    assert candidates[..0] == [] && AllValid(candidates[..0]);
    DedupOfNone(candidates[..0]);
    hide Dedup, AllValid;
    for i := 0 to |candidates|
      invariant dedup == Dedup(candidates[..i])
      invariant AllValid(candidates[..i])
    {
      var t := candidates[i];
      var c := Complaint(t);
      AllValidNext(candidates, i);
      if c.Some? {
        ComplaintAt(candidates, i, c.value);
        return Failure(c.value);
      }
      DedupNext(candidates, i);
      if t !in dedup {
        dedup := dedup + [t];
      }
    }
    assert candidates[..|candidates|] == candidates;
    r := Success(dedup);
  }

  /** The first complaint, or else that there are no targets, or else that there are too many. */
  ghost predicate RightError(candidates: seq<Target>, e: ParseError) {
    if !AllValid(candidates) then IsFirstComplaint(candidates, e)
    else if candidates == [] then e == NoTargets
    else e == TooMany && |Dedup(candidates)| > 1024
  }

  /** The checks of `TargetSet::parse` on the expanded list. */
  method Validate(candidates: seq<Target>, keepFound: bool) returns (r: Result<Parsed, ParseError>)
    ensures r.Success? <==> candidates != [] && AllValid(candidates) && |Dedup(candidates)| <= 1024
    ensures r.Success? ==> r.value.list == Dedup(candidates)
    ensures r.Success? ==> IsMaxPrefix(r.value.list, r.value.maxPrefix)
    ensures r.Success? ==> r.value.retire == (|r.value.list| > 1 && !keepFound)
    ensures r.Failure? ==> RightError(candidates, r.error)
  {
    hide AllValid, Dedup, IsFirstComplaint;
    var checked := CheckAll(candidates);
    if checked.Failure? {
      return Failure(checked.error);
    }
    var dedup := checked.value;
    DedupKeepsSome(candidates);
    if dedup == [] {
      DedupOfNone(candidates);
      return Failure(NoTargets);
    }
    assert candidates != [] by { DedupOfNone(candidates); }
    if |dedup| > 1024 {
      return Failure(TooMany);
    }
    var m := LongestPrefix(dedup);
    r := Success(Parsed(dedup, |dedup| > 1 && !keepFound, m));
  }

  /** `TargetSet::parse` on a prefix list and a suffix list: every combination becomes a target, once. */
  method ParseLists(ps: seq<string>, ss: seq<string>, keepFound: bool) returns (r: Result<Parsed, ParseError>)
    ensures r.Success? ==> forall t :: t in r.value.list <==> t.prefix in ps && t.suffix in ss
    ensures r.Success? <==>
              && Product(ps, ss) != [] && |Dedup(Product(ps, ss))| <= 1024
              && forall p, s :: p in ps && s in ss ==> ValidTarget(Target(p, s))
    ensures r.Success? ==>
              && r.value.list == Dedup(Product(ps, ss)) && IsMaxPrefix(r.value.list, r.value.maxPrefix)
              && r.value.retire == (|r.value.list| > 1 && !keepFound)
    ensures r.Failure? ==> RightError(Product(ps, ss), r.error)
  {
    hide Dedup, ValidTarget, RightError, IsMaxPrefix;
    var list := Expand(ps, ss);
    r := Validate(list, keepFound);
    forall t ensures t in list <==> t.prefix in ps && t.suffix in ss {
      ProductHas(ps, ss, t);
    }
    AllValidMeans(list);
    forall p, s | p in ps && s in ss ensures Target(p, s) in list {
      ProductHas(ps, ss, Target(p, s));
    }
  }

  lemma AllValidMeans(ts: seq<Target>)
    ensures AllValid(ts) <==> forall t :: t in ts ==> ValidTarget(t)
  {
    hide ValidTarget;
  }

  lemma DedupOfNone(ts: seq<Target>)
    ensures ts == [] ==> Dedup(ts) == []
  {
  }

  method LongestPrefix(list: seq<Target>) returns (m: nat)
    ensures IsMaxPrefix(list, m)
  {
    m := 0;
    for i := 0 to |list|
      invariant forall k :: 0 <= k < i ==> |list[k].prefix| <= m
      invariant if i == 0 then m == 0 else exists k :: 0 <= k < i && |list[k].prefix| == m
    {
      if |list[i].prefix| >= m {
        m := |list[i].prefix|;
      }
    }
  }

  // ----- the set -----

  /** The first active target that the display string matches, at index i or later. */
  function FirstMatchFrom(list: seq<Target>, active: seq<bool>, display: string, i: nat): (r: Option<nat>)
    requires |list| == |active| && i <= |list|
    ensures r.Some? ==> i <= r.value < |list| && active[r.value] && MatchesDisplay(list[r.value], display)
    ensures r.Some? ==> forall k :: i <= k < r.value ==> !(active[k] && MatchesDisplay(list[k], display))
    ensures r.None? ==> forall k :: i <= k < |list| ==> !(active[k] && MatchesDisplay(list[k], display))
    decreases |list| - i
  {
    if i == |list| then None
    else if active[i] && MatchesDisplay(list[i], display) then Some(i)
    else FirstMatchFrom(list, active, display, i + 1)
  }

  /** A prefix of at most 51 characters can be checked on the leading bytes alone. */
  lemma HeadDecidesPrefix(a: addr32, hb: nat, p: string)
    requires hb <= 32 && 5 * |p| <= 8 * hb
    ensures StartsWith(Encode(a[..hb]), p) <==> StartsWith(Display(a), p)
  {
    hide Encode, Checksum;
    EncodePrefix(a[..hb], a[hb..] + Checksum(a), |p|);
    assert a[..hb] + (a[hb..] + Checksum(a)) == a + Checksum(a);
  }

  class TargetSet {
    const list: seq<Target>
    const active: array<bool>
    const retire: bool
    const maxPrefix: nat

    ghost predicate Valid() {
      active.Length == |list| && IsMaxPrefix(list, maxPrefix)
    }

    constructor (p: Parsed)
      requires IsMaxPrefix(p.list, p.maxPrefix)
      ensures Valid() && list == p.list && retire == p.retire && maxPrefix == p.maxPrefix
      ensures fresh(active) && active[..] == seq(|p.list|, _ => true)
    {
      list, retire, maxPrefix := p.list, p.retire, p.maxPrefix;
      active := new bool[|p.list|](_ => true);
    }

    /** `claim`: in retiring mode only the first claim of a target succeeds. */
    method Claim(i: nat) returns (won: bool)
      requires Valid() && i < |list|
      modifies active
      ensures won == (!retire || old(active[i]))
      ensures active[..] == if retire then old(active[..])[i := false] else old(active[..])
    {
      if !retire {
        return true;
      }
      if active[i] {
        active[i] := false;
        return true;
      }
      assert active[..] == old(active[..])[i := false];
      return false;
    }

    method AnyActive() returns (r: bool)
      requires Valid()
      ensures r <==> true in active[..]
    {
      var i := 0;
      while i < |list|
        invariant 0 <= i <= |list|
        invariant true !in active[..i]
      {
        if active[i] {
          return true;
        }
        i := i + 1;
      }
      assert active[..i] == active[..];
      return false;
    }

    /** `first_match_display`: plain string matching on the whole display string. */
    method FirstMatchDisplay(display: string) returns (r: Option<nat>)
      requires Valid()
      ensures r == FirstMatchFrom(list, active[..], display, 0)
    {
      var i := 0;
      while i < |list|
        invariant 0 <= i <= |list|
        invariant FirstMatchFrom(list, active[..], display, 0) == FirstMatchFrom(list, active[..], display, i)
      {
        if active[i] && MatchesDisplay(list[i], display) {
          return Some(i);
        }
        i := i + 1;
      }
      r := None;
    }

    /** The bytes that the lazy matcher encodes: enough for 51 characters at most. */
    function HeadBytes(): (r: nat)
      ensures r <= 32 && 5 * (if maxPrefix <= 51 then maxPrefix else 51) <= 8 * r
    {
      ((if maxPrefix <= 51 then maxPrefix else 51) * 5 + 7) / 8
    }

    /**
     `first_match`: the prefix is checked on the encoding of the leading bytes, and the display
     string is built only when a long prefix or a suffix needs it.
     */
    method FirstMatch(a: addr32) returns (r: Option<nat>)
      requires Valid()
      ensures r == FirstMatchFrom(list, active[..], Display(a), 0)
    {
      hide Display, Encode, StartsWith, EndsWith;
      var head := Encode(a[..HeadBytes()]);
      var display: Option<string> := None;
      var i := 0;
      while i < |list|
        invariant 0 <= i <= |list|
        invariant display.Some? ==> display.value == Display(a)
        invariant FirstMatchFrom(list, active[..], Display(a), 0) == FirstMatchFrom(list, active[..], Display(a), i)
      {
        var t := list[i];
        assert t in list;
        if active[i] {
          var prefixOk;
          if |t.prefix| <= 51 {
            HeadDecidesPrefix(a, HeadBytes(), t.prefix);
            prefixOk := StartsWith(head, t.prefix);
          } else {
            if display.None? {
              display := Some(Display(a));
            }
            prefixOk := StartsWith(display.value, t.prefix);
          }
          if prefixOk {
            if t.suffix == "" {
              EmptySuffix(Display(a));
              return Some(i);
            }
            if display.None? {
              display := Some(Display(a));
            }
            if EndsWith(display.value, t.suffix) {
              return Some(i);
            }
          }
        }
        i := i + 1;
      }
      r := None;
    }
  }

  lemma EmptySuffix(s: string)
    ensures EndsWith(s, "")
  {
  }
}
