/** The in-place transforms `mq_NTT` and `mq_iNTT`, proved against the recursion over the tree. */
module NttLoops {
  import opened Bits
  import opened ModQ
  import opened Montgomery
  import opened Twiddles
  import opened Ntt

  ghost predicate AllReduced(s: seq<uint16>) {
    forall j :: 0 <= j < |s| ==> s[j] < 12289
  }

  /** The recursive transform of one tree, in the chosen direction. */
  ghost function Tree(forward: bool, d: nat, k: nat, s: residues): (r: residues)
    requires |s| == Pow2(d)
    ensures |r| == |s|
  {
    if forward then Forward(d, k, s) else Backward(d, k, s)
  }

  /** The transforms of cnt neighbouring trees, whose roots are nodes k, k+1, ..., side by side. */
  ghost function Forest(forward: bool, d: nat, k: nat, cnt: nat, s: residues): (r: residues)
    requires |s| == cnt * Pow2(d)
    ensures |r| == |s|
    decreases cnt
  {
    if cnt == 0 then []
    else
      LastBlock(cnt, Pow2(d));
      var cut := (cnt - 1) * Pow2(d);
      Forest(forward, d, k, cnt - 1, s[..cut]) + Tree(forward, d, k + cnt - 1, s[cut..])
  }

  lemma LastBlock(cnt: nat, p: nat)
    requires cnt >= 1
    ensures cnt * p == (cnt - 1) * p + p && 0 <= (cnt - 1) * p
  {
    MulLe(p, 0, cnt - 1);
  }

  /** Appending one more block appends its transform. */
  lemma ForestAppend(forward: bool, d: nat, k: nat, cnt: nat, s: residues, b: residues)
    requires |s| == cnt * Pow2(d) && |b| == Pow2(d)
    ensures |s + b| == (cnt + 1) * Pow2(d)
    ensures Forest(forward, d, k, cnt + 1, s + b) == Forest(forward, d, k, cnt, s) + Tree(forward, d, k + cnt, b)
  {
    LastBlock(cnt + 1, Pow2(d));
    hide Tree;
    assert (s + b)[..|s|] == s && (s + b)[|s|..] == b;
  }

  /** Block i of a forest is the transform of block i. */
  lemma {:induction false} ForestAt(forward: bool, d: nat, k: nat, cnt: nat, s: residues, i: nat, lo: nat)
    requires |s| == cnt * Pow2(d) && i < cnt && lo == i * Pow2(d)
    ensures lo + Pow2(d) <= |s|
    ensures Forest(forward, d, k, cnt, s)[lo..lo + Pow2(d)] == Tree(forward, d, k + i, s[lo..lo + Pow2(d)])
    decreases cnt
  {
    hide Tree;
    var p := Pow2(d);
    LastBlock(cnt, p);
    var cut := (cnt - 1) * p;
    if i == cnt - 1 {
      assert s[lo..lo + p] == s[cut..];
    } else {
      ForestAt(forward, d, k, cnt - 1, s[..cut], i, lo);
      assert s[..cut][lo..lo + p] == s[lo..lo + p];
    }
  }

  /** Single leaves are their own transforms. */
  lemma {:induction false} ForestOfLeaves(forward: bool, k: nat, cnt: nat, s: residues)
    requires |s| == cnt
    ensures cnt * Pow2(0) == cnt && Forest(forward, 0, k, cnt, s) == s
    decreases cnt
  {
    assert cnt * 1 == cnt;
    if cnt == 0 {
    } else {
      assert (cnt - 1) * 1 == cnt - 1;
      ForestOfLeaves(forward, k, cnt - 1, s[..cnt - 1]);
    }
  }

  lemma ForestOfOne(forward: bool, d: nat, k: nat, s: residues)
    requires |s| == Pow2(d)
    ensures 1 * Pow2(d) == |s| && Forest(forward, d, k, 1, s) == Tree(forward, d, k, s)
  {
    hide Tree;
    assert [] + s == s;
    assert 0 * Pow2(d) == 0;
    ForestAppend(forward, d, k, 0, [], s);
  }

  // ----- forward -----

  lemma ButterflyScalar(u: int, v: int, z: int, w: int)
    requires w == (v * z) % 12289
    ensures (u + w) % 12289 == (u + z * v) % 12289
    ensures (u - w) % 12289 == (u + -z * v) % 12289
  {
    var t := v * z;
    assert z * v == t && -z * v == -t;
    hide *;
    ReducedAddend(u, t, w);
  }

  lemma ReducedAddend(u: int, t: int, w: int)
    requires w == t % 12289
    ensures (u + w) % 12289 == (u + t) % 12289 && (u - w) % 12289 == (u + -t) % 12289
  {
  }

  /** One butterfly computes one coefficient of each half. */
  lemma BlockStep(b: residues, h: nat, k: nat, i: nat)
    requires |b| == 2 * h && i < h
    ensures var v := MqMontymul(b[i + h], PqGmb(k));
            MqAdd(b[i], v) == Split(b, h, Zeta(k))[i] && MqSub(b[i], v) == SplitHigh(b, h, k)[i]
  {
    hide MqMontymul, PqGmb, Zeta, Split, MqAdd, MqSub;
    var z: int := Zeta(k);
    var v := MqMontymul(b[i + h], PqGmb(k));
    MontyTwiddle(b[i + h], k);
    ButterflyScalar(b[i], b[i + h], z, v);
    SplitAt(b, h, z, i);
    SplitAt(b, h, -z, i);
  }

  ghost function SplitHigh(b: residues, h: nat, k: nat): (r: residues)
    requires |b| == 2 * h
    ensures |r| == h
  {
    var z: int := Zeta(k);
    Split(b, h, -z)
  }

  /** Both halves of the butterfly on one block. */
  ghost function Halves(b: residues, h: nat, k: nat): (r: residues)
    requires |b| == 2 * h
    ensures |r| == 2 * h
  {
    Split(b, h, Zeta(k)) + SplitHigh(b, h, k)
  }

  /** Reduced words are residues. */
  lemma Residues(s: seq<uint16>)
    ensures AllReduced(s) <==> forall j :: 0 <= j < |s| ==> s[j] < 12289
  {
  }

  /** The innermost loop of `mq_NTT`: one block of 2·ht entries starting at j1. */
  method NttBlock(a: array<uint16>, j1: nat, ht: nat, k: nat)
    requires j1 + 2 * ht <= a.Length && AllReduced(a[..])
    modifies a
    ensures AllReduced(a[..])
    ensures var b: residues := old(a[j1..j1 + 2 * ht]);
            a[..] == old(a[..j1]) + Halves(b, ht, k) + old(a[j1 + 2 * ht..])
  {
    hide Split, SplitHigh, Zeta, PqGmb, MqMontymul, MqAdd, MqSub, AllReduced;
    Residues(a[..]);
    var s := PqGmb(k);
    ghost var o: residues := a[..];
    ghost var b: residues := a[j1..j1 + 2 * ht];
    ghost var low, high := Split(b, ht, Zeta(k)), SplitHigh(b, ht, k);
    var j := j1;
    var j2 := j1 + ht;
    while j < j2
      invariant j1 <= j <= j2
      invariant forall x :: 0 <= x < a.Length && !(j1 <= x < j) && !(j2 <= x < j + ht) ==> a[x] == o[x]
      invariant forall x :: j1 <= x < j ==> a[x] == low[x - j1]
      invariant forall x :: j2 <= x < j + ht ==> a[x] == high[x - j2]
    {
      BlockStep(b, ht, k, j - j1);
      assert a[j] == b[j - j1] && a[j + ht] == b[j - j1 + ht];
      var u := a[j];
      var v := MqMontymul(a[j + ht], s);
      a[j] := MqAdd(u, v);
      a[j + ht] := MqSub(u, v);
      j := j + 1;
    }
    ghost var r: residues := o[..j1] + Halves(b, ht, k) + o[j1 + 2 * ht..];
    assert a[..] == r;
    Residues(r);
  }

  /** Replacing one block by its two halves turns one transformed block into two half-size ones. */
  lemma StageStep(d: nat, m: nat, i: nat, o: residues, q: residues, j1: nat, t: nat)
    requires d >= 1 && t == Pow2(d) && j1 + t <= |o| && |q| == j1
    requires j1 == i * t && j1 == (2 * i) * Pow2(d - 1)
    requires Forest(true, d - 1, 2 * m, 2 * i, q) == Forest(true, d, m, i, o[..j1])
    ensures t == 2 * Pow2(d - 1) && j1 + t == (i + 1) * t && j1 + t == (2 * (i + 1)) * Pow2(d - 1)
    ensures Forest(true, d - 1, 2 * m, 2 * (i + 1), q + Halves(o[j1..j1 + t], Pow2(d - 1), m + i))
         == Forest(true, d, m, i + 1, o[..j1 + t])
  {
    hide Split, SplitHigh, Zeta, Forest, Pow2, Tree;
    TwoHalves(d);
    var b, h := o[j1..j1 + t], Pow2(d - 1);
    var low, high := Split(b, h, Zeta(m + i)), SplitHigh(b, h, m + i);
    assert 2 * m + 2 * i == 2 * (m + i);
    assert o[..j1 + t] == o[..j1] + b;
    LastBlock(i + 1, t);
    LastBlock(2 * i + 1, h);
    LastBlock(2 * i + 2, h);
    ForestAppend(true, d, m, i, o[..j1], b);
    ForestAppend(true, d - 1, 2 * m, 2 * i, q, low);
    ForestAppend(true, d - 1, 2 * m, 2 * i + 1, q + low, high);
    TreeOfBlock(d, m + i, b);
    assert q + low + high == q + (low + high);
  }

  lemma TwoHalves(d: nat)
    requires d >= 1
    ensures Pow2(d) == 2 * Pow2(d - 1)
  {
  }

  lemma TreeOfBlock(d: nat, k: nat, b: residues)
    requires d >= 1 && |b| == Pow2(d)
    ensures Pow2(d) == 2 * Pow2(d - 1)
    ensures Tree(true, d, k, b)
         == Tree(true, d - 1, 2 * k, Split(b, Pow2(d - 1), Zeta(k)))
            + Tree(true, d - 1, 2 * k + 1, SplitHigh(b, Pow2(d - 1), k))
  {
    hide Split, Zeta;
  }

  /** The middle loop of `mq_NTT`: all m blocks of size t = 2·ht. */
  method NttStage(a: array<uint16>, m: nat, t: nat, ht: nat, ghost d: nat)
    requires d >= 1 && t == Pow2(d) && ht == Pow2(d - 1) && a.Length == m * t
    requires AllReduced(a[..])
    modifies a
    ensures AllReduced(a[..])
    ensures a.Length == (2 * m) * Pow2(d - 1)
    ensures Forest(true, d - 1, 2 * m, 2 * m, a[..]) == Forest(true, d, m, m, old(a[..]))
  {
    hide Halves, Forest, Pow2;
    TwoHalves(d);
    ghost var o: residues := a[..];
    var i, j1 := 0, 0;
    EmptyForests(d, m);
    while i < m
      invariant 0 <= i <= m && j1 == i * t && j1 == (2 * i) * ht && j1 <= a.Length
      invariant AllReduced(a[..])
      invariant a[j1..] == o[j1..]
      invariant Forest(true, d - 1, 2 * m, 2 * i, a[..j1]) == Forest(true, d, m, i, o[..j1])
    {
      BlockFits(m, t, i);
      ghost var q: residues := a[..j1];
      Reread(a[..], o, j1, t);
      StageStep(d, m, i, o, q, j1, t);
      NttBlock(a, j1, ht, m + i);
      Parts(a[..], q, Halves(o[j1..j1 + t], ht, m + i), o[j1 + t..]);
      i, j1 := i + 1, j1 + t;
    }
    assert a[..j1] == a[..] && o[..j1] == o;
  }

  lemma Parts(w: seq<int>, x: seq<int>, y: seq<int>, z: seq<int>)
    requires w == x + y + z
    ensures w[..|x| + |y|] == x + y && w[|x| + |y|..] == z
  {
  }

  /** Beyond j1 the array still holds what it held. */
  lemma Reread(w: seq<int>, o: seq<int>, j1: nat, t: nat)
    requires |w| == |o| && j1 + t <= |w| && w[j1..] == o[j1..]
    ensures w[j1..j1 + t] == o[j1..j1 + t] && w[j1 + t..] == o[j1 + t..]
  {
    assert w[j1..j1 + t] == w[j1..][..t] && w[j1 + t..] == w[j1..][t..];
  }

  lemma EmptyForests(d: nat, m: nat)
    requires d >= 1
    ensures 0 * Pow2(d) == 0 && (2 * 0) * Pow2(d - 1) == 0
    ensures Forest(true, d - 1, 2 * m, 0, []) == Forest(true, d, m, 0, [])
  {
  }

  /** Block i of m fits into the array. */
  lemma BlockFits(m: nat, t: nat, i: nat)
    requires i < m
    ensures 0 <= i * t && i * t + t <= m * t && (i + 1) * t == i * t + t
  {
    MulLe(t, i + 1, m);
    MulLe(t, 0, i);
  }

  /** `mq_NTT`. */
  method MqNTT(a: array<uint16>, logn: nat)
    requires a.Length == Pow2(logn) && AllReduced(a[..])
    modifies a
    ensures AllReduced(a[..])
    ensures a[..] == Forward(logn, 1, old(a[..]))
  {
    hide Forward;
    var n := Pow2(logn);
    var t, m := n, 1;
    ghost var d: nat := logn;
    ForestOfOne(true, logn, 1, a[..]);
    while m < n
      invariant d <= logn && t == Pow2(d) && m == Pow2(logn - d) && m * t == n
      invariant AllReduced(a[..])
      invariant Forest(true, d, m, m, a[..]) == Forward(logn, 1, old(a[..]))
      decreases d
    {
      assert d >= 1;
      var ht := t / 2;
      NttStage(a, m, t, ht, d);
      t, m, d := ht, 2 * m, d - 1;
    }
    LoopEnds(logn, d);
    ForestOfLeaves(true, m, m, a[..]);
  }

  lemma LoopEnds(logn: nat, d: nat)
    requires d <= logn && Pow2(logn - d) >= Pow2(logn)
    ensures d == 0
  {
    if d > 0 {
      Pow2Monotonic(logn - d, logn - 1);
    }
  }

  // ----- inverse -----

  /** Both halves of the inverse butterfly on two neighbouring blocks. */
  ghost function Joined(u: residues, v: residues, k: nat): (r: residues)
    requires |u| == |v|
    ensures |r| == 2 * |u|
  {
    Sums(u, v) + Differences(u, v, ZetaInv(k))
  }

  lemma JoinStep(u: residues, v: residues, k: nat, i: nat)
    requires |u| == |v| && i < |u|
    ensures MqAdd(u[i], v[i]) == Joined(u, v, k)[i]
    ensures MqMontymul(MqSub(u[i], v[i]), PqIgmb(k)) == Joined(u, v, k)[|u| + i]
  {
    hide MqMontymul, PqIgmb, ZetaInv, MqAdd, MqSub;
    MontyInverseTwiddle(MqSub(u[i], v[i]), k);
  }

  /** The innermost loop of `mq_iNTT`: two blocks of t entries starting at j1. */
  method INttBlock(a: array<uint16>, j1: nat, t: nat, k: nat)
    requires j1 + 2 * t <= a.Length && AllReduced(a[..])
    modifies a
    ensures AllReduced(a[..])
    ensures var u: residues := old(a[j1..j1 + t]);
            var v: residues := old(a[j1 + t..j1 + 2 * t]);
            a[..] == old(a[..j1]) + Joined(u, v, k) + old(a[j1 + 2 * t..])
  {
    hide Joined, PqIgmb, MqMontymul, MqAdd, MqSub, AllReduced;
    Residues(a[..]);
    var s := PqIgmb(k);
    ghost var o: residues := a[..];
    ghost var bu: residues := a[j1..j1 + t];
    ghost var bv: residues := a[j1 + t..j1 + 2 * t];
    ghost var r := Joined(bu, bv, k);
    var j := j1;
    var j2 := j1 + t;
    while j < j2
      invariant j1 <= j <= j2
      invariant forall x :: 0 <= x < a.Length && !(j1 <= x < j) && !(j2 <= x < j + t) ==> a[x] == o[x]
      invariant forall x :: j1 <= x < j ==> a[x] == r[x - j1]
      invariant forall x :: j2 <= x < j + t ==> a[x] == r[x - j1]
    {
      JoinStep(bu, bv, k, j - j1);
      assert a[j] == bu[j - j1] && a[j + t] == bv[j - j1];
      var u := a[j];
      var v := a[j + t];
      a[j] := MqAdd(u, v);
      var w := MqSub(u, v);
      a[j + t] := MqMontymul(w, s);
      j := j + 1;
    }
    ghost var whole: residues := o[..j1] + r + o[j1 + 2 * t..];
    assert a[..] == whole;
    Residues(whole);
  }

  lemma TreeOfJoined(d: nat, k: nat, b: residues)
    requires |b| == Pow2(d + 1)
    ensures Pow2(d + 1) == 2 * Pow2(d)
    ensures Tree(false, d + 1, k, b)
         == Joined(Tree(false, d, 2 * k, b[..Pow2(d)]), Tree(false, d, 2 * k + 1, b[Pow2(d)..]), k)
  {
    hide Sums, Differences, ZetaInv;
  }

  lemma PairIndex(hm: nat, i: nat, t: nat, dt: nat, lo: nat)
    requires i < hm && dt == 2 * t && lo == i * dt
    ensures lo == (2 * i) * t && lo + t == (2 * i + 1) * t && lo + dt <= (2 * hm) * t
  {
    BlockFits(hm, dt, i);
  }

  /**
   Joining the transforms of two neighbouring blocks of b at position lo yields the transform of the
   double block.
   */
  lemma JoinBlocks(d: nat, hm: nat, i: nat, b: residues, s: residues, lo: nat)
    requires i < hm && |b| == (2 * hm) * Pow2(d) && lo == i * Pow2(d + 1)
    requires s == Forest(false, d, 2 * hm, 2 * hm, b)
    ensures Pow2(d + 1) == 2 * Pow2(d) && lo + Pow2(d + 1) <= |b|
    ensures var t := Pow2(d);
            Joined(s[lo..lo + t], s[lo + t..lo + 2 * t], hm + i) == Tree(false, d + 1, hm + i, b[lo..lo + 2 * t])
  {
    hide Joined, Forest, Tree, Pow2;
    TwoHalves(d + 1);
    var t := Pow2(d);
    PairIndex(hm, i, t, Pow2(d + 1), lo);
    ForestAt(false, d, 2 * hm, 2 * hm, b, 2 * i, lo);
    ForestAt(false, d, 2 * hm, 2 * hm, b, 2 * i + 1, lo + t);
    assert lo + t + t == lo + 2 * t;
    assert 2 * hm + 2 * i == 2 * (hm + i) && 2 * hm + (2 * i + 1) == 2 * (hm + i) + 1;
    JoinedBlocks(d, hm + i, b[lo..lo + 2 * t], b[lo..lo + t], b[lo + t..lo + 2 * t]);
  }

  lemma JoinedBlocks(d: nat, k: nat, b: residues, u: residues, v: residues)
    requires |u| == |v| == Pow2(d) && b == u + v
    ensures |b| == Pow2(d + 1)
    ensures Joined(Tree(false, d, 2 * k, u), Tree(false, d, 2 * k + 1, v), k) == Tree(false, d + 1, k, b)
  {
    hide Joined, Tree;
    TreeOfJoined(d, k, b);
    assert b[..Pow2(d)] == u && b[Pow2(d)..] == v;
  }

  /** The middle loop of `mq_iNTT`: hm pairs of blocks, dt = 2·t entries each. */
  method INttStage(a: array<uint16>, hm: nat, t: nat, dt: nat, ghost d: nat, ghost b: residues)
    requires t == Pow2(d) && dt == Pow2(d + 1) && a.Length == hm * dt
    requires |b| == (2 * hm) * Pow2(d)
    requires AllReduced(a[..]) && a[..] == Forest(false, d, 2 * hm, 2 * hm, b)
    modifies a
    ensures AllReduced(a[..])
    ensures |b| == hm * Pow2(d + 1) && a[..] == Forest(false, d + 1, hm, hm, b)
  {
    hide Joined, Forest, Pow2, Tree, AllReduced;
    Residues(a[..]);
    TwoHalves(d + 1);
    assert |b| == hm * dt;
    ghost var o: residues := a[..];
    var i, j1 := 0, 0;
    NoTrees(d + 1, hm);
    while i < hm
      invariant 0 <= i <= hm && j1 == i * dt && j1 <= a.Length
      invariant AllReduced(a[..])
      invariant a[j1..] == o[j1..]
      invariant a[..j1] == Forest(false, d + 1, hm, i, b[..j1])
    {
      BlockFits(hm, dt, i);
      JoinBlocks(d, hm, i, b, o, j1);
      Residues(a[..]);
      ghost var done: residues := a[..j1];
      RereadPair(a[..], o, j1, t);
      INttBlock(a, j1, t, hm + i);
      ForestNext(d + 1, hm, i, b, j1, dt);
      Parts(a[..], done, Tree(false, d + 1, hm + i, b[j1..j1 + dt]), o[j1 + dt..]);
      i, j1 := i + 1, j1 + dt;
    }
    assert a[..j1] == a[..] && b[..j1] == b;
  }

  lemma RereadPair(w: seq<int>, o: seq<int>, j1: nat, t: nat)
    requires |w| == |o| && j1 + 2 * t <= |w| && w[j1..] == o[j1..]
    ensures w[j1..j1 + t] == o[j1..j1 + t] && w[j1 + t..j1 + 2 * t] == o[j1 + t..j1 + 2 * t]
    ensures w[j1 + 2 * t..] == o[j1 + 2 * t..]
  {
    Reread(w, o, j1, t);
    Reread(w, o, j1, 2 * t);
    assert w[j1 + t..j1 + 2 * t] == w[j1..j1 + 2 * t][t..] == o[j1..j1 + 2 * t][t..] == o[j1 + t..j1 + 2 * t];
  }

  /** The forest of one more block. */
  lemma ForestNext(d: nat, k: nat, i: nat, b: residues, j1: nat, t: nat)
    requires t == Pow2(d) && j1 == i * t && j1 + t <= |b|
    ensures j1 + t == (i + 1) * Pow2(d) && |b[..j1]| == i * Pow2(d)
    ensures Forest(false, d, k, i + 1, b[..j1 + t])
         == Forest(false, d, k, i, b[..j1]) + Tree(false, d, k + i, b[j1..j1 + t])
  {
    hide Forest, Tree, Pow2;
    LastBlock(i + 1, t);
    ForestAppend(false, d, k, i, b[..j1], b[j1..j1 + t]);
    assert b[..j1] + b[j1..j1 + t] == b[..j1 + t];
  }

  lemma NoTrees(d: nat, m: nat)
    ensures 0 * Pow2(d) == 0 && Forest(false, d, m, 0, []) == []
  {
  }

  /** 1/2^l modulo q; 6145 is one half. */
  function HalfPower(l: nat): residue {
    if l == 0 then 1 else (6145 * HalfPower(l - 1)) % 12289
  }

  lemma {:induction false} HalfPowerInverts(l: nat)
    ensures Cong(HalfPower(l) * Pow2(l), 1)
  {
    if l == 0 {
      assert 1 * 1 == 1;
      CongMod(1);
    } else {
      hide Cong;
      HalfPowerInverts(l - 1);
      HalfStep(HalfPower(l), HalfPower(l - 1));
      HalfTimesDouble(HalfPower(l), HalfPower(l - 1), Pow2(l - 1));
    }
  }

  lemma HalfStep(y: int, x: int)
    requires y == (6145 * x) % 12289
    ensures Cong(2 * y, x)
  {
    CongMod(6145 * x);
    hide *;
    CongMul(y, 6145 * x, 2);
    CongWitness(2 * (6145 * x), x, x);
    CongTrans(2 * y, 2 * (6145 * x), x);
  }

  lemma HalfTimesDouble(y: int, x: int, p: int)
    requires Cong(2 * y, x) && Cong(x * p, 1)
    ensures Cong(y * (2 * p), 1)
  {
    hide *;
    CongMul(2 * y, x, p);
    assert y * (2 * p) == (2 * y) * p;
    CongTrans((2 * y) * p, x * p, 1);
  }

  /** The inverse transform, as `mq_iNTT` computes it: Backward divided by the length. */
  ghost function InverseNtt(logn: nat, b: residues): (r: residues)
    requires |b| == Pow2(logn)
    ensures |r| == |b|
  {
    Scale(HalfPower(logn), Backward(logn, 1, b))
  }

  /** Halving 4091 l times gives the Montgomery form of 1/2^l. */
  lemma HalveStep(ni: residue, l: nat)
    requires ni == (4091 * HalfPower(l)) % 12289
    ensures MqRshift1(ni) == (4091 * HalfPower(l + 1)) % 12289
  {
    hide MqRshift1;
    HalveUnique(MqRshift1(ni), ni, HalfPower(l), HalfPower(l + 1));
  }

  lemma HalveUnique(r: int, ni: int, x: int, y: int)
    requires 0 <= r < 12289 && (2 * r) % 12289 == ni && ni == (4091 * x) % 12289 && y == (6145 * x) % 12289
    ensures r == (4091 * y) % 12289
  {
    hide *;
    CongMod(2 * r);
    CongMod(4091 * x);
    CongMod(6145 * x);
    CongMod(4091 * y);
    HalveCong(r, ni, x, y);
    CongTrans(r, 4091 * y, (4091 * y) % 12289);
    CongReduced(r, (4091 * y) % 12289);
  }

  lemma HalveCong(r: int, ni: int, x: int, y: int)
    requires Cong(ni, 2 * r) && Cong(ni, 4091 * x) && Cong(y, 6145 * x)
    ensures Cong(r, 4091 * y)
  {
    hide *;
    CongMul(ni, 2 * r, 6145);
    CongWitness(6145 * (2 * r), r, r);
    CongMul(ni, 4091 * x, 6145);
    CongMul(y, 6145 * x, 4091);
    CongTrans(r, 6145 * (2 * r), 6145 * ni);
    CongTrans(r, 6145 * ni, 6145 * (4091 * x));
    CongTrans(r, 6145 * (4091 * x), 4091 * y);
  }

  /** The outer loop of `mq_iNTT`, before the division by the length. */
  method INttMerge(a: array<uint16>, logn: nat)
    requires a.Length == Pow2(logn) && AllReduced(a[..])
    modifies a
    ensures AllReduced(a[..])
    ensures a[..] == Backward(logn, 1, old(a[..]))
  {
    hide Backward, Forest, Tree, AllReduced, Pow2;
    Residues(a[..]);
    var n := Pow2(logn);
    var t, m := 1, n;
    ghost var d: nat := 0;
    ghost var b: residues := a[..];
    ForestOfLeaves(false, n, n, b);
    assert Pow2(0) == 1 by { OneLeaf(); }
    while m > 1
      invariant d <= logn && t == Pow2(d) && m == Pow2(logn - d) && m * t == n
      invariant AllReduced(a[..])
      invariant a[..] == Forest(false, d, m, m, b)
      decreases m
    {
      var hm, dt := m / 2, 2 * t;
      MergeStep(logn, d, m, t);
      INttStage(a, hm, t, dt, d, b);
      t, m, d := dt, hm, d + 1;
    }
    MergeEnds(logn, d);
    ForestOfOne(false, logn, 1, b);
    TreeIsBackward(logn, b);
  }

  lemma OneLeaf()
    ensures Pow2(0) == 1
  {
  }

  /** One level up: half as many blocks, twice as long. */
  lemma MergeStep(logn: nat, d: nat, m: nat, t: nat)
    requires d <= logn && t == Pow2(d) && m == Pow2(logn - d) && m > 1 && m * t == Pow2(logn)
    ensures d < logn && m == 2 * (m / 2) && m / 2 == Pow2(logn - (d + 1)) && 2 * t == Pow2(d + 1)
    ensures (m / 2) * (2 * t) == Pow2(logn)
  {
    var h := Pow2(logn - d - 1);
    assert m == 2 * h && Pow2(d + 1) == 2 * t;
    hide Pow2;
    HalfAndDouble(h, t);
  }

  lemma HalfAndDouble(h: int, t: int)
    ensures (2 * h) / 2 == h && h * (2 * t) == (2 * h) * t
  {
  }

  lemma MergeEnds(logn: nat, d: nat)
    requires d <= logn && Pow2(logn - d) <= 1
    ensures d == logn && Pow2(logn - d) == 1
  {
  }

  lemma TreeIsBackward(d: nat, s: residues)
    requires |s| == Pow2(d)
    ensures Tree(false, d, 1, s) == Backward(d, 1, s)
  {
  }

  /** The loop of `mq_iNTT` that halves R once per level. */
  method InverseLength(n: nat, ghost logn: nat) returns (ni: residue)
    requires n == Pow2(logn)
    ensures ni == (4091 * HalfPower(logn)) % 12289
  {
    hide MqRshift1;
    ni := 4091;
    var mm := n;
    ghost var l: nat := 0;
    while mm > 1
      invariant l <= logn && mm == Pow2(logn - l)
      invariant ni == (4091 * HalfPower(l)) % 12289
      decreases mm
    {
      HalveStep(ni, l);
      ni := MqRshift1(ni);
      mm := mm / 2;
      l := l + 1;
    }
  }

  /** `mq_iNTT`. */
  method MqINTT(a: array<uint16>, logn: nat)
    requires a.Length == Pow2(logn) && AllReduced(a[..])
    modifies a
    ensures AllReduced(a[..])
    ensures a[..] == InverseNtt(logn, old(a[..]))
  {
    hide Backward, Scale, HalfPower, AllReduced;
    INttMerge(a, logn);
    var ni := InverseLength(Pow2(logn), logn);
    ScaleInPlace(a, ni, logn);
  }

  /** The last loop of `mq_iNTT`. */
  method ScaleInPlace(a: array<uint16>, ni: residue, logn: nat)
    requires AllReduced(a[..]) && ni == (4091 * HalfPower(logn)) % 12289
    modifies a
    ensures AllReduced(a[..])
    ensures a[..] == Scale(HalfPower(logn), old(a[..]))
  {
    hide HalfPower, MqMontymul, Scale;
    ghost var o: residues := a[..];
    ghost var r := Scale(HalfPower(logn), o);
    var mm := 0;
    while mm < a.Length
      invariant 0 <= mm <= a.Length
      invariant AllReduced(a[..])
      invariant a[mm..] == o[mm..]
      invariant forall x :: 0 <= x < mm ==> a[x] == r[x]
    {
      assert a[mm] == a[mm..][0] == o[mm];
      ScaleEntry(o, mm, ni, HalfPower(logn));
      a[mm] := MqMontymul(a[mm], ni);
      mm := mm + 1;
    }
  }

  lemma ScaleEntry(o: residues, i: nat, ni: residue, c: int)
    requires i < |o| && ni == (4091 * c) % 12289
    ensures MqMontymul(o[i], ni) == Scale(c, o)[i]
  {
    hide MqMontymul, Scale;
    TableForm(ni, c);
    MontyScale(MqMontymul(o[i], ni), o[i], ni, c);
    ScaleAt(c, o, i);
    assert o[i] * c == c * o[i];
  }

  // ----- the two methods undo each other -----

  lemma UnscaleScaled(logn: nat, a: residues)
    ensures Scale(HalfPower(logn), Scale(Pow2(logn), a)) == a
    ensures Scale(Pow2(logn), Scale(HalfPower(logn), a)) == a
  {
    HalfPowerInverts(logn);
    var c, p: int := HalfPower(logn), Pow2(logn);
    hide Scale, HalfPower, Pow2;
    forall j | 0 <= j < |a| ensures Scale(c, Scale(p, a))[j] == a[j] && Scale(p, Scale(c, a))[j] == a[j] {
      ScaleAt(p, a, j);
      ScaleAt(c, a, j);
      ScaleAt(c, Scale(p, a), j);
      ScaleAt(p, Scale(c, a), j);
      assert p * c == c * p;
      UnscaleEntry(c, p, a[j]);
      UnscaleEntry(p, c, a[j]);
    }
  }

  lemma UnscaleEntry(c: int, p: int, x: residue)
    requires Cong(c * p, 1)
    ensures (c * ((p * x) % 12289)) % 12289 == x
  {
    var y := (p * x) % 12289;
    CongMod(p * x);
    CongMod(c * y);
    assert Cong((c * y) % 12289, x) by {
      hide *;
      CongMul(y, p * x, c);
      assert c * (p * x) == (c * p) * x;
      CongMul(c * p, 1, x);
      CongTrans(c * y, (c * p) * x, x);
      CongTrans((c * y) % 12289, c * y, x);
    }
    CongReduced((c * y) % 12289, x);
  }

  /** Transforming and transforming back restores every reduced input. */
  lemma InverseAfterForward(logn: nat, a: residues)
    requires |a| == Pow2(logn)
    ensures InverseNtt(logn, Forward(logn, 1, a)) == a
  {
    hide Forward, Backward, Scale;
    BackwardOfForward(logn, 1, a);
    UnscaleScaled(logn, a);
  }

  /** Transforming back and forth restores every reduced input. */
  lemma ForwardAfterInverse(logn: nat, b: residues)
    requires |b| == Pow2(logn)
    ensures Forward(logn, 1, InverseNtt(logn, b)) == b
  {
    hide Forward, Backward, Scale;
    ForwardOfScale(logn, 1, HalfPower(logn), Backward(logn, 1, b));
    ForwardOfBackward(logn, 1, b);
    UnscaleScaled(logn, b);
  }
}
