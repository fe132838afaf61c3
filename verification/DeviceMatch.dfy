/** The device matchers: masks over two 64-bit words, the second one computed only when needed. */
module DeviceMatch {
  import opened Bits
  import opened Digits
  import opened Sha512Spec
  import opened Sha512
  import opened Address
  import opened Targets

  /** `pq_be64` and `ed_be64`: eight bytes, most significant first. */
  method Be64(p: seq<uint8>) returns (v: uint64)
    requires |p| == 8
    ensures v == Value(p, 256)
  {
    hide Value, Or;
    v := 0;
    var i := 0;
    assert Value(p[..0], 256) == 0 by { NoDigits(p[..0]); }
    while i < 8
      invariant 0 <= i <= 8
      invariant v == Value(p[..i], 256)
    {
      TakeByte(p, i, v);
      v := Or((v * 256) % 0x1_0000_0000_0000_0000, p[i]);
      i := i + 1;
    }
    assert p[..8] == p;
  }

  lemma NoDigits(s: seq<int>)
    requires s == []
    ensures Value(s, 256) == 0
  {
  }

  lemma TakeByte(p: seq<uint8>, i: nat, v: nat)
    requires |p| == 8 && i < 8 && v == Value(p[..i], 256)
    ensures Or((v * 256) % 0x1_0000_0000_0000_0000, p[i]) == Value(p[..i + 1], 256) < 0x1_0000_0000_0000_0000
  {
    ValueBound(p[..i + 1], 256);
    PowersOf256(i + 1);
    assert p[..i + 1] == p[..i] + [p[i]];
    hide Value, Or, Power;
    ValueAppend(p[..i], p[i], 256);
    SmallMod(v * 256, 0x1_0000_0000_0000_0000);
    OrByte(v, p[i], 8);
  }

  lemma PowersOf256(i: nat)
    requires i <= 8
    ensures Power(256, i) <= 0x1_0000_0000_0000_0000
  {
    PowerMonotonic(256, i, 8);
    assert Power(256, 4) == 0x1_0000_0000;
    assert Power(256, 8) == 0x1_0000_0000_0000_0000;
  }

  lemma OrByte(v: nat, b: nat, n: nat)
    requires n == 8 && b < 256
    ensures Or(v * 256, b) == v * 256 + b
  {
    assert Pow2(8) == 256;
    hide Or;
    OrDisjoint(b, v, 8);
    OrCommutes(b, v * 256);
  }

  /** `(hi32 << 32) | lo32`, from two eight-byte loads cut to 32 bits each. */
  lemma JoinHalves(x: seq<uint8>, y: seq<uint8>)
    requires |x| == |y| == 8
    ensures Value(x, 256) >= 0 && Value(y, 256) >= 0
    ensures Or(Value(x, 256) % 0x1_0000_0000 * 0x1_0000_0000, Value(y, 256) % 0x1_0000_0000)
         == Value(x[4..] + y[4..], 256)
  {
    LowFourBytes(x);
    LowFourBytes(y);
    ValueConcat(x[4..], y[4..], 256);
    Pow2Is32();
    assert Power(256, 4) == 0x1_0000_0000;
    hide Value, Or, Power, Pow2;
    var u, v := Value(x[4..], 256), Value(y[4..], 256);
    OrDisjoint(v, u, 32);
    OrCommutes(v, u * Pow2(32));
  }

  lemma LowFourBytes(x: seq<uint8>)
    requires |x| == 8
    ensures 0 <= Value(x[4..], 256) < 0x1_0000_0000 && Value(x, 256) >= 0
    ensures Value(x, 256) % 0x1_0000_0000 == Value(x[4..], 256)
  {
    assert Power(256, 4) == 0x1_0000_0000;
    assert x == x[..4] + x[4..];
    hide Power, Value;
    ValueConcat(x[..4], x[4..], 256);
    ValueBound(x[4..], 256);
    ValueBound(x[..4], 256);
    DivModUnique(Value(x, 256), 0x1_0000_0000, Value(x[..4], 256), Value(x[4..], 256));
  }

  /** The low word, which costs a hash. */
  method LowWord(addr: addr32) returns (lo: uint64)
    ensures lo == Lo(addr)
  {
    hide *;
    var sum := new uint8[32];
    OnePiece(addr);
    HashPieces([addr], sum);
    var x := Be64(addr[24..]);
    var y := Be64(sum[24..]);
    LowWordParts(addr, sum[..], x, y);
    lo := Or(x % 0x1_0000_0000 * 0x1_0000_0000, y % 0x1_0000_0000);
  }

  lemma LowWordParts(addr: addr32, sum: seq<uint8>, x: nat, y: nat)
    requires sum == Sha512_256(addr) && |sum| == 32
    requires x == Value(addr[24..], 256) && y == Value(sum[24..], 256)
    ensures Or(x % 0x1_0000_0000 * 0x1_0000_0000, y % 0x1_0000_0000) == Lo(addr)
  {
    hide Value, Or, Sha512_256;
    assert sum[24..][4..] == Checksum(addr) && addr[24..][4..] == addr[28..];
    hide Checksum;
    JoinHalves(addr[24..], sum[24..]);
  }

  lemma OnePiece(a: bytes)
    ensures Flatten([a]) == a
  {
    assert Flatten([a]) == Flatten([]) + a;
  }

  /** What the matcher's loop body accepts: a table row without suffix mask never looks at lo. */
  predicate RowMatch(w: Words, hi: uint64, lo: uint64) {
    And(hi, w.pmask) == w.pval && (w.smask == 0 || And(lo, w.smask) == w.sval)
  }

  /** `pq_match_targets` and `ed_match_targets`. */
  method MatchTargets(addr: addr32, table: seq<Words>) returns (found: bool)
    ensures found <==> exists w :: w in table && RowMatch(w, Hi(addr), Lo(addr))
  {
    hide Value, And, Lo, Checksum;
    var hi := Be64(addr[..8]);
    assert hi == Hi(addr);
    hide Hi;
    var lo: uint64 := 0;
    var haveLo := false;
    var t := 0;
    while t < |table|
      invariant 0 <= t <= |table|
      invariant haveLo ==> lo == Lo(addr)
      invariant forall k :: 0 <= k < t ==> !RowMatch(table[k], Hi(addr), Lo(addr))
    {
      var w := table[t];
      if And(hi, w.pmask) == w.pval {
        if w.smask == 0 {
          assert w in table && RowMatch(w, Hi(addr), Lo(addr));
          return true;
        }
        if !haveLo {
          lo := LowWord(addr);
          haveLo := true;
        }
        if And(lo, w.smask) == w.sval {
          assert w in table && RowMatch(w, Hi(addr), Lo(addr));
          return true;
        }
      }
      t := t + 1;
    }
    found := false;
  }

  /** A row made from a target accepts exactly what the target's display match accepts. */
  lemma RowIsDisplayMatch(t: Target, a: addr32)
    requires FitsDevice(t)
    ensures RowMatch(DeviceWords(t), Hi(a), Lo(a)) <==> MatchesDisplay(t, Display(a))
  {
    hide MatchesDisplay, DeviceWords, And, Hi, Lo, Display, FitsDevice;
    MaskIsDisplayMatch(t, a);
    EmptyWords(t);
    AndZero(Lo(a));
  }

  /** `device_table`: the rows of the given targets. */
  function Table(targets: seq<Target>): (r: seq<Words>)
    requires forall t :: t in targets ==> FitsDevice(t)
    ensures |r| == |targets|
  {
    seq(|targets|, i requires 0 <= i < |targets| => DeviceWords(targets[i]))
  }

  /** On the device, an address is a hit exactly when its display string matches some target. */
  method MatchDisplayOnDevice(addr: addr32, targets: seq<Target>) returns (found: bool)
    requires forall t :: t in targets ==> FitsDevice(t)
    ensures found <==> exists t :: t in targets && MatchesDisplay(t, Display(addr))
  {
    hide MatchesDisplay, DeviceWords, And, Hi, Lo, Display, FitsDevice, RowMatch;
    found := MatchTargets(addr, Table(targets));
    if found {
      var w :| w in Table(targets) && RowMatch(w, Hi(addr), Lo(addr));
      ghost var i :| 0 <= i < |targets| && Table(targets)[i] == w;
      RowIsDisplayMatch(targets[i], addr);
    }
    forall t | t in targets && MatchesDisplay(t, Display(addr)) ensures found {
      RowIsDisplayMatch(t, addr);
      ghost var i :| 0 <= i < |targets| && targets[i] == t;
      assert Table(targets)[i] == DeviceWords(t);
    }
  }
}
