/** The device's streaming SHA-512/256 over a buffered struct, proved equal to the hash of FIPS 180-4. */
module Sha512 {
  import opened Bits
  import opened Digits
  import opened Sha512Spec

  lemma SumReversed(a: word, b: word, c: word, d: word)
    ensures Sum4(a, b, c, d) == Sum4(d, c, b, a)
  {
  }

  // The device's S0 and S1, s0 and s1, with `rotr64` written as its two shifts.

  function DeviceBigSigma0(x: word): (r: word)
    ensures r == BigSigma0(x)
  {
    ((x >> 28) | (x << 36)) ^ ((x >> 34) | (x << 30)) ^ ((x >> 39) | (x << 25))
  }

  function DeviceBigSigma1(x: word): (r: word)
    ensures r == BigSigma1(x)
  {
    ((x >> 14) | (x << 50)) ^ ((x >> 18) | (x << 46)) ^ ((x >> 41) | (x << 23))
  }

  function DeviceSmallSigma0(x: word): (r: word)
    ensures r == SmallSigma0(x)
  {
    ((x >> 1) | (x << 63)) ^ ((x >> 8) | (x << 56)) ^ (x >> 7)
  }

  function DeviceSmallSigma1(x: word): (r: word)
    ensures r == SmallSigma1(x)
  {
    ((x >> 19) | (x << 45)) ^ ((x >> 61) | (x << 3)) ^ (x >> 6)
  }

  /** Or-ing in the next byte below the ones taken so far. */
  lemma OrNextByte(v: nat, b: int, k: nat, p: nat)
    requires p == Pow2(k) && 0 <= b < 256
    ensures b * p >= 0
    ensures Or(v * (256 * p), b * p) == (v * 256 + b) * p
  {
    BytePowers();
    hide Or, Pow2;
    Pow2Add(8, k);
    NextByteFits(v, b, p);
    OrDisjoint(b * p, v, k + 8);
    OrCommutes(b * p, v * (256 * p));
  }

  lemma NextByteFits(v: int, b: int, p: int)
    requires 0 <= b < 256 && p >= 1
    ensures 0 <= b * p < 256 * p && b * p + v * (256 * p) == (v * 256 + b) * p
  {
    MulLe(p, b + 1, 256);
    MulLe(p, 0, b);
  }

  /** The device's load: eight bytes shifted into place and or-ed together. */
  function DeviceLoad(b: block, t: nat): (r: word)
    requires t < 16
    ensures r == Word(b, t)
  {
    hide Or, OrBytes, WordValue;
    LoadIsWord(b[8 * t..8 * t + 8]);
    OrBytes(b[8 * t..8 * t + 8]) as bv64
  }

  function OrBytes(p: bytes): (r: nat)
    requires |p| == 8
  {
    hide Or;
    Or(Or(Or(Or(Or(Or(Or(p[0] as int * 0x100_0000_0000_0000, p[1] as int * 0x1_0000_0000_0000),
                     p[2] as int * 0x100_0000_0000), p[3] as int * 0x1_0000_0000), p[4] as int * 0x100_0000),
          p[5] as int * 0x1_0000), p[6] as int * 0x100), p[7])
  }

  lemma LoadIsWord(p: bytes)
    requires |p| == 8
    ensures OrBytes(p) == WordValue(p)
  {
    hide Or;
    BytePowers();
    hide Pow2;
    var v1: int := p[0] as int * 256 + p[1];
    var v2 := v1 * 256 + p[2];
    var v3 := v2 * 256 + p[3];
    var v4 := v3 * 256 + p[4];
    var v5 := v4 * 256 + p[5];
    var v6 := v5 * 256 + p[6];
    OrNextByte(p[0], p[1], 48, 0x1_0000_0000_0000);
    OrNextByte(v1, p[2], 40, 0x100_0000_0000);
    OrNextByte(v2, p[3], 32, 0x1_0000_0000);
    OrNextByte(v3, p[4], 24, 0x100_0000);
    OrNextByte(v4, p[5], 16, 0x1_0000);
    OrNextByte(v5, p[6], 8, 0x100);
    OrNextByte(v6, p[7], 0, 1);
  }

  lemma BytePowers()
    ensures Pow2(0) == 1 && Pow2(8) == 0x100 && Pow2(16) == 0x1_0000 && Pow2(24) == 0x100_0000
    ensures Pow2(32) == 0x1_0000_0000 && Pow2(40) == 0x100_0000_0000 && Pow2(48) == 0x1_0000_0000_0000
  {
    assert Pow2(0) == 1 && Pow2(8) == 256;
    hide Pow2;
    Pow2Add(8, 8);
    Pow2Add(8, 16);
    Pow2Add(8, 24);
    Pow2Add(8, 32);
    Pow2Add(8, 40);
  }

  /** Ring slot r holds the latest schedule word whose index is r modulo 16. */
  ghost predicate RingHolds(w: seq<word>, b: block, i: nat) {
    && |w| == 16 && i <= 80
    && forall t {:trigger Schedule(b, t)} ::
         (if i < 16 then 0 else i - 16) <= t < (if i < 16 then 16 else i) ==> w[t % 16] == Schedule(b, t)
  }

  /** The device adds the four terms of a schedule word in the opposite order. */
  function DeviceExpand(w16: word, w15: word, w7: word, w2: word): word {
    hide DeviceSmallSigma0, DeviceSmallSigma1;
    Sum4(w16, DeviceSmallSigma0(w15), w7, DeviceSmallSigma1(w2))
  }

  lemma ScheduleStep(b: block, i: nat)
    requires 16 <= i < 80
    ensures Schedule(b, i)
         == DeviceExpand(Schedule(b, i - 16), Schedule(b, i - 15), Schedule(b, i - 7), Schedule(b, i - 2))
  {
    hide SmallSigma0, SmallSigma1, DeviceSmallSigma0, DeviceSmallSigma1, Sum4;
    SumReversed(Schedule(b, i - 16), SmallSigma0(Schedule(b, i - 15)),
                Schedule(b, i - 7), SmallSigma1(Schedule(b, i - 2)));
  }

  lemma RingAt(w: seq<word>, b: block, i: nat, t: nat)
    requires RingHolds(w, b, i) && 16 <= i && i - 16 <= t < i
    ensures w[t % 16] == Schedule(b, t)
  {
    hide Schedule;
  }

  /** Replacing the oldest word of a full ring advances it by one. */
  lemma RingAdvances(w: seq<word>, b: block, i: nat)
    requires 16 <= i < 80 && RingHolds(w, b, i)
    ensures RingHolds(w[i % 16 := Schedule(b, i)], b, i + 1)
  {
    hide Schedule;
    var v := w[i % 16 := Schedule(b, i)];
    forall t {:trigger Schedule(b, t)} | i - 15 <= t < i + 1 ensures v[t % 16] == Schedule(b, t) {
      if t < i {
        assert t % 16 != i % 16;
        RingAt(w, b, i, t);
      }
    }
  }

  lemma FirstWords(w: seq<word>, b: block, i: nat)
    requires i < 16 && RingHolds(w, b, i)
    ensures w[i] == Schedule(b, i) && RingHolds(w, b, i + 1)
  {
    hide Schedule;
    assert w[i % 16] == Schedule(b, i);
  }

  /** The word for round i, which from round 16 on replaces the ring's oldest. */
  method NextWord(w: array<word>, i: nat, ghost p: block) returns (wi: word)
    requires w.Length == 16 && i < 80 && RingHolds(w[..], p, i)
    modifies w
    ensures wi == Schedule(p, i) && RingHolds(w[..], p, i + 1)
  {
    hide DeviceExpand, Schedule, RingHolds;
    if i < 16 {
      wi := w[i];
      FirstWords(w[..], p, i);
    } else {
      RingAdvances(w[..], p, i);
      RingAt(w[..], p, i, i - 16);
      RingAt(w[..], p, i, i - 15);
      RingAt(w[..], p, i, i - 7);
      RingAt(w[..], p, i, i - 2);
      assert (i - 16) % 16 == i % 16;
      ScheduleStep(p, i);
      wi := DeviceExpand(w[i % 16], w[(i - 15) % 16], w[(i - 7) % 16], w[(i - 2) % 16]);
      ghost var before := w[..];
      w[i % 16] := wi;
      assert w[..] == before[i % 16 := wi];
    }
  }

  lemma RoundStep(h: state, p: block, i: nat, v: state)
    requires i < 80 && v == Rounds(h, p, i)
    ensures Rounds(h, p, i + 1) == Round(v, Constant(i), Schedule(p, i))
  {
  }

  /** `sha512_compress`: eighty rounds over a rolling sixteen-word schedule. */
  method Sha512Compress(h: array<word>, p: block)
    requires h.Length == 8
    modifies h
    ensures h[..] == Compress(old(h[..]), p)
  {
    hide Plus, BigSigma0, BigSigma1, DeviceBigSigma0, DeviceBigSigma1, Ch, Maj, Word, Schedule, Constant, RingHolds,
         Rounds;
    ghost var h0: state := h[..];
    var w := new word[16];
    LoadWords(w, p);
    var a, b, c, d := h[0], h[1], h[2], h[3];
    var e, f, g, hh := h[4], h[5], h[6], h[7];
    var i := 0;
    assert [a, b, c, d, e, f, g, hh] == Rounds(h0, p, 0) by { NoRounds(h0, p); }
    while i < 80
      invariant 0 <= i <= 80 && h[..] == h0
      invariant RingHolds(w[..], p, i)
      invariant [a, b, c, d, e, f, g, hh] == Rounds(h0, p, i)
    {
      RoundStep(h0, p, i, [a, b, c, d, e, f, g, hh]);
      var wi := NextWord(w, i, p);
      var t1 := Plus(Plus(Plus(Plus(hh, DeviceBigSigma1(e)), Ch(e, f, g)), Constant(i)), wi);
      var t2 := Plus(DeviceBigSigma0(a), Maj(a, b, c));
      hh, g, f, e, d, c, b, a := g, f, e, Plus(d, t1), c, b, a, Plus(t1, t2);
      i := i + 1;
    }
    AddInto(h, [a, b, c, d, e, f, g, hh]);
  }

  /** The final addition of the working variables into the chaining value. */
  method AddInto(h: array<word>, v: state)
    requires h.Length == 8
    modifies h
    ensures h[..] == AddStates(old(h[..]), v)
  {
    hide Plus;
    SetEight(h, Plus(h[0], v[0]), Plus(h[1], v[1]), Plus(h[2], v[2]), Plus(h[3], v[3]),
             Plus(h[4], v[4]), Plus(h[5], v[5]), Plus(h[6], v[6]), Plus(h[7], v[7]));
  }

  method SetEight<T>(h: array<T>, x0: T, x1: T, x2: T, x3: T, x4: T, x5: T, x6: T, x7: T)
    requires h.Length == 8
    modifies h
    ensures h[..] == [x0, x1, x2, x3, x4, x5, x6, x7]
  {
    h[0], h[1], h[2], h[3] := x0, x1, x2, x3;
    h[4], h[5], h[6], h[7] := x4, x5, x6, x7;
  }

  lemma NoRounds(h: state, p: block)
    ensures Rounds(h, p, 0) == h
  {
  }

  method LoadWords(w: array<word>, p: block)
    requires w.Length == 16
    modifies w
    ensures RingHolds(w[..], p, 0)
  {
    hide Word, DeviceLoad;
    var i := 0;
    while i < 16
      invariant 0 <= i <= 16
      invariant forall t :: 0 <= t < i ==> w[t] == Word(p, t)
    {
      w[i] := DeviceLoad(p, i);
      i := i + 1;
    }
  }

  // ----- the padded message, block by block -----

  /** Appending one block to a whole number of blocks compresses it in. */
  lemma HashAppend(m: bytes, b: block)
    requires |m| % 128 == 0
    ensures HashBlocks(m + b) == Compress(HashBlocks(m), b)
  {
    hide Compress;
    assert (m + b)[..|m + b| - 128] == m && (m + b)[|m + b| - 128..] == b;
  }

  /** The last block of the padding of a tail that leaves room for the length. */
  function LastBlock(tail: bytes, bits: bytes): block
    requires |tail| <= 111 && |bits| == 16
  {
    tail + [0x80] + Zeros(111 - |tail|) + bits
  }

  /** The last block of a tail that does not, but for the 0x80 byte. */
  function FullBlock(tail: bytes): block
    requires 112 <= |tail| <= 127
  {
    tail + [0x80] + Zeros(127 - |tail|)
  }

  lemma PadShort(head: bytes, tail: bytes)
    requires |head| % 128 == 0 && |tail| <= 111
    ensures Pad(head + tail) == head + LastBlock(tail, BigEndian(8 * |head + tail|, 16))
  {
    hide BigEndian;
    assert ZeroPad(|head + tail|) == 111 - |tail|;
  }

  lemma PadLong(head: bytes, tail: bytes)
    requires |head| % 128 == 0 && 112 <= |tail| <= 127
    ensures Pad(head + tail) == head + FullBlock(tail) + (Zeros(112) + BigEndian(8 * |head + tail|, 16))
  {
    hide BigEndian;
    assert ZeroPad(|head + tail|) == 127 - |tail| + 112;
    assert Zeros(127 - |tail| + 112) == Zeros(127 - |tail|) + Zeros(112);
  }

  /** The bytes of a number have its value. */
  lemma {:induction false} BigEndianValue(n: nat, k: nat)
    requires n < Power(256, k)
    ensures Value(BigEndian(n, k), 256) == n
    decreases k
  {
    if k == 0 {
    } else {
      PowerNext(256, k - 1);
      var d, m := n / 256, n % 256;
      assert n == d * 256 + m;
      BigEndianValue(d, k - 1);
      ValueAppend(BigEndian(d, k - 1), m, 256);
    }
  }

  /**
   What the padded message is: the message, 0x80, as few zeros as complete a block, and the length in bits
   as sixteen bytes.
   */
  lemma PadLaw(m: bytes)
    requires |m| < 0x2000_0000_0000_0000
    ensures var p := Pad(m);
            && |p| % 128 == 0 && |m| + 17 <= |p| < |m| + 17 + 128
            && p[..|m|] == m && p[|m|] == 0x80
            && (forall i :: |m| < i < |p| - 16 ==> p[i] == 0)
            && Value(p[|p| - 16..], 256) == 8 * |m|
  {
    hide BigEndian, Value, Power;
    var p := Pad(m);
    SixteenBytes();
    BigEndianValue(8 * |m|, 16);
    assert p[|p| - 16..] == BigEndian(8 * |m|, 16);
  }

  lemma SixteenBytes()
    ensures Power(256, 16) >= 0x1_0000_0000_0000_0000
  {
    Pow2Is64();
    assert Pow2(8) == 256;
    hide Pow2, Power;
    PowerOfPow2(8, 256, 16, 128);
    Pow2Monotonic(64, 128);
  }

  /** Byte j of the big-endian form. */
  lemma {:induction false} BigEndianAt(n: nat, k: nat, j: nat)
    requires j < k
    ensures BigEndian(n, k)[j] == n / Pow2(8 * (k - 1 - j)) % 256
  {
    if j == k - 1 {
      assert Pow2(0) == 1;
    } else {
      BigEndianAt(n / 256, k - 1, j);
      var e := 8 * (k - 2 - j);
      Pow2Add(8, e);
      assert Pow2(8) == 256;
      hide BigEndian, Pow2;
      DivDiv(n, 256, Pow2(e));
    }
  }

  /** The eight low bytes of the length, which the device writes with shifts. */
  lemma LengthBytes(n: nat)
    requires n < 0x1_0000_0000_0000_0000
    ensures BigEndian(n, 16) == Zeros(8) + seq(8, i requires 0 <= i < 8 => Shr(n, 56 - 8 * i) % 256)
  {
    var r := Zeros(8) + seq(8, i requires 0 <= i < 8 => Shr(n, 56 - 8 * i) % 256);
    hide BigEndian;
    forall j | 0 <= j < 16 ensures BigEndian(n, 16)[j] == r[j] {
      BigEndianAt(n, 16, j);
      if j < 8 {
        HighByte(n, 8 * (15 - j));
      } else {
        assert 8 * (15 - j) == 56 - 8 * (j - 8);
      }
    }
  }

  lemma HighByte(n: nat, e: nat)
    requires n < 0x1_0000_0000_0000_0000 && e >= 64
    ensures n / Pow2(e) % 256 == 0
  {
    Pow2Monotonic(64, e);
    Pow2Is64();
    hide Pow2;
    SmallMod(n, Pow2(e));
  }

  // ----- the struct -----

  class Hasher {
    const h: array<word>
    var total: uint64
    const buf: array<uint8>
    var buflen: nat
    /** Every byte absorbed so far. */
    ghost var msg: bytes

    /** The struct stands for the message m: whole blocks hashed, the rest buffered. */
    ghost predicate Holds(m: bytes)
      reads this`buflen, h, buf
    {
      && h.Length == 8 && buf.Length == 128 && buflen < 128
      && buflen <= |m| && (|m| - buflen) % 128 == 0
      && h[..] == HashBlocks(m[..|m| - buflen])
      && buf[..buflen] == m[|m| - buflen..]
    }

    ghost predicate Valid()
      reads this, h, buf
    {
      Holds(msg) && total == |msg| % 0x1_0000_0000_0000_0000
    }

    /** `sha512_256_init`. */
    constructor ()
      ensures Valid() && msg == [] && fresh(h) && fresh(buf)
    {
      h := new word[8];
      buf := new uint8[128];
      total, buflen, msg := 0, 0, [];
      new;
      SetEight(h, IV[0], IV[1], IV[2], IV[3], IV[4], IV[5], IV[6], IV[7]);
      assert msg[..0] == [];
    }

    /** `buf[buflen..]` takes the next bytes of data. */
    method CopyIn(data: bytes)
      requires buf.Length == 128 && buflen + |data| <= 128
      modifies buf, this`buflen
      ensures buflen == old(buflen) + |data|
      ensures buf[..buflen] == old(buf[..buflen]) + data
    {
      var i := 0;
      ghost var o := buf[..buflen];
      while i < |data|
        invariant 0 <= i <= |data|
        invariant buf[..buflen + i] == o + data[..i]
        modifies buf
      {
        buf[buflen + i] := data[i];
        assert buf[..buflen + i + 1] == buf[..buflen + i] + [data[i]];
        i := i + 1;
      }
      buflen := buflen + |data|;
      assert data[..i] == data;
    }

    /** The first part of `sha512_update`: complete the partial block as far as data goes. */
    method TopUp(data: bytes, ghost m: bytes) returns (take: nat)
      requires Holds(m) && buflen > 0
      modifies h, buf, this`buflen
      ensures take <= |data| && Holds(m + data[..take])
      ensures take < |data| ==> buflen == 0
    {
      hide Compress, HashBlocks;
      var need := 128 - buflen;
      take := if |data| < need then |data| else need;
      ghost var head, tail := m[..|m| - buflen], m[|m| - buflen..];
      assert m + data[..take] == head + (tail + data[..take]);
      CopyIn(data[..take]);
      if buflen == 128 {
        assert buf[..] == tail + data[..take];
        Sha512Compress(h, buf[..]);
        buflen := 0;
        HashAppend(head, tail + data[..take]);
        assert head + (tail + data[..take]) == (m + data[..take])[..|m + data[..take]|];
      } else {
        assert (m + data[..take])[..|m + data[..take]| - buflen] == head;
        assert (m + data[..take])[|m + data[..take]| - buflen..] == tail + data[..take];
      }
    }

    /** One whole block straight from data. */
    method AbsorbBlock(b: block, ghost m: bytes)
      requires buflen == 0 && Holds(m)
      modifies h
      ensures Holds(m + b)
    {
      hide Compress, HashBlocks;
      assert m[..|m|] == m && (m + b)[..|m + b|] == m + b;
      HashAppend(m, b);
      Sha512Compress(h, b);
    }

    /** The second part: whole blocks straight from data, then the remainder into the buffer. */
    method AbsorbBlocks(data: bytes, start: nat, ghost m: bytes)
      requires start <= |data| && buflen == 0 && Holds(m + data[..start])
      modifies h, buf, this`buflen
      ensures Holds(m + data)
    {
      hide Compress, HashBlocks, Holds;
      var pos := start;
      while |data| - pos >= 128
        invariant start <= pos <= |data| && buflen == 0
        invariant Holds(m + data[..pos])
      {
        AbsorbBlock(data[pos..pos + 128], m + data[..pos]);
        assert m + data[..pos + 128] == (m + data[..pos]) + data[pos..pos + 128];
        pos := pos + 128;
      }
      BufferRest(data[pos..], m + data[..pos]);
      assert m + data == (m + data[..pos]) + data[pos..];
    }

    /** What is left goes into the empty buffer. */
    method BufferRest(rest: bytes, ghost m: bytes)
      requires buflen == 0 && Holds(m) && |rest| < 128
      modifies buf, this`buflen
      ensures Holds(m + rest)
    {
      hide HashBlocks;
      CopyIn(rest);
      assert m[..|m|] == m && (m + rest)[..|m + rest| - buflen] == m;
      assert (m + rest)[|m + rest| - buflen..] == rest;
    }

    /** `sha512_update`. */
    method Update(data: bytes)
      requires Valid()
      modifies this, h, buf
      ensures Valid() && msg == old(msg) + data
    {
      hide HashBlocks, Holds;
      total := (total + |data|) % 0x1_0000_0000_0000_0000;
      var pos := 0;
      if buflen > 0 {
        pos := TopUp(data, msg);
        if pos == |data| {
          assert data[..pos] == data;
          msg := msg + data;
          return;
        }
      }
      assert data[..0] == [] && msg + [] == msg;
      AbsorbBlocks(data, pos, msg);
      msg := msg + data;
    }

    /** Zero bytes up to position `end`. */
    method FillZeros(end: nat)
      requires buf.Length == 128 && buflen <= end <= 128
      modifies buf, this`buflen
      ensures buflen == end && buf[..end] == old(buf[..buflen]) + Zeros(end - old(buflen))
    {
      ghost var o := buf[..buflen];
      ghost var b0 := buflen;
      while buflen < end
        invariant b0 <= buflen <= end
        invariant buf[..buflen] == o + Zeros(buflen - b0)
      {
        buf[buflen] := 0;
        buflen := buflen + 1;
        assert buf[..buflen] == o + Zeros(buflen - 1 - b0) + [0];
      }
    }

    /** The last sixteen bytes of the padded message. */
    method AppendLength(bitlen: uint64)
      requires buf.Length == 128
      modifies buf
      ensures buf[..112] == old(buf[..112])
      ensures buf[112..] == BigEndian(bitlen, 16)
    {
      LengthBytes(bitlen);
      hide BigEndian, Shr;
      var i := 0;
      while i < 8
        invariant 0 <= i <= 8
        invariant buf[..112] == old(buf[..112])
        invariant forall x :: 112 <= x < 112 + i ==> buf[x] == 0
      {
        buf[112 + i] := 0;
        i := i + 1;
      }
      i := 0;
      while i < 8
        invariant 0 <= i <= 8
        invariant buf[..112] == old(buf[..112])
        invariant forall x :: 112 <= x < 120 ==> buf[x] == 0
        invariant forall x :: 120 <= x < 120 + i ==> buf[x] == Shr(bitlen, 56 - 8 * (x - 120)) % 256
      {
        buf[120 + i] := Shr(bitlen, 56 - 8 * i) % 256;
        i := i + 1;
      }
    }

    /** `sha512_256_final`: the hash of everything absorbed. */
    method Final(out: array<uint8>)
      requires Valid() && |msg| < 0x2000_0000_0000_0000
      requires out.Length == 32 && out != buf
      modifies this, h, buf, out
      ensures out[..] == Sha512_256(msg) && msg == old(msg)
    {
      hide Compress, HashBlocks, BigEndian;
      FinishBlocks();
      WriteOut(out);
    }

    /** Everything in `sha512_256_final` before the output: the padded message is hashed. */
    method FinishBlocks()
      requires Valid() && |msg| < 0x2000_0000_0000_0000
      modifies h, buf, this`buflen
      ensures h.Length == 8 && h[..] == HashBlocks(Pad(msg))
    {
      hide Compress, HashBlocks, BigEndian, Pad;
      ghost var head, tail := msg[..|msg| - buflen], msg[|msg| - buflen..];
      ghost var bits := BigEndian(8 * |msg|, 16);
      assert msg == head + tail;
      var bitlen := (total * 8) % 0x1_0000_0000_0000_0000;
      assert bitlen == 8 * |msg|;
      CopyIn([0x80]);
      if buflen > 112 {
        PadLong(head, tail);
        FillZeros(128);
        assert buf[..128] == buf[..] == FullBlock(tail);
        HashAppend(head, FullBlock(tail));
        Sha512Compress(h, buf[..]);
        buflen := 0;
        FillZeros(112);
        AppendLength(bitlen);
        assert buf[..] == buf[..112] + buf[112..] == Zeros(112) + bits;
        HashAppend(head + FullBlock(tail), Zeros(112) + bits);
      } else {
        PadShort(head, tail);
        FillZeros(112);
        AppendLength(bitlen);
        assert buf[..] == buf[..112] + buf[112..] == LastBlock(tail, bits);
        HashAppend(head, LastBlock(tail, bits));
      }
      Sha512Compress(h, buf[..]);
    }

    /** The output loop: four words, big-endian. */
    method WriteOut(out: array<uint8>)
      requires h.Length == 8 && out.Length == 32
      modifies out
      ensures out[..] == WordBytes(h[0]) + WordBytes(h[1]) + WordBytes(h[2]) + WordBytes(h[3])
    {
      hide BigEndian, Number;
      WriteWords(out, [Number(h[0]), Number(h[1]), Number(h[2]), Number(h[3])]);
    }
  }

  method WriteWords(out: array<uint8>, v: seq<uint64>)
    requires |v| == 4 && out.Length == 32
    modifies out
    ensures out[..] == BigEndian(v[0], 8) + BigEndian(v[1], 8) + BigEndian(v[2], 8) + BigEndian(v[3], 8)
  {
    hide BigEndian;
    ghost var r := BigEndian(v[0], 8) + BigEndian(v[1], 8) + BigEndian(v[2], 8) + BigEndian(v[3], 8);
    var i := 0;
    while i < 4
      invariant 0 <= i <= 4 && out[..8 * i] == r[..8 * i]
    {
      WriteWord(out, 8 * i, v[i]);
      assert out[..8 * i + 8] == out[..8 * i] + out[8 * i..8 * i + 8];
      i := i + 1;
    }
  }

  /** One word of the output, byte by byte. */
  method WriteWord(out: array<uint8>, at: nat, v: uint64)
    requires at + 8 <= out.Length
    modifies out
    ensures out[..at] == old(out[..at]) && out[at..at + 8] == BigEndian(v, 8)
  {
    hide BigEndian;
    var j := 0;
    while j < 8
      invariant 0 <= j <= 8 && out[..at] == old(out[..at])
      invariant forall x :: 0 <= x < j ==> out[at + x] == BigEndian(v, 8)[x]
    {
      BigEndianAt(v, 8, j);
      out[at + j] := Shr(v, 56 - 8 * j) % 256;
      j := j + 1;
    }
  }

  /** The pieces joined. */
  function Flatten(pieces: seq<bytes>): bytes {
    if pieces == [] then [] else Flatten(pieces[..|pieces| - 1]) + pieces[|pieces| - 1]
  }

  lemma FlattenNext(pieces: seq<bytes>, i: nat)
    requires i < |pieces|
    ensures Flatten(pieces[..i + 1]) == Flatten(pieces[..i]) + pieces[i]
  {
    assert pieces[..i + 1][..i] == pieces[..i];
  }

  lemma FlattenAll(pieces: seq<bytes>)
    ensures Flatten(pieces[..|pieces|]) == Flatten(pieces) && Flatten(pieces[..0]) == []
  {
    assert pieces[..|pieces|] == pieces;
  }

  /** Hashing a message in any pieces gives the standard's hash of the whole. */
  method HashPieces(pieces: seq<bytes>, out: array<uint8>)
    requires out.Length == 32 && |Flatten(pieces)| < 0x2000_0000_0000_0000
    modifies out
    ensures out[..] == Sha512_256(Flatten(pieces))
  {
    FlattenAll(pieces);
    hide *;
    var s := new Hasher();
    var i := 0;
    while i < |pieces|
      invariant 0 <= i <= |pieces|
      invariant s.Valid() && s.msg == Flatten(pieces[..i]) && fresh(s) && fresh(s.h) && fresh(s.buf)
      modifies s, s.h, s.buf
    {
      FlattenNext(pieces, i);
      s.Update(pieces[i]);
      i := i + 1;
    }
    s.Final(out);
  }
}
