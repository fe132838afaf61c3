/** SHA-512/256 as FIPS 180-4 defines it, on byte strings. */
module Sha512Spec {
  import opened Bits

  type bytes = seq<uint8>
  type word = bv64
  type state = s: seq<word> | |s| == 8 witness [0, 0, 0, 0, 0, 0, 0, 0]
  type block = s: seq<uint8> | |s| == 128 witness seq(128, _ => 0)

  /** Eight words. */
  datatype Eight = Eight(x0: word, x1: word, x2: word, x3: word, x4: word, x5: word, x6: word, x7: word)
  {
    function At(i: nat): word {
      if i == 0 then x0 else if i == 1 then x1 else if i == 2 then x2 else if i == 3 then x3
      else if i == 4 then x4 else if i == 5 then x5 else if i == 6 then x6 else x7
    }
  }

  /** The constants K of section 4.2.3, eight at a time. */
  const K0 := Eight(
    0x428a2f98d728ae22, 0x7137449123ef65cd, 0xb5c0fbcfec4d3b2f, 0xe9b5dba58189dbbc,
    0x3956c25bf348b538, 0x59f111f1b605d019, 0x923f82a4af194f9b, 0xab1c5ed5da6d8118)
  const K1 := Eight(
    0xd807aa98a3030242, 0x12835b0145706fbe, 0x243185be4ee4b28c, 0x550c7dc3d5ffb4e2,
    0x72be5d74f27b896f, 0x80deb1fe3b1696b1, 0x9bdc06a725c71235, 0xc19bf174cf692694)
  const K2 := Eight(
    0xe49b69c19ef14ad2, 0xefbe4786384f25e3, 0x0fc19dc68b8cd5b5, 0x240ca1cc77ac9c65,
    0x2de92c6f592b0275, 0x4a7484aa6ea6e483, 0x5cb0a9dcbd41fbd4, 0x76f988da831153b5)
  const K3 := Eight(
    0x983e5152ee66dfab, 0xa831c66d2db43210, 0xb00327c898fb213f, 0xbf597fc7beef0ee4,
    0xc6e00bf33da88fc2, 0xd5a79147930aa725, 0x06ca6351e003826f, 0x142929670a0e6e70)
  const K4 := Eight(
    0x27b70a8546d22ffc, 0x2e1b21385c26c926, 0x4d2c6dfc5ac42aed, 0x53380d139d95b3df,
    0x650a73548baf63de, 0x766a0abb3c77b2a8, 0x81c2c92e47edaee6, 0x92722c851482353b)
  const K5 := Eight(
    0xa2bfe8a14cf10364, 0xa81a664bbc423001, 0xc24b8b70d0f89791, 0xc76c51a30654be30,
    0xd192e819d6ef5218, 0xd69906245565a910, 0xf40e35855771202a, 0x106aa07032bbd1b8)
  const K6 := Eight(
    0x19a4c116b8d2d0c8, 0x1e376c085141ab53, 0x2748774cdf8eeb99, 0x34b0bcb5e19b48a8,
    0x391c0cb3c5c95a63, 0x4ed8aa4ae3418acb, 0x5b9cca4f7763e373, 0x682e6ff3d6b2b8a3)
  const K7 := Eight(
    0x748f82ee5defb2fc, 0x78a5636f43172f60, 0x84c87814a1f0ab72, 0x8cc702081a6439ec,
    0x90befffa23631e28, 0xa4506cebde82bde9, 0xbef9a3f7b2c67915, 0xc67178f2e372532b)
  const K8 := Eight(
    0xca273eceea26619c, 0xd186b8c721c0c207, 0xeada7dd6cde0eb1e, 0xf57d4f7fee6ed178,
    0x06f067aa72176fba, 0x0a637dc5a2c898a6, 0x113f9804bef90dae, 0x1b710b35131c471b)
  const K9 := Eight(
    0x28db77f523047d84, 0x32caab7b40c72493, 0x3c9ebe0a15c9bebc, 0x431d67c49c100d4c,
    0x4cc5d4becb3e42b6, 0x597f299cfc657e2a, 0x5fcb6fab3ad6faec, 0x6c44198c4a475817)

  function Keys(i: nat): Eight {
    if i == 0 then K0 else if i == 1 then K1 else if i == 2 then K2 else if i == 3 then K3 else if i == 4 then K4
    else if i == 5 then K5 else if i == 6 then K6 else if i == 7 then K7 else if i == 8 then K8 else K9
  }

  /** The initial value of section 5.3.6.2. */
  const IV: state := [
    0x22312194FC2BF72C, 0x9F555FA3C84C64C2, 0x2393B86B6F53B151, 0x963877195940EABD,
    0x96283EE2A88EFFE3, 0xBE5E1E2553863992, 0x2B0199FC2C85B8AA, 0x0EB72DDC81C52CA2
  ]

  function Constant(t: nat): word
    requires t < 80
  {
    hide K0, K1, K2, K3, K4, K5, K6, K7, K8, K9;
    Keys(t / 8).At(t % 8)
  }

  // ----- the functions of section 4.1.3 -----

  function BigSigma0(x: word): word {
    x.RotateRight(28) ^ x.RotateRight(34) ^ x.RotateRight(39)
  }

  function BigSigma1(x: word): word {
    x.RotateRight(14) ^ x.RotateRight(18) ^ x.RotateRight(41)
  }

  function SmallSigma0(x: word): word {
    x.RotateRight(1) ^ x.RotateRight(8) ^ (x >> 7)
  }

  function SmallSigma1(x: word): word {
    x.RotateRight(19) ^ x.RotateRight(61) ^ (x >> 6)
  }

  function Ch(x: word, y: word, z: word): word {
    (x & y) ^ (!x & z)
  }

  function Maj(x: word, y: word, z: word): word {
    (x & y) ^ (x & z) ^ (y & z)
  }

  /** Addition modulo 2^64. */
  function Plus(x: word, y: word): word {
    x + y
  }

  function Sum4(w: word, x: word, y: word, z: word): word {
    w + x + y + z
  }

  // ----- section 6.4.2 -----

  /** Word t of a block, most significant byte first. */
  function Word(b: block, t: nat): word
    requires t < 16
  {
    WordValue(b[8 * t..8 * t + 8]) as bv64
  }

  /** Eight bytes as a number, most significant first. */
  function WordValue(p: bytes): (n: uint64)
    requires |p| == 8
  {
    (((((((p[0] as int * 256 + p[1]) * 256 + p[2]) * 256 + p[3]) * 256
      + p[4]) * 256 + p[5]) * 256 + p[6]) * 256 + p[7])
  }

  /** Word t of the 80-word message schedule. */
  function Schedule(b: block, t: nat): word
    requires t < 80
  {
    if t < 16 then Word(b, t)
    else Expand(Schedule(b, t - 2), Schedule(b, t - 7), Schedule(b, t - 15), Schedule(b, t - 16))
  }

  function Expand(w2: word, w7: word, w15: word, w16: word): word {
    hide SmallSigma0, SmallSigma1;
    Sum4(SmallSigma1(w2), w7, SmallSigma0(w15), w16)
  }

  /** One round on the eight working variables. */
  function Round(v: state, k: word, w: word): state {
    hide Plus, BigSigma0, BigSigma1, Ch, Maj;
    var t1 := Plus(Plus(Plus(Plus(v[7], BigSigma1(v[4])), Ch(v[4], v[5], v[6])), k), w);
    var t2 := Plus(BigSigma0(v[0]), Maj(v[0], v[1], v[2]));
    [Plus(t1, t2), v[0], v[1], v[2], Plus(v[3], t1), v[4], v[5], v[6]]
  }

  /** The working variables after t rounds. */
  function Rounds(h: state, b: block, t: nat): state
    requires t <= 80
  {
    if t == 0 then h else Round(Rounds(h, b, t - 1), Constant(t - 1), Schedule(b, t - 1))
  }

  function AddStates(u: state, v: state): state {
    hide Plus;
    [Plus(u[0], v[0]), Plus(u[1], v[1]), Plus(u[2], v[2]), Plus(u[3], v[3]),
     Plus(u[4], v[4]), Plus(u[5], v[5]), Plus(u[6], v[6]), Plus(u[7], v[7])]
  }

  function Compress(h: state, b: block): state {
    AddStates(h, Rounds(h, b, 80))
  }

  /** The hash value after all the blocks of a padded message. */
  function HashBlocks(m: bytes): state
    requires |m| % 128 == 0
  {
    if m == [] then IV else Compress(HashBlocks(m[..|m| - 128]), m[|m| - 128..])
  }

  // ----- section 5.1.2 -----

  /** n as k bytes, most significant first. */
  function BigEndian(n: nat, k: nat): (r: bytes)
    ensures |r| == k
  {
    if k == 0 then [] else BigEndian(n / 256, k - 1) + [n % 256]
  }

  /** The number of zero bytes between the 0x80 byte and the 16-byte bit length. */
  function ZeroPad(n: nat): nat {
    (111 - n) % 128
  }

  function Zeros(k: nat): (r: bytes)
    ensures |r| == k
  {
    seq(k, _ => 0)
  }

  function Pad(m: bytes): (r: bytes)
    ensures |r| % 128 == 0
  {
    m + [0x80] + Zeros(ZeroPad(|m|)) + BigEndian(8 * |m|, 16)
  }

  // ----- section 6.7 -----

  /** A word as a number. */
  function Number(w: word): uint64 {
    w as int
  }

  /** The bytes of a word, most significant first. */
  function WordBytes(w: word): (r: bytes)
    ensures |r| == 8
  {
    BigEndian(Number(w), 8)
  }

  function Sha512_256(m: bytes): (r: bytes)
    ensures |r| == 32
  {
    var h := HashBlocks(Pad(m));
    WordBytes(h[0]) + WordBytes(h[1]) + WordBytes(h[2]) + WordBytes(h[3])
  }
}
