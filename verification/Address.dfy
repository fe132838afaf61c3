/** Addresses: how they are hashed, checksummed and displayed. */
module Address {
  import opened Bits
  import opened Digits
  import opened Base32
  import opened Sha512Spec
  import opened Sha512

  type addr32 = s: seq<uint8> | |s| == 32 witness seq(32, _ => 0)

  /** The last four bytes of the hash of the address. */
  function Checksum(a: addr32): (r: seq<uint8>)
    ensures |r| == 4
  {
    Sha512_256(a)[28..]
  }

  /** `to_address_string`: 36 bytes in 58 characters. */
  function Display(a: addr32): (r: string)
    ensures |r| == 58
  {
    Encode(a + Checksum(a))
  }

  /** `addr32_base32`: the first 51 characters do not depend on the checksum. */
  lemma CommonHead(a: addr32)
    ensures |Encode(a)| >= 51 && Encode(a)[..51] == Display(a)[..51]
  {
    hide Checksum;
    EncodePrefix(a, Checksum(a), 51);
  }

  /** "PQA" and "f1" in ASCII. */
  const PQ_PREFIX: seq<uint8> := [80, 81, 65, 102, 49]

  /** The bytes of a text whose characters are all below 128. */
  function Ascii(s: string): (r: bytes)
    ensures |r| == |s|
  {
    seq(|s|, i requires 0 <= i < |s| => s[i] as int % 128)
  }

  lemma PrefixIs()
    ensures PQ_PREFIX == Ascii("PQAf1")
  {
  }

  /** `pq_address`. */
  function PqAddress(salt: uint8, pk: seq<uint8>): addr32 {
    Sha512_256(PQ_PREFIX + [salt] + pk)
  }

  /** `dev_pq_addr32`: the same hash from two pieces. */
  method DevPqAddr32(pk: seq<uint8>, salt: uint8, out: array<uint8>)
    requires |pk| == 1793 && out.Length == 32
    modifies out
    ensures out[..] == PqAddress(salt, pk)
    ensures out[..] == Sha512_256(Ascii("PQAf1") + [salt] + pk)
  {
    PrefixIs();
    hide Ascii;
    var pre := PQ_PREFIX + [salt];
    hide Sha512_256, Flatten;
    TwoPieces(pre, pk);
    HashPieces([pre, pk], out);
  }

  lemma TwoPieces(a: bytes, b: bytes)
    ensures Flatten([a, b]) == a + b && Flatten([a]) == a
  {
    assert [a, b][..1] == [a] && [a][..0] == [];
    assert Flatten([a]) == Flatten([]) + a == a;
    assert Flatten([a, b]) == Flatten([a]) + b;
  }

  /** The 288 bits behind the display string, and the two zero bits that fill its last character. */
  lemma DisplayBits(a: addr32)
    ensures AreDigits(BitsOf(a + Checksum(a)) + [0, 0], 2)
    ensures |BitsOf(a + Checksum(a)) + [0, 0]| == 290
    ensures Display(a) == Letters(Groups(BitsOf(a + Checksum(a)) + [0, 0]))
  {
    hide Sha512_256, BitsOf, Groups, Letters;
    assert PadBits(288) == [0, 0];
  }

  /** An address always ends in a character whose two low bits are zero. */
  lemma LastCharacter(a: addr32)
    ensures InAlphabet(Display(a)[57]) && IndexOf(Display(a)[57]) % 4 == 0
  {
    hide Display, BitsOf, Groups, Checksum, CharOf, IndexOf;
    DisplayBits(a);
    var b := BitsOf(a + Checksum(a));
    var g := Groups(b + [0, 0]);
    LastGroup(b);
    AlphabetIsCharOf(g[57]);
  }

  lemma LastGroup(b: seq<int>)
    requires |b| == 288 && AreDigits(b, 2)
    ensures AreDigits(b + [0, 0], 2) && |Groups(b + [0, 0])| == 58 && Groups(b + [0, 0])[57] % 4 == 0
  {
    hide Groups;
    DigitsCut(b, 0, 285);
    DigitsCut(b, 285, 288);
    var x, t := b[..285], b[285..] + [0, 0];
    OneGroup(b[285..]);
    assert b + [0, 0] == x + t;
    GroupsTail(x, t, 57);
    GroupsLength(b + [0, 0]);
    assert Groups(b + [0, 0])[57] == Groups(b + [0, 0])[57..][0];
  }

  lemma OneGroup(u: seq<int>)
    requires |u| == 3 && AreDigits(u, 2)
    ensures AreDigits(u + [0, 0], 2) && |Groups(u + [0, 0])| == 1 && Groups(u + [0, 0])[0] % 4 == 0
  {
    var t := u + [0, 0];
    assert t[|t| - 5..] == t && t[..|t| - 5] == [];
    assert Groups(t) == Groups([]) + [Value(t, 2)];
    TwoZeros(u);
  }

  lemma TwoZeros(u: seq<int>)
    ensures Value(u + [0, 0], 2) == Value(u, 2) * 4
  {
    assert u + [0, 0] == (u + [0]) + [0];
    ValueAppend(u, 0, 2);
    ValueAppend(u + [0], 0, 2);
  }
}
