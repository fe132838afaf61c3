/** The 25-word mnemonic of a 32-byte key: 24 words of 11 bits each, and a checksum word. */
module Mnemonic {
  import opened Wrappers
  import opened Bits
  import opened Digits
  import opened Repack
  import opened Sequences
  import opened Sha512Spec
  import opened Words

  type key32 = s: seq<uint8> | |s| == 32 witness seq(32, _ => 0)

  datatype ParseError = WrongCount(count: nat) | UnknownWord(word: string) | WrongChecksum

  /** What the embedded wordlist is: 2048 different words. */
  ghost predicate WordList(list: seq<string>) {
    |list| == 2048 && AreWords(list) && Distinct(list)
  }

  /** The first eleven bits, low byte first. */
  function ElevenBits(h: seq<uint8>): word11
    requires |h| >= 2
  {
    (h[0] as int + 256 * h[1] as int) % 2048
  }

  /** The checksum word's index, from the key's hash. */
  function ChecksumIndex(key: seq<uint8>): word11 {
    hide Sha512_256;
    ElevenBits(Sha512_256(key))
  }

  ghost function Lookup(list: seq<string>, vals: seq<int>): (ws: seq<string>)
    requires |list| == 2048 && AreDigits(vals, 2048)
    ensures |ws| == |vals|
    ensures forall i :: 0 <= i < |vals| ==> ws[i] == list[vals[i]]
  {
    seq(|vals|, i requires 0 <= i < |vals| => list[vals[i]])
  }

  /** The 25 words of a key. */
  ghost function MnemonicWords(list: seq<string>, key: key32): (ws: seq<string>)
    requires |list| == 2048
    ensures |ws| == 25
  {
    Lookup(list, Packed(key)) + [list[ChecksumIndex(key)]]
  }

  lemma MnemonicWordsAreWords(list: seq<string>, key: key32)
    requires WordList(list)
    ensures AreWords(MnemonicWords(list, key))
  {
    hide Packed, ChecksumIndex, IsWord;
  }

  lemma FirstPacked(b: seq<uint8>)
    requires |b| == 2
    ensures |Packed(b)| == 2 && Packed(b)[0] == ElevenBits(b)
  {
    assert b == [b[0]] + ([b[1]] + []);
    LittleStep(b[0], [b[1]] + [], 256);
    LittleStep(b[1], [], 256);
    assert Little([], 256) == 0;
  }

  /** `checksum_word`. */
  method ChecksumWord(list: seq<string>, data: seq<uint8>) returns (w: string)
    requires |list| == 2048
    ensures w == list[ChecksumIndex(data)]
  {
    hide Sha512_256, Packed;
    var h := Sha512_256(data);
    var vals := ToUint11Array(h[0..2]);
    FirstPacked(h[0..2]);
    w := list[vals[0]];
  }

  /** `key_to_mnemonic`. */
  method KeyToMnemonic(list: seq<string>, key: key32) returns (s: string)
    requires |list| == 2048
    ensures s == Join(MnemonicWords(list, key))
  {
    hide Packed, ChecksumIndex;
    var vals := ToUint11Array(key);
    ghost var ws := Lookup(list, vals);
    s := "";
    for i := 0 to |vals|
      invariant s == Spaced(ws[..i])
    {
      assert ws[..i + 1][..i] == ws[..i];
      s := s + list[vals[i]] + " ";
    }
    var check := ChecksumWord(list, key);
    assert ws[..|vals|] == ws;
    assert MnemonicWords(list, key)[..24] == ws;
    s := s + check;
  }

  /** `position` on the wordlist. */
  method Position(list: seq<string>, w: string) returns (r: Option<nat>)
    ensures r.Some? ==> r.value < |list| && list[r.value] == w && w !in list[..r.value]
    ensures r.None? ==> w !in list
  {
    for i := 0 to |list|
      invariant w !in list[..i]
    {
      if list[i] == w {
        return Some(i);
      }
      assert list[..i + 1] == list[..i] + [list[i]];
    }
    assert list[..|list|] == list;
    return None;
  }

  /** Of 25 words, w is the first data word that the list lacks. */
  ghost predicate FirstUnknown(list: seq<string>, words: seq<string>, w: string) {
    |words| == 25 && exists i :: 0 <= i < 24 && words[i] == w && w !in list && KnownBefore(list, words, i)
  }

  ghost predicate KnownBefore(list: seq<string>, words: seq<string>, n: nat)
    requires n <= |words|
  {
    forall j :: 0 <= j < n ==> words[j] in list
  }

  /** The words so far, by their places in the list. */
  ghost predicate Found(list: seq<string>, words: seq<string>, indices: seq<word11>)
    requires |list| == 2048 && |indices| <= |words|
  {
    forall j :: 0 <= j < |indices| ==> list[indices[j]] == words[j]
  }

  lemma NoneUnknown(list: seq<string>, words: seq<string>)
    requires |words| == 25 ==> KnownBefore(list, words, 24)
    ensures forall w :: !FirstUnknown(list, words, w)
    ensures |words| != 25 && |list| == 2048 ==> forall key: key32 :: words != MnemonicWords(list, key)
  {
  }

  lemma UnknownStops(list: seq<string>, words: seq<string>, indices: seq<word11>)
    requires |list| == 2048 && |words| == 25 && |indices| < 24
    requires Found(list, words, indices) && words[|indices|] !in list
    ensures forall w :: w == words[|indices|] <==> FirstUnknown(list, words, w)
    ensures forall key: key32 :: words != MnemonicWords(list, key)
  {
    hide Packed, ChecksumIndex;
    var i := |indices|;
    assert KnownBefore(list, words, i);
    forall key: key32 ensures words != MnemonicWords(list, key) {
      assert MnemonicWords(list, key)[i] == list[Packed(key)[i]];
    }
    forall w | FirstUnknown(list, words, w) ensures w == words[i] {
      var k :| 0 <= k < 24 && words[k] == w && w !in list && KnownBefore(list, words, k);
    }
  }

  /**
   A key has these words exactly when it and a zero byte are what the data words unpack to, and the
   check is right.
   */
  lemma OnlyKey(list: seq<string>, words: seq<string>, indices: seq<word11>, key: key32)
    requires WordList(list) && |words| == 25 && |indices| == 24 && Found(list, words, indices)
    ensures words == MnemonicWords(list, key)
      <==> Unpacked(indices) == key + [0] && words[24] == list[ChecksumIndex(key)]
  {
    hide Packed, Unpacked, ChecksumIndex, AreWords;
    if words == MnemonicWords(list, key) {
      forall j | 0 <= j < 24 ensures Packed(key)[j] == indices[j] {
        assert words[j] == list[Packed(key)[j]];
      }
      assert Packed(key) == indices;
      UnpackedOfPacked(key);
      assert seq(1, _ => 0) == [0];
    }
    if Unpacked(indices) == key + [0] {
      assert Unpacked(indices)[..32] == key;
      PackedOfUnpacked(indices);
      assert Lookup(list, Packed(key)) == words[..24];
      assert words == words[..24] + [words[24]];
    }
  }

  /**
   * `mnemonic_to_key`: a key is returned exactly when the text's words are that key's mnemonic;
   * each error is returned exactly in its case, the earlier ones first.
   */
  method MnemonicToKey(list: seq<string>, mnemonic: string) returns (r: Result<key32, ParseError>)
    requires WordList(list)
    ensures forall key: key32 :: r == Success(key) <==> SplitWs(mnemonic) == MnemonicWords(list, key)
    ensures forall n :: r == Failure(WrongCount(n)) <==> n == |SplitWs(mnemonic)| && n != 25
    ensures forall w :: r == Failure(UnknownWord(w)) <==> FirstUnknown(list, SplitWs(mnemonic), w)
  {
    hide SplitWs, Packed, Unpacked, ChecksumIndex, AreWords, MnemonicWords, FirstUnknown, Lookup;
    var words := SplitWs(mnemonic);
    if |words| != 25 {
      NoneUnknown(list, words);
      return Failure(WrongCount(|words|));
    }
    var indices: seq<word11> := [];
    for i := 0 to 24
      invariant |indices| == i && Found(list, words, indices)
    {
      var found := Position(list, words[i]);
      match found {
        case Some(k) => indices := indices + [k];
        case None =>
          UnknownStops(list, words, indices);
          return Failure(UnknownWord(words[i]));
      }
    }
    NoneUnknown(list, words);
    var bytes := ToByteArray(indices);
    forall key: key32 {
      OnlyKey(list, words, indices, key);
    }
    if |bytes| != 33 || bytes[32] != 0 {
      return Failure(WrongChecksum);
    }
    var key: key32 := bytes[..32];
    assert bytes == key + [0];
    var check := ChecksumWord(list, key);
    if check != words[24] {
      return Failure(WrongChecksum);
    }
    r := Success(key);
  }

  /** `key_to_mnemonic` and then `mnemonic_to_key`, for every key. */
  method RoundTrip(list: seq<string>, key: key32) returns (r: Result<key32, ParseError>)
    requires WordList(list)
    ensures r == Success(key)
  {
    hide MnemonicWords;
    var s := KeyToMnemonic(list, key);
    MnemonicWordsAreWords(list, key);
    SplitOfJoin(MnemonicWords(list, key));
    r := MnemonicToKey(list, s);
  }
}
