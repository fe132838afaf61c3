/** Splitting text at whitespace, and joining words with spaces. */
module Words {
  /** The characters with the Unicode property White_Space. */
  predicate IsSpace(c: char) {
    var n := c as int;
    || 0x09 <= n <= 0x0d || n == 0x20 || n == 0x85 || n == 0xa0 || n == 0x1680 || 0x2000 <= n <= 0x200a
    || n == 0x2028 || n == 0x2029 || n == 0x202f || n == 0x205f || n == 0x3000
  }

  ghost predicate IsWord(w: string) {
    w != "" && forall i :: 0 <= i < |w| ==> !IsSpace(w[i])
  }

  ghost predicate AreWords(ws: seq<string>) {
    forall i :: 0 <= i < |ws| ==> IsWord(ws[i])
  }

  /** The length of the run of non-space characters that s starts with. */
  function WordLength(s: string): (n: nat)
    ensures n <= |s|
    ensures forall i :: 0 <= i < n ==> !IsSpace(s[i])
    ensures n < |s| ==> IsSpace(s[n])
  {
    if s == "" || IsSpace(s[0]) then 0 else 1 + WordLength(s[1..])
  }

  /** `split_whitespace`. */
  function SplitWs(s: string): (ws: seq<string>)
    ensures AreWords(ws)
    decreases |s|
  {
    if s == "" then []
    else if IsSpace(s[0]) then SplitWs(s[1..])
    else [s[..WordLength(s)]] + SplitWs(s[WordLength(s)..])
  }

  /** Every word followed by a space. */
  function Spaced(ws: seq<string>): string {
    if ws == [] then "" else Spaced(ws[..|ws| - 1]) + ws[|ws| - 1] + " "
  }

  /** The words with single spaces between them. */
  function Join(ws: seq<string>): string
    requires ws != []
  {
    Spaced(ws[..|ws| - 1]) + ws[|ws| - 1]
  }

  lemma SplitWord(w: string, t: string)
    requires IsWord(w) && (t == "" || IsSpace(t[0]))
    ensures SplitWs(w + t) == [w] + SplitWs(t)
  {
    var n := WordLength(w + t);
    assert forall i :: 0 <= i < |w| ==> (w + t)[i] == w[i];
    assert t != "" ==> (w + t)[|w|] == t[0];
    assert n == |w|;
    assert (w + t)[0] == w[0];
    assert (w + t)[..n] == w && (w + t)[n..] == t;
  }

  lemma {:induction false} SplitSpaced(ws: seq<string>, t: string)
    requires AreWords(ws)
    ensures SplitWs(Spaced(ws) + t) == ws + SplitWs(t)
  {
    if ws == [] {
      assert Spaced(ws) + t == t;
    } else {
      var n := |ws| - 1;
      var front, w := ws[..n], ws[n];
      assert Spaced(ws) + t == Spaced(front) + (w + (" " + t));
      SplitSpaced(front, w + (" " + t));
      SplitWord(w, " " + t);
      assert (" " + t)[1..] == t;
      assert ws == front + [w];
    }
  }

  /** Splitting undoes joining. */
  lemma SplitOfJoin(ws: seq<string>)
    requires ws != [] && AreWords(ws)
    ensures SplitWs(Join(ws)) == ws
  {
    var n := |ws| - 1;
    SplitSpaced(ws[..n], ws[n]);
    SplitWord(ws[n], "");
    assert ws[n] + "" == ws[n];
    assert ws == ws[..n] + [ws[n]];
  }

  /** The text without its white space. */
  function NonSpace(s: string): string {
    if s == "" then "" else (if IsSpace(s[0]) then "" else [s[0]]) + NonSpace(s[1..])
  }

  function Concat(ws: seq<string>): string {
    if ws == [] then "" else ws[0] + Concat(ws[1..])
  }

  lemma {:induction false} NonSpaceWord(w: string, t: string)
    requires forall i :: 0 <= i < |w| ==> !IsSpace(w[i])
    ensures NonSpace(w + t) == w + NonSpace(t)
  {
    if w == "" {
      assert w + t == t;
    } else {
      assert (w + t)[0] == w[0] && (w + t)[1..] == w[1..] + t;
      NonSpaceWord(w[1..], t);
      assert [w[0]] + (w[1..] + NonSpace(t)) == w + NonSpace(t);
    }
  }

  /** Splitting loses nothing but white space. */
  lemma {:induction false} SplitKeepsText(s: string)
    ensures Concat(SplitWs(s)) == NonSpace(s)
    decreases |s|
  {
    if s == "" {
    } else {
      if IsSpace(s[0]) {
        SplitKeepsText(s[1..]);
      } else {
        var n := WordLength(s);
        assert s == s[..n] + s[n..];
        NonSpaceWord(s[..n], s[n..]);
        SplitKeepsText(s[n..]);
        assert SplitWs(s)[1..] == SplitWs(s[n..]);
      }
    }
  }

  // ----- what the joined text is -----

  /** The length of the words together. */
  function TotalLength(ws: seq<string>): nat {
    if ws == [] then 0 else |ws[0]| + TotalLength(ws[1..])
  }

  /** How many characters are white space. */
  function SpaceCount(s: string): nat {
    if s == "" then 0 else (if IsSpace(s[0]) then 1 else 0) + SpaceCount(s[1..])
  }

  /** No white space but plain spaces. */
  ghost predicate PlainSpaces(s: string) {
    forall i :: 0 <= i < |s| && IsSpace(s[i]) ==> s[i] == ' '
  }

  lemma SpacedLast(ws: seq<string>, w: string)
    ensures Spaced(ws + [w]) == Spaced(ws) + w + " "
  {
    assert (ws + [w])[..|ws|] == ws;
  }

  lemma {:induction false} SpacedFront(w: string, ws: seq<string>)
    ensures Spaced([w] + ws) == w + " " + Spaced(ws)
  {
    if ws == [] {
      assert [w] + ws == [] + [w];
      SpacedLast([], w);
    } else {
      hide Spaced;
      var front, last := ws[..|ws| - 1], ws[|ws| - 1];
      assert [w] + ws == ([w] + front) + [last] && ws == front + [last];
      SpacedLast([w] + front, last);
      SpacedFront(w, front);
      SpacedLast(front, last);
    }
  }

  /** The text begins with the first word, and then a space if more follow. */
  lemma JoinFront(ws: seq<string>)
    requires ws != []
    ensures Join(ws) == if |ws| == 1 then ws[0] else ws[0] + " " + Join(ws[1..])
  {
    if |ws| > 1 {
      var middle := ws[1..][..|ws| - 2];
      assert ws[..|ws| - 1] == [ws[0]] + middle;
      SpacedFront(ws[0], middle);
    }
  }

  /** As long as its words and one character between each two. */
  lemma {:induction false} JoinLength(ws: seq<string>)
    requires ws != []
    ensures |Join(ws)| == TotalLength(ws) + |ws| - 1
  {
    JoinFront(ws);
    if |ws| == 1 {
      assert TotalLength(ws[1..]) == 0;
    } else {
      JoinLength(ws[1..]);
    }
  }

  lemma {:induction false} JoinPlain(ws: seq<string>)
    requires ws != [] && AreWords(ws)
    ensures PlainSpaces(Join(ws))
  {
    hide IsSpace, Join;
    JoinFront(ws);
    assert IsWord(ws[0]);
    if |ws| == 1 {
    } else {
      JoinPlain(ws[1..]);
    }
  }

  lemma {:induction false} JoinKeepsText(ws: seq<string>)
    requires ws != [] && AreWords(ws)
    ensures NonSpace(Join(ws)) == Concat(ws)
  {
    hide Join;
    JoinFront(ws);
    assert IsWord(ws[0]);
    if |ws| == 1 {
      NonSpaceWord(ws[0], "");
      assert ws[0] + "" == ws[0] && Concat(ws[1..]) == "";
    } else {
      JoinKeepsText(ws[1..]);
      var t := " " + Join(ws[1..]);
      assert t[1..] == Join(ws[1..]);
      NonSpaceWord(ws[0], t);
      assert ws[0] + t == Join(ws);
    }
  }

  lemma {:induction false} CountWord(w: string, t: string)
    requires forall i :: 0 <= i < |w| ==> !IsSpace(w[i])
    ensures SpaceCount(w + t) == SpaceCount(t)
  {
    if w == "" {
      assert w + t == t;
    } else {
      assert (w + t)[1..] == w[1..] + t;
      CountWord(w[1..], t);
    }
  }

  lemma {:induction false} LengthParts(s: string)
    ensures |s| == SpaceCount(s) + |NonSpace(s)|
  {
    if s == "" {
    } else {
      LengthParts(s[1..]);
    }
  }

  lemma {:induction false} ConcatLength(ws: seq<string>)
    ensures |Concat(ws)| == TotalLength(ws)
  {
    if ws == [] {
    } else {
      ConcatLength(ws[1..]);
    }
  }

  /** Between any two words there is white space. */
  lemma {:induction false} EnoughSpaces(s: string)
    ensures SpaceCount(s) >= |SplitWs(s)| - 1
    decreases |s|
  {
    if s == "" {
    } else if IsSpace(s[0]) {
      EnoughSpaces(s[1..]);
    } else {
      var n := WordLength(s);
      assert s == s[..n] + s[n..];
      CountWord(s[..n], s[n..]);
      EnoughSpaces(s[n..]);
      if s[n..] != "" {
        EnoughSpaces(s[n..][1..]);
      }
    }
  }

  /** A text that does not begin with white space: its first word, and the rest. */
  lemma FirstWord(s: string) returns (w: string, rest: string)
    requires s != "" && !IsSpace(s[0])
    ensures s == w + rest && w != "" && SplitWs(s) == [w] + SplitWs(rest)
    ensures rest != "" ==> IsSpace(rest[0]) && SplitWs(rest) == SplitWs(rest[1..]) && rest == [rest[0]] + rest[1..]
    ensures SpaceCount(s) == SpaceCount(rest)
  {
    var n := WordLength(s);
    w, rest := s[..n], s[n..];
    assert s == w + rest;
    CountWord(w, rest);
  }

  lemma PlainTail(s: string, w: string, rest: string)
    requires PlainSpaces(s) && s == w + rest && rest != ""
    ensures (IsSpace(rest[0]) ==> rest[0] == ' ') && PlainSpaces(rest[1..])
  {
    assert forall i :: 0 <= i < |rest| ==> rest[i] == s[|w| + i];
  }

  /** With no white space to spare, the text is the joined one. */
  lemma {:induction false} SpareNone(s: string)
    requires SplitWs(s) != [] && PlainSpaces(s) && SpaceCount(s) == |SplitWs(s)| - 1
    ensures s == Join(SplitWs(s))
    decreases |s|
  {
    if IsSpace(s[0]) {
      EnoughSpaces(s[1..]);
    } else {
      var w, rest := FirstWord(s);
      hide SplitWs, PlainSpaces, Join;
      JoinFront(SplitWs(s));
      if rest == "" {
        NoWords();
      } else {
        PlainTail(s, w, rest);
        assert SpaceCount(rest) == 1 + SpaceCount(rest[1..]);
        EnoughSpaces(rest[1..]);
        SpareNone(rest[1..]);
        assert SplitWs(s)[1..] == SplitWs(rest[1..]);
      }
    }
  }

  lemma NoWords()
    ensures SplitWs("") == []
  {
  }

  /** The joined text is the one text with these words, plain spaces only, and no character to spare. */
  lemma JoinIsOnly(ws: seq<string>, s: string)
    requires ws != [] && AreWords(ws)
    ensures s == Join(ws) <==> SplitWs(s) == ws && PlainSpaces(s) && |s| == TotalLength(ws) + |ws| - 1
  {
    JoinLength(ws);
    JoinPlain(ws);
    SplitOfJoin(ws);
    if SplitWs(s) == ws && PlainSpaces(s) && |s| == TotalLength(ws) + |ws| - 1 {
      LengthParts(s);
      SplitKeepsText(s);
      ConcatLength(ws);
      SpareNone(s);
    }
  }
}
