/** The word-wise reversal at the heart of the reverse endpoint:
    `' '.join(word[::-1] for word in text.split())`.
    Python's argument-less `str.split()` breaks the text at runs of
    whitespace and drops empty pieces; `' '.join` puts exactly one space
    between pieces; `w[::-1]` reverses a word's characters. */
module Words {

  /** The characters Python's `str.isspace()` accepts, which are exactly the
      separators of an argument-less `str.split()`. */
  predicate IsSpace(c: char) {
    var n := c as int;
    (0x09 <= n <= 0x0D) || (0x1C <= n <= 0x20) || n == 0x85 || n == 0xA0 ||
    n == 0x1680 || (0x2000 <= n <= 0x200A) || n == 0x2028 || n == 0x2029 ||
    n == 0x202F || n == 0x205F || n == 0x3000
  }

  /** A piece `split()` can produce: non-empty, no whitespace in it. */
  predicate IsWord(w: string) {
    |w| > 0 && forall i :: 0 <= i < |w| ==> !IsSpace(w[i])
  }

  predicate AllWords(ws: seq<string>) {
    forall i :: 0 <= i < |ws| ==> IsWord(ws[i])
  }

  predicate AllSpace(s: string) {
    forall i :: 0 <= i < |s| ==> IsSpace(s[i])
  }

  /** The shape `' '.join` gives a list of words: the only whitespace is the
      plain space, which neither starts nor ends the text and never comes
      twice in a row. */
  predicate Normalised(s: string) {
    && (forall i :: 0 <= i < |s| && IsSpace(s[i]) ==> s[i] == ' ')
    && (|s| > 0 ==> s[0] != ' ' && s[|s| - 1] != ' ')
    && (forall i :: 0 <= i < |s| - 1 ==> s[i] != ' ' || s[i + 1] != ' ')
  }

  /** Length of the run of non-whitespace characters that starts `s`. */
  function WordLength(s: string): (n: nat)
    ensures n <= |s|
    ensures forall i :: 0 <= i < n ==> !IsSpace(s[i])
    ensures n < |s| ==> IsSpace(s[n])
  {
    if s == [] || IsSpace(s[0]) then 0 else 1 + WordLength(s[1..])
  }

  /** Python's `s.split()`: the maximal whitespace-free runs, in order. */
  function Split(s: string): (words: seq<string>)
    ensures AllWords(words)
    decreases |s|
  {
    if s == [] then []
    else if IsSpace(s[0]) then Split(s[1..])
    else
      var n := WordLength(s);
      [s[..n]] + Split(s[n..])
  }

  /** Python's `' '.join(ws)`. */
  function Join(ws: seq<string>): string {
    if |ws| == 0 then ""
    else if |ws| == 1 then ws[0]
    else ws[0] + (" " + Join(ws[1..]))
  }

  /** Python's `w[::-1]`. */
  function Reverse(w: string): (r: string)
    ensures |r| == |w|
  {
    if w == [] then [] else Reverse(w[1..]) + [w[0]]
  }

  /** Every word of `ws` reversed, in the same order. */
  function ReverseEach(ws: seq<string>): seq<string> {
    seq(|ws|, i requires 0 <= i < |ws| => Reverse(ws[i]))
  }

  /** `' '.join(word[::-1] for word in text.split())` */
  function ReverseWords(text: string): string {
    Join(ReverseEach(Split(text)))
  }

  // ---------------------------------------------------------------------
  // Reversal of one word

  lemma {:induction false} ReverseAt(w: string, k: nat)
    requires k < |w|
    ensures Reverse(w)[k] == w[|w| - 1 - k]
  {
    if k < |w| - 1 {
      ReverseAt(w[1..], k);
    }
  }

  /** `w[::-1][::-1] == w` */
  lemma ReverseInvolutive(w: string)
    ensures Reverse(Reverse(w)) == w
  {
    forall k | 0 <= k < |w|
      ensures Reverse(Reverse(w))[k] == w[k]
    {
      ReverseAt(Reverse(w), k);
      ReverseAt(w, |w| - 1 - k);
    }
  }

  /** Reversal neither adds, drops nor changes characters. */
  lemma {:induction false} ReverseMultiset(w: string)
    ensures multiset(Reverse(w)) == multiset(w)
  {
    if w != [] {
      ReverseMultiset(w[1..]);
      assert w == [w[0]] + w[1..];
    }
  }

  /** The reverse of a word is a word. */
  lemma ReverseKeepsWord(w: string)
    requires IsWord(w)
    ensures IsWord(Reverse(w))
  {
    forall k | 0 <= k < |w|
      ensures !IsSpace(Reverse(w)[k])
    {
      ReverseAt(w, k);
    }
  }

  lemma ReverseEachKeepsWords(ws: seq<string>)
    requires AllWords(ws)
    ensures AllWords(ReverseEach(ws))
  {
    forall i | 0 <= i < |ws|
      ensures IsWord(ReverseEach(ws)[i])
    {
      ReverseKeepsWord(ws[i]);
    }
  }

  lemma ReverseEachInvolutive(ws: seq<string>)
    ensures ReverseEach(ReverseEach(ws)) == ws
  {
    forall i | 0 <= i < |ws|
      ensures ReverseEach(ReverseEach(ws))[i] == ws[i]
    {
      ReverseInvolutive(ws[i]);
    }
  }

  // ---------------------------------------------------------------------
  // split() after join()

  lemma {:induction false} WordLengthOfWord(w: string, rest: string)
    requires IsWord(w)
    requires rest == [] || IsSpace(rest[0])
    ensures WordLength(w + rest) == |w|
  {
    if |w| > 1 {
      assert (w + rest)[1..] == w[1..] + rest;
      WordLengthOfWord(w[1..], rest);
    }
  }

  /** A word followed by whitespace (or nothing) is split off whole. */
  lemma SplitWord(w: string, rest: string)
    requires IsWord(w)
    requires rest == [] || IsSpace(rest[0])
    ensures Split(w + rest) == [w] + Split(rest)
  {
    WordLengthOfWord(w, rest);
    var s := w + rest;
    assert s[..|w|] == w;
    assert s[|w|..] == rest;
  }

  /** Any run of whitespace in front of the text is dropped whole: however
      long the run and whatever its characters, it only separates words. */
  lemma {:induction false} SplitSkipsSpace(sp: string, rest: string)
    requires AllSpace(sp)
    ensures Split(sp + rest) == Split(rest)
    decreases |sp|
  {
    if sp != [] {
      assert IsSpace((sp + rest)[0]);
      assert (sp + rest)[1..] == sp[1..] + rest;
      assert AllSpace(sp[1..]) by {
        forall i | 0 <= i < |sp| - 1 ensures IsSpace(sp[1..][i]) {
          assert sp[1..][i] == sp[i + 1];
        }
      }
      SplitSkipsSpace(sp[1..], rest);
    } else {
      assert sp + rest == rest;
    }
  }

  /** `' '.join` of words splits back into exactly those words. */
  lemma {:induction false} SplitJoin(ws: seq<string>)
    requires AllWords(ws)
    ensures Split(Join(ws)) == ws
  {
    if |ws| == 1 {
      SplitWord(ws[0], []);
      assert ws[0] + [] == ws[0];
    } else if |ws| > 1 {
      var tail := " " + Join(ws[1..]);
      SplitWord(ws[0], tail);
      assert tail[1..] == Join(ws[1..]);
      SplitJoin(ws[1..]);
      assert ws == [ws[0]] + ws[1..];
    }
  }

  // ---------------------------------------------------------------------
  // The shape of a join

  lemma {:induction false} JoinEnds(ws: seq<string>)
    requires AllWords(ws) && |ws| > 0
    ensures |Join(ws)| > 0
    ensures Join(ws)[0] == ws[0][0]
    ensures Join(ws)[|Join(ws)| - 1] == ws[|ws| - 1][|ws[|ws| - 1]| - 1]
  {
    if |ws| > 1 {
      JoinEnds(ws[1..]);
    }
  }

  /** `' '.join` of words has single spaces between words and none at the ends. */
  lemma {:induction false} JoinNormalised(ws: seq<string>)
    requires AllWords(ws)
    ensures Normalised(Join(ws))
  {
    if |ws| > 1 {
      JoinNormalised(ws[1..]);
      JoinEnds(ws[1..]);
      var w, j := ws[0], Join(ws[1..]);
      var s := Join(ws);
      assert s == w + [' '] + j;
      forall i | 0 <= i < |s| && IsSpace(s[i])
        ensures s[i] == ' '
      {
        if i > |w| {
          assert s[i] == j[i - |w| - 1];
        }
      }
      forall i | 0 <= i < |s| - 1
        ensures s[i] != ' ' || s[i + 1] != ' '
      {
        if i > |w| {
          assert s[i] == j[i - |w| - 1] && s[i + 1] == j[i - |w|];
        }
      }
    }
  }

  /** What follows the first space of a normalised text is normalised. */
  lemma NormalisedAfterSpace(s: string, n: nat)
    requires Normalised(s) && n < |s| && s[n] == ' '
    ensures n + 1 < |s| && !IsSpace(s[n + 1])
    ensures Normalised(s[n + 1..])
  {
    var rest := s[n + 1..];
    forall i | 0 <= i < |rest| && IsSpace(rest[i])
      ensures rest[i] == ' '
    {
      assert rest[i] == s[n + 1 + i];
    }
    forall i | 0 <= i < |rest| - 1
      ensures rest[i] != ' ' || rest[i + 1] != ' '
    {
      assert rest[i] == s[n + 1 + i] && rest[i + 1] == s[n + 2 + i];
    }
  }

  /** A normalised text is exactly the `' '.join` of its own `split()`. */
  lemma {:induction false} NormalisedJoinSplit(s: string)
    requires Normalised(s)
    ensures Join(Split(s)) == s
    decreases |s|
  {
    if s != [] {
      var n := WordLength(s);
      var w := s[..n];
      assert IsWord(w);
      if n < |s| {
        NormalisedAfterSpace(s, n);
        var rest := s[n + 1..];
        assert s == w + (" " + rest);
        SplitWord(w, " " + rest);
        assert (" " + rest)[1..] == rest;
        NormalisedJoinSplit(rest);
        SplitEmptyIffBlank(rest);
        assert Split(s) == [w] + Split(rest);
      } else {
        assert w == s;
        assert s == w + [];
        SplitWord(w, []);
      }
    }
  }

  /** Normalised texts are exactly the fixed points of split-then-join. */
  lemma NormalisedIffFixedPoint(s: string)
    ensures Normalised(s) <==> Join(Split(s)) == s
  {
    if Normalised(s) {
      NormalisedJoinSplit(s);
    }
    if Join(Split(s)) == s {
      JoinNormalised(Split(s));
    }
  }

  // ---------------------------------------------------------------------
  // Blank input

  lemma {:induction false} SplitEmptyIffBlank(s: string)
    ensures Split(s) == [] <==> AllSpace(s)
    decreases |s|
  {
    if s != [] && IsSpace(s[0]) {
      SplitEmptyIffBlank(s[1..]);
      if AllSpace(s[1..]) {
        forall i | 0 <= i < |s|
          ensures IsSpace(s[i])
        {
          if i > 0 { assert s[i] == s[1..][i - 1]; }
        }
      }
    }
  }

  lemma JoinEmptyIffNoWords(ws: seq<string>)
    requires AllWords(ws)
    ensures Join(ws) == "" <==> ws == []
  {
    if ws != [] {
      JoinEnds(ws);
    }
  }

  // ---------------------------------------------------------------------
  // Properties of ReverseWords

  /** The output splits into the input's words, each reversed, same order:
      same word count, and the i-th output word is the i-th input word
      read backwards. */
  lemma ReverseWordsSplit(text: string)
    ensures Split(ReverseWords(text)) == ReverseEach(Split(text))
    ensures |Split(ReverseWords(text))| == |Split(text)|
    ensures forall i :: 0 <= i < |Split(text)| ==>
              Split(ReverseWords(text))[i] == Reverse(Split(text)[i])
  {
    ReverseEachKeepsWords(Split(text));
    SplitJoin(ReverseEach(Split(text)));
  }

  /** Each output word has the length and the characters of its input word. */
  lemma ReverseWordsKeepsLetters(text: string, i: nat)
    requires i < |Split(text)|
    ensures i < |Split(ReverseWords(text))|
    ensures |Split(ReverseWords(text))[i]| == |Split(text)[i]|
    ensures multiset(Split(ReverseWords(text))[i]) == multiset(Split(text)[i])
  {
    ReverseWordsSplit(text);
    ReverseMultiset(Split(text)[i]);
  }

  /** No leading or trailing whitespace, no empty word, single spaces. */
  lemma ReverseWordsNormalised(text: string)
    ensures Normalised(ReverseWords(text))
  {
    ReverseEachKeepsWords(Split(text));
    JoinNormalised(ReverseEach(Split(text)));
  }

  /** Applying the reversal twice gives the whitespace-normalised input,
      and the input itself when it was already normalised. */
  lemma ReverseWordsTwice(text: string)
    ensures ReverseWords(ReverseWords(text)) == Join(Split(text))
    ensures Normalised(text) ==> ReverseWords(ReverseWords(text)) == text
  {
    ReverseWordsSplit(text);
    ReverseEachInvolutive(Split(text));
    if Normalised(text) {
      NormalisedJoinSplit(text);
    }
  }

  /** The output is empty exactly when the input is empty or all whitespace. */
  lemma ReverseWordsEmptyIffBlank(text: string)
    ensures ReverseWords(text) == "" <==> AllSpace(text)
  {
    SplitEmptyIffBlank(text);
    ReverseEachKeepsWords(Split(text));
    JoinEmptyIffNoWords(ReverseEach(Split(text)));
  }

  /** The documented example: "Hello world" becomes "olleH dlrow". The text
      is a parameter fixed by the requires because a string literal inside
      the ensures makes the verifier unfold `Split` on it eagerly. */
  lemma ReverseWordsHelloWorld(text: string)
    requires text == "Hello world"
    ensures ReverseWords(text) == "olleH dlrow"
  {
    assert Split(text) == ["Hello", "world"] by {
      assert IsWord("Hello") && IsWord("world");
      assert Join(["Hello", "world"]) == "Hello world";
      SplitJoin(["Hello", "world"]);
    }
    assert Join(ReverseEach(["Hello", "world"])) == "olleH dlrow" by {
      assert Reverse("Hello") == "olleH";
      assert Reverse("world") == "dlrow";
      assert ReverseEach(["Hello", "world"]) == ["olleH", "dlrow"];
    }
  }
}
