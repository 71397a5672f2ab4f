/** The pieces that both versions of the title cleaner are built from:
    punctuation removal, the letters-only rewrite, whitespace splitting,
    joining, and the filters applied to the word list. */
module Words {
  import opened Common
  import opened Text

  /** Python's `string.punctuation`: the 32 ASCII punctuation characters. */
  const Punctuation: string := "!\"#$%&'()*+,-./:;<=>?@[\\]^_`{|}~"

  /** The characters of `Punctuation`, by their four ranges of ASCII codes. */
  predicate IsPunctuation(c: char) {
    ('!' <= c <= '/') || (':' <= c <= '@') || ('[' <= c <= '`') || ('{' <= c <= '~')
  }

  /** The four ranges hold exactly the characters of `Punctuation`. */
  lemma PunctuationRanges(c: char)
    ensures IsPunctuation(c) <==> c in Punctuation
  {
    if c in Punctuation {
      PunctuationListed(c);
    }
    if IsPunctuation(c) {
      PunctuationInRanges(c);
    }
  }

  lemma PunctuationListed(c: char)
    requires c in Punctuation
    ensures IsPunctuation(c)
  {
  }

  lemma PunctuationInRanges(c: char)
    requires IsPunctuation(c)
    ensures c in Punctuation
  {
    if c <= '/' {
      assert Punctuation[c as int - 33] == c;
    } else if c <= '@' {
      assert Punctuation[c as int - 58 + 15] == c;
    } else if c <= '`' {
      assert Punctuation[c as int - 91 + 22] == c;
    } else {
      assert Punctuation[c as int - 123 + 28] == c;
    }
  }

  /** A non-empty run of lower-case ASCII letters. */
  predicate IsWord(w: string) {
    w != [] && forall i :: 0 <= i < |w| ==> IsLower(w[i])
  }

  /** Only lower-case ASCII letters and spaces. */
  predicate LowerText(s: string) {
    forall i :: 0 <= i < |s| ==> IsLower(s[i]) || s[i] == ' '
  }

  /** No leading or trailing space and never two spaces in a row. */
  predicate SingleSpaced(s: string) {
    s == [] || (s[0] != ' ' && s[|s| - 1] != ' ' && forall i :: 0 < i < |s| ==> s[i - 1] != ' ' || s[i] != ' ')
  }

  // ---------------------------------------------------------------------------
  // Character rewrites

  /** `s.translate(str.maketrans('', '', string.punctuation))`: every
      punctuation character is deleted and nothing takes its place. */
  function StripPunctuation(s: string): (r: string)
    ensures |r| <= |s|
  {
    if s == [] then ""
    else (if IsPunctuation(s[0]) then "" else [s[0]]) + StripPunctuation(s[1..])
  }

  /** `re.sub('[^a-zA-Z]', ' ', s)`: every character that is not an ASCII
      letter becomes one space. */
  function LettersOnly(s: string): (r: string)
    ensures |r| == |s|
  {
    seq(|s|, i requires 0 <= i < |s| => if IsAsciiLetter(s[i]) then s[i] else ' ')
  }

  lemma {:induction false} StripPunctuationAppend(a: string, b: string)
    ensures StripPunctuation(a + b) == StripPunctuation(a) + StripPunctuation(b)
    decreases |a|
  {
    if a == [] {
      assert a + b == b;
    } else {
      var h := if IsPunctuation(a[0]) then "" else [a[0]];
      assert (a + b)[0] == a[0] && (a + b)[1..] == a[1..] + b;
      StripPunctuationAppend(a[1..], b);
      assert StripPunctuation(a + b) == h + (StripPunctuation(a[1..]) + StripPunctuation(b));
      assert StripPunctuation(a) == h + StripPunctuation(a[1..]);
    }
  }

  /** A character that is not punctuation stays where it was. */
  lemma StripPunctuationKeepsChar(a: string, c: char, b: string)
    requires !IsPunctuation(c)
    ensures StripPunctuation(a + [c] + b) == StripPunctuation(a) + [c] + StripPunctuation(b)
  {
    StripPunctuationAppend(a + [c], b);
    StripPunctuationAppend(a, [c]);
  }

  /** No punctuation is left. */
  lemma {:induction false} StripPunctuationDeletes(s: string)
    ensures forall i :: 0 <= i < |StripPunctuation(s)| ==> !IsPunctuation(StripPunctuation(s)[i])
    decreases |s|
  {
    if s != [] {
      StripPunctuationDeletes(s[1..]);
    }
  }

  /** Text without punctuation passes through unchanged. */
  lemma {:induction false} StripPunctuationKeeps(s: string)
    requires forall i :: 0 <= i < |s| ==> !IsPunctuation(s[i])
    ensures StripPunctuation(s) == s
    decreases |s|
  {
    if s != [] {
      StripPunctuationKeeps(s[1..]);
      assert [s[0]] + s[1..] == s;
    }
  }

  /** Lower-case, space-separated text holds no punctuation and is left as
      it is by the letters-only rewrite and by lower-casing. */
  lemma LowerTextUnchanged(s: string)
    requires LowerText(s)
    ensures forall i :: 0 <= i < |s| ==> !IsPunctuation(s[i])
    ensures LettersOnly(s) == s
    ensures Lower(s) == s
  {
  }

  /** Every non-letter becomes the same space. */
  lemma LettersOnlyOther(x: string, c: char, y: string)
    requires !IsAsciiLetter(c)
    ensures LettersOnly(x + [c] + y) == LettersOnly(x + " " + y)
  {
    var l, r := x + [c] + y, x + " " + y;
    assert |l| == |r|;
    forall i | 0 <= i < |l| ensures LettersOnly(l)[i] == LettersOnly(r)[i] {
      if i != |x| {
        assert l[i] == r[i];
      }
    }
  }

  lemma LowerLettersOnly(s: string)
    ensures LowerText(Lower(LettersOnly(s)))
  {
  }

  // ---------------------------------------------------------------------------
  // str.split() and ' '.join(words)

  /** The non-empty strings of `ps`, in order. */
  function DropEmpty(ps: seq<string>): (r: seq<string>)
    ensures |r| <= |ps|
  {
    if ps == [] then []
    else if ps[0] == [] then DropEmpty(ps[1..])
    else [ps[0]] + DropEmpty(ps[1..])
  }

  /** `s.split()` for text whose only whitespace is ' ', which is all the
      cleaners ever split: the maximal runs of non-space characters. */
  function Split(s: string): seq<string> {
    DropEmpty(SplitOn(s, ' '))
  }

  lemma {:induction false} DropEmptySpec(ps: seq<string>)
    ensures forall p :: p in DropEmpty(ps) <==> p in ps && p != []
    decreases |ps|
  {
    if ps != [] {
      DropEmptySpec(ps[1..]);
      assert ps == [ps[0]] + ps[1..];
    }
  }

  /** The pieces of a split are non-empty and hold no space. */
  lemma SplitPieces(s: string)
    ensures forall w :: w in Split(s) ==> w != [] && Excludes(w, ' ')
  {
    DropEmptySpec(SplitOn(s, ' '));
    SplitOnExcludes(s, ' ');
  }

  /** A run of ASCII letters holds no punctuation. */
  lemma LettersNoPunctuation(w: string)
    requires forall i :: 0 <= i < |w| ==> IsAsciiLetter(w[i])
    ensures forall i :: 0 <= i < |w| ==> !IsPunctuation(w[i])
  {
  }

  /** A run of ASCII letters is one word once lower-cased. */
  lemma LetterRunSplit(w: string)
    requires w != [] && forall i :: 0 <= i < |w| ==> IsAsciiLetter(w[i])
    ensures Split(Lower(LettersOnly(w))) == [Lower(w)]
  {
    var lw := Lower(w);
    assert LettersOnly(w) == w;
    assert IsWord(lw);
    JoinWordsSplit([lw]);
    assert Join([lw]) == lw;
  }

  /** `' '.join(words)`. */
  function Join(words: seq<string>): string {
    JoinWith(words, ' ')
  }

  lemma {:induction false} DropEmptyKeeps(ps: seq<string>)
    requires forall p :: p in ps ==> p != []
    ensures DropEmpty(ps) == ps
    decreases |ps|
  {
    if ps != [] {
      assert ps[0] in ps;
      assert forall p :: p in ps[1..] ==> p in ps;
      DropEmptyKeeps(ps[1..]);
      assert [ps[0]] + ps[1..] == ps;
    }
  }

  predicate AllLower(p: string) {
    forall i :: 0 <= i < |p| ==> IsLower(p[i])
  }

  lemma {:induction false} SplitOnLowerText(s: string)
    requires LowerText(s)
    ensures forall p :: p in SplitOn(s, ' ') ==> AllLower(p)
    decreases |s|
  {
    if s != [] {
      SplitOnLowerText(s[1..]);
      var rest := SplitOn(s[1..], ' ');
      if s[0] != ' ' {
        var first := [s[0]] + rest[0];
        assert AllLower(first) by {
          assert AllLower(rest[0]);
        }
        assert forall p :: p in rest[1..] ==> p in rest;
      }
    }
  }

  /** Splitting lower-case text gives words. */
  lemma SplitLowerText(s: string)
    requires LowerText(s)
    ensures forall w :: w in Split(s) ==> IsWord(w)
  {
    SplitOnLowerText(s);
    DropEmptySpec(SplitOn(s, ' '));
  }

  lemma WordIsText(w: string)
    requires IsWord(w)
    ensures LowerText(w) && SingleSpaced(w) && Excludes(w, ' ')
  {
  }

  lemma SingleSpacedJoin(a: string, b: string)
    requires a != [] && b != []
    requires SingleSpaced(a) && SingleSpaced(b)
    ensures SingleSpaced(a + " " + b)
  {
    var s := a + " " + b;
    forall i | 0 < i < |s| ensures s[i - 1] != ' ' || s[i] != ' ' {
      if i < |a| {
        assert s[i - 1] == a[i - 1] && s[i] == a[i];
      } else if i == |a| {
        assert s[i - 1] == a[|a| - 1];
      } else if i == |a| + 1 {
        assert s[i] == b[0];
      } else {
        assert s[i - 1] == b[i - 1 - |a| - 1] && s[i] == b[i - |a| - 1];
      }
    }
  }

  /** Joining words gives lower-case, single-spaced text, empty exactly when
      there are no words. */
  lemma {:induction false} JoinWordsText(ws: seq<string>)
    requires forall w :: w in ws ==> IsWord(w)
    ensures LowerText(Join(ws)) && SingleSpaced(Join(ws))
    ensures ws != [] <==> Join(ws) != []
    decreases |ws|
  {
    if ws == [] {
    } else if |ws| == 1 {
      assert Join(ws) == ws[0];
      WordIsText(ws[0]);
    } else {
      assert forall w :: w in ws[1..] ==> w in ws;
      JoinWordsText(ws[1..]);
      var a, b := ws[0], Join(ws[1..]);
      WordIsText(a);
      assert Join(ws) == a + " " + b;
      SingleSpacedJoin(a, b);
      assert LowerText(a + " " + b) by {
        forall i | 0 <= i < |a| + 1 + |b| ensures IsLower((a + " " + b)[i]) || (a + " " + b)[i] == ' ' {
          if i > |a| { assert (a + " " + b)[i] == b[i - |a| - 1]; }
        }
      }
    }
  }

  /** Joined words split back into the same words. */
  lemma JoinWordsSplit(ws: seq<string>)
    requires forall w :: w in ws ==> IsWord(w)
    ensures Split(Join(ws)) == ws
  {
    if ws != [] {
      assert forall w :: w in ws ==> Excludes(w, ' ');
      SplitOnJoinWith(ws, ' ');
      DropEmptyKeeps(ws);
    }
  }

  // ---------------------------------------------------------------------------
  // The list-comprehension filters

  /** `[w for w in words if not len(w) == 1]`. */
  function DropSingleLetters(words: seq<string>): (r: seq<string>)
    ensures |r| <= |words|
  {
    if words == [] then []
    else if |words[0]| == 1 then DropSingleLetters(words[1..])
    else [words[0]] + DropSingleLetters(words[1..])
  }

  /** `[w for w in words if w not in stop]`. */
  function DropStopWords(words: seq<string>, stop: set<string>): (r: seq<string>)
    ensures |r| <= |words|
  {
    if words == [] then []
    else if words[0] in stop then DropStopWords(words[1..], stop)
    else [words[0]] + DropStopWords(words[1..], stop)
  }

  /** Exactly the words whose length is not 1 survive, each as often as it
      occurs, in their order. */
  lemma {:induction false} DropSingleLettersSpec(words: seq<string>)
    ensures forall w :: w in DropSingleLetters(words) <==> w in words && |w| != 1
    ensures forall w :: multiset(DropSingleLetters(words))[w] == if |w| == 1 then 0 else multiset(words)[w]
    ensures Subsequence(DropSingleLetters(words), words)
    decreases |words|
  {
    DropSingleLettersCount(words);
    if words != [] {
      DropSingleLettersSpec(words[1..]);
      assert words == [words[0]] + words[1..];
    }
  }

  lemma {:induction false} DropSingleLettersCount(words: seq<string>)
    ensures forall w :: multiset(DropSingleLetters(words))[w] == if |w| == 1 then 0 else multiset(words)[w]
    decreases |words|
  {
    if words != [] {
      DropSingleLettersCount(words[1..]);
      assert words == [words[0]] + words[1..];
      assert multiset(words) == multiset([words[0]]) + multiset(words[1..]);
    }
  }

  /** Exactly the words outside `stop` survive, each as often as it occurs,
      in their order. */
  lemma {:induction false} DropStopWordsSpec(words: seq<string>, stop: set<string>)
    ensures forall w :: w in DropStopWords(words, stop) <==> w in words && w !in stop
    ensures forall w :: multiset(DropStopWords(words, stop))[w] == if w in stop then 0 else multiset(words)[w]
    ensures Subsequence(DropStopWords(words, stop), words)
    decreases |words|
  {
    DropStopWordsCount(words, stop);
    if words != [] {
      DropStopWordsSpec(words[1..], stop);
      assert words == [words[0]] + words[1..];
    }
  }

  lemma {:induction false} DropStopWordsCount(words: seq<string>, stop: set<string>)
    ensures forall w :: multiset(DropStopWords(words, stop))[w] == if w in stop then 0 else multiset(words)[w]
    decreases |words|
  {
    if words != [] {
      DropStopWordsCount(words[1..], stop);
      assert words == [words[0]] + words[1..];
      assert multiset(words) == multiset([words[0]]) + multiset(words[1..]);
    }
  }

  lemma {:induction false} DropSingleLettersKeeps(words: seq<string>)
    requires forall w :: w in words ==> |w| != 1
    ensures DropSingleLetters(words) == words
    decreases |words|
  {
    if words != [] {
      assert forall w :: w in words[1..] ==> w in words;
      DropSingleLettersKeeps(words[1..]);
      assert [words[0]] + words[1..] == words;
    }
  }

  lemma {:induction false} DropStopWordsKeeps(words: seq<string>, stop: set<string>)
    requires forall w :: w in words ==> w !in stop
    ensures DropStopWords(words, stop) == words
    decreases |words|
  {
    if words != [] {
      assert forall w :: w in words[1..] ==> w in words;
      DropStopWordsKeeps(words[1..], stop);
      assert [words[0]] + words[1..] == words;
    }
  }
}
