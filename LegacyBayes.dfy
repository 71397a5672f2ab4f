/** The older title cleaner of the root-level bayes.py. It knows no
    punctuation rule, no length filter and no "tonkatsu" rule: every
    character that is not an ASCII letter separates words, and only the stop
    words are dropped. */
module LegacyBayes {
  import opened Common
  import opened Text
  import opened Words

  /** `re.sub('[^a-zA-Z]', ' ', raw).lower().split()`. */
  function Runs(raw: string): seq<string> {
    Split(Lower(LettersOnly(raw)))
  }

  /** `[w for w in words if w not in stop]`. */
  function TitleWords(raw: string, stop: set<string>): seq<string> {
    DropStopWords(Runs(raw), stop)
  }

  /** `clean_title(raw)` with the English stop-word list given as `stop`. */
  function CleanTitle(raw: string, stop: set<string>): string {
    Join(TitleWords(raw, stop))
  }

  /** Every run is a word of lower-case ASCII letters. */
  lemma RunsWords(raw: string)
    ensures forall w :: w in Runs(raw) ==> IsWord(w)
  {
    LowerLettersOnly(raw);
    SplitLowerText(Lower(LettersOnly(raw)));
  }

  /** The kept words are exactly the runs outside `stop`, each as often as
      it occurs, in their original order; their length does not matter. */
  lemma TitleWordsSpec(raw: string, stop: set<string>)
    ensures forall w :: w in TitleWords(raw, stop) ==> IsWord(w) && w !in stop
    ensures forall w :: w in Runs(raw) && w !in stop ==> w in TitleWords(raw, stop)
    ensures forall w :: multiset(TitleWords(raw, stop))[w] == if w in stop then 0 else multiset(Runs(raw))[w]
    ensures Subsequence(TitleWords(raw, stop), Runs(raw))
  {
    RunsWords(raw);
    DropStopWordsSpec(Runs(raw), stop);
  }

  /** The cleaned title is lower-case ASCII letters and single spaces, with
      nothing at either end. */
  lemma CleanTitleText(raw: string, stop: set<string>)
    ensures LowerText(CleanTitle(raw, stop)) && SingleSpaced(CleanTitle(raw, stop))
  {
    TitleWordsSpec(raw, stop);
    JoinWordsText(TitleWords(raw, stop));
  }

  /** The words of the cleaned title are exactly the kept words, none of them
      a stop word. */
  lemma CleanTitleWords(raw: string, stop: set<string>)
    ensures Split(CleanTitle(raw, stop)) == TitleWords(raw, stop)
    ensures forall w :: w in Split(CleanTitle(raw, stop)) ==> IsWord(w) && w !in stop
  {
    TitleWordsSpec(raw, stop);
    JoinWordsSplit(TitleWords(raw, stop));
  }

  /** Cleaning a cleaned title changes nothing, whatever the stop list. */
  lemma CleanTitleIdempotent(raw: string, stop: set<string>)
    ensures CleanTitle(CleanTitle(raw, stop), stop) == CleanTitle(raw, stop)
  {
    var r := CleanTitle(raw, stop);
    var ws := TitleWords(raw, stop);
    CleanTitleText(raw, stop);
    TitleWordsSpec(raw, stop);
    LowerTextUnchanged(r);
    JoinWordsSplit(ws);
    assert Runs(r) == ws;
    DropStopWordsKeeps(ws, stop);
  }

  /** Every non-letter, punctuation and digits included, separates words as a
      space does. */
  lemma NonLetterSeparates(a: string, c: char, b: string, stop: set<string>)
    requires !IsAsciiLetter(c)
    ensures CleanTitle(a + [c] + b, stop) == CleanTitle(a + " " + b, stop)
  {
    LettersOnlyOther(a, c, b);
  }

  /** A title that is one run of ASCII letters comes out lower-cased unless it
      is a stop word: a single letter and "tonkatsu" survive. */
  lemma SingleWord(w: string, stop: set<string>)
    requires w != [] && forall i :: 0 <= i < |w| ==> IsAsciiLetter(w[i])
    ensures CleanTitle(w, stop) == if Lower(w) !in stop then Lower(w) else ""
  {
    var lw := Lower(w);
    LetterRunSplit(w);
    assert [lw][1..] == [];
  }

  /** "Tonkatsu" is kept as "tonkatsu" unless the stop list holds it. */
  lemma TonkatsuKept(stop: set<string>)
    requires "tonkatsu" !in stop
    ensures CleanTitle("Tonkatsu", stop) == "tonkatsu"
  {
    var w := "Tonkatsu";
    assert Lower(w) == "tonkatsu";
    assert forall i :: 0 <= i < |w| ==> IsAsciiLetter(w[i]);
    SingleWord(w, stop);
  }

  /** A title whose runs hold no stop word comes out as those runs joined. */
  lemma NoStopWords(raw: string, stop: set<string>, ws: seq<string>)
    requires Runs(raw) == ws && forall w :: w in ws ==> w !in stop
    ensures CleanTitle(raw, stop) == Join(ws)
  {
    DropStopWordsKeeps(ws, stop);
  }

  lemma RamenSanText()
    ensures Lower(LettersOnly("Ramen San")) == "ramen san"
  {
  }

  lemma RamenSanJoin()
    ensures Join(["ramen", "san"]) == "ramen san"
  {
    assert ["ramen", "san"][1..] == ["san"];
  }

  /** "Ramen San" has the two runs "ramen" and "san". */
  lemma RamenSanRuns()
    ensures Runs("Ramen San") == ["ramen", "san"]
  {
    var ws := ["ramen", "san"];
    RamenSanText();
    RamenSanJoin();
    assert IsWord("ramen") && IsWord("san");
    JoinWordsSplit(ws);
  }

  /** The hyphen in "Ramen-San" separates, so two words come out. */
  lemma RamenSanSplit(stop: set<string>)
    requires "ramen" !in stop && "san" !in stop
    ensures CleanTitle("Ramen-San", stop) == "ramen san"
  {
    var ws := ["ramen", "san"];
    assert "Ramen-San" == "Ramen" + ['-'] + "San";
    NonLetterSeparates("Ramen", '-', "San", stop);
    assert "Ramen" + " " + "San" == "Ramen San";
    RamenSanRuns();
    NoStopWords("Ramen San", stop, ws);
    RamenSanJoin();
  }
}
