/** The trainer script bot/bayes.py: the title cleaner, the sub-reddit filter,
    the titles loop and the start-up check of `main`, and the held-out test
    file it writes. Vectorising, fitting and scoring are the statistics
    library's and are not part of this module. */
module Trainer {
  import opened Common
  import opened Text
  import opened Words

  // ---------------------------------------------------------------------------
  // clean_title

  /** The letter runs of the title once punctuation is deleted, lower-cased:
      `re.sub('[^a-zA-Z]', ' ', no_punct).lower().split()`. */
  function LetterRuns(raw: string): seq<string> {
    Split(Lower(LettersOnly(StripPunctuation(raw))))
  }

  /** The words `clean_title` keeps: letter runs of two or more letters that
      are neither stop words nor "tonkatsu", in their original order. */
  function TitleWords(raw: string, stop: set<string>): seq<string> {
    DropStopWords(DropSingleLetters(LetterRuns(raw)), stop + {"tonkatsu"})
  }

  /** `clean_title(raw)` with the English stop-word list given as `stop`. */
  function CleanTitle(raw: string, stop: set<string>): string {
    Join(TitleWords(raw, stop))
  }

  /** Every letter run is a word of lower-case ASCII letters. */
  lemma LetterRunsWords(raw: string)
    ensures forall w :: w in LetterRuns(raw) ==> IsWord(w)
  {
    LowerLettersOnly(StripPunctuation(raw));
    SplitLowerText(Lower(LettersOnly(StripPunctuation(raw))));
  }

  /** The kept words are exactly the letter runs of two or more letters that
      are neither stop words nor "tonkatsu", each as often as it occurs, in
      their original order. */
  lemma TitleWordsSpec(raw: string, stop: set<string>)
    ensures forall w :: w in TitleWords(raw, stop) ==> IsWord(w) && |w| >= 2 && w !in stop && w != "tonkatsu"
    ensures forall w :: w in LetterRuns(raw) && |w| >= 2 && w !in stop && w != "tonkatsu" ==> w in TitleWords(raw, stop)
    ensures forall w ::
              multiset(TitleWords(raw, stop))[w] ==
              if |w| >= 2 && w !in stop && w != "tonkatsu" then multiset(LetterRuns(raw))[w] else 0
    ensures Subsequence(TitleWords(raw, stop), LetterRuns(raw))
  {
    var runs := LetterRuns(raw);
    var long := DropSingleLetters(runs);
    LetterRunsWords(raw);
    DropSingleLettersSpec(runs);
    DropStopWordsSpec(long, stop + {"tonkatsu"});
    SubsequenceTrans(TitleWords(raw, stop), long, runs);
    assert "" !in runs;
  }

  /** The cleaned title is lower-case ASCII letters and single spaces, with
      nothing at either end. */
  lemma CleanTitleText(raw: string, stop: set<string>)
    ensures LowerText(CleanTitle(raw, stop)) && SingleSpaced(CleanTitle(raw, stop))
  {
    TitleWordsSpec(raw, stop);
    JoinWordsText(TitleWords(raw, stop));
  }

  /** The words of the cleaned title are exactly the kept words. */
  lemma CleanTitleWords(raw: string, stop: set<string>)
    ensures Split(CleanTitle(raw, stop)) == TitleWords(raw, stop)
    ensures forall w :: w in Split(CleanTitle(raw, stop)) ==>
      IsWord(w) && |w| >= 2 && w !in stop && w != "tonkatsu"
  {
    TitleWordsSpec(raw, stop);
    JoinWordsSplit(TitleWords(raw, stop));
  }

  /** The kept words pass both filters again. */
  lemma TitleWordsKept(raw: string, stop: set<string>)
    ensures forall w :: w in TitleWords(raw, stop) ==> IsWord(w) && |w| != 1 && w !in stop + {"tonkatsu"}
  {
    var runs := LetterRuns(raw);
    LetterRunsWords(raw);
    DropSingleLettersSpec(runs);
    DropStopWordsSpec(DropSingleLetters(runs), stop + {"tonkatsu"});
  }

  /** Lower-case, space-separated text splits into its letter runs as it is. */
  lemma LowerTextRuns(s: string)
    requires LowerText(s)
    ensures LetterRuns(s) == Split(s)
  {
    LowerTextUnchanged(s);
    StripPunctuationKeeps(s);
  }

  /** Cleaning a cleaned title changes nothing, whatever the stop list. */
  lemma CleanTitleIdempotent(raw: string, stop: set<string>)
    ensures CleanTitle(CleanTitle(raw, stop), stop) == CleanTitle(raw, stop)
  {
    var ws := TitleWords(raw, stop);
    TitleWordsKept(raw, stop);
    JoinWordsText(ws);
    LowerTextRuns(Join(ws));
    JoinWordsSplit(ws);
    DropSingleLettersKeeps(ws);
    DropStopWordsKeeps(ws, stop + {"tonkatsu"});
  }

  /** A punctuation character is deleted without leaving a word break. */
  lemma PunctuationJoins(a: string, p: char, b: string, stop: set<string>)
    requires IsPunctuation(p)
    ensures CleanTitle(a + [p] + b, stop) == CleanTitle(a + b, stop)
  {
    StripPunctuationAppend(a + [p], b);
    StripPunctuationAppend(a, [p]);
    StripPunctuationAppend(a, b);
    assert StripPunctuation([p]) == [];
    assert StripPunctuation(a + [p] + b) == StripPunctuation(a + b);
  }

  /** Any other non-letter (digit, whitespace, non-ASCII) breaks words like a
      space does. */
  lemma OtherCharSeparates(a: string, c: char, b: string, stop: set<string>)
    requires !IsPunctuation(c) && !IsAsciiLetter(c)
    ensures CleanTitle(a + [c] + b, stop) == CleanTitle(a + " " + b, stop)
  {
    var x, y := StripPunctuation(a), StripPunctuation(b);
    StripPunctuationKeepsChar(a, c, b);
    StripPunctuationKeepsChar(a, ' ', b);
    assert a + [' '] + b == a + " " + b;
    LettersOnlyOther(x, c, y);
  }

  /** A title that is one run of ASCII letters: it comes out lower-cased, or
      empty when it is one letter long, a stop word or "tonkatsu". */
  lemma SingleWord(w: string, stop: set<string>)
    requires w != [] && forall i :: 0 <= i < |w| ==> IsAsciiLetter(w[i])
    ensures CleanTitle(w, stop) ==
      if |w| >= 2 && Lower(w) !in stop && Lower(w) != "tonkatsu" then Lower(w) else ""
  {
    var lw := Lower(w);
    assert LetterRuns(w) == [lw] by {
      LettersNoPunctuation(w);
      StripPunctuationKeeps(w);
      LetterRunSplit(w);
    }
    assert DropSingleLetters([lw]) == if |w| >= 2 then [lw] else [] by {
      assert [lw][1..] == [];
    }
  }

  /** The hyphen in "Ramen-San" is deleted without a word break. */
  lemma RamenSanHyphen(stop: set<string>)
    ensures CleanTitle("Ramen-San", stop) == CleanTitle("RamenSan", stop)
  {
    assert "Ramen-San" == "Ramen" + ['-'] + "San";
    PunctuationJoins("Ramen", '-', "San", stop);
    assert "Ramen" + "San" == "RamenSan";
  }

  lemma RamenSanWord(stop: set<string>)
    requires "ramensan" !in stop
    ensures CleanTitle("RamenSan", stop) == "ramensan"
  {
    var w := "RamenSan";
    assert Lower(w) == "ramensan";
    assert "ramensan" != "tonkatsu" by {
      assert "ramensan"[0] != "tonkatsu"[0];
    }
    assert forall i :: 0 <= i < |w| ==> IsAsciiLetter(w[i]);
    SingleWord(w, stop);
  }

  /** "Ramen-San" is cleaned to the one word "ramensan". */
  lemma RamenSanJoined(stop: set<string>)
    requires "ramensan" !in stop
    ensures CleanTitle("Ramen-San", stop) == "ramensan"
  {
    RamenSanHyphen(stop);
    RamenSanWord(stop);
  }

  /** The stop check sees the lower-cased word, so "The" is dropped. */
  lemma CapitalisedStopWord(stop: set<string>)
    requires "the" in stop
    ensures CleanTitle("The", stop) == ""
  {
    SingleWord("The", stop);
    assert Lower("The") == "the";
  }

  // ---------------------------------------------------------------------------
  // filt_subs

  /** One row of the labelled data file. */
  datatype Row = Row(title: string, actual: Bit, sub: string)

  /** `raw_data[raw_data["sub"].isin(subs)]`: the rows from the listed
      sub-reddits, each as often as it occurs, in their original order. */
  function FilterSubs(rows: seq<Row>, subs: seq<string>): (r: seq<Row>)
    ensures forall x :: x in r <==> x in rows && x.sub in subs
    ensures forall x :: multiset(r)[x] == if x.sub in subs then multiset(rows)[x] else 0
    ensures Subsequence(r, rows)
  {
    if rows == [] then []
    else
      var rest := FilterSubs(rows[1..], subs);
      assert rows == [rows[0]] + rows[1..];
      if rows[0].sub in subs then [rows[0]] + rest else rest
  }

  // ---------------------------------------------------------------------------
  // main: the data-file check and the titles loop

  /** The `titles` loop of `main`: the cleaned title of every row, in order. */
  method CleanTitles(rows: seq<Row>, stop: set<string>) returns (titles: seq<string>)
    ensures |titles| == |rows|
    ensures forall i :: 0 <= i < |rows| ==> titles[i] == CleanTitle(rows[i].title, stop)
  {
    titles := [];
    var i := 0;
    while i < |rows|
      invariant 0 <= i <= |rows|
      invariant |titles| == i
      invariant forall j :: 0 <= j < i ==> titles[j] == CleanTitle(rows[j].title, stop)
    {
      titles := titles + [CleanTitle(rows[i].title, stop)];
      i := i + 1;
    }
  }

  /** The training input that `main` hands to the splitter. */
  datatype Corpus = Corpus(titles: seq<string>, labels: seq<Bit>)

  function DataFileMissing(path: string): string {
    "Data file \"" + path + "\" not found."
  }

  /** `main` up to `train_test_split`: the data file must exist, else the
      script stops with status 1 before reading anything; then the rows of the
      listed sub-reddits are kept and their titles cleaned. `present` is the set
      of existing files and `rows` what the data file parses to. */
  method Prepare(dataFile: string, present: set<string>, rows: seq<Row>, subList: string, stop: set<string>)
    returns (r: Result<Corpus, Exit>)
    ensures r.Failure? <==> dataFile !in present
    ensures r.Failure? ==> r.error == Exit(1, DataFileMissing(dataFile))
    ensures r.Success? ==>
      var kept := FilterSubs(rows, SplitOn(subList, ','));
      && |r.value.titles| == |r.value.labels| == |kept|
      && (forall i :: 0 <= i < |kept| ==> r.value.titles[i] == CleanTitle(kept[i].title, stop))
      && (forall i :: 0 <= i < |kept| ==> r.value.labels[i] == kept[i].actual)
  {
    if dataFile !in present {
      return Failure(Exit(1, DataFileMissing(dataFile)));
    }
    var subs := SplitOn(subList, ',');
    var kept := FilterSubs(rows, subs);
    var titles := CleanTitles(kept, stop);
    var labels := seq(|kept|, i requires 0 <= i < |kept| => kept[i].actual);
    r := Success(Corpus(titles, labels));
  }

  // ---------------------------------------------------------------------------
  // write_test_data

  /** One held-out example: its index in the filtered frame and its label. */
  datatype Held = Held(index: nat, actual: Bit)

  const TestHeader: string := "Actual\tPredicted\tTitle"

  function TestLine(actual: Bit, pred: Bit, title: string): string {
    BitText(actual) + "\t" + BitText(pred) + "\t" + title
  }

  /** What the caller of `write_test_data` guarantees: one prediction per held
      example and every index a row of the frame. */
  predicate TestDataFits(held: seq<Held>, preds: seq<Bit>, titles: seq<string>) {
    |preds| == |held| && forall k :: 0 <= k < |held| ==> held[k].index < |titles|
  }

  function TestLines(held: seq<Held>, preds: seq<Bit>, titles: seq<string>): (ls: seq<string>)
    requires TestDataFits(held, preds, titles)
    ensures |ls| == |held|
  {
    seq(|held|, k requires 0 <= k < |held| => TestLine(held[k].actual, preds[k], titles[held[k].index]))
  }

  /** `write_test_data`: opens the file for appending, writes the header, then
      for the i-th held example its label, the i-th prediction and its title. */
  method WriteTestData(file: string, held: seq<Held>, preds: seq<Bit>, titles: seq<string>)
    returns (text: string)
    requires TestDataFits(held, preds, titles)
    ensures text == file + TestHeader + "\n" + Terminated(TestLines(held, preds, titles))
  {
    text := file + TestHeader + "\n";
    ghost var head := text;
    var i := 0;
    while i < |held|
      invariant 0 <= i <= |held|
      invariant text == head + Terminated(TestLines(held, preds, titles)[..i])
    {
      var line := TestLine(held[i].actual, preds[i], titles[held[i].index]);
      TerminatedNext(head, TestLines(held, preds, titles), i);
      text := text + line + "\n";
      i := i + 1;
    }
    assert TestLines(held, preds, titles)[..|held|] == TestLines(held, preds, titles);
  }

  /** A test line with its newline splits on tabs into the label, the
      prediction and the title with the newline attached. */
  lemma TestLineFields(actual: Bit, pred: Bit, title: string)
    requires Excludes(title, '\t')
    ensures SplitOn(TestLine(actual, pred, title) + "\n", '\t')
      == [BitText(actual), BitText(pred), title + "\n"]
  {
    var fields := [BitText(actual), BitText(pred), title + "\n"];
    assert TestLine(actual, pred, title) + "\n" == JoinWith(fields, '\t') by {
      assert fields[1..] == [BitText(pred), title + "\n"];
      assert fields[1..][1..] == [title + "\n"];
      assert JoinWith(fields[1..][1..], '\t') == title + "\n";
      assert JoinWith(fields[1..], '\t') == BitText(pred) + ['\t'] + (title + "\n");
      assert JoinWith(fields, '\t') == BitText(actual) + ['\t'] + (BitText(pred) + ['\t'] + (title + "\n"));
    }
    assert forall p :: p in fields ==> Excludes(p, '\t');
    SplitOnJoinWith(fields, '\t');
  }

  lemma TestHeaderOneLine()
    ensures Excludes(TestHeader, '\n')
  {
  }

  lemma TestLineOneLine(actual: Bit, pred: Bit, title: string)
    requires Excludes(title, '\n')
    ensures Excludes(TestLine(actual, pred, title), '\n')
  {
    var a, p := BitText(actual), BitText(pred);
    assert TestLine(actual, pred, title) == a + "\t" + p + "\t" + title;
    forall i | 0 <= i < |a + "\t" + p + "\t" + title| ensures (a + "\t" + p + "\t" + title)[i] != '\n' {
      if i >= |a + "\t" + p + "\t"| {
        assert (a + "\t" + p + "\t" + title)[i] == title[i - 4];
      }
    }
  }

  /** The text after the header splits on newlines into the header, the test
      lines and a final empty piece. */
  lemma TestTextLines(held: seq<Held>, preds: seq<Bit>, titles: seq<string>)
    requires TestDataFits(held, preds, titles)
    requires forall t :: t in titles ==> Excludes(t, '\n')
    ensures SplitOn(TestHeader + "\n" + Terminated(TestLines(held, preds, titles)), '\n')
      == [TestHeader] + TestLines(held, preds, titles) + [""]
  {
    var ls := TestLines(held, preds, titles);
    var rest := ls + [""];
    var parts := [TestHeader] + rest;
    assert TestHeader + "\n" + Terminated(ls) == JoinWith(parts, '\n') by {
      TerminatedIsJoin(ls);
      assert parts[0] == TestHeader && parts[1..] == rest;
    }
    assert forall p :: p in parts ==> Excludes(p, '\n') by {
      TestHeaderOneLine();
      forall k | 0 <= k < |ls| ensures Excludes(ls[k], '\n') {
        assert titles[held[k].index] in titles;
        TestLineOneLine(held[k].actual, preds[k], titles[held[k].index]);
      }
    }
    assert [TestHeader] + ls + [""] == parts;
    SplitOnJoinWith(parts, '\n');
  }

  /** The prediction test reads the file back: after the header, line k split
      on tabs gives the k-th label, the k-th prediction (field 1) and the title
      with the line's newline (field 2); the text ends with a newline. */
  lemma TestDataReadBack(held: seq<Held>, preds: seq<Bit>, titles: seq<string>, k: nat)
    requires TestDataFits(held, preds, titles) && k < |held|
    requires forall t :: t in titles ==> Excludes(t, '\t') && Excludes(t, '\n')
    ensures var lines := SplitOn(TestHeader + "\n" + Terminated(TestLines(held, preds, titles)), '\n');
      && |lines| == |held| + 2
      && lines[0] == TestHeader
      && lines[|held| + 1] == ""
      && SplitOn(lines[k + 1] + "\n", '\t')
         == [BitText(held[k].actual), BitText(preds[k]), titles[held[k].index] + "\n"]
  {
    var ls := TestLines(held, preds, titles);
    TestTextLines(held, preds, titles);
    var t := titles[held[k].index];
    assert t in titles;
    assert ([TestHeader] + ls + [""])[k + 1] == ls[k] == TestLine(held[k].actual, preds[k], t);
    TestLineFields(held[k].actual, preds[k], t);
  }
}
