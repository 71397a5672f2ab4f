/** The bot's history log (bot/bot.py): `save_id` appends one tab-separated
    record per line, `get_history` reads the file back into a map from post id
    to the prediction as it was written. */
module History {
  import opened Common
  import opened Text

  /** The five fields `save_id` writes, each already formatted as text. */
  datatype Record = Record(postId: string, pred: string, act: string, sub: string, title: string)

  /** The printed record, without the newline `print` adds. */
  function RecordLine(r: Record): string {
    r.postId + "\t" + r.pred + "\t" + r.act + "\t" + r.sub + "\t" + r.title
  }

  /** What `save_id` appends to the id file: the record and a newline. */
  function SavedLine(r: Record): string {
    RecordLine(r) + "\n"
  }

  predicate CleanField(f: string) {
    Excludes(f, '\t') && NoLineBreak(f)
  }

  /** No field holds a tab or a line break. */
  predicate Clean(r: Record) {
    CleanField(r.postId) && CleanField(r.pred) && CleanField(r.act) && CleanField(r.sub) && CleanField(r.title)
  }

  /** `post_id, pred, _, _, _ = line.split('\t')`: the id and the prediction,
      or nothing when the line does not have exactly five fields. */
  function ParseRecord(line: string): (r: Option<(string, string)>)
    ensures r.Some? <==> Count(line, '\t') == 4
  {
    var fields := SplitOn(line, '\t');
    if |fields| == 5 then Some((fields[0], fields[1])) else None
  }

  /** The map built so far, or the first line that could not be unpacked. */
  type Parsed = Result<map<string, string>, string>

  /** One turn of the loop of `get_history`: a blank line is skipped, a line
      of five fields sets its id to its prediction, anything else stops the
      reading. */
  function Step(acc: Parsed, line: string): Parsed {
    if acc.Failure? || line == "" then acc
    else match ParseRecord(line)
      case None => Failure(line)
      case Some((id, pred)) => Success(acc.value[id := pred])
  }

  function ParseLines(lines: seq<string>): Parsed {
    if lines == [] then Success(map[])
    else Step(ParseLines(lines[..|lines| - 1]), lines[|lines| - 1])
  }

  lemma ParseLinesSnoc(lines: seq<string>, l: string)
    ensures ParseLines(lines + [l]) == Step(ParseLines(lines), l)
  {
    assert (lines + [l])[..|lines|] == lines;
  }

  /** `get_history` on the text of the id file. */
  function ParseHistory(text: string): Parsed {
    ParseLines(SplitLines(text))
  }

  /** `get_history`: the loop over the lines of the file. */
  method GetHistory(text: string) returns (r: Parsed)
    ensures r == ParseHistory(text)
  {
    var lines := SplitLines(text);
    var m: map<string, string> := map[];
    var i := 0;
    while i < |lines|
      invariant 0 <= i <= |lines|
      invariant ParseLines(lines[..i]) == Success(m)
    {
      var line := lines[i];
      assert lines[..i + 1][..i] == lines[..i];
      if line != "" {
        var fields := SplitOn(line, '\t');
        if |fields| != 5 {
          FailurePersists(lines[..i + 1], lines[i + 1..]);
          assert lines[..i + 1] + lines[i + 1..] == lines;
          return Failure(line);
        }
        m := m[fields[0] := fields[1]];
      }
      i := i + 1;
    }
    assert lines[..|lines|] == lines;
    r := Success(m);
  }

  /** Once a line cannot be unpacked, no later line changes the outcome. */
  lemma {:induction false} FailurePersists(a: seq<string>, b: seq<string>)
    requires ParseLines(a).Failure?
    ensures ParseLines(a + b) == ParseLines(a)
    decreases |b|
  {
    if b == [] {
      assert a + b == a;
    } else {
      var init := b[..|b| - 1];
      FailurePersists(a, init);
      assert (a + b)[..|a + b| - 1] == a + init;
    }
  }

  /** The printed record is its fields joined with tabs. */
  lemma RecordLineFields(r: Record)
    ensures RecordLine(r) == JoinWith([r.postId, r.pred, r.act, r.sub, r.title], '\t')
  {
    var fs := [r.postId, r.pred, r.act, r.sub, r.title];
    assert JoinWith(fs[4..], '\t') == r.title;
    assert fs[3..][1..] == fs[4..];
    assert JoinWith(fs[3..], '\t') == r.sub + "\t" + r.title;
    assert fs[2..][1..] == fs[3..];
    assert JoinWith(fs[2..], '\t') == r.act + "\t" + r.sub + "\t" + r.title;
    assert fs[1..][1..] == fs[2..];
    assert JoinWith(fs[1..], '\t') == r.pred + "\t" + r.act + "\t" + r.sub + "\t" + r.title;
  }

  /** A record with clean fields reads back as its id and its prediction. */
  lemma RecordRoundTrip(r: Record)
    requires Clean(r)
    ensures ParseRecord(RecordLine(r)) == Some((r.postId, r.pred))
    ensures RecordLine(r) != "" && NoLineBreak(RecordLine(r))
  {
    var fs := [r.postId, r.pred, r.act, r.sub, r.title];
    RecordLineFields(r);
    assert forall f :: f in fs ==> Excludes(f, '\t');
    SplitOnJoinWith(fs, '\t');
    assert NoLineBreak(RecordLine(r)) by {
      assert NoLineBreak("\t");
      NoLineBreakAppend(r.postId, "\t");
      NoLineBreakAppend(r.postId + "\t", r.pred);
      NoLineBreakAppend(r.postId + "\t" + r.pred, "\t");
      NoLineBreakAppend(r.postId + "\t" + r.pred + "\t", r.act);
      NoLineBreakAppend(r.postId + "\t" + r.pred + "\t" + r.act, "\t");
      NoLineBreakAppend(r.postId + "\t" + r.pred + "\t" + r.act + "\t", r.sub);
      NoLineBreakAppend(r.postId + "\t" + r.pred + "\t" + r.act + "\t" + r.sub, "\t");
      NoLineBreakAppend(r.postId + "\t" + r.pred + "\t" + r.act + "\t" + r.sub + "\t", r.title);
    }
  }

  /** Appending a record to a file that ends with a newline: the history maps
      the record's id to its prediction and keeps every other entry, or stays
      the error it was. */
  lemma HistoryAppend(text: string, r: Record)
    requires EndsLine(text) && Clean(r)
    ensures ParseHistory(text + RecordLine(r) + "\n") ==
      if ParseHistory(text).Success? then Success(ParseHistory(text).value[r.postId := r.pred])
      else ParseHistory(text)
  {
    RecordRoundTrip(r);
    SplitLinesAppendLine(text, RecordLine(r));
    ParseLinesSnoc(SplitLines(text), RecordLine(r));
  }

  /** Two saved records, one after the other: the history maps the first
      id, then the second, and keeps every other entry. */
  lemma HistoryAppendTwo(text: string, r0: Record, r1: Record, log: string)
    requires EndsLine(text) && ParseHistory(text).Success? && Clean(r0) && Clean(r1)
    requires log == SavedLine(r0) + SavedLine(r1)
    ensures ParseHistory(text + log)
         == Success(ParseHistory(text).value[r0.postId := r0.pred][r1.postId := r1.pred])
  {
    var t1 := text + SavedLine(r0);
    HistorySaved(text, r0);
    HistorySaved(t1, r1);
    AppendAssoc(text, SavedLine(r0), SavedLine(r1));
  }

  /** `HistoryAppend` for the line as `save_id` writes it; the text it leaves
      ends with a newline. */
  lemma HistorySaved(text: string, r: Record)
    requires EndsLine(text) && Clean(r)
    ensures ParseHistory(text + SavedLine(r)) ==
      if ParseHistory(text).Success? then Success(ParseHistory(text).value[r.postId := r.pred])
      else ParseHistory(text)
    ensures EndsLine(text + SavedLine(r))
  {
    HistoryAppend(text, r);
    assert text + SavedLine(r) == text + RecordLine(r) + "\n";
  }

  /** A blank line in the file changes nothing. */
  lemma BlankLineIgnored(text: string)
    requires EndsLine(text)
    ensures ParseHistory(text + "\n") == ParseHistory(text)
  {
    SplitLinesAppendLine(text, "");
    assert text + "" + "\n" == text + "\n";
    ParseLinesSnoc(SplitLines(text), "");
  }

  /** A line whose title holds a tab has more than five fields. */
  lemma TabLineRejected(r: Record)
    requires CleanField(r.postId) && CleanField(r.pred) && CleanField(r.act) && CleanField(r.sub)
    requires NoLineBreak(r.title) && !Excludes(r.title, '\t')
    ensures RecordLine(r) != "" && NoLineBreak(RecordLine(r)) && ParseRecord(RecordLine(r)).None?
  {
    var clean := Record(r.postId, r.pred, r.act, r.sub, "");
    RecordRoundTrip(clean);
    assert RecordLine(r) == RecordLine(clean) + r.title;
    CountAppend(RecordLine(clean), r.title, '\t');
    CountExcludes(r.title, '\t');
    NoLineBreakAppend(RecordLine(clean), r.title);
  }

  /** A title holding a tab gives the line more than five fields: from then on
      the history cannot be read at all. */
  lemma TabInTitleBreaks(text: string, r: Record)
    requires EndsLine(text)
    requires CleanField(r.postId) && CleanField(r.pred) && CleanField(r.act) && CleanField(r.sub)
    requires NoLineBreak(r.title) && !Excludes(r.title, '\t')
    ensures ParseHistory(text + RecordLine(r) + "\n").Failure?
  {
    TabLineRejected(r);
    SplitLinesAppendLine(text, RecordLine(r));
    ParseLinesSnoc(SplitLines(text), RecordLine(r));
  }

  /** A file holding one clean record maps its id to its prediction. */
  lemma SingleRecordFile(r: Record)
    requires Clean(r)
    ensures ParseHistory(RecordLine(r) + "\n") == Success(map[r.postId := r.pred])
  {
    assert ParseHistory("") == Success(map[]);
    HistoryAppend("", r);
    assert "" + RecordLine(r) + "\n" == RecordLine(r) + "\n";
  }

  /** The record the bot writes for a post titled "Tonkatsu Ramen" in r/food,
      predicted and acted on as 1, reads back as that post's prediction "1". */
  lemma ExampleRecord()
    ensures var r := Record("post123", "1", "1", "food", "Tonkatsu Ramen");
      ParseHistory(RecordLine(r) + "\n") == Success(map["post123" := "1"])
  {
    var r := Record("post123", "1", "1", "food", "Tonkatsu Ramen");
    assert CleanField("Tonkatsu Ramen");
    assert CleanField("post123");
    SingleRecordFile(r);
  }
}
