/** The decisions of a bot run (bot/bot.py) as pure rules over plain records:
    which post is investigated, what is done about it, how a summons is
    answered, which comments are deleted, and the start-up file check. */
module BotRules {
  import opened Common
  import opened Text
  import opened History

  /** A submission: `post.id`, `post.title`, `post.subreddit.display_name`,
      `post.permalink`. */
  datatype Post = Post(id: string, title: string, sub: string, permalink: string)

  /** A username mention in the inbox. */
  datatype Mention = Mention(id: string, author: string, parentId: string, sub: string, context: string, body: string)

  /** A comment, with the author of the submission it belongs to (`None` for
      a deleted account). */
  datatype Comment = Comment(id: string, author: string, score: int, postAuthor: Option<string>)

  /** A private message (`None` as author for a message from no user). */
  datatype Message = Message(subject: string, body: string, author: Option<string>)

  // ---------------------------------------------------------------------------
  // investigate

  /** A post is looked at when its lower-cased title mentions "tonkatsu" and
      its id is not in the history. */
  predicate IsCandidate(p: Post, hist: map<string, string>) {
    Contains(Lower(p.title), "tonkatsu") && p.id !in hist
  }

  /** The one post `investigate` handles before its `break`: the first
      candidate, if any. */
  function FirstCandidate(posts: seq<Post>, hist: map<string, string>): (r: Option<nat>)
    ensures r.None? <==> forall i :: 0 <= i < |posts| ==> !IsCandidate(posts[i], hist)
    ensures r.Some? ==>
      && r.value < |posts| && IsCandidate(posts[r.value], hist)
      && forall i :: 0 <= i < r.value ==> !IsCandidate(posts[i], hist)
  {
    if posts == [] then None
    else if IsCandidate(posts[0], hist) then Some(0)
    else match FirstCandidate(posts[1..], hist)
      case None => None
      case Some(k) => Some(k + 1)
  }

  const CommentedMsg: string := "Commented on post"
  const UnauthorizedMsg: string := "Predicted as incorrect, unauthorized sub"
  const CorrectMsg: string := "Post predicted as correct"

  /** What is done about a candidate and what the bot reports. */
  datatype Verdict = Verdict(act: Bit, msg: string)

  /** `act` starts as the prediction and is cleared outside the allow-list. */
  function Decide(pred: Bit, sub: string, subs: seq<string>): (v: Verdict)
    ensures v.act == 1 <==> pred == 1 && sub in subs
  {
    if pred == 1 then
      if sub in subs then Verdict(1, CommentedMsg) else Verdict(0, UnauthorizedMsg)
    else Verdict(0, CorrectMsg)
  }

  /** Each of the three messages names exactly one case, so the report tells
      the prediction and the allow-list outcome apart. */
  lemma DecideMessages(pred: Bit, sub: string, subs: seq<string>)
    ensures Decide(pred, sub, subs).msg == CommentedMsg <==> Decide(pred, sub, subs).act == 1
    ensures Decide(pred, sub, subs).msg == UnauthorizedMsg <==> pred == 1 && sub !in subs
    ensures Decide(pred, sub, subs).msg == CorrectMsg <==> pred == 0
  {
    assert CommentedMsg[0] != UnauthorizedMsg[0] && CommentedMsg[0] != CorrectMsg[0];
    assert UnauthorizedMsg[1] != CorrectMsg[1];
  }

  /** The record `react_to_post` saves: the prediction and `act` printed as
      integers. */
  function PostRecord(p: Post, pred: Bit, act: Bit): Record {
    Record(p.id, BitText(pred), BitText(act), p.sub, p.title)
  }

  /** The notification `investigate` sends. */
  function PostNote(msg: string, p: Post): string {
    msg + ": [" + p.id + "](" + p.permalink + ")\n\"" + p.title + "\""
  }

  /** Once the record of a handled post is in a readable history, the post is
      no candidate any more: a later run leaves it alone. */
  lemma HandledPostSkipped(text: string, p: Post, pred: Bit, act: Bit)
    requires EndsLine(text) && ParseHistory(text).Success?
    requires Clean(PostRecord(p, pred, act))
    ensures ParseHistory(text + RecordLine(PostRecord(p, pred, act)) + "\n").Success?
    ensures !IsCandidate(p, ParseHistory(text + RecordLine(PostRecord(p, pred, act)) + "\n").value)
  {
    HistoryAppend(text, PostRecord(p, pred, act));
  }

  // ---------------------------------------------------------------------------
  // check_summons and react_to_summon

  /** `parent_id[3:]`: the id without its "t3_" or "t1_" kind prefix. */
  function SummonPostId(parentId: string): (r: string)
    ensures |parentId| >= 3 ==> parentId == parentId[..3] + r
    ensures |parentId| <= 3 ==> r == ""
  {
    DropPrefix(parentId, 3)
  }

  /** The bot comments on the post and thanks the summoner only for a summons
      under a submission and outside r/food. */
  predicate RepliesToSummon(parentId: string, sub: string) {
    Contains(parentId, "t3_") && sub != "food"
  }

  /** A summons from a comment thread ("t1_") is never answered. */
  lemma CommentSummonIgnored(rest: string, sub: string)
    requires !Contains(rest, "t3_")
    ensures !RepliesToSummon("t1_" + rest, sub)
  {
    var s := "t1_" + rest;
    assert s[1] == '1' && s[2] == '_';
    assert s[1..][0] == '1' && s[2..][0] == '_';
    assert s[1..][1..] == s[2..] && s[2..][1..] == s[3..] && s[3..] == rest;
    assert !Contains(s[2..], "t3_");
    assert !Contains(s[1..], "t3_");
  }

  /** The two records `react_to_summon` saves, the parent id first. */
  function SummonRecords(m: Mention): (rs: seq<Record>)
    ensures |rs| == 2 && rs[0].postId == m.parentId && rs[1].postId == SummonPostId(m.parentId)
    ensures forall r :: r in rs ==> r.pred == "s" && r.sub == m.sub && r.title == "NA"
  {
    [Record(m.parentId, "s", "1", m.sub, "NA"), Record(SummonPostId(m.parentId), "s", "NA", m.sub, "NA")]
  }

  function ThankYou(summoner: string): string {
    "Thank you /u/" + summoner + " for the tip!"
  }

  /** The state of the mention scan: the mentions reacted to so far and
      whether the scan has stopped. */
  datatype Scan = Scan(handled: seq<Mention>, stopped: bool)

  /** One turn of the loop of `check_summons` against the history read when
      the scan began. A mention whose parent is already recorded is skipped.
      One whose post id is recorded stops the scan: the stored prediction is a
      string, and a string is never equal to the integer 0. */
  function ScanStep(s: Scan, m: Mention, hist: map<string, string>): Scan {
    if s.stopped || m.parentId in hist then s
    else if SummonPostId(m.parentId) in hist then Scan(s.handled, true)
    else Scan(s.handled + [m], false)
  }

  function SummonScan(ms: seq<Mention>, hist: map<string, string>): Scan {
    if ms == [] then Scan([], false)
    else ScanStep(SummonScan(ms[..|ms| - 1], hist), ms[|ms| - 1], hist)
  }

  /** Once the scan of a prefix has stopped, the rest of the list is not looked at. */
  lemma SummonScanStopped(ms: seq<Mention>, i: nat, hist: map<string, string>)
    requires i <= |ms| && SummonScan(ms[..i], hist).stopped
    ensures SummonScan(ms, hist) == SummonScan(ms[..i], hist)
  {
    StoppedScanStays(ms[..i], ms[i..], hist);
    assert ms[..i] + ms[i..] == ms;
  }

  /** The scan of one more mention of the same list. */
  lemma SummonScanNext(ms: seq<Mention>, i: nat, hist: map<string, string>)
    requires i < |ms|
    ensures SummonScan(ms[..i + 1], hist) == ScanStep(SummonScan(ms[..i], hist), ms[i], hist)
  {
    assert ms[..i + 1][..i] == ms[..i];
  }

  /** Once stopped, the scan ignores every later mention. */
  lemma {:induction false} StoppedScanStays(a: seq<Mention>, b: seq<Mention>, hist: map<string, string>)
    requires SummonScan(a, hist).stopped
    ensures SummonScan(a + b, hist) == SummonScan(a, hist)
    decreases |b|
  {
    if b == [] {
      assert a + b == a;
    } else {
      StoppedScanStays(a, b[..|b| - 1], hist);
      assert (a + b)[..|a + b| - 1] == a + b[..|b| - 1];
    }
  }

  /** The mentions reacted to are mentions of the scan, in order, and neither
      their parent nor their post was in the history. */
  lemma {:induction false} SummonScanHandled(ms: seq<Mention>, hist: map<string, string>)
    ensures Subsequence(SummonScan(ms, hist).handled, ms)
    ensures forall m :: m in SummonScan(ms, hist).handled ==>
      m.parentId !in hist && SummonPostId(m.parentId) !in hist
    decreases |ms|
  {
    if ms != [] {
      var init, last := ms[..|ms| - 1], ms[|ms| - 1];
      var before := SummonScan(init, hist);
      SummonScanHandled(init, hist);
      assert ms == init + [last];
      if before.stopped || last.parentId in hist || SummonPostId(last.parentId) in hist {
        SubsequenceExtend(before.handled, init, last);
      } else {
        SubsequenceSnoc(before.handled, init, last);
      }
    }
  }

  /** With no summons under an already recorded post, exactly the mentions
      whose parent is new are reacted to. */
  lemma {:induction false} SummonScanNoStop(ms: seq<Mention>, hist: map<string, string>)
    requires forall m :: m in ms && m.parentId !in hist ==> SummonPostId(m.parentId) !in hist
    ensures !SummonScan(ms, hist).stopped
    ensures forall m :: m in SummonScan(ms, hist).handled <==> m in ms && m.parentId !in hist
    decreases |ms|
  {
    if ms != [] {
      var init := ms[..|ms| - 1];
      assert forall m :: m in init ==> m in ms;
      SummonScanNoStop(init, hist);
      assert ms == init + [ms[|ms| - 1]];
    }
  }

  /** The length of the run of ASCII digits at the front of `s`. */
  function DigitRun(s: string): (n: nat)
    ensures n <= |s|
    ensures forall i :: 0 <= i < n ==> IsDigit(s[i])
    ensures n < |s| ==> !IsDigit(s[n])
  {
    if s == [] || !IsDigit(s[0]) then 0 else 1 + DigitRun(s[1..])
  }

  predicate IsDigit(c: char) { '0' <= c <= '9' }

  const ContextKey: string := "?context="

  /** `re.sub(r'[?]context=\d+', '', s)`: left to right, every "?context="
      followed by one or more digits is removed together with all of those
      digits; everything else is copied. */
  function StripContext(s: string): (r: string)
    ensures |r| <= |s|
    decreases |s|
  {
    if s == [] then ""
    else if s[0] == '?' && StartsWith(s, ContextKey) && DigitRun(s[|ContextKey|..]) > 0 then
      StripContext(s[|ContextKey| + DigitRun(s[|ContextKey|..])..])
    else [s[0]] + StripContext(s[1..])
  }

  /** A character other than '?' is copied. */
  lemma StripContextCopies(s: string)
    requires s != [] && s[0] != '?'
    ensures StripContext(s) == [s[0]] + StripContext(s[1..])
  {
    assert !StartsWith(s, ContextKey) by {
      if |s| >= |ContextKey| { assert ContextKey[0] == '?'; }
    }
  }

  /** Text without a question mark is copied unchanged in front of whatever
      follows. */
  lemma {:induction false} StripContextPlain(a: string, b: string)
    requires Excludes(a, '?')
    ensures StripContext(a + b) == a + StripContext(b)
    decreases |a|
  {
    if a == [] {
      assert a + b == b;
    } else {
      var s := a + b;
      assert s[0] == a[0] && s[1..] == a[1..] + b;
      StripContextCopies(s);
      StripContextPlain(a[1..], b);
      assert [a[0]] + a[1..] == a;
    }
  }

  /** The context query alone is removed entirely. */
  lemma ContextQueryRemoved(digits: string)
    requires digits != [] && forall i :: 0 <= i < |digits| ==> IsDigit(digits[i])
    ensures StripContext(ContextKey + digits) == ""
  {
    var q := ContextKey + digits;
    assert q[|ContextKey|..] == digits;
    DigitRunAll(digits);
    assert StartsWith(q, ContextKey) by {
      assert q[..|ContextKey|] == ContextKey;
    }
    assert q[|ContextKey| + |digits|..] == [];
  }

  /** A mention is reported under its permalink:
      `re.sub(r'[?]context=\d+', '', context)` removes exactly the context
      query the inbox adds to a link without a question mark. */
  lemma ContextStripped(link: string, digits: string)
    requires Excludes(link, '?')
    requires digits != [] && forall i :: 0 <= i < |digits| ==> IsDigit(digits[i])
    ensures StripContext(link + ContextKey + digits) == link
  {
    ContextQueryRemoved(digits);
    StripContextBefore(link, ContextKey, digits);
  }

  /** Text without a question mark followed by text that is removed entirely
      comes out as the first text. */
  lemma StripContextBefore(a: string, b: string, c: string)
    requires Excludes(a, '?') && StripContext(b + c) == ""
    ensures StripContext(a + b + c) == a
  {
    StripContextPlain(a, b + c);
    assert a + b + c == a + (b + c);
    assert a + [] == a;
  }

  lemma {:induction false} DigitRunAll(s: string)
    requires forall i :: 0 <= i < |s| ==> IsDigit(s[i])
    ensures DigitRun(s) == |s|
    decreases |s|
  {
    if s != [] {
      DigitRunAll(s[1..]);
    }
  }

  /** The notification `check_summons` sends. */
  function SummonNote(m: Mention): string {
    "Summon found: [" + m.id + "](" + StripContext(m.context) + ")\n\n\"" + m.body + "\""
  }

  // ---------------------------------------------------------------------------
  // purge and delete_comment

  /** The bot's comments with a score below -1, in order. */
  function Downvoted(cs: seq<Comment>): (r: seq<Comment>)
    ensures |r| <= |cs|
  {
    if cs == [] then []
    else Downvoted(cs[..|cs| - 1]) + (if cs[|cs| - 1].score < -1 then [cs[|cs| - 1]] else [])
  }

  /** Exactly the comments scored below -1 are deleted, in their order. */
  lemma {:induction false} DownvotedSpec(cs: seq<Comment>)
    ensures forall c :: c in Downvoted(cs) <==> c in cs && c.score < -1
    ensures Subsequence(Downvoted(cs), cs)
    decreases |cs|
  {
    if cs != [] {
      var init, last := cs[..|cs| - 1], cs[|cs| - 1];
      DownvotedSpec(init);
      assert cs == init + [last];
      if last.score < -1 {
        SubsequenceSnoc(Downvoted(init), init, last);
      } else {
        assert Downvoted(cs) == Downvoted(init) + [];
        assert Downvoted(init) + [] == Downvoted(init);
        SubsequenceExtend(Downvoted(init), init, last);
      }
    }
  }

  /** `parent.author == message.author`: praw compares two redditors by name,
      ignoring case; a redditor never equals `None`, and `None == None`. */
  predicate SameAuthor(a: Option<string>, b: Option<string>) {
    if a.Some? && b.Some? then Lower(a.value) == Lower(b.value) else a.None? && b.None?
  }

  /** `r.comment(id=...)`: the comment carries the id it was asked for; an id
      Reddit does not know makes the lookup of its submission fail. */
  function Fetch(world: map<string, Comment>, id: string): (r: Option<Comment>)
    ensures r.Some? <==> id in world
    ensures r.Some? ==> r.value.id == id
  {
    if id in world then Some(world[id].(id := id)) else None
  }

  /** The comments the message scan of `purge` deletes so far, and the body of
      the request whose comment could not be fetched, if the scan failed. */
  datatype Requests = Requests(todo: seq<Comment>, failed: Option<string>)

  /** One turn of the message scan against the deleted list read when the
      purge began: anything but a "deletion" request is passed over; an
      already deleted comment is passed over; otherwise the comment is deleted
      when the sender wrote the submission it belongs to. */
  function RequestStep(s: Requests, msg: Message, world: map<string, Comment>, deleted: seq<string>): Requests {
    if s.failed.Some? || msg.subject != "deletion" then s
    else match Fetch(world, msg.body)
      case None => Requests(s.todo, Some(msg.body))
      case Some(c) =>
        if c.id in deleted || !SameAuthor(c.postAuthor, msg.author) then s
        else Requests(s.todo + [c], None)
  }

  function RequestScan(msgs: seq<Message>, world: map<string, Comment>, deleted: seq<string>): Requests {
    if msgs == [] then Requests([], None)
    else RequestStep(RequestScan(msgs[..|msgs| - 1], world, deleted), msgs[|msgs| - 1], world, deleted)
  }

  /** The scan of one more message of the same list. */
  lemma RequestScanNext(msgs: seq<Message>, j: nat, world: map<string, Comment>, deleted: seq<string>)
    requires j < |msgs|
    ensures RequestScan(msgs[..j + 1], world, deleted) == RequestStep(RequestScan(msgs[..j], world, deleted), msgs[j], world, deleted)
  {
    assert msgs[..j + 1][..j] == msgs[..j];
  }

  /** Once the scan of a prefix has failed, the rest of the list is not looked at. */
  lemma RequestScanFailed(msgs: seq<Message>, j: nat, world: map<string, Comment>, deleted: seq<string>)
    requires j <= |msgs| && RequestScan(msgs[..j], world, deleted).failed.Some?
    ensures RequestScan(msgs, world, deleted) == RequestScan(msgs[..j], world, deleted)
  {
    FailedScanStays(msgs[..j], msgs[j..], world, deleted);
    assert msgs[..j] + msgs[j..] == msgs;
  }

  /** Once a lookup failed, the scan is over. */
  lemma {:induction false} FailedScanStays(a: seq<Message>, b: seq<Message>, world: map<string, Comment>, deleted: seq<string>)
    requires RequestScan(a, world, deleted).failed.Some?
    ensures RequestScan(a + b, world, deleted) == RequestScan(a, world, deleted)
    decreases |b|
  {
    if b == [] {
      assert a + b == a;
    } else {
      FailedScanStays(a, b[..|b| - 1], world, deleted);
      assert (a + b)[..|a + b| - 1] == a + b[..|b| - 1];
    }
  }

  /** A request is honoured only when it is a "deletion" message from the
      submission's author naming a comment not yet in the deleted list. */
  lemma {:induction false} RequestScanHonoured(msgs: seq<Message>, world: map<string, Comment>, deleted: seq<string>)
    ensures forall c :: c in RequestScan(msgs, world, deleted).todo ==>
      && c.id in world && c.id !in deleted
      && exists msg :: msg in msgs && msg.subject == "deletion" && msg.body == c.id
                       && SameAuthor(world[c.id].postAuthor, msg.author)
    decreases |msgs|
  {
    if msgs != [] {
      var init := msgs[..|msgs| - 1];
      RequestScanHonoured(init, world, deleted);
      assert forall msg :: msg in init ==> msg in msgs;
      assert msgs[|msgs| - 1] in msgs;
    }
  }

  /** Conversely, when no lookup failed, every "deletion" message named a
      comment Reddit knows, and each one from the submission's author naming
      a comment not in the deleted list is honoured. */
  lemma {:induction false} RequestScanComplete(msgs: seq<Message>, world: map<string, Comment>, deleted: seq<string>)
    requires RequestScan(msgs, world, deleted).failed.None?
    ensures forall msg :: msg in msgs && msg.subject == "deletion" ==> msg.body in world
    ensures forall msg :: msg in msgs && msg.subject == "deletion" && msg.body in world
                          && msg.body !in deleted && SameAuthor(world[msg.body].postAuthor, msg.author) ==>
              world[msg.body].(id := msg.body) in RequestScan(msgs, world, deleted).todo
    decreases |msgs|
  {
    if msgs != [] {
      var init, last := msgs[..|msgs| - 1], msgs[|msgs| - 1];
      var before := RequestScan(init, world, deleted);
      assert msgs == init + [last];
      assert before.failed.None?;
      RequestScanComplete(init, world, deleted);
      assert forall c :: c in before.todo ==> c in RequestScan(msgs, world, deleted).todo;
    }
  }

  /** The notification `delete_comment` sends. */
  function RemovedNote(id: string): string {
    "Comment removed: " + id + "."
  }

  /** The deleted log after `delete_comment` appended an id holds that id: a
      later request for it is passed over. */
  lemma DeletedLogged(text: string, id: string)
    requires EndsLine(text) && NoLineBreak(id)
    ensures id in SplitLines(text + id + "\n")
  {
    SplitLinesAppendLine(text, id);
  }

  // ---------------------------------------------------------------------------
  // main

  /** The first file in `files` that does not exist. */
  function FirstMissing(files: seq<string>, present: set<string>): (r: Option<nat>)
    ensures r.None? <==> forall i :: 0 <= i < |files| ==> files[i] in present
    ensures r.Some? ==>
      && r.value < |files| && files[r.value] !in present
      && forall i :: 0 <= i < r.value ==> files[i] in present
  {
    if files == [] then None
    else if files[0] !in present then Some(0)
    else match FirstMissing(files[1..], present)
      case None => None
      case Some(k) => Some(k + 1)
  }

  function FileMissing(path: string): string {
    "File: \"" + path + "\" not found"
  }
}
