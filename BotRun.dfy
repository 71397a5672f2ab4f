/** One run of the bot (bot/bot.py) as a class holding the two files it
    appends to and the trace of what it does to the outside world. Reddit is
    replaced by its answers given as plain records, and the classifier by a
    total function from a title to 0 or 1. */
module BotRun {
  import opened Common
  import opened Text
  import opened History
  import opened BotRules

  /** What the bot does, in order: the lines it appends to its two files and
      the calls it makes on Reddit. */
  datatype Event =
    | Saved(record: Record)
    | DeletedLogged(id: string)
    | Commented(postId: string)
    | Replied(mentionId: string, text: string)
    | Messaged(to: string, subject: string, body: string)
    | Removed(commentId: string)

  const FoundSubject: string := "Tonkatsu Found"
  const SummonSubject: string := "Bot Summoned"
  const RemovedSubject: string := "Comment Removed"

  /** `react_to_post`: the record first, then the comment when acting. */
  function ReactEvents(p: Post, pred: Bit, act: Bit): seq<Event> {
    [Saved(PostRecord(p, pred, act))] + (if act == 1 then [Commented(p.id)] else [])
  }

  /** Everything `investigate` does about the post it handles. */
  function InvestigateEvents(p: Post, pred: Bit, v: Verdict, user: string, human: string): seq<Event> {
    ReactEvents(p, pred, v.act)
      + [Messaged(user, FoundSubject, PostNote(v.msg, p)), Messaged(human, FoundSubject, PostNote(v.msg, p))]
  }

  /** `react_to_summon`: both records, then the comment on the post and the
      thanks when the summons qualifies. */
  function SummonReactEvents(m: Mention): seq<Event> {
    var rs := SummonRecords(m);
    [Saved(rs[0]), Saved(rs[1])]
      + (if RepliesToSummon(m.parentId, m.sub)
         then [Commented(SummonPostId(m.parentId)), Replied(m.id, ThankYou(m.author))]
         else [])
  }

  /** Everything `check_summons` does about one mention. */
  function SummonEvents(m: Mention, user: string, human: string): seq<Event> {
    SummonReactEvents(m) + [Messaged(user, SummonSubject, SummonNote(m)), Messaged(human, SummonSubject, SummonNote(m))]
  }

  function SummonsEvents(ms: seq<Mention>, user: string, human: string): seq<Event> {
    if ms == [] then []
    else SummonsEvents(ms[..|ms| - 1], user, human) + SummonEvents(ms[|ms| - 1], user, human)
  }

  /** The two lines `react_to_summon` appends to the id file. */
  function SummonLog(m: Mention): string {
    var rs := SummonRecords(m);
    SavedLine(rs[0]) + SavedLine(rs[1])
  }

  /** The summons records hold no tab or line break when the parent id and
      the sub-reddit name hold none. */
  lemma SummonRecordsClean(m: Mention)
    requires CleanField(m.parentId) && CleanField(m.sub)
    ensures Clean(SummonRecords(m)[0]) && Clean(SummonRecords(m)[1])
  {
    var p := SummonPostId(m.parentId);
    if |m.parentId| > 3 {
      assert forall i :: 0 <= i < |p| ==> p[i] == m.parentId[i + 3];
    }
  }

  /** What the two summons records are for: appended to a readable id file,
      they map both the parent id and the post id to "s" and keep every other
      entry of the history. */
  lemma SummonRecorded(text: string, m: Mention)
    requires EndsLine(text) && ParseHistory(text).Success?
    requires CleanField(m.parentId) && CleanField(m.sub)
    ensures ParseHistory(text + SummonLog(m))
         == Success(ParseHistory(text).value[m.parentId := "s"][SummonPostId(m.parentId) := "s"])
  {
    var rs := SummonRecords(m);
    SummonRecordsClean(m);
    HistoryAppendTwo(text, rs[0], rs[1], SummonLog(m));
  }

  /** A later scan against that history passes over the same mention, and
      stops at a new summons under the same post. */
  lemma SummonNotRepeated(text: string, m: Mention, s: Scan, other: Mention)
    requires EndsLine(text) && ParseHistory(text).Success?
    requires CleanField(m.parentId) && CleanField(m.sub)
    ensures ParseHistory(text + SummonLog(m)).Success?
    ensures var hist := ParseHistory(text + SummonLog(m)).value;
      && ScanStep(s, m, hist) == s
      && (SummonPostId(other.parentId) == SummonPostId(m.parentId) && other.parentId !in hist ==>
            ScanStep(s, other, hist).stopped)
  {
    SummonRecorded(text, m);
  }

  /** The text appended to the id file for the mentions reacted to. */
  function SummonsLog(ms: seq<Mention>): string {
    if ms == [] then "" else SummonsLog(ms[..|ms| - 1]) + SummonLog(ms[|ms| - 1])
  }

  /** `delete_comment`: only a comment of the bot's own account is deleted and
      reported; the id is logged either way. */
  function DeleteEvents(c: Comment, user: string): seq<Event> {
    (if c.author == user then [Removed(c.id), Messaged(user, RemovedSubject, RemovedNote(c.id))] else [])
      + [DeletedLogged(c.id)]
  }

  function DeletesEvents(cs: seq<Comment>, user: string): seq<Event> {
    if cs == [] then []
    else DeletesEvents(cs[..|cs| - 1], user) + DeleteEvents(cs[|cs| - 1], user)
  }

  function Ids(cs: seq<Comment>): (ids: seq<string>)
    ensures |ids| == |cs|
  {
    if cs == [] then [] else Ids(cs[..|cs| - 1]) + [cs[|cs| - 1].id]
  }

  /** One more mention handled, seen from the id file. */
  lemma SummonsLogSnoc(ids: string, ms: seq<Mention>, m: Mention)
    ensures ids + SummonsLog(ms) + SummonLog(m) == ids + SummonsLog(ms + [m])
  {
    assert (ms + [m])[..|ms|] == ms;
  }

  /** One more mention handled, seen from the trace. */
  lemma SummonsEventsSnoc(evs: seq<Event>, ms: seq<Mention>, m: Mention, user: string, human: string)
    ensures evs + SummonsEvents(ms, user, human) + SummonEvents(m, user, human) == evs + SummonsEvents(ms + [m], user, human)
  {
    assert (ms + [m])[..|ms|] == ms;
  }

  /** One more comment deleted, seen from the deleted file and the trace. */
  lemma DeletesSnoc(deleted: string, evs: seq<Event>, cs: seq<Comment>, c: Comment, user: string)
    ensures evs + DeletesEvents(cs, user) + DeleteEvents(c, user) == evs + DeletesEvents(cs + [c], user)
    ensures deleted + Terminated(Ids(cs)) + c.id + "\n" == deleted + Terminated(Ids(cs + [c]))
  {
    assert (cs + [c])[..|cs|] == cs;
    assert Ids(cs + [c]) == Ids(cs) + [c.id];
    assert (Ids(cs) + [c.id])[..|cs|] == Ids(cs);
  }

  /** How `main` ends: normally, through `die` with status 1, or with an
      uncaught exception (an unreadable history or an unknown comment id). */
  datatype RunEnd = Finished | Died(exit: Exit) | Crashed

  class Bot {
    /** `config.username` and `config.human_acct`. */
    const userName: string
    const humanName: string
    /** The contents of the id (history) file and of the deleted file. */
    var idText: string
    var deletedText: string
    var events: seq<Event>

    constructor(userName: string, humanName: string, idText: string, deletedText: string)
      ensures this.userName == userName && this.humanName == humanName
      ensures this.idText == idText && this.deletedText == deletedText && events == []
    {
      this.userName := userName;
      this.humanName := humanName;
      this.idText := idText;
      this.deletedText := deletedText;
      events := [];
    }

    /** `save_id`: one record line appended to the id file. */
    method SaveId(r: Record)
      modifies this
      ensures idText == old(idText) + SavedLine(r)
      ensures events == old(events) + [Saved(r)]
      ensures deletedText == old(deletedText)
    {
      idText := idText + SavedLine(r);
      events := events + [Saved(r)];
    }

    /** `redditor(to).message(subject, body)`. */
    method SendMessage(to: string, subject: string, body: string)
      modifies this
      ensures events == old(events) + [Messaged(to, subject, body)]
      ensures idText == old(idText) && deletedText == old(deletedText)
    {
      events := events + [Messaged(to, subject, body)];
    }

    /** `react_to_post`. */
    method ReactToPost(p: Post, pred: Bit, act: Bit)
      modifies this
      ensures idText == old(idText) + SavedLine(PostRecord(p, pred, act))
      ensures events == old(events) + ReactEvents(p, pred, act)
      ensures deletedText == old(deletedText)
    {
      SaveId(PostRecord(p, pred, act));
      if act == 1 {
        events := events + [Commented(p.id)];
      }
    }

    /** `investigate`: reads the history, then handles the first candidate
      among `posts` and stops. The loop looks for that post; its handling,
      which the `break` ends, follows the loop. `ct` is 1 exactly when it
      commented. The run ends with an exception when the history cannot be
      read. */
    method Investigate(posts: seq<Post>, subs: seq<string>, classify: string -> Bit) returns (ct: nat, ok: bool)
      modifies this
      ensures ok <==> ParseHistory(old(idText)).Success?
      ensures deletedText == old(deletedText)
      ensures !ok ==> ct == 0 && idText == old(idText) && events == old(events)
      ensures ok ==>
        var hist := ParseHistory(old(idText)).value;
        match FirstCandidate(posts, hist)
        case None => ct == 0 && idText == old(idText) && events == old(events)
        case Some(k) =>
          var p := posts[k];
          var pred := classify(Lower(p.title));
          var v := Decide(pred, p.sub, subs);
          && ct == v.act
          && idText == old(idText) + SavedLine(PostRecord(p, pred, v.act))
          && events == old(events) + InvestigateEvents(p, pred, v, userName, humanName)
    {
      ct := 0;
      var h := GetHistory(idText);
      if h.Failure? {
        return 0, false;
      }
      ok := true;
      var hist := h.value;
      var i := 0;
      while i < |posts| && !(Contains(Lower(posts[i].title), "tonkatsu") && posts[i].id !in hist)
        invariant 0 <= i <= |posts|
        invariant forall j :: 0 <= j < i ==> !IsCandidate(posts[j], hist)
      {
        i := i + 1;
      }
      if i == |posts| {
        return;
      }
      assert FirstCandidate(posts, hist) == Some(i);
      ct := HandlePost(posts[i], subs, classify);
    }

    /** The body of the loop of `investigate` for the post it handles: the
      classifier sees the lower-cased title; `ct` counts the comment. */
    method HandlePost(p: Post, subs: seq<string>, classify: string -> Bit) returns (ct: nat)
      modifies this
      ensures var pred := classify(Lower(p.title));
        var v := Decide(pred, p.sub, subs);
        && ct == v.act
        && idText == old(idText) + SavedLine(PostRecord(p, pred, v.act))
        && events == old(events) + InvestigateEvents(p, pred, v, userName, humanName)
      ensures deletedText == old(deletedText)
    {
      ct := 0;
      var title := Lower(p.title);
      var pred := classify(title);
      var act := pred;
      var msg;
      if pred == 1 {
        if p.sub in subs {
          ct := ct + 1;
          msg := CommentedMsg;
        } else {
          act := 0;
          msg := UnauthorizedMsg;
        }
      } else {
        msg := CorrectMsg;
      }
      ReactToPost(p, pred, act);
      var note := PostNote(msg, p);
      SendMessage(userName, FoundSubject, note);
      SendMessage(humanName, FoundSubject, note);
    }

    /** `react_to_summon`. */
    method ReactToSummon(m: Mention)
      modifies this
      ensures idText == old(idText) + SummonLog(m)
      ensures events == old(events) + SummonReactEvents(m)
      ensures deletedText == old(deletedText)
    {
      var rs := SummonRecords(m);
      SaveId(rs[0]);
      SaveId(rs[1]);
      if RepliesToSummon(m.parentId, m.sub) {
        events := events + [Commented(SummonPostId(m.parentId)), Replied(m.id, ThankYou(m.author))];
      }
    }

    /** The body of the loop of `check_summons` for a mention it reacts to. */
    method HandleMention(m: Mention)
      modifies this
      ensures idText == old(idText) + SummonLog(m)
      ensures events == old(events) + SummonEvents(m, userName, humanName)
      ensures deletedText == old(deletedText)
    {
      ReactToSummon(m);
      var note := SummonNote(m);
      SendMessage(userName, SummonSubject, note);
      SendMessage(humanName, SummonSubject, note);
    }

    /** `check_summons`: reads the history once, then reacts to the mentions
      the scan admits, in order. */
    method CheckSummons(mentions: seq<Mention>) returns (ok: bool)
      modifies this
      ensures ok <==> ParseHistory(old(idText)).Success?
      ensures deletedText == old(deletedText)
      ensures !ok ==> idText == old(idText) && events == old(events)
      ensures ok ==>
        var handled := SummonScan(mentions, ParseHistory(old(idText)).value).handled;
        && idText == old(idText) + SummonsLog(handled)
        && events == old(events) + SummonsEvents(handled, userName, humanName)
    {
      var h := GetHistory(idText);
      if h.Failure? {
        return false;
      }
      ReactToMentions(mentions, h.value);
      ok := true;
    }

    /** The loop of `check_summons` over the mentions, against the history
      `hist` read before it: a mention whose parent is in the history is
      skipped, one whose post is stops the loop, any other is handled. */
    method ReactToMentions(mentions: seq<Mention>, hist: map<string, string>)
      modifies this
      ensures var handled := SummonScan(mentions, hist).handled;
        && idText == old(idText) + SummonsLog(handled)
        && events == old(events) + SummonsEvents(handled, userName, humanName)
      ensures deletedText == old(deletedText)
    {
      ghost var ids0, events0, deleted0 := idText, events, deletedText;
      ghost var handled: seq<Mention> := [];
      var i := 0;
      var stop := false;
      while i < |mentions| && !stop
        invariant 0 <= i <= |mentions|
        invariant SummonScan(mentions[..i], hist) == Scan(handled, stop)
        invariant idText == ids0 + SummonsLog(handled)
        invariant events == events0 + SummonsEvents(handled, userName, humanName)
        invariant deletedText == deleted0
      {
        var m := mentions[i];
        SummonScanNext(mentions, i, hist);
        if m.parentId !in hist {
          if SummonPostId(m.parentId) in hist {
            stop := true;
          } else {
            SummonsLogSnoc(ids0, handled, m);
            SummonsEventsSnoc(events0, handled, m, userName, humanName);
            HandleMention(m);
            handled := handled + [m];
          }
        }
        i := i + 1;
      }
      if stop {
        SummonScanStopped(mentions, i, hist);
      } else {
        assert mentions[..i] == mentions;
      }
    }

    /** `delete_comment`. */
    method DeleteComment(c: Comment)
      modifies this
      ensures events == old(events) + DeleteEvents(c, userName)
      ensures deletedText == old(deletedText) + c.id + "\n"
      ensures idText == old(idText)
    {
      if c.author == userName {
        events := events + [Removed(c.id)];
        SendMessage(userName, RemovedSubject, RemovedNote(c.id));
      }
      deletedText := deletedText + c.id + "\n";
      events := events + [DeletedLogged(c.id)];
    }

    /** The comment scan of `purge`. */
    method DeleteDownvoted(comments: seq<Comment>)
      modifies this
      ensures events == old(events) + DeletesEvents(Downvoted(comments), userName)
      ensures deletedText == old(deletedText) + Terminated(Ids(Downvoted(comments)))
      ensures idText == old(idText)
    {
      ghost var ids0, events0, deleted0 := idText, events, deletedText;
      ghost var done: seq<Comment> := [];
      var i := 0;
      while i < |comments|
        invariant 0 <= i <= |comments|
        invariant Downvoted(comments[..i]) == done
        invariant events == events0 + DeletesEvents(done, userName)
        invariant deletedText == deleted0 + Terminated(Ids(done))
        invariant idText == ids0
      {
        assert comments[..i + 1][..i] == comments[..i];
        if comments[i].score < -1 {
          DeletesSnoc(deleted0, events0, done, comments[i], userName);
          DeleteComment(comments[i]);
          done := done + [comments[i]];
        }
        i := i + 1;
      }
      assert comments[..i] == comments;
    }

    /** The message scan of `purge`, against the deleted list `deleted` read
      before the comment scan. */
    method HonourRequests(messages: seq<Message>, world: map<string, Comment>, deleted: seq<string>) returns (ok: bool)
      modifies this
      ensures var scan := RequestScan(messages, world, deleted);
        && (ok <==> scan.failed.None?)
        && events == old(events) + DeletesEvents(scan.todo, userName)
        && deletedText == old(deletedText) + Terminated(Ids(scan.todo))
      ensures idText == old(idText)
    {
      ghost var ids0, events0, deleted0 := idText, events, deletedText;
      ghost var todo: seq<Comment> := [];
      ok := true;
      var j := 0;
      while j < |messages| && ok
        invariant 0 <= j <= |messages|
        invariant RequestScan(messages[..j], world, deleted).todo == todo
        invariant ok <==> RequestScan(messages[..j], world, deleted).failed.None?
        invariant events == events0 + DeletesEvents(todo, userName)
        invariant deletedText == deleted0 + Terminated(Ids(todo))
        invariant idText == ids0
      {
        var msg := messages[j];
        RequestScanNext(messages, j, world, deleted);
        if msg.subject == "deletion" {
          var bad := Fetch(world, msg.body);
          if bad.None? {
            ok := false;
          } else {
            var c := bad.value;
            if c.id !in deleted && SameAuthor(c.postAuthor, msg.author) {
              DeletesSnoc(deleted0, events0, todo, c, userName);
              DeleteComment(c);
              todo := todo + [c];
            }
          }
        }
        j := j + 1;
      }
      if ok {
        assert messages[..j] == messages;
      } else {
        RequestScanFailed(messages, j, world, deleted);
      }
    }

    /** `purge`: every comment of the bot scored below -1 goes through
      `delete_comment`, then every honoured deletion request does. The
      deleted list is read once, before either scan. */
    method Purge(comments: seq<Comment>, messages: seq<Message>, world: map<string, Comment>) returns (ok: bool)
      modifies this
      ensures idText == old(idText)
      ensures var scan := RequestScan(messages, world, SplitLines(old(deletedText)));
        && (ok <==> scan.failed.None?)
        && events == old(events) + DeletesEvents(Downvoted(comments), userName) + DeletesEvents(scan.todo, userName)
        && deletedText == old(deletedText) + Terminated(Ids(Downvoted(comments))) + Terminated(Ids(scan.todo))
    {
      var deleted := SplitLines(deletedText);
      DeleteDownvoted(comments);
      ok := HonourRequests(messages, world, deleted);
    }

    /** `main` after argument parsing: the allow-list is split on commas, the
      four files are checked in order and the first missing one ends the run
      with status 1 before anything else happens; then the three stages run. */
    method Run(idFile: string, delFile: string, modelFile: string, cmtFile: string, present: set<string>,
               subList: string, classify: string -> Bit, posts: seq<Post>, mentions: seq<Mention>,
               comments: seq<Comment>, messages: seq<Message>, world: map<string, Comment>)
      returns (end: RunEnd)
      modifies this
      ensures var files := [idFile, delFile, modelFile, cmtFile];
        && (end.Died? <==> FirstMissing(files, present).Some?)
        && (end.Died? ==>
              && end.exit == Exit(1, FileMissing(files[FirstMissing(files, present).value]))
              && idText == old(idText) && deletedText == old(deletedText) && events == old(events))
      ensures end.Finished? ==> ParseHistory(old(idText)).Success?
      ensures FirstMissing([idFile, delFile, modelFile, cmtFile], present).None? && ParseHistory(old(idText)).Failure? ==>
        end == Crashed && idText == old(idText) && deletedText == old(deletedText) && events == old(events)
    {
      var subs := SplitOn(subList, ',');
      var files := [idFile, delFile, modelFile, cmtFile];
      var k := 0;
      while k < |files|
        invariant 0 <= k <= |files|
        invariant forall j :: 0 <= j < k ==> files[j] in present
      {
        if files[k] !in present {
          assert FirstMissing(files, present) == Some(k);
          return Died(Exit(1, FileMissing(files[k])));
        }
        k := k + 1;
      }
      var ct, ok := Investigate(posts, subs, classify);
      if !ok {
        return Crashed;
      }
      ok := CheckSummons(mentions);
      if !ok {
        return Crashed;
      }
      ok := Purge(comments, messages, world);
      if !ok {
        return Crashed;
      }
      return Finished;
    }
  }
}
