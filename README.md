# Tonkatsu bot, modelled in Dafny

The repository is a Reddit bot that looks for posts whose titles mention
"tonkatsu". A naive Bayes classifier, trained on labelled titles, decides
whether the poster meant the ramen broth "tonkotsu". When it did, the bot
leaves a correcting comment. It also does three other things:

- it answers username mentions ("summons");
- it deletes its own comments once they are voted below -1;
- it honours deletion requests sent by private message from the author of
  the submission.

It remembers what it has handled in a tab-separated id file and what it has
deleted in a second file.

This project models the logic of the two scripts:

- **`bot/bayes.py`, the trainer** (module `Trainer`): its title cleaner
  `clean_title`, the sub-reddit filter `filt_subs`, the data-file check and
  the titles loop of `main`, and the format of the held-out test file that
  `write_test_data` appends.
- **`bayes.py`, the older root-level trainer** (module `LegacyBayes`): its
  simpler title cleaner.
- **`bot/bot.py`, the bot** (modules `History`, `BotRules`, `BotRun`):
  - `get_history` and `save_id`, both over the text of the id file;
  - the decisions of `investigate`, `react_to_post`, `react_to_summon`,
    `check_summons`, `purge` and `delete_comment`, as pure rules;
  - a `Bot` class that holds the two files and a trace of what the bot does
    to Reddit (saved records, logged ids, comments, replies, messages,
    deletions). Its methods are the script's functions, each proved against
    the rules;
  - `main`'s allow-list split, its four file checks and the order of the
    three stages.

Reddit is replaced by its answers, given as plain values: the new posts, the
mentions, the bot's comments, the inbox messages, and a map from comment id
to comment. The classifier is replaced by a total function from a
lower-cased title to 0 or 1, and the English stop-word list by a parameter
`stop`. Every general property about titles is proved for any stop list;
the worked examples name the condition they need on `stop`.

Shared pieces live in `Common` and `Text`:

- `Common`: `Option`, `Result`, bits, ordered subsequences.
- `Text`: ASCII case, `str.split(sep)`, `str.splitlines()`, and lines with
  their newline.

`Words` holds the pieces both title cleaners are built from.

Decisions where the model reads the code closely:

- In `check_summons`, the test `id_dict[post_id] != 0` compares the stored
  prediction, a string, with the integer 0. It is therefore always true. A
  mention whose post id is already in the history stops the scan, whatever
  was stored.
- `investigate` handles the first candidate and then breaks. It is modelled
  as a search for the first candidate followed by the handling of that one
  post.
- The history is read once at the start of each stage, and the deleted list
  once at the start of `purge`. A record saved during a stage is therefore
  not seen by later mentions of the same stage. A comment deleted by the
  downvote sweep is not in the deleted list that the request scan consults.
- `parent.author == message.author` uses praw's redditor equality. It
  compares names ignoring case; a redditor never equals `None`, and
  `None == None` holds.
- A line of the id file that does not split into exactly five tab-separated
  fields makes `get_history` raise, and so does an unknown comment id in a
  deletion request. The run then ends with an uncaught exception
  (`Crashed`); stages already done keep their effects.

## Model

| member | source | states |
|---|---|---|
| Words.StripPunctuationDeletes | bot/bayes.py:105 | deleting `string.punctuation` leaves no punctuation character |
| Words.PunctuationRanges | bot/bayes.py:105 | the four ASCII ranges used by the model hold exactly the 32 characters of `string.punctuation` |
| Words.LettersOnlyOther | bot/bayes.py:106 | `re.sub('[^a-zA-Z]', ' ', …)` turns every non-letter into the same single space |
| Words.DropSingleLettersSpec | bot/bayes.py:110 | exactly the words whose length is not 1 survive, each as often as it occurs, in their original order |
| Words.DropStopWordsSpec | bot/bayes.py:114 | exactly the words outside the stop list survive, each as often as it occurs, in their original order |
| Words.JoinWordsText | bot/bayes.py:116 | `" ".join` of words is lower-case and single-spaced, and empty exactly when there are no words |
| Words.JoinWordsSplit | bot/bayes.py:116 | joined words split back into the same words (join/split round trip) |
| Trainer.CleanTitle | bot/bayes.py:102-116 | the cleaner itself: punctuation deleted, other non-letters turned into spaces, lower-cased, split, words of one letter, stop words and "tonkatsu" dropped, the rest joined with single spaces |
| Trainer.TitleWordsSpec | bot/bayes.py:105-114 | the kept words are lower-case ASCII words of two or more letters, neither stop words nor "tonkatsu"; every such letter run is kept as often as it occurs; the order is the title's |
| Trainer.CleanTitleText | bot/bayes.py:102-116 | the cleaned title holds only lower-case letters and single spaces, with no space at either end |
| Trainer.CleanTitleWords | bot/bayes.py:102-116 | the words of the cleaned title are exactly the kept words |
| Trainer.CleanTitleIdempotent | bot/bayes.py:102-116 | cleaning a cleaned title changes nothing, for any stop list |
| Trainer.PunctuationJoins | bot/bayes.py:105 | a punctuation character is deleted without a word break: removing it does not change the result |
| Trainer.OtherCharSeparates | bot/bayes.py:106 | any other non-letter (digit, space, non-ASCII) separates words exactly as a space does |
| Trainer.SingleWord | bot/bayes.py:108-114 | a one-run title comes out lower-cased, or empty when it is one letter, a stop word or "tonkatsu" |
| Trainer.RamenSanJoined | bot/bayes.py:105-106 | "Ramen-San" is cleaned to the single word "ramensan" |
| Trainer.CapitalisedStopWord | bot/bayes.py:108-114 | the stop check sees the lower-cased word, so "The" is dropped |
| Trainer.FilterSubs | bot/bayes.py:94-98 | the kept rows are exactly those whose sub-reddit is listed, each with its multiplicity, in their original order |
| Trainer.CleanTitles | bot/bayes.py:204-206 | the titles loop yields one cleaned title per row, in row order |
| Trainer.Prepare | bot/bayes.py:188-206 | the script stops with status 1 and the missing-file message exactly when the data file is absent; otherwise titles and labels are those of the rows of the comma-split allow-list, pairwise |
| Trainer.WriteTestData | bot/bayes.py:164-173 | the file gains the header line, then one newline-terminated line per held-out example |
| Trainer.TestLineFields | bot/bayes.py:172 | a test line splits on tabs back into label, prediction and title |
| Trainer.TestTextLines | bot/bayes.py:168-172 | the appended text splits on newlines into the header, the test lines and a final empty piece |
| Trainer.TestDataReadBack | bot/bayes.py:164-173 | reading the file back yields the header and, for each example, its label, prediction and title |
| LegacyBayes.RunsWords | bayes.py:27-28 | every run is a lower-case ASCII word |
| LegacyBayes.CleanTitle | bayes.py:25-32 | the older cleaner itself: every non-letter turned into a space, lower-cased, split, stop words dropped, the rest joined with single spaces |
| LegacyBayes.TitleWordsSpec | bayes.py:27-30 | the kept words are exactly the runs outside the stop list, each as often as it occurs, in order, whatever their length |
| LegacyBayes.CleanTitleText | bayes.py:25-32 | the cleaned title holds only lower-case letters and single spaces, trimmed |
| LegacyBayes.CleanTitleWords | bayes.py:25-32 | the words of the cleaned title are exactly the kept words |
| LegacyBayes.CleanTitleIdempotent | bayes.py:25-32 | cleaning a cleaned title changes nothing |
| LegacyBayes.NonLetterSeparates | bayes.py:27 | every non-letter, punctuation included, separates words as a space does |
| LegacyBayes.SingleWord | bayes.py:27-30 | a one-run title comes out lower-cased unless it is a stop word; single letters and "tonkatsu" survive |
| LegacyBayes.TonkatsuKept | bayes.py:29-30 | "Tonkatsu" is kept as "tonkatsu" |
| LegacyBayes.RamenSanSplit | bayes.py:27-32 | the hyphen in "Ramen-San" separates, giving "ramen san" |
| History.ParseRecord | bot/bot.py:111-113 | a non-empty line unpacks exactly when it holds four tabs, i.e. five fields |
| History.ParseHistory | bot/bot.py:103-115 | the history of a file's text: its lines in order, empty ones skipped, each other one unpacked into five tab-separated fields with a later id overriding an earlier one; the first line that does not unpack is the failure |
| History.GetHistory | bot/bot.py:103-115 | the loop over the file's lines computes the history of the whole file: an id-to-prediction map, or the failing line |
| History.FailurePersists | bot/bot.py:110-112 | once a line cannot be unpacked, later lines do not change the outcome |
| History.RecordLineFields | bot/bot.py:137 | the saved line is the five fields joined with tabs |
| History.RecordRoundTrip | bot/bot.py:137 | the line of a record without tabs or line breaks is one line, and reads back as its id and prediction |
| History.HistoryAppend | bot/bot.py:136-138 | appending a record maps its id to its prediction and keeps every other entry, or leaves an unreadable history unreadable |
| History.BlankLineIgnored | bot/bot.py:111 | an empty line does not change the history |
| History.TabInTitleBreaks | bot/bot.py:112 | a title holding a tab makes the saved line unreadable, so every later `get_history` fails |
| History.SingleRecordFile | bot/bot.py:109-113 | a file holding one saved record reads back as the map from its id to its prediction |
| History.ExampleRecord | bot/bot.py:130-138 | the saved record of post "post123" predicted 1 reads back as the map from "post123" to "1" |
| BotRules.FirstCandidate | bot/bot.py:280-314 | the post handled is the earliest whose lower-cased title mentions "tonkatsu" and whose id is not in the history; none exactly when no post qualifies |
| BotRules.Decide | bot/bot.py:293-303 | the bot acts exactly when the prediction is 1 and the sub-reddit is in the allow-list |
| BotRules.DecideMessages | bot/bot.py:295-303 | each of the three reports names exactly one case: comment, unauthorized sub-reddit, predicted correct |
| BotRules.PostRecord | bot/bot.py:231 | the record `react_to_post` saves: post id, prediction, `act`, sub-reddit and raw title |
| BotRules.HandledPostSkipped | bot/bot.py:286 | once its record is saved, a handled post is no candidate in any later run |
| BotRules.SummonPostId | bot/bot.py:245 | `parent_id[3:]` is the parent id without its three-character kind prefix, or empty for a short id |
| BotRules.CommentSummonIgnored | bot/bot.py:252 | a summons whose parent is a comment ("t1_") is never answered |
| BotRules.SummonRecords | bot/bot.py:249-250 | the two records saved for a summons: the parent id, then the post id, both with prediction "s", the mention's sub-reddit and title "NA" |
| BotRun.SummonRecorded | bot/bot.py:249-250 | appended to a readable id file, the two summons records map the parent id and the post id to "s" and keep every other entry |
| BotRun.SummonNotRepeated | bot/bot.py:345-350 | a later scan against that history passes over the same mention and stops at a new summons under the same post |
| BotRules.SummonScan | bot/bot.py:339-350 | the mention loop against the history read at its start: a recorded parent is passed over, a recorded post stops the loop, any other mention is reacted to |
| BotRules.SummonScanHandled | bot/bot.py:339-355 | the mentions reacted to are mentions of the inbox, in order, and neither their parent nor their post was in the history |
| BotRules.SummonScanNoStop | bot/bot.py:345-350 | without a summons under a recorded post, exactly the mentions whose parent is new are reacted to |
| BotRules.StoppedScanStays | bot/bot.py:348-350 | after the `break`, no later mention is looked at |
| BotRules.StripContext | bot/bot.py:358 | `re.sub(r'[?]context=\d+', '', …)`: left to right, "?context=" with the whole run of digits after it is removed, everything else copied; never longer than its input |
| BotRules.StripContextPlain | bot/bot.py:358 | text without a question mark is copied unchanged by the context rewrite |
| BotRules.ContextQueryRemoved | bot/bot.py:358 | "?context=" followed by digits is removed entirely |
| BotRules.ContextStripped | bot/bot.py:358 | a link followed by the context query is reported as the bare link |
| BotRules.Downvoted | bot/bot.py:384-386 | the comments the downvote sweep hands to `delete_comment`, in order |
| BotRules.DownvotedSpec | bot/bot.py:384-386 | exactly the bot's comments scored below -1 are deleted, in order |
| BotRules.SameAuthor | bot/bot.py:403 | praw's redditor equality: two names equal ignoring case, a redditor never equal to `None`, `None` equal to `None` |
| BotRules.Fetch | bot/bot.py:396-398 | a requested comment is found exactly when Reddit knows its id, and carries that id |
| BotRules.RequestScan | bot/bot.py:391-404 | the message loop against the deleted list read at the start of `purge`: non-"deletion" messages and already deleted comments are passed over, an unknown id ends the scan, a request from the submission's author is honoured |
| BotRules.RequestScanHonoured | bot/bot.py:391-404 | a comment is deleted only on a "deletion" message naming it, from the author of its submission, when it is not in the deleted list |
| BotRules.RequestScanComplete | bot/bot.py:391-404 | conversely, when no lookup failed every "deletion" message named a known comment, and each one from the submission's author naming a comment not in the deleted list is honoured |
| BotRules.FailedScanStays | bot/bot.py:396-398 | after a failed lookup no later message is acted on |
| BotRules.DeletedLogged | bot/bot.py:214-215 | the id logged by `delete_comment` is a line of the deleted file afterwards |
| BotRules.FirstMissing | bot/bot.py:433-435 | the file reported is the first missing one of the four; none exactly when all exist |
| BotRun.Bot.SaveId | bot/bot.py:130-139 | one record line with its newline is appended to the id file; the deleted file is unchanged |
| BotRun.Bot.ReactToPost | bot/bot.py:219-236 | the record is saved first, then the post is commented on exactly when `act` is 1 |
| BotRun.Bot.HandlePost | bot/bot.py:293-311 | the classifier sees the lower-cased title; the count is 1 exactly when the bot comments; the record, the comment and the two notifications follow `Decide` |
| BotRun.Bot.Investigate | bot/bot.py:263-319 | with an unreadable history the stage fails having done nothing; otherwise exactly the first candidate is handled, and nothing happens when there is none |
| BotRun.Bot.ReactToSummon | bot/bot.py:239-259 | both records are saved, then the post is commented on and the summoner thanked exactly when the summons qualifies |
| BotRun.Bot.HandleMention | bot/bot.py:352-364 | one summons: the reaction, then the two notifications with the context-free link |
| BotRun.Bot.ReactToMentions | bot/bot.py:339-364 | the id file and the trace gain exactly the effects of the mentions the scan reacts to, in order |
| BotRun.Bot.CheckSummons | bot/bot.py:323-367 | with an unreadable history the stage fails having done nothing; otherwise the mentions are scanned against the history read at its start |
| BotRun.Bot.DeleteComment | bot/bot.py:200-216 | only the bot's own comment is deleted and reported; the id is appended to the deleted file either way |
| BotRun.Bot.DeleteDownvoted | bot/bot.py:383-386 | the downvoted comments are deleted in order and their ids logged |
| BotRun.Bot.HonourRequests | bot/bot.py:390-404 | the requested comments are deleted in order and logged; the scan fails exactly when a requested id is unknown |
| BotRun.Bot.Purge | bot/bot.py:371-407 | the downvote sweep, then the request scan against the deleted list read at the start; the id file is untouched |
| BotRun.Bot.Run | bot/bot.py:411-441 | the run dies with status 1 naming the first missing file, having done nothing, exactly when a file is missing; an unreadable history crashes it having done nothing; a finished run had a readable history |

## Left out

- BotRun.Bot.Run: states the file check, the crash on an unreadable history and that a finished run read its history. The combined effect of the three stages is stated stage by stage, by the methods it calls, not by `Run` itself.
- BotRun.Bot.HonourRequests: Reddit's answers are fixed for the whole run, so a comment the bot removed earlier in the same run (by the downvote sweep or an earlier request) still looks as it did. A later valid request for it deletes and logs it again. The script instead finds the comment's author gone and `delete_comment` raises at `comment.author.name`, ending the run.
- Unicode: `str.lower` in the title test of `investigate`, the case-insensitive name comparison of `SameAuthor` and `\d` in the context rewrite are modelled on ASCII only. A non-ASCII character that Python lower-cases to an ASCII letter, or a non-ASCII digit, is not modelled. In both title cleaners lower-casing comes after the letters-only rewrite, so ASCII is exact there. `str.split()` is modelled as a split on spaces, the only whitespace left by that rewrite.
- `delete_comment` with a comment whose author account is deleted (`comment.author` is `None`) raises in the script. The model takes the author as a plain name.
- The comment text is not modelled: `get_comment`, `leave_comment` and the edit of the posted comment. The trace records only which post was commented on.
- Logging, `print` output and the "Commented on N posts" report are not modelled. The count `ct` is returned.
- `argparse`, `bot_login`, `config`, and every network call are not modelled. Their answers are parameters.
- The classifier (`predict`, the pickled model), vectorising, `train_test_split`, fitting, scoring, plotting, and the `helpers` module are not modelled. The classifier is a function parameter.
- The stop-word list of nltk is a parameter. Its contents are not fixed.
- The root-level bot script, the `tonk_cop_bot.py` script and the test suites are not part of this model.
- Concurrency and files changed by other processes while the bot runs are not modelled.
