# A verified model of the fan-sub relay and the quiz bot

This project models, in Dafny, the core logic of two chat-bot plugins and proves properties about it.

`hxzxhelper` relays a member's mails, tweets and blog posts to a group of translators and publishes the translations:
- A sender posts a mail's caption ("时间…") and, within a window, its photos.
- A translator posts the translation, keyed by the time on its first line.
- Once both are in, a publish job is booked under the mail's number.
- The number can be cancelled; the job polls the publishing service for the post's status.
- Background feeds fetch tweets (`lib/twitter.py`), mails (`lib/mail.py`) and blog entries (`lib/blog.py`).

`sakamichiquiz` runs a quiz in group chats: starting, answering, cancelling, reporting and timing out quizzes, the users' skip preferences, the parsers behind the question editors' commands, and the question and user tables.

Module by module:
- `Text` models the Python string operations the code relies on: `split`, `join`, `strip(chars)`, `replace`, `find`, `lower` (ASCII letters only, see below), and `isdecimal`, `int` and `str` over the decimal digits of every script (Unicode 15.0 category Nd, as the regex class `\d` also reads them).
- `TimeParse` models `parse_time` and the first-line cut.
- `MailModel` models the `Mail` record, its status texts, its preview note, and the wrap and grid arithmetic of the preview card.
- `Registry` holds the handlers of `hxzxhelper/__init__.py` as transition functions on one state value: `maillist`, `imagelist`, `mail_loadingimg`, `mailcnt` and the scheduler's job store.
- `RegistryLemmas` holds the invariant those functions keep, and `RegistryProperties` the per-handler effects.
- The class `Relay.Helper` holds that state in fields. Its methods, one per handler (loops included), are proved equal to the transition functions.
- `Twitter`, `MailFeed` and `Blog` model the three feeds: their text assembly over abstract element and tweet lists, and the classes holding the ids and times they keep between polls.
- `Quiz` models the running quizzes (the class `QuizSessions`), answer matching and skip preferences.
- `QuizParse` models the editors' parsers.
- `QuizStore` models `SQLServer`, with the tables as maps (the class `QuestionStore`).

Exceptions that escape a handler are values: an `Option`/`Result`, or the `raised` field of an outcome. Randomness, the clock, downloads and the publishing service's answers are parameters.

## Model

| member | source | states |
|---|---|---|
| Text.NatToStringRoundTrip | src/plugins/hxzxhelper/__init__.py:206 | `int(str(n)) == n` for every natural number: the number rendered into a job id reads back as itself |
| Text.NatToStringInjective | src/plugins/sakamichiquiz/__init__.py:235-239 | distinct group numbers give distinct job ids `str(group_id)`, both directions |
| Text.JoinSplit | src/plugins/sakamichiquiz/__init__.py:434 | splitting a `"|"`-join of pieces without `"|"` gives the pieces back |
| Text.WideDigitExamples | src/plugins/hxzxhelper/__init__.py:203-206 | `isdecimal` and `int` take digits of every script: "１２" reads as 12 and "٧" as 7, while 年 and the full-width colon are not digits |
| Text.NatToString | src/plugins/hxzxhelper/__init__.py:243 | `str(no)` is a decimal string, starting with 0 only for 0 |
| Text.Find | src/plugins/hxzxhelper/__init__.py:259-262 | `str.find` gives -1 exactly when the text is absent, else its first occurrence |
| Text.Split | src/plugins/sakamichiquiz/__init__.py:162 | `split(sep)` gives at least one piece and no piece holds the separator |
| Text.SplitJoin | src/plugins/sakamichiquiz/__init__.py:423-434 | joining the pieces of a split with its separator gives the text back |
| Text.LStrip | src/plugins/hxzxhelper/__init__.py:202 | the left half of `strip(chars)` removes exactly the leading run of those characters |
| Text.RStrip | src/plugins/hxzxhelper/__init__.py:202 | the right half of `strip(chars)` removes exactly the trailing run of those characters |
| Text.StrLessIrreflexive | src/plugins/hxzxhelper/lib/twitter.py:222 | no id string compares greater than itself |
| Text.StrLessTransitive | src/plugins/hxzxhelper/lib/twitter.py:222 | string comparison of ids is transitive |
| Text.StrLessTotal | src/plugins/hxzxhelper/lib/mail.py:126-134 | of two different stamps one compares greater |
| TimeParse.ParseTime | src/plugins/hxzxhelper/__init__.py:62-74 | a parsed time is a whole number of minutes since the epoch |
| TimeParse.SearchYear | src/plugins/hxzxhelper/__init__.py:63 | a found position holds a four-digit year followed by 年 |
| TimeParse.SearchYearLeftmost | src/plugins/hxzxhelper/__init__.py:63 | no year matches before the found position, and none at all when the search fails |
| TimeParse.SearchNumber | src/plugins/hxzxhelper/__init__.py:64-65 | a found position holds one or two digits followed by 月 or 日 |
| TimeParse.SearchNumberLeftmost | src/plugins/hxzxhelper/__init__.py:64-65 | no number matches before the found position, and none at all when the search fails |
| TimeParse.SearchClock | src/plugins/hxzxhelper/__init__.py:66 | a found position holds an H:M clock with either colon |
| TimeParse.SearchClockLeftmost | src/plugins/hxzxhelper/__init__.py:66 | no clock matches before the found position, and none at all when the search fails |
| TimeParse.ParseTimeNeedsAllFragments | src/plugins/hxzxhelper/__init__.py:63-67 | a parse succeeds only when a 4-digit 年, a 月, a 日 and an H:M fragment all occur |
| TimeParse.ParseTimeExample | src/plugins/hxzxhelper/__init__.py:62-72 | "2024年5月1日 10:00" and the same heading with the full-width colon parse to the same timestamp |
| TimeParse.ParseTimeMissingYear | src/plugins/hxzxhelper/__init__.py:73-74 | without a year fragment the parse fails (ValueError) |
| TimeParse.ParseTimeInvalidDay | src/plugins/hxzxhelper/__init__.py:70-71 | all fragments present but 30 February: `datetime` raises, so the parse fails |
| TimeParse.ParsedTimeIsNotUnset | src/plugins/hxzxhelper/__init__.py:288-291 | no parsed time equals -1, the time of a fresh Mail, so a translation never matches a relayed tweet |
| TimeParse.FirstLineOfLines | src/plugins/hxzxhelper/__init__.py:259-264 | with LF line ends the parsed prefix is exactly the first line |
| TimeParse.SingleLineDropsLastChar | src/plugins/hxzxhelper/__init__.py:259-264 | a message without a line break is cut at index -1 and loses its last character |
| MailModel.Status | src/plugins/hxzxhelper/model.py:53-61 | a description exists exactly for stat 0..3 |
| MailModel.StatusDistinct | src/plugins/hxzxhelper/model.py:53-61 | the four stats have four different descriptions |
| MailModel.PreviewNoteChoice | src/plugins/hxzxhelper/model.py:170-183 | the note gives the overwrite advice iff stat != 0, the cancel-first advice iff stat == 0, and ends with the cancel hint for the mail's number |
| MailModel.WrapText | src/plugins/hxzxhelper/model.py:103-113 | the wrap loop computes the reference wrapping: each line of the "\r\n"-normalised text broken into rows |
| MailModel.WrapChar | src/plugins/hxzxhelper/model.py:105-113 | one pass of the wrap loop: after a character, the output and the counter are the reference wrapping and column of the text read so far |
| MailModel.WrappedKeepsText | src/plugins/hxzxhelper/model.py:103-113 | deleting every "\n" from input and output gives the same text: the loop only inserts line breaks |
| MailModel.WrappedLineLengths | src/plugins/hxzxhelper/model.py:106-112 | no output line holds more than 21 characters, and the first holds at most 20 |
| MailModel.GridPositions | src/plugins/hxzxhelper/model.py:145-157 | the placement loop places min(n, 9) tiles, tile k at column k mod 3 and row k div 3 |
| MailModel.TilesDisjoint | src/plugins/hxzxhelper/model.py:145-157 | two placed tiles never overlap |
| MailModel.TilesFit | src/plugins/hxzxhelper/model.py:140-157 | every placed tile lies inside the picture area of height (s+15)·ceil(n/3) − 15 |
| MailModel.GridBlankRows | src/plugins/hxzxhelper/model.py:141-157 | with more than nine images the area is sized for all of them but the rows after the third stay blank |
| Registry.FindByTime | src/plugins/hxzxhelper/__init__.py:289-292 | the index of the first mail with the time, or none when no mail has it |
| Registry.FindByNo | src/plugins/hxzxhelper/__init__.py:205-208 | the index of the first mail with the number, or none when no mail has it |
| Registry.PollLoop | src/plugins/hxzxhelper/__init__.py:161-184 | the poll loop makes between k and k + retry polls |
| RegistryLemmas.InitInv | src/plugins/hxzxhelper/__init__.py:39-41 | the empty start-up state satisfies the invariant, so by the lemmas below it holds in every reachable state |
| RegistryLemmas.FreshIdIsFree | src/plugins/hxzxhelper/model.py:41-51 | under the invariant, the job id of the next mail number is not taken |
| RegistryLemmas.NumbersUnique | src/plugins/hxzxhelper/model.py:44-51 | numbers are taken from the counter in increasing order, so no two registered mails share one |
| RegistryLemmas.WindowJobIsNotANumber | src/plugins/hxzxhelper/__init__.py:271-273 | the window job's id "loadimages" is never the id `str(no)` of a publish job |
| RegistryLemmas.ForcedCloseKeepsInv | src/plugins/hxzxhelper/__init__.py:254-256 | the forced window close keeps the invariant, leaves no window job and never fails on a duplicate job id |
| RegistryLemmas.CloseWindowKeepsInv | src/plugins/hxzxhelper/__init__.py:230-248 | closing the window keeps the registry invariant (increasing numbers, jobs well formed, booked mails ready, collecting mail unbooked), and never fails on a duplicate job id |
| RegistryLemmas.LoadMailKeepsInv | src/plugins/hxzxhelper/__init__.py:251-275 | a caption keeps the invariant, and never fails on a duplicate job id |
| RegistryLemmas.LoadTranslationKeepsInv | src/plugins/hxzxhelper/__init__.py:278-320 | a translation keeps the invariant, and never fails on a duplicate job id |
| RegistryLemmas.AttachTranslationKeepsInv | src/plugins/hxzxhelper/__init__.py:287-320 | attaching a translation to the mail with a given time keeps the invariant, whatever the mail's stat, and never fails on a duplicate job id |
| RegistryLemmas.CancelKeepsInv | src/plugins/hxzxhelper/__init__.py:199-218 | a cancel keeps the invariant |
| RegistryLemmas.LoadImageKeepsInv | src/plugins/hxzxhelper/__init__.py:221-227 | a photo keeps the invariant |
| RegistryLemmas.SendToBiliKeepsInv | src/plugins/hxzxhelper/__init__.py:151-186 | publishing keeps the invariant |
| RegistryLemmas.FireJobKeepsInv | src/plugins/hxzxhelper/__init__.py:241-243 | a job firing keeps the invariant, and never fails on a duplicate job id |
| RegistryLemmas.PushMailKeepsInv | src/plugins/hxzxhelper/__init__.py:389-414 | a mailbox push keeps the invariant |
| RegistryLemmas.SendByReplyKeepsInv | src/plugins/hxzxhelper/__init__.py:417-438 | a reply to a relayed tweet keeps the invariant, and never fails on a duplicate job id |
| RegistryProperties.CloseWindowEffect | src/plugins/hxzxhelper/__init__.py:230-248 | the buffered images join the collecting mail in arrival order, the buffer empties and the pointer clears; stat 2 becomes 3 with a job under `str(no)`, any other stat becomes 1; other mails are unchanged |
| RegistryProperties.LoadMailParseFailure | src/plugins/hxzxhelper/__init__.py:263-267 | a caption that does not parse leaves registry, buffer and jobs unchanged; only a number is used up |
| RegistryProperties.LoadMailClosesFirst | src/plugins/hxzxhelper/__init__.py:254-273 | a caption during an open window closes that window first, then the new mail becomes the single collecting mail with a fresh window job |
| RegistryProperties.LoadMailOpensWindow | src/plugins/hxzxhelper/__init__.py:257-273 | with no window open, a parsed caption is appended with the next number and becomes the collecting mail, and the counter advances |
| RegistryProperties.PhotoBufferedIff | src/plugins/hxzxhelper/__init__.py:113-128 | a photo is buffered exactly when a mail collects and it is one image from a sender, 960 wide or 1280/720 high; nothing else changes |
| RegistryProperties.TranslationEffect | src/plugins/hxzxhelper/__init__.py:287-320 | the translation overwrites that of the first mail with the time; stat 1 becomes 3 and books a job, stat 3 moves its job to ten minutes from now, other stats become 2; a stat-3 mail whose job already fired raises JobLookupError, so it is never published again |
| RegistryProperties.TranslationWritten | src/plugins/hxzxhelper/__init__.py:289-305 | the first mail with the time takes the translation and keeps its number, no mail's time changes, and replacing a translation is announced |
| RegistryProperties.TranslationWithoutMatch | src/plugins/hxzxhelper/__init__.py:293-301 | a translation that matches no mail or does not parse changes nothing |
| RegistryProperties.TranslationLastWriteWins | src/plugins/hxzxhelper/__init__.py:302-305 | of two translations for one time, the mail keeps the second and the overwrite is announced |
| RegistryProperties.CancelNeedsNumber | src/plugins/hxzxhelper/__init__.py:217-218 | a non-decimal argument only asks for a number |
| RegistryProperties.CancelEffect | src/plugins/hxzxhelper/__init__.py:199-216 | a number removes exactly the first mail with it, keeping the others in order, and the job of that id if there is one; the reply tells which case; no such mail changes nothing |
| RegistryProperties.CancelHintRoundTrip | src/plugins/hxzxhelper/model.py:173 | the cancel command the preview suggests cancels that mail and its job |
| RegistryProperties.CancelWithLeadingZero | src/plugins/hxzxhelper/__init__.py:206-216 | "07" removes mail 7 but looks up job "07", so job "7" stays armed and later publishes nothing |
| RegistryProperties.PollsAtMostSix | src/plugins/hxzxhelper/__init__.py:152-181 | the status loop polls at most six times |
| RegistryProperties.PollLoopUnknownIff | src/plugins/hxzxhelper/__init__.py:161-184 | the loop ends with "status unknown" exactly when every attempt met a dropped connection; otherwise the first other poll decides |
| RegistryProperties.SendPopsOnlyWhenPosted | src/plugins/hxzxhelper/__init__.py:157-186 | the mail leaves the registry only when a status came back; a refused submission or poll and exhausted retries keep it |
| RegistryProperties.SendExhausted | src/plugins/hxzxhelper/__init__.py:182-184 | exhausted retries report "status unknown" and keep the mail |
| RegistryProperties.PushMailEffect | src/plugins/hxzxhelper/__init__.py:389-406 | a mail whose time is registered is dropped; otherwise it joins with the next number and stat 1; times that were distinct stay distinct |
| RegistryProperties.SendByReplyEffect | src/plugins/hxzxhelper/__init__.py:417-438 | a reply to a relayed tweet appends a mail with the next number that relays the quoted message's text ("无" when that text is empty) and its pictures in order, with the space-stripped reply as translation, time -1 and stat 0; the counter advances, its publish job is booked at once and the preview is the answer; the older mails, the image buffer and the collecting pointer are untouched |
| RegistryProperties.SendByReplyIgnored | src/plugins/hxzxhelper/__init__.py:419-422 | a reply to a message without the tweet marker only uses up a number |
| RegistryProperties.CancelCollectingWedges | src/plugins/hxzxhelper/__init__.py:199-255 | cancelling the collecting mail and then firing its window job leaves the pointer set with no window job, so the next caption fails at once |
| RegistryProperties.WedgedCaptionFails | src/plugins/hxzxhelper/__init__.py:254-255 | once wedged, every caption fails and changes nothing |
| RegistryProperties.WedgeSurvivesJobs | src/plugins/hxzxhelper/__init__.py:151-186 | no job firing clears the wedge |
| RegistryProperties.WedgeSurvivesTranslation | src/plugins/hxzxhelper/__init__.py:278-320 | a translation does not clear the wedge |
| RegistryProperties.WedgeSurvivesCancel | src/plugins/hxzxhelper/__init__.py:199-218 | a cancel does not clear the wedge |
| RegistryProperties.WedgeSurvivesPhoto | src/plugins/hxzxhelper/__init__.py:221-227 | a photo does not clear the wedge |
| RegistryProperties.WedgeSurvivesPush | src/plugins/hxzxhelper/__init__.py:389-414 | a mailbox push does not clear the wedge |
| RegistryProperties.WedgeSurvivesReply | src/plugins/hxzxhelper/__init__.py:417-438 | a reply to a relayed tweet does not clear the wedge |
| Relay.IndexOfTime | src/plugins/hxzxhelper/__init__.py:289-294 | the search loop returns the first index with the time, or -1 exactly when none has it |
| Relay.IndexOfNo | src/plugins/hxzxhelper/__init__.py:205-210 | the search loop returns the first index with the number, or -1 exactly when none has it |
| Relay.PollStatus | src/plugins/hxzxhelper/__init__.py:161-184 | the `while retry` loop ends as the poll-loop function says, after at most six polls |
| Relay.Helper.constructor | src/plugins/hxzxhelper/__init__.py:39-41 | the relay starts with no mails, no buffered images, no collecting mail, no jobs and the counter at 0 (model.py line 11) |
| Relay.Helper.NewMail | src/plugins/hxzxhelper/model.py:41-51 | `Mail()` takes the counter's value as its number with empty texts, no images, time -1 and stat 0, and advances the counter |
| Relay.Helper.LoadImg | src/plugins/hxzxhelper/__init__.py:221-227 | the fields change as the photo transition says |
| Relay.Helper.LoadImgFinish | src/plugins/hxzxhelper/__init__.py:230-248 | the fields change as the window-close transition says |
| Relay.Helper.Send2Bili | src/plugins/hxzxhelper/__init__.py:151-186 | the fields and replies are those of the publish transition |
| Relay.Helper.Fire | src/plugins/hxzxhelper/__init__.py:241-243 | a fired date job leaves the store, then runs |
| Relay.Helper.LoadMail | src/plugins/hxzxhelper/__init__.py:251-275 | the fields change as the caption transition says |
| Relay.Helper.RegisterCaption | src/plugins/hxzxhelper/__init__.py:257-275 | after the window is closed: a new number is drawn, and on a parsed first line the mail is appended, marked collecting and its window job booked, as the caption transition says |
| Relay.Helper.LoadTrans | src/plugins/hxzxhelper/__init__.py:278-320 | the fields change as the translation transition says |
| Relay.Helper.AttachTrans | src/plugins/hxzxhelper/__init__.py:289-320 | the match loop and the stat branch agree with the translation transition |
| Relay.Helper.CancelTask | src/plugins/hxzxhelper/__init__.py:199-218 | the fields change as the cancel transition says |
| Relay.Helper.PushMail | src/plugins/hxzxhelper/__init__.py:389-414 | the duplicate-time loop and the append agree with the push transition |
| Relay.Helper.SendByReply | src/plugins/hxzxhelper/__init__.py:417-438 | the fields change as the reply transition says |
| Twitter.RemoveUrlsInTweet | src/plugins/hxzxhelper/lib/twitter.py:123-135 | the loop rewrites the text link by link, in order |
| Twitter.RewriteOneLink | src/plugins/hxzxhelper/lib/twitter.py:129-134 | a picture or dlvr.it link is deleted, any other is replaced by its expansion |
| Twitter.RewrittenUntouched | src/plugins/hxzxhelper/lib/twitter.py:129-135 | text containing none of the links is unchanged |
| Twitter.IndexMediaLoop | src/plugins/hxzxhelper/lib/twitter.py:156-158 | the media loop indexes the media by key; for referenced tweets (lines 173-176) a known key is kept |
| Twitter.ScanLoop | src/plugins/hxzxhelper/lib/twitter.py:159-169 | the scan loop computes the reference scan: ids, first references, groups and authors |
| Twitter.MergeLoop | src/plugins/hxzxhelper/lib/twitter.py:177-183 | the merge loop adds each referenced tweet not yet present to its author's group |
| Twitter.NewUsersLoop | src/plugins/hxzxhelper/lib/twitter.py:184 | the users of referenced tweets are added, in order, when not yet listed |
| Twitter.ImageUrlsLoop | src/plugins/hxzxhelper/lib/twitter.py:201-207 | the attachment loop computes the url list, or the KeyError of the first missing key |
| Twitter.RenderTweetMethod | src/plugins/hxzxhelper/lib/twitter.py:192-208 | a tweet's message is the header, the rewritten text and its attachment urls |
| Twitter.RenderTweetsLoop | src/plugins/hxzxhelper/lib/twitter.py:188-209 | the inner loop renders one author's tweets, skipping retweets, and stops at the first KeyError |
| Twitter.RenderUsersLoop | src/plugins/hxzxhelper/lib/twitter.py:187-209 | the outer loop renders the users' groups in user order, a user without tweets raising KeyError |
| Twitter.ParseTweet | src/plugins/hxzxhelper/lib/twitter.py:138-212 | `parse_tweet` loop by loop computes the reference result or the KeyError it raises |
| Twitter.EmptyAnswer | src/plugins/hxzxhelper/lib/twitter.py:147-148 | no results give ("", []) |
| Twitter.ReferencesCollected | src/plugins/hxzxhelper/lib/twitter.py:159-164 | referenced ids are each collected once, and are exactly the first references |
| Twitter.TweetsGroupedByAuthor | src/plugins/hxzxhelper/lib/twitter.py:165-169 | each author's group is exactly their tweets in order, and only authors with tweets get one |
| Twitter.AuthorsListedOnce | src/plugins/hxzxhelper/lib/twitter.py:159-169 | authors are listed once each in first-appearance order, and the ids are the tweets' ids |
| Twitter.MergeKeepsIdsDistinct | src/plugins/hxzxhelper/lib/twitter.py:177-183 | merging keeps the ids distinct and adds exactly the referenced tweets' ids |
| Twitter.MergeSkipsKnown | src/plugins/hxzxhelper/lib/twitter.py:178 | a referenced tweet already present is not added again |
| Twitter.RetweetsSkipped | src/plugins/hxzxhelper/lib/twitter.py:188-209 | one message per tweet that is not a retweet |
| Twitter.OnlyRetweets | src/plugins/hxzxhelper/lib/twitter.py:189-191 | a group of retweets renders to nothing |
| Twitter.AttachmentUrls | src/plugins/hxzxhelper/lib/twitter.py:201-207 | one url per media key (`url`, else `preview_image_url`), or a KeyError naming a missing key |
| Twitter.RoundNeverGoesBack | src/plugins/hxzxhelper/lib/twitter.py:222-225 | the newest id never moves backwards in string order |
| Twitter.RoundReachesEveryAnswer | src/plugins/hxzxhelper/lib/twitter.py:218-226 | after a round the newest id is at least every reported id |
| Twitter.FailedRoundLosesMessages | src/plugins/hxzxhelper/lib/twitter.py:215-231 | a round whose second download comes back empty after the first keyword advanced returns no messages but keeps the advanced id |
| Twitter.AnsweredAll | src/plugins/hxzxhelper/lib/twitter.py:218-228 | when every keyword is answered, the round sees all their newest ids and messages in keyword order |
| Twitter.RestoreAfterTwoAdvances | src/plugins/hxzxhelper/lib/twitter.py:222-225 | after two advances in one round the saved id is the first new one, not the id before the round |
| Twitter.TweetTracker.SinceId | src/plugins/hxzxhelper/lib/twitter.py:101-102 | `since_id` is sent iff updating and an id is known, and it is that id |
| Twitter.TweetTracker.constructor | src/plugins/hxzxhelper/lib/twitter.py:19-20 | both ids start empty |
| Twitter.TweetTracker.CheckUpdate | src/plugins/hxzxhelper/lib/twitter.py:215-231 | the ids move as the round says up to the first failing keyword; the result is the messages of all keywords, nothing when a download came back empty (ValueError), or the KeyError `parse_tweet` raised |
| Twitter.TweetTracker.CheckUpdateSavingOnce | src/plugins/hxzxhelper/lib/twitter.py:215-231 | with the id saved once before the keyword loop, the newest id moves as in the round as written and the saved id is the one held when the round began |
| Twitter.TweetTracker.FailedRoundSavingOnce | src/plugins/hxzxhelper/lib/twitter.py:256-263 | with the id saved once, restoring after any round returns both ids to the newest id held before it |
| Twitter.FirstFaultIffUnanswered | src/plugins/hxzxhelper/lib/twitter.py:215-231 | a round reports a fault exactly when some keyword failed |
| Twitter.FirstFaultAt | src/plugins/hxzxhelper/lib/twitter.py:215-231 | the fault reported is the one of the first failing keyword, ValueError or KeyError |
| Twitter.RaisedRoundKeepsAdvance | src/plugins/hxzxhelper/lib/twitter.py:215-231 | a KeyError (from `twi_data[user.id]` or `twi_images[media_key]`) after one keyword advanced the id escapes the ValueError handler, and the advanced id stays advanced |
| Twitter.TweetTracker.Restore | src/plugins/hxzxhelper/lib/twitter.py:256-263 | the newest id goes back to the saved one |
| MailFeed.GuessCharset | src/plugins/hxzxhelper/lib/mail.py:30-37 | none exactly when nothing is declared and the lowered Content-Type lacks "charset="; a found value has no outer whitespace |
| MailFeed.QuotedCharsetKeepsQuotes | src/plugins/hxzxhelper/lib/mail.py:34-36 | a quoted charset comes back with its quotes (which Python's codec lookup then drops), not as the bare name |
| MailFeed.CharsetFixedReadsQuotedName | src/plugins/hxzxhelper/lib/mail.py:30-37 | the corrected reading gives the name, quoted or not, with further parameters |
| MailFeed.CharsetFixedReadsName | src/plugins/hxzxhelper/lib/mail.py:30-37 | the corrected reading gives an unquoted name unchanged, with or without further parameters |
| MailFeed.ParseMailContent | src/plugins/hxzxhelper/lib/mail.py:77-90 | the element loop yields each text followed by "\n", a "\n" per `br`, and the img sources in order |
| MailFeed.TextsOnTheirOwnLines | src/plugins/hxzxhelper/lib/mail.py:83-84 | every element's text occurs in the message followed by a line break |
| MailFeed.ReadMail | src/plugins/hxzxhelper/lib/mail.py:47-57 | the reported mail is the date and subject lines above the `text/html` body, or the error reading it raises |
| MailFeed.DownloadMailImages | src/plugins/hxzxhelper/lib/mail.py:93-99 | no urls give nothing; otherwise every download, failing iff one came back empty |
| MailFeed.MailWatcher.GetLatestMail | src/plugins/hxzxhelper/lib/mail.py:102-137 | the downward walk computes the reference scan and the new `lastmailtime` |
| MailFeed.MailWatcher.CheckMailUpdate | src/plugins/hxzxhelper/lib/mail.py:140-146 | the time moves only when mails were reported |
| MailFeed.FirstPollOnlyRecords | src/plugins/hxzxhelper/lib/mail.py:121-125 | with no time set, the poll records the newest stamp and reports nothing |
| MailFeed.ReportedAreNewer | src/plugins/hxzxhelper/lib/mail.py:126-134 | every reported mail is newer than the last time |
| MailFeed.UnmonitoredPassedOver | src/plugins/hxzxhelper/lib/mail.py:126-135 | a newer mail from elsewhere is skipped without ending the walk |
| MailFeed.OlderMailEndsWalk | src/plugins/hxzxhelper/lib/mail.py:132-134 | a mail not newer ends the walk, hiding all older ones |
| MailFeed.CheckMailNeverGoesBack | src/plugins/hxzxhelper/lib/mail.py:140-146 | once set, the time only moves forward |
| MailFeed.ParametersKept | src/plugins/hxzxhelper/lib/mail.py:34-36 | a charset followed by further parameters comes back with them, not as the charset's name |
| MailFeed.FlowedCharset | src/plugins/hxzxhelper/lib/mail.py:30-37 | `text/html; charset=utf-8; format=flowed` gives the name "utf-8" + "; format=flowed" |
| MailFeed.ParametersMailFails | src/plugins/hxzxhelper/lib/mail.py:47-57 | reading a mail whose charset carries further parameters fails with LookupError naming charset and parameters |
| MailFeed.ParametersFailPoll | src/plugins/hxzxhelper/lib/mail.py:54-56 | a new monitored mail whose charset carries further parameters makes the whole poll raise |
| MailFeed.NewestFails | src/plugins/hxzxhelper/lib/mail.py:126-134 | a new monitored mail that cannot be read makes the whole walk fail |
| MailFeed.MailWatcher.constructor | src/plugins/hxzxhelper/lib/mail.py:23 | `lastmailtime` starts empty |
| Feed.ImageSourcesComplete | src/plugins/hxzxhelper/lib/mail.py:87-88 | exactly the `src` values of the `img` elements are collected |
| Blog.ParseBlogMethod | src/plugins/hxzxhelper/lib/blog.py:20-49 | the element loop computes the reference text and image list |
| Blog.AddElement | src/plugins/hxzxhelper/lib/blog.py:35-47 | one pass of the element loop performs the element's step, with `imgcnt` one past the images seen |
| Blog.HeaderParts | src/plugins/hxzxhelper/lib/blog.py:30-33 | the text starts with the date and title lines and a blank line |
| Blog.LineBreakElements | src/plugins/hxzxhelper/lib/blog.py:36-37 | a `p` leaves the text ending in a line break, adding one only if missing; a `br` (lines 46-47) leaves it ending in an empty line, adding one or two breaks |
| Blog.PlaceholdersInText | src/plugins/hxzxhelper/lib/blog.py:42-45 | before the final strip, every image k has its placeholder in the text |
| Blog.ParsedBlogStart | src/plugins/hxzxhelper/lib/blog.py:30-31 | the message starts with the date (first ten characters) and title lines and has no "\n" at either end |
| Blog.ParsedBlogPlaceholders | src/plugins/hxzxhelper/lib/blog.py:42-45 | each collected image k has its placeholder "【第k张图片的位置】" in the message |
| Blog.TailBeforeMarker | src/plugins/hxzxhelper/lib/blog.py:40-47 | an element's tail is written before its own placeholder or line break |
| Blog.NestedTailFirst | src/plugins/hxzxhelper/lib/blog.py:35-41 | elements come in document order before their children, so a tail precedes the children's text: `<p>a<b>x</b>c</p>d` reads "adxc" |
| Blog.StepFixedPutsTailLast | src/plugins/hxzxhelper/lib/blog.py:38-47 | the corrected step writes the tail last, and agrees with the original when there is none |
| Blog.BlogWatcher.CheckBlogUpdate | src/plugins/hxzxhelper/lib/blog.py:67-78 | reports the entry and takes its time only when it is strictly newer |
| Blog.BlogWatcher.constructor | src/plugins/hxzxhelper/lib/blog.py:17 | the time starts unset |
| Blog.BlogWatcher.GetBlogF | src/plugins/hxzxhelper/lib/blog.py:81-92 | always reports the entry and takes its time |
| Blog.BlogWatcher.BlogInitial | src/plugins/hxzxhelper/lib/blog.py:95-98 | the first read records the feed's time; an empty download raises |
| Blog.ReportedOnce | src/plugins/hxzxhelper/lib/blog.py:72-76 | polling again with the same feed reports nothing |
| Blog.CheckBlogNeverGoesBack | src/plugins/hxzxhelper/lib/blog.py:67-92 | the polled time never moves back; `get_blog_f` sets it to the feed's time |
| Blog.PollBeforeInitialRaises | src/plugins/hxzxhelper/lib/blog.py:72 | before the first read, comparing with the unset time raises |
| Quiz.CheckAnswer | src/plugins/sakamichiquiz/__init__.py:156-171 | right iff the normalised answer equals some normalised `"|"`-separated solution |
| Quiz.StoredSolutionAccepted | src/plugins/sakamichiquiz/__init__.py:156-167 | typing a stored solution back, with spaces anywhere, is accepted |
| Quiz.LowerKeepsNoReturn | src/plugins/sakamichiquiz/__init__.py:160 | without carriage returns, the normalised answer holds no "\r\n" for the last `replace` to remove |
| Quiz.DropDistinct | src/plugins/sakamichiquiz/__init__.py:237 | removing a group keeps the list free of repeats and drops the group |
| Quiz.Drop | src/plugins/sakamichiquiz/__init__.py:236 | `pop(index(g))` removes one entry: every other group stays and nothing is added |
| Quiz.DrawQuestion | src/plugins/sakamichiquiz/__init__.py:99-115 | the first draw that exists, is not marked broken and survives the skip die; none iff no draw does |
| Quiz.RequestedQuestion | src/plugins/sakamichiquiz/__init__.py:84-98 | an explicit number is used iff it is decimal and names a question |
| Quiz.QuizSessions.Start | src/plugins/sakamichiquiz/__init__.py:117-121 | a group with a quiz is refused; otherwise it joins the list, the dictionary and the jobs |
| Quiz.QuizSessions.constructor | src/plugins/sakamichiquiz/__init__.py:29-30 | no group has a quiz and no job is armed |
| Quiz.QuizSessions.QnaStart | src/plugins/sakamichiquiz/__init__.py:67-137 | a running group, and only it, is refused; a stored preference `int()` cannot read ends it (BadSkipSetting iff unreadable); with an argument, NoSuchQuestion iff the number is not decimal or not in the bank, else that question; without one, the first usable draw, StillDrawing iff none is; a started quiz is registered with its question and job, and otherwise nothing changes |
| Quiz.QuizSessions.Clear | src/plugins/sakamichiquiz/__init__.py:235-239 | the group leaves the list, the dictionary and its job |
| Quiz.QuizSessions.Answer | src/plugins/sakamichiquiz/__init__.py:151-198 | every answer counts, a right one also counts as right, ends the quiz and saves the question |
| Quiz.QuizSessions.CountAttempt | src/plugins/sakamichiquiz/__init__.py:158 | the group's question counts one more answer; the quizzes and the timers are unchanged |
| Quiz.QuizSessions.Cancel | src/plugins/sakamichiquiz/__init__.py:201-214 | the question is saved as it stands and the quiz ends |
| Quiz.QuizSessions.ReportError | src/plugins/sakamichiquiz/__init__.py:217-232 | the question is marked broken, counted and saved, and the quiz ends |
| Quiz.QuizSessions.Timeout | src/plugins/sakamichiquiz/__init__.py:140-148 | the fired job's question is saved and the quiz ends |
| Quiz.UserSkip | src/plugins/sakamichiquiz/__init__.py:293-307 | the handler's reply agrees with the skip preference of the stripped, space-split argument |
| Quiz.ChooseSkips | src/plugins/sakamichiquiz/__init__.py:295-302 | the loop accepts the words iff every one is "2", "4" or "0"; then "0" among them stores "", else the words joined by "\|" |
| Quiz.ReadSkipTypes | src/plugins/sakamichiquiz/__init__.py:77-83 | the stored preference is read as numbers, none for empty or missing |
| Quiz.SkipPreferenceReadsBack | src/plugins/sakamichiquiz/__init__.py:77-83 | what `userskip_main` stores reads back without error: nothing after "0", else the chosen types in order |
| Quiz.Numbers | src/plugins/sakamichiquiz/__init__.py:77-83 | reading each piece as a plain run of digits succeeds iff all are decimal, giving their `int()` values in order |
| Quiz.StoredTypesReadBack | src/plugins/sakamichiquiz/__init__.py:77-83 | a stored "\|"-join of type words reads back as their numbers |
| Quiz.StoredReadsBack | src/plugins/sakamichiquiz/__init__.py:293-304 | every accepted choice of words is stored so that it reads back: nothing after "0", else the types in order |
| QuizParse.AnsParser | src/plugins/sakamichiquiz/__init__.py:419-435 | the loop computes the reference parse of the answers |
| QuizParse.ParsedAnswersSplitBack | src/plugins/sakamichiquiz/__init__.py:423-434 | the stored answers split back into exactly the kept pieces |
| QuizParse.KeptWithoutBar | src/plugins/sakamichiquiz/__init__.py:422-434 | no kept answer contains "\|", so the join is unambiguous |
| QuizParse.NoLineBreaks | src/plugins/sakamichiquiz/__init__.py:419-422 | a one-line input only loses its outer "\|" |
| QuizParse.EmptySolutionAcceptsEmpty | src/plugins/sakamichiquiz/__init__.py:160-167 | an empty stored solution accepts the empty answer |
| QuizParse.BlankAnswerKept | src/plugins/sakamichiquiz/__init__.py:425-427 | "a\| \|b" is stored as "a\|\|b", whose empty solution accepts a bare `#` |
| QuizParse.FixedAnswersRefuseBlank | src/plugins/sakamichiquiz/__init__.py:419-435 | stripping before the emptiness test stores only non-empty solutions, and the empty answer is never right |
| QuizParse.KeptFixedSolid | src/plugins/sakamichiquiz/__init__.py:425-427 | the corrected loop keeps only answers that are non-empty and start with a non-space |
| QuizParse.SolidNotBlank | src/plugins/sakamichiquiz/__init__.py:165 | such an answer never normalises to the empty string |
| QuizParse.ExtractIdReadsNumber | src/plugins/sakamichiquiz/__init__.py:336-339 | a text starting with a number and a space yields that number, other segments untouched |
| QuizParse.ExtractIdRefuses | src/plugins/sakamichiquiz/__init__.py:337-338 | a first segment that is not text, or starts with a non-digit, is refused |
| QuizParse.FirstWord | src/plugins/sakamichiquiz/__init__.py:337 | `split(" ")[0]` is a prefix of the text |
| QuizParse.FirstWordOf | src/plugins/sakamichiquiz/__init__.py:337-339 | the first word of "n rest" is the decimal rendering of n |
| QuizParse.DigitsEatAnswer | src/plugins/sakamichiquiz/__init__.py:340 | an answer ending in one of the id's digits comes out shorter than typed |
| QuizParse.ExtractIdEatsDigits | src/plugins/sakamichiquiz/__init__.py:340 | an answer ending in a digit of the id is cut short |
| QuizParse.ExtractIdFixedRoundTrip | src/plugins/sakamichiquiz/__init__.py:336-341 | the corrected cut returns the number and the text after it unchanged |
| QuizParse.RestAfterNumber | src/plugins/sakamichiquiz/__init__.py:340 | cutting the number's length off "n c" and the spaces gives c back |
| QuizParse.QuesParser | src/plugins/sakamichiquiz/__init__.py:363-391 | the loop computes the reference parse of the question |
| QuizParse.FileNames | src/plugins/sakamichiquiz/__init__.py:368-387 | every picture contributes a non-empty file name |
| QuizParse.FileNamesFound | src/plugins/sakamichiquiz/__init__.py:368-387 | a question with a picture has at least one file name |
| QuizParse.QuestionTextHolds | src/plugins/sakamichiquiz/__init__.py:367-381 | every character a segment contributes reaches the question text |
| QuizParse.NothingToShow | src/plugins/sakamichiquiz/__init__.py:367-387 | unsupported segments give neither text nor files |
| QuizParse.PictureQuestionAccepted | src/plugins/sakamichiquiz/__init__.py:383-387 | a question with an image is accepted as an image question with its files joined by "\|" |
| QuizParse.VisibleTextAccepted | src/plugins/sakamichiquiz/__init__.py:378-390 | a visible character of a text segment makes the question accepted and stays in its text |
| QuizParse.EmptyQuestionRefused | src/plugins/sakamichiquiz/__init__.py:389-390 | a message of neither text nor images is refused |
| QuizStore.SetListPlaceholders | src/plugins/sakamichiquiz/data_source.py:181-191 | the SET list has one placeholder per argument and ends in its comma |
| QuizStore.ClauseHasOnePlaceholder | src/plugins/sakamichiquiz/data_source.py:184-187 | each whitelisted `key= %s,` clause has one placeholder |
| QuizStore.UpdatePlaceholdersMatchArguments | src/plugins/sakamichiquiz/data_source.py:181-193 | the UPDATE has as many placeholders as arguments, the record id last |
| QuizStore.AssignedKeepsOtherColumns | src/plugins/sakamichiquiz/data_source.py:181-191 | keys outside the whitelists never change a column |
| QuizStore.AssignedSetsLast | src/plugins/sakamichiquiz/data_source.py:181-191 | a whitelisted item not overridden later sets its column |
| QuizStore.SavedQuestionCounters | src/plugins/sakamichiquiz/__init__.py:242-250 | saving a question writes its counters and answers and leaves its id alone |
| QuizStore.RecordAccepted | src/plugins/sakamichiquiz/data_source.py:181-191 | `dict(question)` always passes the conversions and names a column |
| QuizStore.SetListSucceeds | src/plugins/sakamichiquiz/data_source.py:181-187 | a record whose `typ` and `sakagroup` values pass `int()` always gets through the edit loop, and a whitelisted plain column always writes a clause |
| QuizStore.TotalRankOrders | src/plugins/sakamichiquiz/data_source.py:250-251 | more answers rank strictly ahead |
| QuizStore.AccuracyRankOrders | src/plugins/sakamichiquiz/data_source.py:253 | among users with over 20 answers, higher accuracy ranks strictly ahead |
| QuizStore.MostAnswersRanksFirst | src/plugins/sakamichiquiz/data_source.py:250-251 | a user with the largest total ranks first |
| QuizStore.LargestKey | src/plugins/sakamichiquiz/data_source.py:206-219 | a non-empty table has a largest id |
| QuizStore.QuestionStore.Total | src/plugins/sakamichiquiz/data_source.py:206-219 | `totl` is the number of questions and `lastid` the largest id |
| QuizStore.QuestionStore.constructor | src/plugins/sakamichiquiz/data_source.py:16-23 | the store opens on the tables with `totl` their size and `lastid` the largest id, 0 for an empty table |
| QuizStore.QuestionStore.Fetch | src/plugins/sakamichiquiz/data_source.py:77-93 | the row, or IndexError iff the id is absent |
| QuizStore.QuestionStore.Edit | src/plugins/sakamichiquiz/data_source.py:167-194 | a missing row gives IndexError; a bad value or empty SET list fails unchanged; otherwise the row takes the assigned columns |
| QuizStore.QuestionStore.Remove | src/plugins/sakamichiquiz/data_source.py:146-165 | the row is archived and deleted iff it exists and is not archived yet; on failure nothing changes |
| QuizStore.QuestionStore.UpdateUserCounter | src/plugins/sakamichiquiz/data_source.py:221-233 | an unknown user starts at (0, 0); total +1, correct +1 iff right; others unchanged |
| QuizStore.QuestionStore.UpdateUserSkiptype | src/plugins/sakamichiquiz/data_source.py:235-244 | an unknown user is created, then the preference is stored; others unchanged |
| QuizStore.QuestionStore.GetUserInfo | src/plugins/sakamichiquiz/data_source.py:246-262 | IndexError iff unknown; ranks ("-", "-") iff 20 answers or fewer |
| QuizStore.QuestionStore.LatestQuestionId | src/plugins/sakamichiquiz/data_source.py:264-281 | -1 iff every question has been answered, else an unanswered one |

## Left out

- Chat plumbing is not modelled: command registration, `bot.send`, `finish`/`reject` and the event classes. A handler's replies are a list, and its `finish` is the end of the transition.
- The scheduler is a map from job id to run date. `asyncio.sleep` and the grace before a forced window close are not modelled. The forced close runs before the caption, as the sleep lets it.
- Concurrency is not modelled: `send2bili` capturing `mailindex` before its awaits, and handlers interleaving.
- Network and storage calls are parameters: downloads, the publishing service, the Twitter API, POP3, MySQL and file writes. The `_execute`/`_select` reconnect loops are not modelled.
- Foreign parsers are not modelled: lxml, `email`, dateutil, `zhconv` (a `convert` parameter), `imghdr` (the type a picture segment carries) and PIL rendering.
- Time zones and `timestamp()` are not modelled: timestamps are computed as UTC, and feed times arrive already converted.
- Floating point and randomness are not modelled: accuracy percentages are compared exactly by cross-multiplication, the grid side `s` is given, and the random draws and dice of `qnastart` are inputs.
- `Text.Strip` approximates Python's whitespace with ASCII white space.
- Text.Lower: lowers ASCII letters only. Python's `lower` maps every cased Unicode letter, lowers 'İ' to two characters and picks the final sigma by context.
- Quiz.CheckAnswer (and Quiz.NormalAnswer): answers that differ only in the case of a non-ASCII letter ("Émile" against "émile") are judged different in the model and equal in the source.
- Quiz.Numbers and QuizStore.IntText: `int()` also accepts surrounding whitespace, a sign and underscores between digits ("+2", "-1", " 2", "2_0"); the model reads only plain runs of digits and treats the rest as the ValueError. The preference `qnastart` reads is written by `userskip`, which stores only "2" and "4" joined by "|" (Quiz.SkipPreferenceReadsBack), so the difference needs a value written to the table by other means.
- MailFeed.ParseMail: `known` stands for the charset names `bytes.decode` accepts. Python's codec lookup also normalises a name (case, quotes, punctuation); the model leaves that to the set.
- MailFeed.GuessCharset: lowers the Content-Type with the same ASCII-only Text.Lower, which differs from the source only for non-ASCII header text.
- `str()` of a chat message does not escape CQ codes in the model.
- Registry.SegmentText: an image segment renders as "" rather than as its `[CQ:image,file=…,url=…]` code, so the `raw_text` that `sendbyreply` stores, previews and publishes for a quoted message with pictures lacks the code text the source keeps.
- `_parse2question` field validation is not modelled: the question bank is a map of `Question` values.
- `new` (the INSERT of a question and its auto-increment id) and `query` are not modelled: the bank is given as a map.
- A database error raised inside `qnauserupdate` does not abort the handler in the model.
- `_anal_parser` and the analysis/edit/delete command handlers are not modelled beyond the parsers and store operations they call.
- RegistryProperties.CancelEffect (which requires increasing mail numbers), TranslationEffect and the other lemmas that require `RegistryLemmas.Inv`: stated for reachable states only, which InitInv and the KeepsInv lemmas characterise.
- Blog.StepFixed: repairs the tail order only for elements without children (an `img`, a `br`). Putting a tail after an element's children needs the element tree, which the model flattens into document order.
- Blog.ParsedBlogStart and Blog.HeaderParts: stated for titles that do not end in a line break, since the final strip may eat into such a title.
- Quiz.QuizSessions.QnaStart: the random loop is given a finite list of draws and answers StillDrawing when they run out. In the source the `while True` never ends when no question of the bank is usable, and with an empty bank `random.randint(1, sql.totl)` raises a ValueError that the loop does not catch; neither is modelled.
- Quiz.QuizSessions.Timeout: requires the group's job to be armed, because the scheduler only fires armed jobs.
- Quiz.QuizSessions.Clear: requires the group to be running. Every caller checks that first, and for a missing group `list.index` would raise ValueError.

## Findings

Each as-written member exhibits the behaviour of the code. The corrected member proves the intended property of a repaired definition. The rest of the model follows the code as written, so that its other properties describe the program as it behaves.

| source | as written | input that shows it | evidently intended | confidence | as-written member | corrected member |
|---|---|---|---|---|---|---|
| src/plugins/hxzxhelper/lib/twitter.py:222-225 | the saved id is overwritten at every advance within a round | two keywords both advance the newest id in one round, then the round is restored | restoring returns to the id held before the round | not executed | Twitter.RestoreAfterTwoAdvances | Twitter.TweetTracker.FailedRoundSavingOnce |
| src/plugins/hxzxhelper/lib/mail.py:34-36 | everything after "charset=" is taken, later parameters included | `text/html; charset=utf-8; format=flowed` gives "utf-8; format=flowed", which `decode` rejects with LookupError, so the poll raises | the charset parameter alone | not executed | MailFeed.ParametersFailPoll | MailFeed.CharsetFixedReadsName |
| src/plugins/hxzxhelper/lib/blog.py:35-47 | an element's tail is written right after its own text: before its image placeholder or `br` break, and before the text of its children | `<img src=x>after` gives "after【第1张图片的位置】"; `<p>a<b>x</b>c</p>d` gives "adxc" | each tail after the element's placeholder, break and children | not executed | Blog.TailBeforeMarker | Blog.StepFixedPutsTailLast |
| src/plugins/sakamichiquiz/__init__.py:425-427 | the emptiness test runs before the spaces are stripped | answers "a\| \|b" are stored as "a\|\|b", and a bare `#` is then right | blank answers dropped | not executed | QuizParse.BlankAnswerKept | QuizParse.FixedAnswersRefuseBlank |
| src/plugins/sakamichiquiz/__init__.py:340 | `strip(str(quesid))` strips the id's digits as a set of characters from both ends | "12 2021" for question 12 stores the answer "20" | remove the leading number only | not executed | QuizParse.ExtractIdEatsDigits | QuizParse.ExtractIdFixedRoundTrip |
