/**
 * The effect of each relay handler on the registry, proved of the transition
 * functions in registry.dfy under the invariant of registry_lemmas.dfy: which
 * mails change and how, which jobs are booked, what stays untouched, and two
 * event sequences in which the code does something its replies do not say.
 */
module RegistryProperties {
  import opened Wrappers
  import opened Text
  import opened TimeParse
  import opened MailModel
  import opened Registry
  import opened RegistryLemmas

  // ---------------------------------------------------------------------------
  // Window close

  /**
   * Closing the window appends the buffered images to the collecting mail in
   * arrival order, empties the buffer and clears the pointer; stat 2 becomes 3
   * with a publish job under `str(no)` ten minutes on, any other stat becomes
   * 1. Under the invariant the job id is always free. No other mail changes.
   */
  lemma CloseWindowEffect(st: State, now: int)
    requires Inv(st) && WindowJob !in st.jobs && st.collecting.Some?
    requires FindByNo(st.mails, st.collecting.value).Some?
    ensures var i := FindByNo(st.mails, st.collecting.value).value;
            var m := st.mails[i];
            var r := CloseWindow(st, now);
            && r.raised == None
            && |r.st.mails| == |st.mails|
            && r.st.mails[i].images == m.images + st.buffer
            && r.st.mails[i].stat == (if m.stat == 2 then 3 else 1)
            && r.st.mails[i] == m.(images := r.st.mails[i].images, stat := r.st.mails[i].stat)
            && (forall j :: 0 <= j < |st.mails| && j != i ==> r.st.mails[j] == st.mails[j])
            && r.st.buffer == [] && r.st.collecting == None && r.st.mailcnt == st.mailcnt
            && r.st.jobs == (if m.stat == 2 then st.jobs[NatToString(m.no) := Publish(m.no, now + WaitBeforeSend)] else st.jobs)
            && r.replies == (if m.stat == 2 then [PreviewOf(m.no)] else [])
  {
    var i := FindByNo(st.mails, st.collecting.value).value;
    assert NatToString(st.mails[i].no) !in st.jobs;
  }

  // ---------------------------------------------------------------------------
  // Captions

  /**
   * A caption whose first line does not parse leaves the registry, the buffer
   * and the jobs as they were when no window was open; only the number the
   * discarded Mail took is gone.
   */
  lemma LoadMailParseFailure(st: State, raw: string, now: int)
    requires ParseTime(FirstLine(raw)).None? && st.collecting.None?
    ensures LoadMail(st, raw, now) == Done(st.(mailcnt := st.mailcnt + 1), [])
  {
  }

  /**
   * A caption arriving while a mail collects images: the open window is closed
   * first (its images flushed, its stat moved on), and only then is the new
   * mail appended and made the single collecting mail, with a fresh window
   * job. A caption that does not parse still closes the window.
   */
  lemma LoadMailClosesFirst(st: State, raw: string, now: int)
    requires Inv(st) && st.collecting.Some? && WindowJob in st.jobs
    requires FindByNo(st.mails, st.collecting.value).Some?
    ensures var closed := CloseWindow(st.(jobs := st.jobs - {WindowJob}), now).st;
            var r := LoadMail(st, raw, now);
            && r.raised == None
            && closed.collecting == None && closed.buffer == []
            && r.st.buffer == []
            && r.st.mailcnt == st.mailcnt + 1
            && match ParseTime(FirstLine(raw))
               case None =>
                 r.st == closed.(mailcnt := st.mailcnt + 1)
               case Some(t) =>
                 && r.st.mails == closed.mails + [FreshMail(st.mailcnt).(time := t, rawText := Strip(raw, {' '}))]
                 && r.st.collecting == Some(st.mailcnt)
                 && r.st.jobs == closed.jobs[WindowJob := WindowClose(now + WaitForImages)]
  {
    var st0 := st.(jobs := st.jobs - {WindowJob});
    InvDropJob(st, WindowJob);
    CloseWindowEffect(st0, now);
    ForcedCloseKeepsInv(st, now);
  }

  /** With no window open, a parsed caption becomes the collecting mail with a fresh number. */
  lemma LoadMailOpensWindow(st: State, raw: string, now: int, t: int)
    requires Inv(st) && st.collecting.None? && ParseTime(FirstLine(raw)) == Some(t)
    ensures var r := LoadMail(st, raw, now);
            && r.raised == None
            && r.st.mails == st.mails + [Mail(st.mailcnt, Strip(raw, {' '}), [], "", t, 0)]
            && r.st.collecting == Some(st.mailcnt)
            && r.st.jobs == st.jobs[WindowJob := WindowClose(now + WaitForImages)]
            && r.st.buffer == st.buffer
            && r.st.mailcnt == st.mailcnt + 1
  {
    assert WindowJob !in st.jobs;
  }

  // ---------------------------------------------------------------------------
  // Photos

  /**
   * A photo joins the end of the buffer exactly when a mail is collecting and
   * it is a single image from a sender with the expected dimensions; nothing
   * else in the state changes.
   */
  lemma PhotoBufferedIff(st: State, fromSender: bool, message: seq<Segment>, width: int, height: int)
    ensures var st' := LoadImage(st, fromSender, message, width, height);
            && st'.(buffer := st.buffer) == st
            && (st'.buffer != st.buffer <==>
                && st.collecting.Some? && fromSender && |message| == 1 && message[0].Image?
                && (width == 960 || height == 1280 || height == 720)
                && message[0].data != [])
            && (st'.buffer != st.buffer ==> st'.buffer == st.buffer + [message[0].data])
  {
    if IsMailImage(st, fromSender, message, width, height) && message[0].data != [] {
      assert |LoadImage(st, fromSender, message, width, height).buffer| == |st.buffer| + 1;
    }
  }

  // ---------------------------------------------------------------------------
  // Translations

  /**
   * A translation whose time matches: it is written into the FIRST mail with
   * that time, overwriting what was there; stat 1 becomes 3 and books a publish
   * job, stat 3 keeps its job with the run date moved to ten minutes from now,
   * stat 0 and 2 become 2. No other mail changes and no exception escapes.
   */
  lemma TranslationEffect(st: State, raw: string, now: int, t: int, i: nat)
    requires Inv(st) && ParseTime(FirstLine(raw)) == Some(t)
    requires i < |st.mails| && st.mails[i].time == t && forall j :: 0 <= j < i ==> st.mails[j].time != t
    ensures var m := st.mails[i];
            var key := NatToString(m.no);
            var r := LoadTranslation(st, raw, now);
            && |r.st.mails| == |st.mails|
            && r.st.mails[i] == m.(translation := raw, stat := r.st.mails[i].stat)
            && (forall j :: 0 <= j < |st.mails| && j != i ==> r.st.mails[j] == st.mails[j])
            && r.st.buffer == st.buffer && r.st.collecting == st.collecting && r.st.mailcnt == st.mailcnt
            && (m.stat == 1 ==>
                  r.st.mails[i].stat == 3 && r.raised == None && r.st.jobs == st.jobs[key := Publish(m.no, now + WaitBeforeSend)])
            && (m.stat == 3 && key in st.jobs ==>
                  r.st.mails[i].stat == 3 && r.raised == None && r.st.jobs == st.jobs[key := Publish(m.no, now + WaitBeforeSend)])
            && (m.stat == 3 && key !in st.jobs ==>
                  r.st.mails[i].stat == 3 && r.raised == Some(JobLookupError) && r.st.jobs == st.jobs)
            && (m.stat == 0 || m.stat == 2 ==> r.st.mails[i].stat == 2 && r.raised == None && r.st.jobs == st.jobs)
            && (m.translation != "" <==> |r.replies| > 0 && r.replies[0] == TranslationOverwritten(m.no))
  {
    var m := st.mails[i];
    assert FindByTime(st.mails, t) == Some(i) by {
      var f := FindByTime(st.mails, t);
      if f.None? || f.value != i {
        assert false;
      }
    }
    AttachKeepsOthers(st, raw, t, now, i);
    if m.stat == 1 {
      assert NatToString(m.no) !in st.jobs;
      AttachToCollected(st, raw, t, now, i);
    } else if m.stat == 3 {
      if NatToString(m.no) in st.jobs {
        NumberedJob(st, m.no);
      }
      AttachToBooked(st, raw, t, now, i);
    }
  }

  /** What a matching translation does to everything but the stat and the jobs. */
  lemma AttachKeepsOthers(st: State, raw: string, t: int, now: int, i: nat)
    requires i < |st.mails| && FindByTime(st.mails, t) == Some(i) && st.mails[i].stat <= 3
    ensures var m := st.mails[i];
            var r := AttachTranslation(st, raw, t, now);
            && |r.st.mails| == |st.mails|
            && r.st.mails[i] == m.(translation := raw, stat := r.st.mails[i].stat)
            && (forall j :: 0 <= j < |st.mails| && j != i ==> r.st.mails[j] == st.mails[j])
            && r.st.buffer == st.buffer && r.st.collecting == st.collecting && r.st.mailcnt == st.mailcnt
            && (m.stat == 0 || m.stat == 2 ==> r.st.mails[i].stat == 2 && r.raised == None && r.st.jobs == st.jobs)
            && (m.translation != "" <==> |r.replies| > 0 && r.replies[0] == TranslationOverwritten(m.no))
  {
  }

  /** A translation for a mail whose images are in (stat 1) books its publish job. */
  lemma AttachToCollected(st: State, raw: string, t: int, now: int, i: nat)
    requires i < |st.mails| && FindByTime(st.mails, t) == Some(i) && st.mails[i].stat == 1
    requires NatToString(st.mails[i].no) !in st.jobs
    ensures var m := st.mails[i];
            var r := AttachTranslation(st, raw, t, now);
            && r.st.mails[i].stat == 3 && r.raised == None
            && r.st.jobs == st.jobs[NatToString(m.no) := Publish(m.no, now + WaitBeforeSend)]
  {
  }

  /** A new translation for a booked mail (stat 3) moves its job, or raises when the job is gone. */
  lemma AttachToBooked(st: State, raw: string, t: int, now: int, i: nat)
    requires i < |st.mails| && FindByTime(st.mails, t) == Some(i) && st.mails[i].stat == 3
    requires var key := NatToString(st.mails[i].no);
             key in st.jobs ==> st.jobs[key].Publish? && st.jobs[key].no == st.mails[i].no
    ensures var m := st.mails[i];
            var key := NatToString(m.no);
            var r := AttachTranslation(st, raw, t, now);
            && r.st.mails[i].stat == 3
            && (key in st.jobs ==> r.raised == None && r.st.jobs == st.jobs[key := Publish(m.no, now + WaitBeforeSend)])
            && (key !in st.jobs ==> r.raised == Some(JobLookupError) && r.st.jobs == st.jobs)
  {
  }

  /** A translation that matches no mail, or whose first line does not parse, changes nothing. */
  lemma TranslationWithoutMatch(st: State, raw: string, now: int)
    requires ParseTime(FirstLine(raw)).None? || !HasTime(st.mails, ParseTime(FirstLine(raw)).value)
    ensures LoadTranslation(st, raw, now) == Done(st, [])
  {
  }

  /** A message whose first line parses is not empty. */
  lemma ParsedMessageNonEmpty(raw: string)
    requires ParseTime(FirstLine(raw)).Some?
    ensures raw != ""
  {
    ParseTimeNeedsAllFragments(FirstLine(raw));
  }

  /** The part of a matching translation that does not depend on the stat: the write and its notice. */
  lemma TranslationWritten(st: State, raw: string, now: int, t: int, i: nat)
    requires i < |st.mails| && st.mails[i].time == t && forall j :: 0 <= j < i ==> st.mails[j].time != t
    ensures var r := AttachTranslation(st, raw, t, now);
            && |r.st.mails| == |st.mails|
            && r.st.mails[i].translation == raw && r.st.mails[i].no == st.mails[i].no
            && (forall j :: 0 <= j < |st.mails| ==> r.st.mails[j].time == st.mails[j].time)
            && (st.mails[i].translation != "" ==> |r.replies| > 0 && r.replies[0] == TranslationOverwritten(st.mails[i].no))
  {
    assert FindByTime(st.mails, t) == Some(i) by {
      var f := FindByTime(st.mails, t);
      if f.None? || f.value != i {
        assert false;
      }
    }
  }

  /**
   * Two translations for the same time (a translation that parses is never
   * empty, by ParsedMessageNonEmpty): the second one is what the mail keeps,
   * and the overwrite is announced.
   */
  lemma TranslationLastWriteWins(st: State, raw1: string, raw2: string, now1: int, now2: int, t: int, i: nat)
    requires raw1 != ""
    requires i < |st.mails| && st.mails[i].time == t && forall j :: 0 <= j < i ==> st.mails[j].time != t
    ensures var st1 := AttachTranslation(st, raw1, t, now1).st;
            var r := AttachTranslation(st1, raw2, t, now2);
            && i < |r.st.mails| && r.st.mails[i].translation == raw2
            && |r.replies| > 0 && r.replies[0] == TranslationOverwritten(st.mails[i].no)
  {
    var st1 := AttachTranslation(st, raw1, t, now1).st;
    assert && i < |st1.mails| && st1.mails[i].translation == raw1 && st1.mails[i].no == st.mails[i].no
           && st1.mails[i].time == t && (forall j :: 0 <= j < i ==> st1.mails[j].time != t) by {
      TranslationWritten(st, raw1, now1, t, i);
    }
    TranslationWritten(st1, raw2, now2, t, i);
  }

  // ---------------------------------------------------------------------------
  // Cancelling

  /** A non-decimal argument only asks for a number. */
  lemma CancelNeedsNumber(st: State, text: string)
    requires !IsDecimal(Strip(text, {' '}))
    ensures Cancel(st, text) == Done(st, [AskForNumber])
  {
  }

  /**
   * A decimal argument removes exactly the first mail with that number and
   * keeps the others in order; afterwards no mail carries that number. The job
   * named by the argument is removed if it exists; the reply says which case
   * happened. With no such mail nothing changes.
   */
  lemma CancelEffect(st: State, text: string)
    requires NumbersIncreasing(st.mails) && IsDecimal(Strip(text, {' '}))
    ensures var arg := Strip(text, {' '});
            var no := DecimalValue(arg);
            var r := Cancel(st, text);
            match FindByNo(st.mails, no)
            case None => r == Done(st, [NotFound])
            case Some(i) =>
              && r.st.mails == st.mails[..i] + st.mails[i + 1..]
              && (forall j :: 0 <= j < |r.st.mails| ==> r.st.mails[j].no != no)
              && r.st.jobs == st.jobs - {arg}
              && r.st.buffer == st.buffer && r.st.collecting == st.collecting && r.st.mailcnt == st.mailcnt
              && r.replies == (if arg in st.jobs then [Cancelled(arg)] else [NotYetQueued(arg)])
  {
    var arg := Strip(text, {' '});
    var no := DecimalValue(arg);
    if FindByNo(st.mails, no).Some? {
      RemovedNumberGone(st.mails, FindByNo(st.mails, no).value, no);
    }
  }

  /** With increasing numbers, removing the mail numbered `no` leaves no mail with that number. */
  lemma RemovedNumberGone(mails: seq<Mail>, i: nat, no: nat)
    requires NumbersIncreasing(mails) && i < |mails| && mails[i].no == no
    ensures forall j :: 0 <= j < |RemoveAt(mails, i)| ==> RemoveAt(mails, i)[j].no != no
  {
    var rest := RemoveAt(mails, i);
    forall j | 0 <= j < |rest| ensures rest[j].no != no {
      if j < i {
        assert rest[j] == mails[j];
      } else {
        assert rest[j] == mails[j + 1];
      }
    }
  }

  /** CancelEffect for a stripped argument `arg` naming a booked mail `no`. */
  lemma CancelFound(st: State, text: string, arg: string, no: nat)
    requires NumbersIncreasing(st.mails) && Strip(text, {' '}) == arg && IsDecimal(arg) && DecimalValue(arg) == no
    requires exists j :: 0 <= j < |st.mails| && st.mails[j].no == no
    ensures var r := Cancel(st, text);
            && (forall j :: 0 <= j < |r.st.mails| ==> r.st.mails[j].no != no)
            && |r.st.mails| == |st.mails| - 1
            && r.st.jobs == st.jobs - {arg}
            && r.replies == (if arg in st.jobs then [Cancelled(arg)] else [NotYetQueued(arg)])
  {
    assert FindByNo(st.mails, no).Some?;
    CancelEffect(st, text);
  }

  /**
   * The hint a preview ends with, "取消发送 N": the command argument " N" cancels
   * mail N and its publish job, whichever way it was booked.
   */
  lemma CancelHintRoundTrip(st: State, no: nat)
    requires NumbersIncreasing(st.mails) && exists j :: 0 <= j < |st.mails| && st.mails[j].no == no
    ensures var r := Cancel(st, " " + NatToString(no));
            && (forall j :: 0 <= j < |r.st.mails| ==> r.st.mails[j].no != no)
            && |r.st.mails| == |st.mails| - 1
            && NatToString(no) !in r.st.jobs
            && r.replies == (if NatToString(no) in st.jobs then [Cancelled(NatToString(no))] else [NotYetQueued(NatToString(no))])
  {
    HintArgument(no);
    CancelArgumentGone(st, " " + NatToString(no), NatToString(no), no);
  }

  /** The argument " N" strips to the decimal N. */
  lemma HintArgument(no: nat)
    ensures var s := NatToString(no);
            Strip(" " + s, {' '}) == s && IsDecimal(s) && DecimalValue(s) == no
  {
    var s := NatToString(no);
    assert " " + s == [' '] + s;
    StripLeading(' ', s, {' '});
    DecimalUnstripped(s);
    NatToStringRoundTrip(no);
  }

  /** CancelFound, seen from the job table: the argument names no job afterwards. */
  lemma CancelArgumentGone(st: State, text: string, arg: string, no: nat)
    requires NumbersIncreasing(st.mails) && Strip(text, {' '}) == arg && IsDecimal(arg) && DecimalValue(arg) == no
    requires exists j :: 0 <= j < |st.mails| && st.mails[j].no == no
    ensures var r := Cancel(st, text);
            && (forall j :: 0 <= j < |r.st.mails| ==> r.st.mails[j].no != no)
            && |r.st.mails| == |st.mails| - 1
            && arg !in r.st.jobs
            && r.replies == (if arg in st.jobs then [Cancelled(arg)] else [NotYetQueued(arg)])
  {
    CancelFound(st, text, arg, no);
  }

  /** Removing one key keeps every other key. */
  lemma KeyOutlivesOtherRemoval(jobs: map<string, Job>, gone: string, k: string)
    requires k in jobs && k != gone
    ensures k in jobs - {gone}
  {
  }

  /** "0" + str(no) is a decimal argument for `no` that strips to itself and names no job. */
  lemma LeadingZeroArgument(st: State, no: nat)
    requires JobsWellFormed(st)
    ensures var arg := "0" + NatToString(no);
            && IsDecimal(arg) && DecimalValue(arg) == no && Strip(arg, {' '}) == arg
            && arg !in st.jobs && arg != NatToString(no)
  {
    var s := NatToString(no);
    var arg := "0" + s;
    DecimalLeadingZero(s);
    NatToStringRoundTrip(no);
    StripKeeps(arg, {' '});
    if arg in st.jobs {
      assert false;
    }
    assert |s| < |arg|;
  }

  /**
   * Cancelling "07" where mail 7 is booked: the mail leaves the registry but
   * the job "7" stays armed (the lookup uses the argument as written), and the
   * reply says the mail was not yet queued. When the job fires, its mail is
   * no longer found and nothing is published.
   */
  lemma CancelWithLeadingZero(st: State, no: nat)
    requires NumbersIncreasing(st.mails) && JobsWellFormed(st)
    requires (exists j :: 0 <= j < |st.mails| && st.mails[j].no == no) && NatToString(no) in st.jobs
    ensures var arg := "0" + NatToString(no);
            var r := Cancel(st, arg);
            && (forall j :: 0 <= j < |r.st.mails| ==> r.st.mails[j].no != no)
            && NatToString(no) in r.st.jobs
            && r.replies == [NotYetQueued(arg)]
  {
    var s := NatToString(no);
    var arg := "0" + s;
    var r := Cancel(st, arg);
    assert r.st.jobs == st.jobs - {arg} && s != arg && r.replies == [NotYetQueued(arg)]
           && (forall j :: 0 <= j < |r.st.mails| ==> r.st.mails[j].no != no) by {
      LeadingZeroArgument(st, no);
      CancelFound(st, arg, arg, no);
    }
    KeyOutlivesOtherRemoval(st.jobs, arg, s);
  }

  // ---------------------------------------------------------------------------
  // Publishing

  /** The poll loop makes at most six polls. */
  lemma PollsAtMostSix(polls: nat -> Poll)
    ensures PollLoop(polls, 0, Retries).1 <= 6
  {
  }

  /**
   * The poll loop gives up ("status unknown") exactly when every one of its
   * attempts meets a dropped connection; otherwise it stops at the first poll
   * that is not a dropped connection and that poll decides the result.
   */
  lemma {:induction false} PollLoopUnknownIff(polls: nat -> Poll, k: nat, retry: nat)
    ensures var r := PollLoop(polls, k, retry);
            && (r.0 == StatusUnknown <==> forall j :: k <= j < k + retry ==> polls(j) == Disconnected)
            && (r.0 != StatusUnknown ==>
                  && k < r.1 && (forall j :: k <= j < r.1 - 1 ==> polls(j) == Disconnected)
                  && polls(r.1 - 1) != Disconnected
                  && r.0 == match polls(r.1 - 1)
                            case Info(d) => Posted(d)
                            case PollRejected => PollFailed
                            case _ => PollError)
    decreases retry
  {
    if retry > 0 {
      PollLoopUnknownIff(polls, k + 1, retry - 1);
    }
  }

  /**
   * `send2bili` removes the mail from the registry only when a status was
   * obtained; a rejected submission, an exhausted poll budget or a refused
   * poll keep it. Nothing else in the state changes.
   */
  lemma SendPopsOnlyWhenPosted(st: State, no: nat, submit: Submit, polls: nat -> Poll)
    ensures var r := SendToBili(st, no, submit, polls);
            && r.st.(mails := st.mails) == st
            && (r.st.mails != st.mails <==>
                  FindByNo(st.mails, no).Some? && submit == Accepted && PollLoop(polls, 0, Retries).0.Posted?)
            && (r.st.mails != st.mails ==>
                  r.st.mails == RemoveAt(st.mails, FindByNo(st.mails, no).value))
  {
    var f := FindByNo(st.mails, no);
    if f.Some? && submit == Accepted && PollLoop(polls, 0, Retries).0.Posted? {
      assert |SendToBili(st, no, submit, polls).st.mails| == |st.mails| - 1;
    }
  }

  /** Exhausted retries report "status unknown" and keep the mail. */
  lemma SendExhausted(st: State, no: nat, polls: nat -> Poll)
    requires FindByNo(st.mails, no).Some?
    requires forall j :: 0 <= j < 6 ==> polls(j) == Disconnected
    ensures SendToBili(st, no, Accepted, polls) == Done(st, [SentStatusUnknown(no)])
  {
    PollLoopUnknownIff(polls, 0, Retries);
  }

  // ---------------------------------------------------------------------------
  // Mailbox pushes

  predicate TimesDistinct(mails: seq<Mail>)
  {
    forall i, j :: 0 <= i < j < |mails| ==> mails[i].time != mails[j].time
  }

  /**
   * A pushed mail whose time is registered is dropped; otherwise it joins the
   * registry with the next number and stat 1. Either way no time that was
   * unique becomes duplicated.
   */
  lemma PushMailEffect(st: State, content: string, images: seq<Bytes>, t: int)
    ensures var st' := PushMail(st, content, images, t);
            && (content == "" || HasTime(st.mails, t) ==> st' == st)
            && (content != "" && !HasTime(st.mails, t) ==>
                  st' == st.(mails := st.mails + [Mail(st.mailcnt, content, images, "", t, 1)], mailcnt := st.mailcnt + 1))
            && (TimesDistinct(st.mails) ==> TimesDistinct(st'.mails))
  {
    if HasTime(st.mails, t) {
      var j :| 0 <= j < |st.mails| && st.mails[j].time == t;
      assert FindByTime(st.mails, t).Some?;
    } else if content != "" {
      var st' := PushMail(st, content, images, t);
      assert FindByTime(st.mails, t).None?;
      if TimesDistinct(st.mails) {
        forall i, j | 0 <= i < j < |st'.mails| ensures st'.mails[i].time != st'.mails[j].time {
          if j == |st.mails| {
            assert st'.mails[i] == st.mails[i];
          }
        }
      }
    }
  }

  // ---------------------------------------------------------------------------
  // Relayed tweets

  /** A reply to a relayed tweet books the new entry for publishing at once, with the reply as its translation. */
  lemma SendByReplyEffect(st: State, quoted: seq<Segment>, message: string, now: int)
    requires Inv(st) && quoted != [] && Find(SegmentText(quoted[0]), TweetMarker) != -1
    ensures var r := SendByReply(st, quoted, message, now);
            var key := NatToString(st.mailcnt);
            && r.raised == None
            && |r.st.mails| == |st.mails| + 1 && r.st.mails[..|st.mails|] == st.mails
            && r.st.mails[|st.mails|].no == st.mailcnt
            && r.st.mails[|st.mails|].translation == Strip(message, {' '})
            && r.st.mails[|st.mails|].stat == 0
            && r.st.jobs == st.jobs[key := Publish(st.mailcnt, now + WaitBeforeSend)]
            && r.replies == [PreviewOf(st.mailcnt)]
    ensures var text := MessageText(quoted);
            var relayed := Mail(st.mailcnt, if text != "" then text else "无", ImagesOf(quoted), Strip(message, {' '}), -1, 0);
            SendByReply(st, quoted, message, now)
              == Done(st.(mails := st.mails + [relayed], mailcnt := st.mailcnt + 1,
                          jobs := st.jobs[NatToString(st.mailcnt) := Publish(st.mailcnt, now + WaitBeforeSend)]),
                      [PreviewOf(st.mailcnt)])
  {
    FreshIdIsFree(st);
    var r := SendByReply(st, quoted, message, now);
    assert r.st.mails[..|st.mails|] == st.mails;
  }

  /** A reply whose quoted message does not start with the tweet marker only uses up a number. */
  lemma SendByReplyIgnored(st: State, quoted: seq<Segment>, message: string, now: int)
    requires quoted != [] && Find(SegmentText(quoted[0]), TweetMarker) == -1
    ensures SendByReply(st, quoted, message, now) == Done(st.(mailcnt := st.mailcnt + 1), [])
  {
  }

  // ---------------------------------------------------------------------------
  // The wedge: cancelling the mail that collects images

  /** A collecting pointer with no window job left to clear it. */
  predicate Wedged(st: State)
  {
    st.collecting.Some? && WindowJob !in st.jobs
  }

  /**
   * Cancel the mail that is collecting images, then let its window job fire:
   * the job finds no mail (ValueError), the pointer stays set and the window
   * job is gone, so the next caption fails at once on the missing job.
   */
  lemma CancelCollectingWedges(st: State, now: int, submit: Submit, polls: nat -> Poll, raw: string)
    requires Inv(st) && st.collecting.Some? && WindowJob in st.jobs
    requires exists j :: 0 <= j < |st.mails| && st.mails[j].no == st.collecting.value
    ensures var st1 := Cancel(st, NatToString(st.collecting.value)).st;
            var r := FireJob(st1, WindowJob, now, submit, polls);
            && r.raised == Some(ValueError)
            && Wedged(r.st)
            && LoadMail(r.st, raw, now) == Raise(r.st, [], JobLookupError)
  {
    var p := st.collecting.value;
    var i := FindByNo(st.mails, p).value;
    StripKeeps(NatToString(p), {' '});
    NatToStringRoundTrip(p);
    CancelEffect(st, NatToString(p));
    CancelKeepsInv(st, NatToString(p));
    var st1 := Cancel(st, NatToString(p)).st;
    WindowJobIsNotANumber(p);
    assert WindowJob in st1.jobs;
    assert FindByNo(st1.mails, p).None?;
  }

  /** Once wedged, every caption fails at once and changes nothing. */
  lemma WedgedCaptionFails(st: State, raw: string, now: int)
    requires Wedged(st)
    ensures LoadMail(st, raw, now) == Raise(st, [], JobLookupError)
  {
  }

  /** A translation books or re-books only numbered jobs, so the wedge stays. */
  lemma WedgeSurvivesTranslation(st: State, raw: string, now: int)
    requires Wedged(st)
    ensures Wedged(LoadTranslation(st, raw, now).st)
  {
    match ParseTime(FirstLine(raw))
    case None =>
    case Some(t) =>
      match FindByTime(st.mails, t)
      case None =>
      case Some(i) => WindowJobIsNotANumber(st.mails[i].no);
  }

  /** A cancel only removes a mail and possibly a numbered job, so the wedge stays. */
  lemma WedgeSurvivesCancel(st: State, text: string)
    requires Wedged(st)
    ensures Wedged(Cancel(st, text).st)
  {
    var r := Cancel(st, text);
    assert r.st.collecting == st.collecting && r.st.jobs.Keys <= st.jobs.Keys;
  }

  /** A photo only grows the buffer, so the wedge stays. */
  lemma WedgeSurvivesPhoto(st: State, fromSender: bool, message: seq<Segment>, width: int, height: int)
    requires Wedged(st)
    ensures Wedged(LoadImage(st, fromSender, message, width, height))
  {
    var r := LoadImage(st, fromSender, message, width, height);
    assert r.collecting == st.collecting && r.jobs == st.jobs;
  }

  /** A mailbox push only appends a mail, so the wedge stays. */
  lemma WedgeSurvivesPush(st: State, content: string, images: seq<Bytes>, t: int)
    requires Wedged(st)
    ensures Wedged(PushMail(st, content, images, t))
  {
    var r := PushMail(st, content, images, t);
    assert r.collecting == st.collecting && r.jobs == st.jobs;
  }

  /** A relayed tweet books its numbered job; the wedge stays. */
  lemma WedgeSurvivesReply(st: State, quoted: seq<Segment>, text: string, now: int)
    requires Wedged(st)
    ensures Wedged(SendByReply(st, quoted, text, now).st)
  {
    WindowJobIsNotANumber(st.mailcnt);
  }

  /** With no window job left, only publish jobs can fire, and publishing never touches the pointer. */
  lemma WedgeSurvivesJobs(st: State, key: string, now: int, submit: Submit, polls: nat -> Poll)
    requires Inv(st) && Wedged(st)
    ensures Wedged(FireJob(st, key, now, submit, polls).st)
  {
    if key in st.jobs {
      assert st.jobs[key].Publish?;
    }
  }
}
