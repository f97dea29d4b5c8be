/**
 * The relay's handlers as the source runs them: the module state of
 * src/plugins/hxzxhelper/__init__.py (`maillist`, `imagelist`,
 * `mail_loadingimg`), the scheduler's job store and model.py's global
 * `mailcnt` become the fields of one object, and each handler is a method
 * that updates them step by step, with the source's loops. Each method is
 * proved to compute exactly the transition function of registry.dfy, so
 * everything proved there about the functions holds of these methods.
 */
module Relay {
  import opened Wrappers
  import opened Text
  import opened TimeParse
  import opened MailModel
  import opened Registry

  /**
   * `for mail in maillist: if mail.time == t: ...; break`: the index of the
   * first mail with time `t`, or -1.
   */
  method IndexOfTime(mails: seq<Mail>, t: int) returns (idx: int)
    ensures -1 <= idx < |mails|
    ensures idx == -1 <==> forall j :: 0 <= j < |mails| ==> mails[j].time != t
    ensures idx >= 0 ==> mails[idx].time == t && forall j :: 0 <= j < idx ==> mails[j].time != t
    ensures idx >= 0 <==> FindByTime(mails, t) == Some(idx)
  {
    var k := 0;
    while k < |mails|
      invariant 0 <= k <= |mails|
      invariant forall j :: 0 <= j < k ==> mails[j].time != t
    {
      if mails[k].time == t {
        return k;
      }
      k := k + 1;
    }
    return -1;
  }

  /**
   * `for mail in maillist: if mail.no == no: ...; break` (and `maillist.index`,
   * which finds the same entry since numbers are unique): the index of the
   * first mail numbered `no`, or -1.
   */
  method IndexOfNo(mails: seq<Mail>, no: nat) returns (idx: int)
    ensures -1 <= idx < |mails|
    ensures idx == -1 <==> forall j :: 0 <= j < |mails| ==> mails[j].no != no
    ensures idx >= 0 ==> mails[idx].no == no && forall j :: 0 <= j < idx ==> mails[j].no != no
    ensures idx >= 0 <==> FindByNo(mails, no) == Some(idx)
  {
    var k := 0;
    while k < |mails|
      invariant 0 <= k <= |mails|
      invariant forall j :: 0 <= j < k ==> mails[j].no != no
    {
      if mails[k].no == no {
        return k;
      }
      k := k + 1;
    }
    return -1;
  }

  /**
   * The `while retry` loop of `send2bili`: poll until a status comes back, a
   * poll is refused or fails, or six dropped connections use up the retries.
   * Returns how the loop ended and how many polls it made.
   */
  method PollStatus(polls: nat -> Poll) returns (result: PollResult, count: nat)
    ensures (result, count) == PollLoop(polls, 0, Retries)
    ensures count <= Retries
  {
    var retry := Retries;
    count := 0;
    while retry > 0
      invariant count + retry == Retries
      invariant PollLoop(polls, count, retry) == PollLoop(polls, 0, Retries)
      decreases retry
    {
      match polls(count)
      case Disconnected =>
        retry := retry - 1;
        count := count + 1;
      case Info(d) =>
        return Posted(d), count + 1;
      case PollRejected =>
        return PollFailed, count + 1;
      case PollCrashed =>
        return PollError, count + 1;
    }
    result := StatusUnknown;
  }

  /** The relay's state and its handlers. */
  class Helper {
    var maillist: seq<Mail>
    var imagelist: seq<Bytes>
    var loading: Option<nat>
    var jobs: map<string, Job>
    var mailcnt: nat

    /** The fields as a value of the transition functions' state type. */
    function Snapshot(): State
      reads this
    {
      State(maillist, imagelist, loading, jobs, mailcnt)
    }

    constructor ()
      ensures Snapshot() == Init()
    {
      maillist, imagelist, loading, jobs, mailcnt := [], [], None, map[], 0;
    }

    /** `Mail()`: a fresh mail with the next number; the counter advances. */
    method NewMail() returns (m: Mail)
      modifies this
      ensures (Snapshot(), m) == NextMail(old(Snapshot()))
    {
      m := FreshMail(mailcnt);
      mailcnt := mailcnt + 1;
    }

    /** `loadimg`: an accepted photo joins the end of the buffer. */
    method LoadImg(fromSender: bool, message: seq<Segment>, width: int, height: int)
      modifies this
      ensures Snapshot() == LoadImage(old(Snapshot()), fromSender, message, width, height)
    {
      if IsMailImage(Snapshot(), fromSender, message, width, height) && message[0].data != [] {
        imagelist := imagelist + [message[0].data];
      }
    }

    /** `loadimg_finish`, once the scheduler has taken the window job out. */
    method LoadImgFinish(now: int) returns (replies: seq<Reply>, raised: Option<Error>)
      modifies this
      ensures Outcome(Snapshot(), replies, raised) == CloseWindow(old(Snapshot()), now)
    {
      if loading.None? {
        return [], Some(ValueError);
      }
      var index := IndexOfNo(maillist, loading.value);
      if index < 0 {
        return [], Some(ValueError);
      }
      var m := maillist[index];
      var images := m.images;
      var k := 0;
      while k < |imagelist|
        invariant 0 <= k <= |imagelist|
        invariant images == m.images + imagelist[..k]
      {
        images := images + [imagelist[k]];
        k := k + 1;
      }
      assert imagelist[..k] == imagelist;
      imagelist := [];
      if m.stat == 2 {
        maillist := maillist[index := m.(images := images, stat := 3)];
        var key := NatToString(m.no);
        if key in jobs {
          return [], Some(ConflictingIdError);
        }
        jobs := jobs[key := Publish(m.no, now + WaitBeforeSend)];
        loading := None;
        return [PreviewOf(m.no)], None;
      } else {
        maillist := maillist[index := m.(images := images, stat := 1)];
        loading := None;
        return [], None;
      }
    }

    /** `send2bili` for mail `no`. */
    method Send2Bili(no: nat, submit: Submit, polls: nat -> Poll) returns (replies: seq<Reply>, raised: Option<Error>)
      modifies this
      ensures Outcome(Snapshot(), replies, raised) == SendToBili(old(Snapshot()), no, submit, polls)
    {
      var mailindex := IndexOfNo(maillist, no);
      if mailindex < 0 {
        return [], Some(ValueError);
      }
      match submit
      case Rejected =>
        return [SendFailed(no)], None;
      case SubmitCrashed =>
        return [], Some(ServiceError);
      case Accepted =>
        var result, _ := PollStatus(polls);
        match result
        case Posted(d) =>
          maillist := maillist[..mailindex] + maillist[mailindex + 1..];
          return PostedReplies(no, d), None;
        case StatusUnknown =>
          return [SentStatusUnknown(no)], None;
        case PollFailed =>
          return [SendFailed(no)], None;
        case PollError =>
          return [], Some(ServiceError);
    }

    /** The scheduler fires job `key`: a date job leaves the store, then its function runs. */
    method Fire(key: string, now: int, submit: Submit, polls: nat -> Poll) returns (replies: seq<Reply>, raised: Option<Error>)
      modifies this
      ensures Outcome(Snapshot(), replies, raised) == FireJob(old(Snapshot()), key, now, submit, polls)
    {
      if key !in jobs {
        return [], None;
      }
      var job := jobs[key];
      jobs := jobs - {key};
      match job
      case WindowClose(_) =>
        replies, raised := LoadImgFinish(now);
      case Publish(no, _) =>
        replies, raised := Send2Bili(no, submit, polls);
    }

    /**
     * `loadmail`: an open window is closed first (the forced job's own failure
     * does not reach this handler), then a Mail is made and the first line
     * parsed; a parsed caption becomes the collecting mail with a window job.
     */
    method LoadMail(raw: string, now: int) returns (replies: seq<Reply>, raised: Option<Error>)
      modifies this
      ensures Outcome(Snapshot(), replies, raised) == Registry.LoadMail(old(Snapshot()), raw, now)
    {
      replies := [];
      if loading.Some? {
        if WindowJob !in jobs {
          return [], Some(JobLookupError);
        }
        jobs := jobs - {WindowJob};
        var closeReplies, _ := LoadImgFinish(now);
        replies := closeReplies;
      }
      replies, raised := RegisterCaption(raw, now, replies);
    }

    /** The rest of `loadmail`: a new Mail, and on a parsed first line the collecting mail and its window job. */
    method RegisterCaption(raw: string, now: int, closeReplies: seq<Reply>) returns (replies: seq<Reply>, raised: Option<Error>)
      modifies this
      ensures Outcome(Snapshot(), replies, raised) == Registry.RegisterCaption(old(Snapshot()), raw, now, closeReplies)
    {
      replies := closeReplies;
      var mail := NewMail();
      var parsed := ParseTime(FirstLine(raw));
      if parsed.None? {
        return replies, None;
      }
      mail := mail.(time := parsed.value, rawText := Strip(raw, {' '}));
      maillist := maillist + [mail];
      loading := Some(mail.no);
      if WindowJob in jobs {
        return replies, Some(ConflictingIdError);
      }
      jobs := jobs[WindowJob := WindowClose(now + WaitForImages)];
      raised := None;
    }

    /** `loadtrans`: the translation goes to the first mail with the parsed time. */
    method LoadTrans(raw: string, now: int) returns (replies: seq<Reply>, raised: Option<Error>)
      modifies this
      ensures Outcome(Snapshot(), replies, raised) == LoadTranslation(old(Snapshot()), raw, now)
    {
      var parsed := ParseTime(FirstLine(raw));
      if parsed.None? {
        return [], None;
      }
      replies, raised := AttachTrans(raw, parsed.value, now);
    }

    /** The rest of `loadtrans`, once the first line has given the time `t`. */
    method AttachTrans(raw: string, t: int, now: int) returns (replies: seq<Reply>, raised: Option<Error>)
      modifies this
      ensures Outcome(Snapshot(), replies, raised) == AttachTranslation(old(Snapshot()), raw, t, now)
    {
      ghost var st := Snapshot();
      var target := IndexOfTime(maillist, t);
      if target < 0 {
        return [], None;
      }
      assert FindByTime(st.mails, t) == Some(target);
      var m := maillist[target];
      replies := [];
      if m.translation != "" {
        replies := [TranslationOverwritten(m.no)];
      }
      maillist := maillist[target := m.(translation := raw)];
      var key := NatToString(m.no);
      if m.stat == 1 {
        maillist := maillist[target := m.(translation := raw, stat := 3)];
        assert maillist == st.mails[target := m.(translation := raw, stat := 3)];
        if key in jobs {
          return replies, Some(ConflictingIdError);
        }
        jobs := jobs[key := Publish(m.no, now + WaitBeforeSend)];
        replies := replies + [PreviewOf(m.no)];
      } else if m.stat == 3 {
        if key !in jobs {
          return replies, Some(JobLookupError);
        }
        jobs := jobs[key := Reschedule(jobs[key], now + WaitBeforeSend)];
        replies := replies + [PreviewOf(m.no)];
      } else {
        maillist := maillist[target := m.(translation := raw, stat := 2)];
      }
      raised := None;
    }

    /** `canceltask`: the argument is the message stripped of spaces. */
    method CancelTask(text: string) returns (replies: seq<Reply>)
      modifies this
      ensures Outcome(Snapshot(), replies, None) == Cancel(old(Snapshot()), text)
    {
      var arg := Strip(text, {' '});
      if !IsDecimal(arg) {
        return [AskForNumber];
      }
      var index := IndexOfNo(maillist, DecimalValue(arg));
      if index < 0 {
        return [NotFound];
      }
      maillist := maillist[..index] + maillist[index + 1..];
      if arg in jobs {
        jobs := jobs - {arg};
        return [Cancelled(arg)];
      }
      return [NotYetQueued(arg)];
    }

    /** `push_mail`: a mail from the mailbox, skipped when its time is already registered. */
    method PushMail(content: string, images: seq<Bytes>, t: int)
      modifies this
      ensures Snapshot() == Registry.PushMail(old(Snapshot()), content, images, t)
    {
      if content == "" {
        return;
      }
      var k := 0;
      while k < |maillist|
        invariant 0 <= k <= |maillist|
        invariant forall j :: 0 <= j < k ==> maillist[j].time != t
      {
        if maillist[k].time == t {
          return;
        }
        k := k + 1;
      }
      var mail := NewMail();
      maillist := maillist + [mail.(rawText := content, images := images, time := t, stat := 1)];
    }

    /** `sendbyreply`: a translation given as a reply to a relayed tweet, published at once. */
    method SendByReply(quoted: seq<Segment>, message: string, now: int) returns (replies: seq<Reply>, raised: Option<Error>)
      modifies this
      ensures Outcome(Snapshot(), replies, raised) == Registry.SendByReply(old(Snapshot()), quoted, message, now)
    {
      var twi := NewMail();
      if quoted == [] {
        return [], Some(IndexError);
      }
      if Find(SegmentText(quoted[0]), TweetMarker) == -1 {
        return [], None;
      }
      var whole := MessageText(quoted);
      var images := twi.images;
      var k := 0;
      while k < |quoted|
        invariant 0 <= k <= |quoted|
        invariant images == ImagesOf(quoted[..k])
      {
        assert quoted[..k + 1][..k] == quoted[..k];
        if quoted[k].Image? {
          images := images + [quoted[k].data];
        }
        k := k + 1;
      }
      assert quoted[..k] == quoted;
      twi := twi.(rawText := if whole != "" then whole else "无", images := images, translation := Strip(message, {' '}));
      maillist := maillist + [twi];
      var key := NatToString(twi.no);
      if key in jobs {
        return [], Some(ConflictingIdError);
      }
      jobs := jobs[key := Publish(twi.no, now + WaitBeforeSend)];
      return [PreviewOf(twi.no)], None;
    }
  }
}
