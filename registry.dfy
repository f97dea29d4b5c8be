/**
 * The mail aggregation state machine of the fan-sub relay
 * (src/plugins/hxzxhelper/__init__.py), as pure transition functions over the
 * module state: the registry `maillist`, the pending-image buffer `imagelist`,
 * the "currently collecting images" pointer `mail_loadingimg` (held here as the
 * collecting mail's number), the scheduler's pending jobs keyed by id, and the
 * global counter `mailcnt` of model.py.
 *
 * Every handler returns an Outcome: the new state, the replies it sent, and
 * the exception that escaped it, if any. An escaping exception aborts the
 * handler where it was raised; the state is what the handler had changed up
 * to that point.
 */
module Registry {
  import opened Wrappers
  import opened Text
  import opened TimeParse
  import opened MailModel

  /** Default waits of the configuration, in seconds: 2 minutes for images, 10 before publishing. */
  const WaitForImages: int := 2 * 60
  const WaitBeforeSend: int := 10 * 60

  /** The id of the image-window job. */
  const WindowJob: string := "loadimages"

  /** A pending scheduler job and its run date (seconds). */
  datatype Job = WindowClose(at: int) | Publish(no: nat, at: int)

  datatype State = State(mails: seq<Mail>, buffer: seq<Bytes>, collecting: Option<nat>,
                         jobs: map<string, Job>, mailcnt: nat)

  /** The module state at start-up. */
  function Init(): State
  {
    State([], [], None, map[], 0)
  }

  /** Exceptions that escape a handler. */
  datatype Error =
    | JobLookupError      // apscheduler: no job with that id
    | ConflictingIdError  // apscheduler: a job with that id already exists
    | ValueError          // `list.index` of an object that is not in the list
    | IndexError          // indexing an empty message
    | ServiceError        // any other failure of the publishing service

  /** What a handler said in the group. */
  datatype Reply =
    | PreviewOf(no: nat)               // `Mail.preview()` of mail `no`
    | TranslationOverwritten(no: nat)  // "mail[no]：翻译已覆盖"
    | Cancelled(arg: string)           // "mail[arg]：已取消发送"
    | NotFound                         // "没有在处理和发送队列中找到对应mail"
    | NotYetQueued(arg: string)        // "mail[arg]：尚未进入发送队列，已从处理队列中移出"
    | AskForNumber                     // "请提供取消发送的mail数字序号"
    | SentUnderReview(no: nat)         // "发送成功（进入审核队列）"
    | SentPublished(no: nat)           // "发送成功（b站已发）"
    | SentStatusUnknown(no: nat)       // "发送完毕（状态未知）"
    | SendFailed(no: nat)              // "发送失败，..."

  datatype Outcome = Outcome(st: State, replies: seq<Reply>, raised: Option<Error>)

  function Done(st: State, replies: seq<Reply>): Outcome { Outcome(st, replies, None) }

  function Raise(st: State, replies: seq<Reply>, e: Error): Outcome { Outcome(st, replies, Some(e)) }

  // ---------------------------------------------------------------------------
  // Searches and the scheduler

  /** The index of the first mail whose time is `t`. */
  function FindByTime(mails: seq<Mail>, t: int): (r: Option<nat>)
    ensures r.Some? ==> r.value < |mails| && mails[r.value].time == t
    ensures r.Some? ==> forall j :: 0 <= j < r.value ==> mails[j].time != t
    ensures r.None? ==> forall j :: 0 <= j < |mails| ==> mails[j].time != t
  {
    if mails == [] then None
    else if mails[0].time == t then Some(0)
    else match FindByTime(mails[1..], t)
      case Some(i) => Some(i + 1)
      case None => None
  }

  /** The index of the first mail numbered `no`. */
  function FindByNo(mails: seq<Mail>, no: nat): (r: Option<nat>)
    ensures r.Some? ==> r.value < |mails| && mails[r.value].no == no
    ensures r.Some? ==> forall j :: 0 <= j < r.value ==> mails[j].no != no
    ensures r.None? ==> forall j :: 0 <= j < |mails| ==> mails[j].no != no
  {
    if mails == [] then None
    else if mails[0].no == no then Some(0)
    else match FindByNo(mails[1..], no)
      case Some(i) => Some(i + 1)
      case None => None
  }

  /** `list.pop(i)`. */
  function RemoveAt(mails: seq<Mail>, i: nat): seq<Mail>
    requires i < |mails|
  {
    mails[..i] + mails[i + 1..]
  }

  /** `scheduler.add_job(..., id=id)`: None when the id is taken (ConflictingIdError). */
  function AddJob(jobs: map<string, Job>, id: string, job: Job): Option<map<string, Job>>
  {
    if id in jobs then None else Some(jobs[id := job])
  }

  /** `scheduler.reschedule_job(id, run_date=at)`: the same job, a new run date. */
  function Reschedule(job: Job, at: int): Job
  {
    job.(at := at)
  }

  // ---------------------------------------------------------------------------
  // loadimg_finish: closing the image window

  /** The window-close handler, once the scheduler has taken its job out. */
  function CloseWindow(st: State, now: int): Outcome
  {
    match st.collecting
    case None => Raise(st, [], ValueError)
    case Some(p) =>
      match FindByNo(st.mails, p)
      case None => Raise(st, [], ValueError)
      case Some(i) =>
        var m := st.mails[i];
        var filled := m.(images := m.images + st.buffer);
        if m.stat == 2 then
          var st1 := st.(mails := st.mails[i := filled.(stat := 3)], buffer := []);
          match AddJob(st1.jobs, NatToString(m.no), Publish(m.no, now + WaitBeforeSend))
          case None => Raise(st1, [], ConflictingIdError)
          case Some(jobs) => Done(st1.(jobs := jobs, collecting := None), [PreviewOf(m.no)])
        else
          Done(st.(mails := st.mails[i := filled.(stat := 1)], buffer := [], collecting := None), [])
  }

  // ---------------------------------------------------------------------------
  // The publish job: send2bili

  /** What the publishing service answers to the submission. */
  datatype Submit = Accepted | Rejected | SubmitCrashed

  /**
   * One status poll: the connection dropped (ServerDisconnectedError), an info
   * record (None: no "desc"; Some(None): "desc" without "acl"; Some(Some(a)):
   * "acl" is a), the service refused (ResponseCodeException), or another failure.
   */
  datatype Poll = Disconnected | Info(desc: Option<Option<int>>) | PollRejected | PollCrashed

  /** How the poll loop ends. */
  datatype PollResult = Posted(desc: Option<Option<int>>) | StatusUnknown | PollFailed | PollError

  /** The retry budget of the poll loop. */
  const Retries: nat := 6

  /**
   * The poll loop from attempt `k` with `retry` attempts left: only a dropped
   * connection uses up an attempt and moves on; the result and the number of
   * polls made so far.
   */
  function PollLoop(polls: nat -> Poll, k: nat, retry: nat): (r: (PollResult, nat))
    ensures k <= r.1 <= k + retry
    decreases retry
  {
    if retry == 0 then (StatusUnknown, k)
    else match polls(k)
      case Disconnected => PollLoop(polls, k + 1, retry - 1)
      case Info(d) => (Posted(d), k + 1)
      case PollRejected => (PollFailed, k + 1)
      case PollCrashed => (PollError, k + 1)
  }

  /** The reply for a posted dynamic: under review iff "acl" is present and non-zero; none without "desc". */
  function PostedReplies(no: nat, desc: Option<Option<int>>): seq<Reply>
  {
    match desc
    case None => []
    case Some(Some(acl)) => if acl != 0 then [SentUnderReview(no)] else [SentPublished(no)]
    case Some(None) => [SentPublished(no)]
  }

  /** `send2bili` for mail `no`. */
  function SendToBili(st: State, no: nat, submit: Submit, polls: nat -> Poll): Outcome
  {
    match FindByNo(st.mails, no)
    case None => Raise(st, [], ValueError)
    case Some(i) =>
      match submit
      case Rejected => Done(st, [SendFailed(no)])
      case SubmitCrashed => Raise(st, [], ServiceError)
      case Accepted =>
        match PollLoop(polls, 0, Retries).0
        case Posted(d) => Done(st.(mails := RemoveAt(st.mails, i)), PostedReplies(no, d))
        case StatusUnknown => Done(st, [SentStatusUnknown(no)])
        case PollFailed => Done(st, [SendFailed(no)])
        case PollError => Raise(st, [], ServiceError)
  }

  /**
   * The scheduler fires the job `key`: a date job runs once, so it leaves the
   * job store first; then its function runs. `submit` and `polls` are what the
   * publishing service answers if it is a publish job.
   */
  function FireJob(st: State, key: string, now: int, submit: Submit, polls: nat -> Poll): Outcome
  {
    if key !in st.jobs then Done(st, [])
    else
      var st0 := st.(jobs := st.jobs - {key});
      match st.jobs[key]
      case WindowClose(_) => CloseWindow(st0, now)
      case Publish(no, _) => SendToBili(st0, no, submit, polls)
  }

  // ---------------------------------------------------------------------------
  // loadmail: a caption from a mail sender

  /** `Mail()`: the next number, with the counter advanced. */
  function NextMail(st: State): (State, Mail)
  {
    (st.(mailcnt := st.mailcnt + 1), FreshMail(st.mailcnt))
  }

  /**
   * The caption handler. An open window is closed first (its job is made due
   * and runs during the two-second sleep; its own failure does not reach this
   * handler); then a Mail is made, consuming a number, and the first line is
   * parsed. On success the mail is registered and becomes the collecting mail.
   */
  function LoadMail(st: State, raw: string, now: int): Outcome
  {
    if st.collecting.Some? && WindowJob !in st.jobs then Raise(st, [], JobLookupError)
    else
      var closing := if st.collecting.Some? then CloseWindow(st.(jobs := st.jobs - {WindowJob}), now) else Done(st, []);
      RegisterCaption(closing.st, raw, now, closing.replies)
  }

  /**
   * The caption handler once no window is open: the new Mail takes a number,
   * and a parsed first line registers it as the collecting mail with its
   * window job. `replies` are those of the window just closed.
   */
  function RegisterCaption(st: State, raw: string, now: int, replies: seq<Reply>): Outcome
  {
    var (st1, mail) := NextMail(st);
    match ParseTime(FirstLine(raw))
    case None => Done(st1, replies)
    case Some(t) =>
      var m := mail.(time := t, rawText := Strip(raw, {' '}));
      var st2 := st1.(mails := st1.mails + [m], collecting := Some(m.no));
      match AddJob(st2.jobs, WindowJob, WindowClose(now + WaitForImages))
      case None => Raise(st2, replies, ConflictingIdError)
      case Some(jobs) => Done(st2.(jobs := jobs), replies)
  }

  // ---------------------------------------------------------------------------
  // loadimg: a photo during the window

  /**
   * `checkifmailimage`: a window is open, the sender is a mail sender, the message
   * is exactly one image, and that image is 960 wide or 1280 or 720 high.
   */
  predicate IsMailImage(st: State, fromSender: bool, message: seq<Segment>, width: int, height: int)
  {
    && st.collecting.Some?
    && fromSender
    && |message| == 1
    && message[0].Image?
    && (width == 960 || height == 1280 || height == 720)
  }

  /** The photo handler: a non-empty accepted image joins the end of the buffer. */
  function LoadImage(st: State, fromSender: bool, message: seq<Segment>, width: int, height: int): State
  {
    if IsMailImage(st, fromSender, message, width, height) && message[0].data != [] then
      st.(buffer := st.buffer + [message[0].data])
    else st
  }

  // ---------------------------------------------------------------------------
  // loadtrans: a translation from someone who is not a mail sender

  /**
   * The translation handler: the whole message becomes the translation of the
   * first mail whose time equals the parsed first line; a first line that does
   * not parse does nothing.
   */
  function LoadTranslation(st: State, raw: string, now: int): Outcome
  {
    match ParseTime(FirstLine(raw))
    case None => Done(st, [])
    case Some(t) => AttachTranslation(st, raw, t, now)
  }

  /**
   * The translation `raw` for time `t`: it goes to the first mail with that
   * time, overwriting any earlier one; stat 1 books a publish job, stat 3
   * moves that job's run date to ten minutes from now, any other stat
   * becomes 2. No mail with that time: nothing happens.
   */
  function AttachTranslation(st: State, raw: string, t: int, now: int): Outcome
  {
    match FindByTime(st.mails, t)
    case None => Done(st, [])
    case Some(i) =>
      var m := st.mails[i];
      var notice := if m.translation != "" then [TranslationOverwritten(m.no)] else [];
      var m1 := m.(translation := raw);
      var key := NatToString(m.no);
      if m.stat == 1 then
        var st1 := st.(mails := st.mails[i := m1.(stat := 3)]);
        match AddJob(st1.jobs, key, Publish(m.no, now + WaitBeforeSend))
        case None => Raise(st1, notice, ConflictingIdError)
        case Some(jobs) => Done(st1.(jobs := jobs), notice + [PreviewOf(m.no)])
      else if m.stat == 3 then
        var st1 := st.(mails := st.mails[i := m1]);
        if key in st1.jobs then
          Done(st1.(jobs := st1.jobs[key := Reschedule(st1.jobs[key], now + WaitBeforeSend)]), notice + [PreviewOf(m.no)])
        else Raise(st1, notice, JobLookupError)
      else
        Done(st.(mails := st.mails[i := m1.(stat := 2)]), notice)
  }

  // ---------------------------------------------------------------------------
  // canceltask

  /**
   * The cancel command: the argument is the message with spaces stripped; a
   * decimal argument removes the first mail with that number, then the job
   * whose id is the argument itself.
   */
  function Cancel(st: State, text: string): Outcome
  {
    var arg := Strip(text, {' '});
    if !IsDecimal(arg) then Done(st, [AskForNumber])
    else
      match FindByNo(st.mails, DecimalValue(arg))
      case None => Done(st, [NotFound])
      case Some(i) =>
        var mails := RemoveAt(st.mails, i);
        if arg in st.jobs then Done(st.(mails := mails, jobs := st.jobs - {arg}), [Cancelled(arg)])
        else Done(st.(mails := mails), [NotYetQueued(arg)])
  }

  // ---------------------------------------------------------------------------
  // push_mail: a new mail from the mailbox poller

  /** A mail already registered at time `t`. */
  predicate HasTime(mails: seq<Mail>, t: int)
  {
    exists j :: 0 <= j < |mails| && mails[j].time == t
  }

  /**
   * The mailbox push: empty content does nothing; a mail whose time is already
   * registered is skipped before any number is taken; otherwise a mail with
   * its images collected (stat 1) is registered.
   */
  function PushMail(st: State, content: string, images: seq<Bytes>, t: int): State
  {
    if content == "" then st
    else if FindByTime(st.mails, t).Some? then st
    else
      var (st1, mail) := NextMail(st);
      st1.(mails := st1.mails + [mail.(rawText := content, images := images, time := t, stat := 1)])
  }

  // ---------------------------------------------------------------------------
  // sendbyreply: a translation given as a reply to a relayed tweet

  /** `str()` of a segment: its text; an image segment renders as nothing here. */
  function SegmentText(seg: Segment): string
  {
    if seg.Text? then seg.text else ""
  }

  /** `str()` of a message: the concatenation of its segments. */
  function MessageText(message: seq<Segment>): string
  {
    if message == [] then "" else MessageText(message[..|message| - 1]) + SegmentText(message[|message| - 1])
  }

  /** The image contents of a message, in order. */
  function ImagesOf(message: seq<Segment>): (r: seq<Bytes>)
    ensures |r| <= |message|
  {
    if message == [] then []
    else ImagesOf(message[..|message| - 1]) + (if message[|message| - 1].Image? then [message[|message| - 1].data] else [])
  }

  /** The marker a relayed tweet's first segment carries. */
  const TweetMarker: string := "推特更新"

  /**
   * The reply handler: a Mail is made first (consuming a number); the quoted
   * message must start with a segment carrying the tweet marker; the new entry
   * keeps the quoted text (or "无"), its images, the stripped reply as the
   * translation and stat 0, and is booked for publishing at once.
   */
  function SendByReply(st: State, quoted: seq<Segment>, message: string, now: int): Outcome
  {
    var (st1, mail) := NextMail(st);
    if quoted == [] then Raise(st1, [], IndexError)
    else if Find(SegmentText(quoted[0]), TweetMarker) == -1 then Done(st1, [])
    else
      var whole := MessageText(quoted);
      var m := mail.(rawText := if whole != "" then whole else "无", images := ImagesOf(quoted),
                     translation := Strip(message, {' '}));
      var st2 := st1.(mails := st1.mails + [m]);
      match AddJob(st2.jobs, NatToString(m.no), Publish(m.no, now + WaitBeforeSend))
      case None => Raise(st2, [], ConflictingIdError)
      case Some(jobs) => Done(st2.(jobs := jobs), [PreviewOf(m.no)])
  }
}
