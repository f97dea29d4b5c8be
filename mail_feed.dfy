/**
 * The mail feed (hxzxhelper/lib/mail.py): reading the charset of a mail
 * part, turning the HTML body of a mail into a message, and the walk over the
 * mailbox from the newest mail down that finds the mails newer than the last
 * one reported.
 *
 * The POP3 session is not modelled: the mailbox is a parameter, each mail
 * already split into its sender address, decoded subject, date (moved to
 * UTC+8 with seconds cut) and its `text/html` part, if it has one.
 */
module MailFeed {
  import opened Wrappers
  import opened Text
  import opened Feed
  import opened MailModel

  // ---------------------------------------------------------------------------
  // the charset of a part

  /**
   * `guess_charset`: the charset set on the part object, else whatever follows
   * `charset=` in the lowered Content-Type header, stripped of whitespace.
   */
  function GuessCharset(declared: Option<string>, contentType: string): (r: Option<string>)
    ensures r.None? <==> declared.None? && !Contains(Lower(contentType), "charset=")
    ensures declared.None? && r.Some? ==> r.value == Strip(r.value, Whitespace)
  {
    if declared.Some? then declared
    else
      var ct := Lower(contentType);
      var pos := Find(ct, "charset=");
      if pos >= 0 then Some(Strip(ct[pos + 8..], Whitespace)) else None
  }

  /** A charset name as section 5.1 of RFC 2045 writes it, unquoted. */
  predicate CharsetToken(c: string)
  {
    |c| > 0 && NoUpper(c) && forall i :: 0 <= i < |c| ==> c[i] !in Whitespace && c[i] != '"' && c[i] != ';'
  }

  const TypePrefix: string := "text/html; charset="

  lemma FindCharset(v: string)
    ensures Lower(TypePrefix + v) == TypePrefix + Lower(v)
    ensures Find(TypePrefix + v, "charset=") == 11
  {
    LowerAppend(TypePrefix, v);
    assert NoUpper(TypePrefix);
    LowerKeeps(TypePrefix);
    var s := TypePrefix + v;
    assert s[11..19] == "charset=";
    assert OccursAt(s, "charset=", 11);
    forall j | 0 <= j < 11 ensures !OccursAt(s, "charset=", j) {
      assert s[j] == TypePrefix[j] != 'c';
      assert s[j..j + 8][0] == s[j];
    }
  }

  /** A charset name in double quotes, as a quoted-string parameter value. */
  function Quoted(c: string): string
  {
    "\"" + c + "\""
  }

  /**
   * A quoted charset, which section 5.1 of RFC 2045 allows, keeps its quotes:
   * the name handed to `decode` is not the bare charset name (Python's codec
   * lookup happens to drop the quotes again).
   */
  lemma QuotedCharsetKeepsQuotes(c: string)
    requires CharsetToken(c)
    ensures GuessCharset(None, TypePrefix + Quoted(c)) == Some(Quoted(c))
    ensures GuessCharset(None, TypePrefix + Quoted(c)) != Some(c)
  {
    var q := Quoted(c);
    QuotedToken(c);
    FindCharset(q);
    LowerKeeps(q);
    assert (TypePrefix + q)[19..] == q;
    StripKeeps(q, Whitespace);
  }

  function Unquote(s: string): string
  {
    if |s| >= 2 && s[0] == '"' && s[|s| - 1] == '"' then s[1..|s| - 1] else s
  }

  /** The charset parameter as intended: cut at the next parameter, stripped, unquoted. */
  function CharsetFixed(declared: Option<string>, contentType: string): Option<string>
  {
    if declared.Some? then declared
    else
      var ct := Lower(contentType);
      var pos := Find(ct, "charset=");
      if pos < 0 then None
      else
        var v := ct[pos + 8..];
        var semi := Find(v, ";");
        Some(Unquote(Strip(if semi >= 0 then v[..semi] else v, Whitespace)))
  }

  lemma FindSemicolon(x: string, rest: string)
    requires forall i :: 0 <= i < |x| ==> x[i] != ';'
    requires rest == [] || rest[0] == ';'
    ensures Find(x + rest, ";") == if rest == [] then -1 else |x|
  {
    var s := x + rest;
    forall j | 0 <= j < |x| ensures !OccursAt(s, ";", j) {
      assert s[j..j + 1][0] == x[j];
    }
    if rest != [] {
      assert s[|x|..|x| + 1] == ";";
      assert OccursAt(s, ";", |x|);
    } else {
      assert s == x;
    }
  }

  /** The corrected reading gives the charset's name, with or without further parameters. */
  lemma CharsetFixedReadsName(c: string, params: string)
    requires CharsetToken(c)
    requires params == [] || params[0] == ';'
    ensures CharsetFixed(None, TypePrefix + c + params) == Some(c)
  {
    ReadsName(c, params);
  }

  /** The same name in quotes reads the same. */
  lemma CharsetFixedReadsQuotedName(c: string, params: string)
    requires CharsetToken(c)
    requires params == [] || params[0] == ';'
    ensures CharsetFixed(None, TypePrefix + Quoted(c) + params) == Some(c)
  {
    QuotedToken(c);
    ReadsName(Quoted(c), params);
  }

  lemma QuotedToken(c: string)
    requires CharsetToken(c)
    ensures |Quoted(c)| == |c| + 2 && NoUpper(Quoted(c)) && Unquote(Quoted(c)) == c
    ensures Quoted(c)[0] !in Whitespace && Quoted(c)[|Quoted(c)| - 1] !in Whitespace
    ensures forall i :: 0 <= i < |Quoted(c)| ==> Quoted(c)[i] != ';'
  {
    var q := Quoted(c);
    assert q[1..|q| - 1] == c;
  }

  lemma LowerTypeWith(x: string, params: string)
    requires NoUpper(x)
    ensures Lower(TypePrefix + x + params) == TypePrefix + (x + Lower(params))
  {
    LowerKeeps(x);
    LowerAppend(x, params);
    assert TypePrefix + x + params == TypePrefix + (x + params);
    FindCharset(x + params);
  }

  lemma ReadsName(x: string, params: string)
    requires |x| > 0 && NoUpper(x) && x[0] !in Whitespace && x[|x| - 1] !in Whitespace
    requires forall i :: 0 <= i < |x| ==> x[i] != ';'
    requires params == [] || params[0] == ';'
    ensures CharsetFixed(None, TypePrefix + x + params) == Some(Unquote(x))
  {
    var lp := Lower(params);
    assert lp == [] || lp[0] == ';';
    LowerTypeWith(x, params);
    var ct := TypePrefix + (x + lp);
    FindCharset(x + lp);
    assert Find(ct, "charset=") == 11;
    var v := ct[19..];
    assert v == x + lp;
    FindSemicolon(x, lp);
    var cut := if Find(v, ";") >= 0 then v[..Find(v, ";")] else v;
    assert cut == x;
    StripKeeps(x, Whitespace);
  }

  // ---------------------------------------------------------------------------
  // the body of a mail

  /** What one element adds to the text: its text on a line of its own, a newline for `<br>`. */
  function MailPiece(e: Element): string
  {
    (if e.text != "" then e.text + "\n" else "") + (if e.tag == "br" then "\n" else "")
  }

  function MailText(els: seq<Element>): string
    decreases |els|
  {
    if els == [] then "" else MailText(els[..|els| - 1]) + MailPiece(els[|els| - 1])
  }

  /** `parse_mail_content` over the elements of the body. */
  method ParseMailContent(els: seq<Element>) returns (p: Parsed)
    ensures p == Parsed(MailText(els), ImageSources(els), "")
  {
    var content := "";
    var images := [];
    var k := 0;
    while k < |els|
      invariant 0 <= k <= |els|
      invariant content == MailText(els[..k]) && images == ImageSources(els[..k])
    {
      var e := els[k];
      if e.text != "" {
        content := content + e.text + "\n";
      }
      if e.tag == "br" {
        content := content + "\n";
      }
      if e.tag == "img" {
        images := images + [e.src];
      }
      assert els[..k + 1][..k] == els[..k];
      k := k + 1;
    }
    assert els[..k] == els;
    p := Parsed(content, images, "");
  }

  lemma {:induction false} MailTextAppend(a: seq<Element>, b: seq<Element>)
    ensures MailText(a + b) == MailText(a) + MailText(b)
    decreases |b|
  {
    if b != [] {
      assert (a + b)[..|a + b| - 1] == a + b[..|b| - 1];
      MailTextAppend(a, b[..|b| - 1]);
    } else {
      assert a + b == a;
    }
  }

  /** The text of every element shows up in the message, followed by a line break. */
  lemma TextsOnTheirOwnLines(els: seq<Element>)
    ensures forall i :: 0 <= i < |els| && els[i].text != "" ==> Contains(MailText(els), els[i].text + "\n")
  {
    forall i | 0 <= i < |els| && els[i].text != "" ensures Contains(MailText(els), els[i].text + "\n") {
      TextOnItsOwnLine(els, i);
    }
  }

  lemma TextOnItsOwnLine(els: seq<Element>, i: nat)
    requires i < |els| && els[i].text != ""
    ensures Contains(MailText(els), els[i].text + "\n")
  {
    var before, e, after := els[..i], els[i], els[i + 1..];
    var t := e.text + "\n";
    assert els == before + [e] + after;
    MailTextAround(before, e, after);
    assert StartsWith(MailPiece(e), t) by {
      assert MailPiece(e)[..|t|] == t;
    }
    ContainsInMiddle(MailText(before), MailPiece(e), MailText(after), t);
  }

  lemma MailTextAround(before: seq<Element>, e: Element, after: seq<Element>)
    ensures MailText(before + [e] + after) == MailText(before) + MailPiece(e) + MailText(after)
  {
    MailTextAppend(before + [e], after);
    assert (before + [e])[..|before + [e]| - 1] == before;
  }

  // ---------------------------------------------------------------------------
  // the mailbox

  datatype Clock = Clock(year: nat, month: nat, day: nat, hour: nat, minute: nat)

  /** The `text/html` part: its Content-Type header, the charset set on it, its body. */
  datatype HtmlPart = HtmlPart(contentType: string, declared: Option<string>, body: seq<Element>)

  /** One mail as `get_latest_mail` reads it; `stamp` is its epoch second. */
  datatype MailMsg = MailMsg(addr: string, subject: string, date: Clock, stamp: int, html: Option<HtmlPart>)

  /**
   * Why reading a mail fails: no `text/html` part to parse, or a charset name
   * that `bytes.decode` does not know (LookupError).
   */
  datatype MailError = NoHtmlPart | UnknownCharset(name: string) | DownloadIncomplete

  function Stamp(m: MailMsg): string
  {
    IntToString(m.stamp)
  }

  function DateLine(c: Clock): string
  {
    "时间：" + NatToString(c.year) + "年" + NatToString(c.month) + "月" + NatToString(c.day) + "日 "
    + TwoDigits(c.hour) + ":" + TwoDigits(c.minute)
  }

  /** One reported mail: date and subject lines above the body text; `known` are the codec names. */
  function ParseMail(m: MailMsg, known: set<string>): Result<Parsed, MailError>
  {
    match m.html
    case None => Failure(NoHtmlPart)
    case Some(part) =>
      var cs := GuessCharset(part.declared, part.contentType);
      if cs.Some? && cs.value != "" && cs.value !in known then Failure(UnknownCharset(cs.value))
      else
        Success(Parsed(DateLine(m.date) + "\n" + "标题：" + m.subject + "\n" + MailText(part.body),
                       ImageSources(part.body), Stamp(m)))
  }

  /**
   * The mails reported, newest first: walking down from the newest, a newer
   * mail from a monitored address is reported, a newer one from elsewhere is
   * passed over, and the first mail not newer (as strings) ends the walk.
   */
  function Collect(msgs: seq<MailMsg>, last: string, monitored: set<string>, known: set<string>)
    : Result<seq<Parsed>, MailError>
    decreases |msgs|
  {
    if msgs == [] then Success([])
    else
      var m := msgs[|msgs| - 1];
      var older := msgs[..|msgs| - 1];
      if !StrLess(last, Stamp(m)) then Success([])
      else if m.addr !in monitored then Collect(older, last, monitored, known)
      else
        match ParseMail(m, known)
        case Failure(e) => Failure(e)
        case Success(p) =>
          match Collect(older, last, monitored, known)
          case Failure(e) => Failure(e)
          case Success(ps) => Success([p] + ps)
  }

  /** One step of the walk: what the newest mail of `msgs` contributes on top of the older ones. */
  lemma CollectPeel(msgs: seq<MailMsg>, older: seq<MailMsg>, m: MailMsg, last: string, monitored: set<string>, known: set<string>)
    requires msgs == older + [m]
    ensures !StrLess(last, Stamp(m)) ==> Collect(msgs, last, monitored, known) == Success([])
    ensures StrLess(last, Stamp(m)) && m.addr !in monitored ==>
              Collect(msgs, last, monitored, known) == Collect(older, last, monitored, known)
    ensures StrLess(last, Stamp(m)) && m.addr in monitored && ParseMail(m, known).Failure? ==>
              Collect(msgs, last, monitored, known) == Failure(ParseMail(m, known).error)
    ensures StrLess(last, Stamp(m)) && m.addr in monitored && ParseMail(m, known).Success? ==>
              Collect(msgs, last, monitored, known) == Prepend([ParseMail(m, known).value], Collect(older, last, monitored, known))
  {
    assert msgs[..|msgs| - 1] == older && msgs[|msgs| - 1] == m;
  }

  lemma TakeOneLess(msgs: seq<MailMsg>, k: nat)
    requires 0 < k <= |msgs|
    ensures msgs[..k] == msgs[..k - 1] + [msgs[k - 1]]
  {
  }

  function Prepend(ps: seq<Parsed>, r: Result<seq<Parsed>, MailError>): Result<seq<Parsed>, MailError>
  {
    match r
    case Failure(e) => Failure(e)
    case Success(q) => Success(ps + q)
  }

  lemma PrependNothing(r: Result<seq<Parsed>, MailError>)
    ensures Prepend([], r) == r
  {
    if r.Success? {
      assert [] + r.value == r.value;
    }
  }

  lemma PrependTwice(ps: seq<Parsed>, p: Parsed, r: Result<seq<Parsed>, MailError>)
    ensures Prepend(ps, Prepend([p], r)) == Prepend(ps + [p], r)
  {
    if r.Success? {
      assert ps + ([p] + r.value) == (ps + [p]) + r.value;
    }
  }

  /**
   * `get_latest_mail`: the new `lastmailtime` and what the call returns. An
   * unset time only records the newest mail's stamp.
   */
  function LatestMail(last: string, msgs: seq<MailMsg>, monitored: set<string>, known: set<string>)
    : (string, Result<(string, seq<Parsed>), MailError>)
  {
    if msgs == [] then (last, Success(("", [])))
    else
      var newest := Stamp(msgs[|msgs| - 1]);
      if last == "" then (newest, Success(("", [])))
      else
        match Collect(msgs, last, monitored, known)
        case Failure(e) => (last, Failure(e))
        case Success(ps) => (last, Success((newest, ps)))
  }

  /** `check_mail_update`: the time moves to the newest mail only when something was reported. */
  function CheckMail(last: string, msgs: seq<MailMsg>, monitored: set<string>, known: set<string>)
    : (string, Result<seq<Parsed>, MailError>)
  {
    var (t, r) := LatestMail(last, msgs, monitored, known);
    match r
    case Failure(e) => (t, Failure(e))
    case Success(found) => if found.1 != [] then (found.0, Success(found.1)) else (t, Success([]))
  }

  /** The time of the last reported mail: "" until the first poll records one. */
  class MailWatcher {
    var lastmailtime: string

    constructor()
      ensures lastmailtime == ""
    {
      lastmailtime := "";
    }

    method GetLatestMail(msgs: seq<MailMsg>, monitored: set<string>, known: set<string>)
      returns (r: Result<(string, seq<Parsed>), MailError>)
      modifies this
      ensures (lastmailtime, r) == LatestMail(old(lastmailtime), msgs, monitored, known)
    {
      var index := |msgs|;
      var newMails: seq<Parsed> := [];
      var latest := "";
      assert msgs[..index] == msgs;
      PrependNothing(Collect(msgs, lastmailtime, monitored, known));
      while index > 0
        invariant 0 <= index <= |msgs|
        invariant lastmailtime == old(lastmailtime)
        invariant index < |msgs| ==> latest == Stamp(msgs[|msgs| - 1]) && lastmailtime != ""
        invariant index == |msgs| ==> latest == "" && newMails == []
        invariant Collect(msgs, lastmailtime, monitored, known)
                  == Prepend(newMails, Collect(msgs[..index], lastmailtime, monitored, known))
      {
        var m := msgs[index - 1];
        var stamp := IntToString(m.stamp);
        if latest == "" {
          latest := stamp;
        }
        if lastmailtime == "" {
          lastmailtime := latest;
          return Success(("", []));
        }
        TakeOneLess(msgs, index);
        CollectPeel(msgs[..index], msgs[..index - 1], m, lastmailtime, monitored, known);
        if StrLess(lastmailtime, stamp) && m.addr in monitored {
          var p := ReadMail(m, known);
          if p.Failure? {
            return Failure(p.error);
          }
          PrependTwice(newMails, p.value, Collect(msgs[..index - 1], lastmailtime, monitored, known));
          newMails := newMails + [p.value];
        } else if !StrLess(lastmailtime, stamp) {
          assert newMails + [] == newMails;
          break;
        }
        index := index - 1;
      }
      if index == 0 {
        assert msgs[..0] == [];
        assert newMails + [] == newMails;
      }
      return Success((latest, newMails));
    }

    method CheckMailUpdate(msgs: seq<MailMsg>, monitored: set<string>, known: set<string>)
      returns (r: Result<seq<Parsed>, MailError>)
      modifies this
      ensures (lastmailtime, r) == CheckMail(old(lastmailtime), msgs, monitored, known)
    {
      var found := GetLatestMail(msgs, monitored, known);
      if found.Failure? {
        return Failure(found.error);
      }
      if found.value.1 != [] {
        lastmailtime := found.value.0;
        return Success(found.value.1);
      }
      return Success([]);
    }
  }

  /** `parse_mail_raw_content` then `parse_mail_content`, with the date and subject lines on top. */
  method ReadMail(m: MailMsg, known: set<string>) returns (r: Result<Parsed, MailError>)
    ensures r == ParseMail(m, known)
  {
    if m.html.None? {
      return Failure(NoHtmlPart);
    }
    var part := m.html.value;
    var cs := GuessCharset(part.declared, part.contentType);
    if cs.Some? && cs.value != "" && cs.value !in known {
      return Failure(UnknownCharset(cs.value));
    }
    var p := ParseMailContent(part.body);
    r := Success(Parsed(DateLine(m.date) + "\n" + "标题：" + m.subject + "\n" + p.text, p.imageUrls, Stamp(m)));
  }

  /**
   * `download_mail_images`: nothing for no urls; otherwise every download,
   * and a ValueError when any of them came back empty.
   */
  method DownloadMailImages(urls: seq<string>, download: string -> Option<Bytes>)
    returns (r: Result<Option<seq<Bytes>>, MailError>)
    ensures urls == [] <==> r == Success(None)
    ensures r.Failure? <==> exists i :: 0 <= i < |urls| && download(urls[i]).None?
    ensures r.Success? && r.value.Some? ==>
      |r.value.value| == |urls| && forall i :: 0 <= i < |urls| ==> r.value.value[i] == download(urls[i]).value
  {
    if urls == [] {
      return Success(None);
    }
    var imgs := [];
    var k := 0;
    while k < |urls|
      invariant 0 <= k <= |urls| && |imgs| == k
      invariant forall i :: 0 <= i < k ==> imgs[i] == download(urls[i])
    {
      imgs := imgs + [download(urls[k])];
      k := k + 1;
    }
    if None in imgs {
      return Failure(DownloadIncomplete);
    }
    r := Success(Some(seq(|imgs|, i requires 0 <= i < |imgs| => imgs[i].value)));
  }

  // ---------------------------------------------------------------------------
  // properties of the walk

  /** The first poll only records the newest mail's stamp and reports nothing. */
  lemma FirstPollOnlyRecords(msgs: seq<MailMsg>, monitored: set<string>, known: set<string>)
    requires msgs != []
    ensures LatestMail("", msgs, monitored, known) == (Stamp(msgs[|msgs| - 1]), Success(("", [])))
    ensures CheckMail("", msgs, monitored, known) == (Stamp(msgs[|msgs| - 1]), Success([]))
  {
  }

  /** Every reported mail is newer than the last time, and there are no more than there are mails. */
  lemma {:induction false} ReportedAreNewer(msgs: seq<MailMsg>, last: string, monitored: set<string>, known: set<string>)
    requires Collect(msgs, last, monitored, known).Success?
    ensures |Collect(msgs, last, monitored, known).value| <= |msgs|
    ensures forall p :: p in Collect(msgs, last, monitored, known).value ==> StrLess(last, p.timestamp)
    decreases |msgs|
  {
    if msgs != [] && StrLess(last, Stamp(msgs[|msgs| - 1])) {
      ReportedAreNewer(msgs[..|msgs| - 1], last, monitored, known);
    }
  }

  /** A newer mail from an address not monitored is passed over without ending the walk. */
  lemma UnmonitoredPassedOver(msgs: seq<MailMsg>, m: MailMsg, last: string, monitored: set<string>, known: set<string>)
    requires StrLess(last, Stamp(m)) && m.addr !in monitored
    ensures Collect(msgs + [m], last, monitored, known) == Collect(msgs, last, monitored, known)
  {
    assert (msgs + [m])[..|msgs|] == msgs;
  }

  /** A mail not newer than the last time hides every older mail, however new. */
  lemma OlderMailEndsWalk(msgs: seq<MailMsg>, m: MailMsg, last: string, monitored: set<string>, known: set<string>)
    requires !StrLess(last, Stamp(m))
    ensures Collect(msgs + [m], last, monitored, known) == Success([])
  {
  }

  /** Once set, the time never moves back, and it moves only to a stamp newer than before. */
  lemma CheckMailNeverGoesBack(last: string, msgs: seq<MailMsg>, monitored: set<string>, known: set<string>)
    requires last != ""
    ensures CheckMail(last, msgs, monitored, known).0 == last ||
            StrLess(last, CheckMail(last, msgs, monitored, known).0)
  {
    if msgs != [] && Collect(msgs, last, monitored, known).Success? && Collect(msgs, last, monitored, known).value != [] {
      assert StrLess(last, Stamp(msgs[|msgs| - 1]));
    }
  }

  /**
   * A charset followed by further parameters, such as `format=flowed`, comes
   * back with them: the name handed to `decode` is "utf-8; format=flowed",
   * which no codec answers to.
   */
  lemma ParametersKept(c: string, params: string)
    requires CharsetToken(c)
    requires |params| > 0 && params[0] == ';' && NoUpper(params) && params[|params| - 1] !in Whitespace
    ensures GuessCharset(None, TypePrefix + c + params) == Some(c + params)
    ensures GuessCharset(None, TypePrefix + c + params) != Some(c)
  {
    LowerTypeWith(c, params);
    LowerKeeps(params);
    FindCharset(c + params);
    assert (TypePrefix + (c + params))[19..] == c + params;
    StripKeeps(c + params, Whitespace);
  }

  /** The Content-Type `text/html; charset=utf-8; format=flowed` gives the charset "utf-8" + "; format=flowed". */
  lemma FlowedCharset(c: string, params: string)
    requires c == "utf-8" && params == "; format=flowed"
    ensures GuessCharset(None, TypePrefix + c + params) == Some(c + params)
  {
    assert CharsetToken(c);
    assert NoUpper(params) && params[|params| - 1] !in Whitespace;
    ParametersKept(c, params);
  }

  /**
   * A new mail from a monitored address whose charset carries further
   * parameters makes the whole poll raise, naming charset and parameters.
   */
  lemma ParametersFailPoll(msgs: seq<MailMsg>, m: MailMsg, c: string, params: string, last: string,
                           monitored: set<string>, known: set<string>)
    requires CharsetToken(c) && c + params !in known
    requires |params| > 0 && params[0] == ';' && NoUpper(params) && params[|params| - 1] !in Whitespace
    requires m.html.Some? && m.html.value.declared.None?
    requires m.html.value.contentType == TypePrefix + c + params
    requires StrLess(last, Stamp(m)) && m.addr in monitored
    ensures Collect(msgs + [m], last, monitored, known) == Failure(UnknownCharset(c + params))
  {
    ParametersMailFails(m, c, params, known);
    NewestFails(msgs, m, last, monitored, known);
  }

  lemma ParametersMailFails(m: MailMsg, c: string, params: string, known: set<string>)
    requires CharsetToken(c) && c + params !in known
    requires |params| > 0 && params[0] == ';' && NoUpper(params) && params[|params| - 1] !in Whitespace
    requires m.html.Some? && m.html.value.declared.None?
    requires m.html.value.contentType == TypePrefix + c + params
    ensures ParseMail(m, known) == Failure(UnknownCharset(c + params))
  {
    ParametersKept(c, params);
    UnknownNameFails(m, c + params, known);
  }

  lemma UnknownNameFails(m: MailMsg, name: string, known: set<string>)
    requires m.html.Some? && GuessCharset(m.html.value.declared, m.html.value.contentType) == Some(name)
    requires name != "" && name !in known
    ensures ParseMail(m, known) == Failure(UnknownCharset(name))
  {
  }

  lemma NewestFails(msgs: seq<MailMsg>, m: MailMsg, last: string, monitored: set<string>, known: set<string>)
    requires StrLess(last, Stamp(m)) && m.addr in monitored && ParseMail(m, known).Failure?
    ensures Collect(msgs + [m], last, monitored, known) == Failure(ParseMail(m, known).error)
  {
    assert (msgs + [m])[..|msgs|] == msgs;
  }
}
