/**
 * The blog feed (hxzxhelper/lib/blog.py): turning the newest entry of the
 * member's Atom feed into a message, and the time of the last entry reported.
 *
 * The download and the XML parse are not modelled: the newest entry arrives
 * already read, with its `published` text, its parsed time, its title and the
 * elements of its HTML content in document order; None stands for an empty
 * download.
 */
module Blog {
  import opened Wrappers
  import opened Text
  import opened Feed

  datatype BlogEntry = BlogEntry(published: string, time: int, title: string, content: seq<Element>)

  /** `lastblogtime > newtime` with `lastblogtime` still "" raises TypeError; an empty download raises ValueError. */
  datatype BlogError = TypeError | EmptyDownload

  function Placeholder(k: nat): string
  {
    "【第" + NatToString(k) + "张图片的位置】"
  }

  /** `date[:10]`: at most the first ten characters. */
  function DatePart(published: string): string
  {
    if |published| <= 10 then published else published[..10]
  }

  function Header(e: BlogEntry): string
  {
    "日期：" + DatePart(e.published) + "\n" + "标题：" + e.title + "\n" + "\n"
  }

  /**
   * What one element does to the text so far, `k` images having been seen: a
   * `<p>` starts a new line, then come the element's text and its tail, then
   * the placeholder of an image or the line break of a `<br>`.
   */
  function Step(text: string, k: nat, e: Element): (r: string)
    requires |text| > 0
    ensures |text| <= |r| && r[..|text|] == text
  {
    var a := if e.tag == "p" && text[|text| - 1] != '\n' then text + "\n" else text;
    var b := a + e.text + e.tail;
    var c := if e.tag == "img" then b + Placeholder(k + 1) else b;
    if e.tag == "br" then c + (if c[|c| - 1] == '\n' then "\n" else "\n\n") else c
  }

  function BlogText(header: string, els: seq<Element>): (r: string)
    requires |header| > 0
    ensures |header| <= |r| && r[..|header|] == header
    decreases |els|
  {
    if els == [] then header
    else
      var t := BlogText(header, els[..|els| - 1]);
      var r := Step(t, |ImageSources(els[..|els| - 1])|, els[|els| - 1]);
      assert r[..|header|] == t[..|header|];
      r
  }

  /** The leading whitespace is removed, then the newlines at both ends. */
  function Finish(text: string): string
  {
    Strip(LStrip(text, Whitespace), {'\n'})
  }

  function ParseBlog(e: BlogEntry): Parsed
  {
    Parsed(Finish(BlogText(Header(e), e.content)), ImageSources(e.content), "")
  }

  /** `parse_blog`, element by element. */
  method ParseBlogMethod(e: BlogEntry) returns (p: Parsed)
    ensures p == ParseBlog(e)
  {
    var text := Header(e);
    var images := [];
    var imgcnt := 1;
    var k := 0;
    while k < |e.content|
      invariant 0 <= k <= |e.content|
      invariant text == BlogText(Header(e), e.content[..k])
      invariant images == ImageSources(e.content[..k]) && imgcnt == |images| + 1
    {
      var el := e.content[k];
      assert e.content[..k + 1][..k] == e.content[..k];
      text := AddElement(text, imgcnt, el);
      if el.tag == "img" {
        images := images + [el.src];
        imgcnt := imgcnt + 1;
      }
      k := k + 1;
    }
    assert e.content[..k] == e.content;
    p := Parsed(Finish(text), images, "");
  }

  /** The body of the loop over the elements; `imgcnt` is the number the next image gets. */
  method AddElement(text: string, imgcnt: nat, el: Element) returns (r: string)
    requires |text| > 0 && imgcnt >= 1
    ensures r == Step(text, imgcnt - 1, el)
  {
    r := text;
    if el.tag == "p" && r[|r| - 1] != '\n' {
      r := r + "\n";
    }
    ghost var a := r;
    if el.text != "" {
      r := r + el.text;
    }
    assert r == a + el.text;
    if el.tail != "" {
      r := r + el.tail;
    }
    assert r == a + el.text + el.tail;
    if el.tag == "img" {
      r := r + Placeholder(imgcnt);
    }
    if el.tag == "br" {
      r := r + if r[|r| - 1] == '\n' then "\n" else "\n\n";
    }
  }

  // ---------------------------------------------------------------------------
  // properties of the message

  /** Every occurrence in a prefix is still an occurrence. */
  lemma OccursInPrefix(s: string, t: string, sub: string, j: int)
    requires |s| <= |t| && t[..|s|] == s && OccursAt(s, sub, j)
    ensures OccursAt(t, sub, j)
  {
    assert t[j..j + |sub|] == s[j..j + |sub|];
  }

  /** Each image so far has its numbered placeholder in the text. */
  lemma {:induction false} PlaceholdersInText(header: string, els: seq<Element>)
    requires |header| > 0
    ensures forall k :: 1 <= k <= |ImageSources(els)| ==> Contains(BlogText(header, els), Placeholder(k))
    decreases |els|
  {
    if els != [] {
      var init := els[..|els| - 1];
      var e := els[|els| - 1];
      var t := BlogText(header, init);
      var n := |ImageSources(init)|;
      var r := BlogText(header, els);
      PlaceholdersInText(header, init);
      assert r == Step(t, n, e);
      assert |ImageSources(els)| == n + (if e.tag == "img" then 1 else 0);
      forall k | 1 <= k <= |ImageSources(els)| ensures Contains(r, Placeholder(k)) {
        PlaceholderKept(t, e, n, k);
      }
    }
  }

  lemma PlaceholderKept(t: string, e: Element, n: nat, k: nat)
    requires |t| > 0 && 1 <= k
    requires k <= n ==> Contains(t, Placeholder(k))
    requires k <= n || (k == n + 1 && e.tag == "img")
    ensures Contains(Step(t, n, e), Placeholder(k))
  {
    if k <= n {
      var j :| 0 <= j <= |t| - |Placeholder(k)| && OccursAt(t, Placeholder(k), j);
      OccursInPrefix(t, Step(t, n, e), Placeholder(k), j);
    } else {
      NewPlaceholder(t, n, e);
    }
  }

  lemma NewPlaceholder(t: string, n: nat, e: Element)
    requires |t| > 0 && e.tag == "img"
    ensures Contains(Step(t, n, e), Placeholder(n + 1))
  {
    var b := t + e.text + e.tail;
    var r := Step(t, n, e);
    assert r == b + Placeholder(n + 1);
    assert r[|b|..|b| + |Placeholder(n + 1)|] == Placeholder(n + 1);
    assert OccursAt(r, Placeholder(n + 1), |b|);
  }

  /** Stripping newlines at the end keeps everything up to the last other character. */
  lemma FinishKeeps(text: string, j: nat)
    requires |text| > 0 && text[0] !in Whitespace && j < |text| && text[j] != '\n'
    ensures |Finish(text)| > j && Finish(text)[..j + 1] == text[..j + 1]
  {
    assert LStrip(text, Whitespace) == text;
    assert LStrip(text, {'\n'}) == text;
  }

  /** The date and title lines, without the newlines that end the header. */
  function DateAndTitle(e: BlogEntry): string
  {
    "日期：" + DatePart(e.published) + "\n" + "标题：" + e.title
  }

  lemma HeaderParts(e: BlogEntry)
    requires e.title == [] || e.title[|e.title| - 1] != '\n'
    ensures Header(e) == DateAndTitle(e) + "\n\n"
    ensures DateAndTitle(e)[0] == '日' && DateAndTitle(e)[|DateAndTitle(e)| - 1] != '\n'
  {
    var top := DateAndTitle(e);
    if e.title == [] {
      assert top == "日期：" + DatePart(e.published) + "\n" + "标题：";
    } else {
      assert top[|top| - 1] == e.title[|e.title| - 1];
    }
  }

  /** Non-empty, and neither the first nor the last character is a line break. */
  predicate NoEdgeNewline(s: string)
  {
    |s| > 0 && s[0] != '\n' && s[|s| - 1] != '\n'
  }

  /** The message starts with the date and the title and has no newline at either end. */
  lemma ParsedBlogStart(e: BlogEntry)
    requires e.title == [] || e.title[|e.title| - 1] != '\n'
    ensures StartsWith(ParseBlog(e).text, DateAndTitle(e))
    ensures NoEdgeNewline(ParseBlog(e).text)
  {
    HeaderParts(e);
    assert '日' !in Whitespace;
    var full := BlogText(Header(e), e.content);
    assert full[..|DateAndTitle(e)|] == Header(e)[..|DateAndTitle(e)|];
    FinishShape(full, DateAndTitle(e));
  }

  lemma FinishShape(full: string, top: string)
    requires |top| > 0 && top[0] !in Whitespace && top[|top| - 1] != '\n' && StartsWith(full, top)
    ensures StartsWith(Finish(full), top)
    ensures NoEdgeNewline(Finish(full))
  {
    assert full[|top| - 1] == top[|top| - 1];
    FinishKeeps(full, |top| - 1);
    assert Finish(full)[..|top|] == full[..|top|];
    assert Finish(full)[0] == top[0];
  }

  /** Every image collected has its numbered placeholder in the message. */
  lemma ParsedBlogPlaceholders(e: BlogEntry)
    ensures forall k :: 1 <= k <= |ParseBlog(e).imageUrls| ==> Contains(ParseBlog(e).text, Placeholder(k))
  {
    var h := Header(e);
    var full := BlogText(h, e.content);
    assert full[0] == h[0] == '日';
    PlaceholdersInText(h, e.content);
    forall k | 1 <= k <= |ImageSources(e.content)| ensures Contains(Finish(full), Placeholder(k)) {
      var j :| 0 <= j <= |full| - |Placeholder(k)| && OccursAt(full, Placeholder(k), j);
      PlaceholderSurvives(full, k, j);
    }
  }

  lemma PlaceholderSurvives(full: string, k: nat, j: nat)
    requires |full| > 0 && full[0] !in Whitespace && OccursAt(full, Placeholder(k), j)
    ensures Contains(Finish(full), Placeholder(k))
  {
    var p := Placeholder(k);
    var end := j + |p| - 1;
    assert full[end] == full[j..j + |p|][|p| - 1] == p[|p| - 1] == '】';
    FinishKeeps(full, end);
    var r := Finish(full);
    assert r[j..j + |p|] == r[..end + 1][j..end + 1] == full[..end + 1][j..end + 1] == full[j..j + |p|];
    assert OccursAt(r, p, j);
  }

  /** A tail is written before the element's own placeholder or line break. */
  /**
   * A bare `<p>` leaves the text ending in a line break, adding one only when
   * it is missing; a bare `<br>` leaves it ending in an empty line, adding as
   * few line breaks as that takes.
   */
  lemma LineBreakElements(t: string, k: nat, src: Option<string>)
    requires |t| > 0
    ensures var p := Step(t, k, Element("p", "", "", src));
      EndsWith(p, "\n") && (p == t <==> t[|t| - 1] == '\n') && |p| <= |t| + 1
    ensures var b := Step(t, k, Element("br", "", "", src));
      EndsWith(b, "\n\n") && StartsWith(b, t) && |b| == |t| + (if t[|t| - 1] == '\n' then 1 else 2)
  {
  }

  lemma TailBeforeMarker(t: string, k: nat, tail: string, src: Option<string>)
    requires |t| > 0 && t[|t| - 1] != '\n' && |tail| > 0 && tail[|tail| - 1] != '\n'
    ensures Step(t, k, Element("img", "", tail, src)) == t + tail + Placeholder(k + 1)
    ensures Step(t, k, Element("br", "", tail, src)) == t + tail + "\n\n"
  {
  }

  /**
   * `iter()` lists an element before its children, so every tail comes
   * before the text of the element's children: `<p>a<b>x</b>c</p>d` reads "adxc".
   */
  lemma NestedTailFirst(t: string, k: nat)
    requires |t| > 0 && t[|t| - 1] == '\n'
    ensures Step(Step(t, k, Element("p", "a", "d", None)), k, Element("b", "x", "c", None)) == t + "adxc"
  {
    var s1 := Step(t, k, Element("p", "a", "d", None));
    assert s1 == t + "a" + "d";
    assert Step(s1, k, Element("b", "x", "c", None)) == s1 + "x" + "c";
  }

  /** The step as intended: the element's own text and marker, then whatever follows it. */
  function StepFixed(text: string, k: nat, e: Element): (r: string)
    requires |text| > 0
  {
    var a := if e.tag == "p" && text[|text| - 1] != '\n' then text + "\n" else text;
    var b := a + e.text;
    var c := if e.tag == "img" then b + Placeholder(k + 1) else b;
    var d := if e.tag == "br" then c + (if c[|c| - 1] == '\n' then "\n" else "\n\n") else c;
    d + e.tail
  }

  /** In the intended step the tail comes last; without a tail both steps agree. */
  lemma StepFixedPutsTailLast(t: string, k: nat, e: Element)
    requires |t| > 0
    ensures EndsWith(StepFixed(t, k, e), e.tail)
    ensures e.tail == "" ==> StepFixed(t, k, e) == Step(t, k, e)
    ensures e.tag == "img" && e.text == "" ==>
      StepFixed(t, k, e) == t + Placeholder(k + 1) + e.tail
    ensures e.tag == "br" && e.text == "" && t[|t| - 1] != '\n' ==>
      StepFixed(t, k, e) == t + "\n\n" + e.tail
  {
  }

  // ---------------------------------------------------------------------------
  // the time of the last entry reported

  /** `check_blog_update`: the new time and the entry to report, if it is newer. */
  function CheckBlog(last: Option<int>, download: Option<BlogEntry>): (Option<int>, Result<Option<Parsed>, BlogError>)
  {
    match download
    case None => (last, Success(None))
    case Some(e) =>
      if last.None? then (last, Failure(TypeError))
      else if e.time > last.value then (Some(e.time), Success(Some(ParseBlog(e))))
      else (last, Success(None))
  }

  /** `get_blog_f`: always reports the newest entry and takes its time, newer or not. */
  function GetBlog(last: Option<int>, download: Option<BlogEntry>): (Option<int>, Result<Option<Parsed>, BlogError>)
  {
    match download
    case None => (last, Success(None))
    case Some(e) => (Some(e.time), Success(Some(ParseBlog(e))))
  }

  class BlogWatcher {
    /** `lastblogtime`: None until `blog_initial` has read the feed. */
    var last: Option<int>

    constructor()
      ensures last == None
    {
      last := None;
    }

    method CheckBlogUpdate(download: Option<BlogEntry>) returns (r: Result<Option<Parsed>, BlogError>)
      modifies this
      ensures (last, r) == CheckBlog(old(last), download)
    {
      if download.None? {
        return Success(None);
      }
      var e := download.value;
      if last.None? {
        return Failure(TypeError);
      }
      if e.time > last.value {
        last := Some(e.time);
        var p := ParseBlogMethod(e);
        return Success(Some(p));
      }
      return Success(None);
    }

    method GetBlogF(download: Option<BlogEntry>) returns (r: Result<Option<Parsed>, BlogError>)
      modifies this
      ensures (last, r) == GetBlog(old(last), download)
    {
      if download.None? {
        return Success(None);
      }
      var e := download.value;
      last := Some(e.time);
      var p := ParseBlogMethod(e);
      return Success(Some(p));
    }

    /** `blog_initial`: an empty download is not caught here. */
    method BlogInitial(download: Option<BlogEntry>) returns (r: Result<(), BlogError>)
      modifies this
      ensures download.None? ==> r == Failure(EmptyDownload) && last == old(last)
      ensures download.Some? ==> r == Success(()) && last == Some(download.value.time)
    {
      if download.None? {
        return Failure(EmptyDownload);
      }
      last := Some(download.value.time);
      return Success(());
    }
  }

  /** An entry is reported once: polling again with the same feed reports nothing. */
  lemma ReportedOnce(last: Option<int>, download: Option<BlogEntry>)
    requires CheckBlog(last, download).1.Success? && CheckBlog(last, download).1.value.Some?
    ensures var next := CheckBlog(last, download).0;
            CheckBlog(next, download) == (next, Success(None))
  {
    var e := download.value;
    assert last.Some? && e.time > last.value;
    var next := Some(e.time);
    assert CheckBlog(last, download).0 == next;
    assert CheckBlog(next, download) == (next, Success(None));
  }

  /** The polled time never moves back; `get_blog_f` moves it to the feed's time, even back. */
  lemma CheckBlogNeverGoesBack(last: Option<int>, download: Option<BlogEntry>)
    requires last.Some?
    ensures CheckBlog(last, download).0.Some? && CheckBlog(last, download).0.value >= last.value
    ensures download.Some? ==> GetBlog(last, download).0 == Some(download.value.time)
  {
  }

  /** Before the first read of the feed, polling a non-empty feed raises. */
  lemma PollBeforeInitialRaises(e: BlogEntry)
    ensures CheckBlog(None, Some(e)) == (None, Failure(TypeError))
  {
  }
}
