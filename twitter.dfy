/**
 * The tweet feed (hxzxhelper/lib/twitter.py): rewriting the links inside a
 * tweet, turning one answer of the search API into messages, and the pair of
 * tweet ids the feed keeps between polls.
 *
 * The HTTP requests are not modelled: the answer of the search is a parameter,
 * and the second request for referenced tweets is a function parameter
 * `fetch` from the comma-joined id list to its answer.
 */
module Twitter {
  import opened Wrappers
  import opened Text
  import opened Feed

  // ---------------------------------------------------------------------------
  // links inside a tweet

  /** One entry of `entities.urls`: the t.co link, its expansion and its display form. */
  datatype Url = Url(short: string, expanded: string, display: string)

  /** Links to pictures and to dlvr.it are deleted; every other link is expanded. */
  predicate IsMediaLink(u: Url)
  {
    Find(u.display, "pic.twitter.com") != -1 || Find(u.display, "dlvr.it") != -1
  }

  function Substitute(u: Url): string
  {
    if IsMediaLink(u) then "" else u.expanded
  }

  /** The text after each link, in order, has been replaced everywhere it occurs. */
  function Rewritten(text: string, urls: seq<Url>): string
    decreases |urls|
  {
    if urls == [] then text
    else
      var u := urls[|urls| - 1];
      Replace(Rewritten(text, urls[..|urls| - 1]), u.short, Substitute(u))
  }

  method RemoveUrlsInTweet(text: string, urls: seq<Url>) returns (r: string)
    ensures r == Rewritten(text, urls)
  {
    r := text;
    var k := 0;
    while k < |urls|
      invariant 0 <= k <= |urls|
      invariant r == Rewritten(text, urls[..k])
    {
      var u := urls[k];
      if Find(u.display, "pic.twitter.com") == -1 && Find(u.display, "dlvr.it") == -1 {
        r := Replace(r, u.short, u.expanded);
      } else {
        r := Replace(r, u.short, "");
      }
      assert urls[..k + 1][..k] == urls[..k];
      k := k + 1;
    }
    assert urls[..k] == urls;
  }

  /** A tweet holding one link: a picture link disappears, any other link is expanded in place. */
  lemma RewriteOneLink(a: string, u: Url, b: string)
    requires |u.short| > 0
    requires forall j :: 0 <= j < |a| ==> !OccursAt(a + u.short + b, u.short, j)
    requires !Contains(b, u.short)
    ensures Rewritten(a + u.short + b, [u]) == a + Substitute(u) + b
    ensures IsMediaLink(u) ==> Rewritten(a + u.short + b, [u]) == a + b
    ensures !IsMediaLink(u) ==> Rewritten(a + u.short + b, [u]) == a + u.expanded + b
  {
    SubstitutedOnce(a, u, b);
    SubstituteCases(u);
  }

  lemma SubstitutedOnce(a: string, u: Url, b: string)
    requires |u.short| > 0
    requires forall j :: 0 <= j < |a| ==> !OccursAt(a + u.short + b, u.short, j)
    requires !Contains(b, u.short)
    ensures Rewritten(a + u.short + b, [u]) == a + Substitute(u) + b
  {
    var text, r := a + u.short + b, Substitute(u);
    assert Rewritten(text, [u]) == Replace(text, u.short, r) by {
      assert [u][..0] == [];
    }
    ReplaceOnce(a, u.short, b, r);
  }

  lemma SubstituteCases(u: Url)
    ensures IsMediaLink(u) ==> Substitute(u) == ""
    ensures !IsMediaLink(u) ==> Substitute(u) == u.expanded
  {
  }

  /** Text without any of the links is left exactly as it was. */
  lemma {:induction false} RewrittenUntouched(text: string, urls: seq<Url>)
    requires forall i :: 0 <= i < |urls| ==> |urls[i].short| > 0 && !Contains(text, urls[i].short)
    ensures Rewritten(text, urls) == text
    decreases |urls|
  {
    if urls != [] {
      RewrittenUntouched(text, urls[..|urls| - 1]);
      ReplaceAbsent(text, urls[|urls| - 1].short, Substitute(urls[|urls| - 1]));
    }
  }

  // ---------------------------------------------------------------------------
  // the search answer

  datatype Reference = Reference(kind: string, id: string)

  /** The creation time already moved to UTC+8 and cut to whole seconds; `stamp` is its epoch second. */
  datatype Clock = Clock(year: nat, month: nat, day: nat, hour: nat, minute: nat, second: nat, stamp: int)

  /** One tweet; an absent `referenced_tweets` or `attachments` is the empty sequence. */
  datatype Tweet = Tweet(id: string, author: string, text: string, urls: seq<Url>,
                         refs: seq<Reference>, mediaKeys: seq<string>, created: Clock)

  datatype Media = Media(key: string, url: Option<string>, preview: Option<string>)

  datatype User = User(id: string, name: string, username: string)

  /** An answer: `data`, `includes.media`, `includes.users`, `meta.newest_id` and `meta.result_count`. */
  datatype Response = Response(data: seq<Tweet>, media: seq<Media>, users: seq<User>,
                               newestId: string, resultCount: int)

  /** The dictionary lookup that fails in the source raises KeyError with the missing key. */
  datatype KeyError = MissingUser(id: string) | MissingMedia(key: string)

  /** Media indexed by key; with `keepExisting` a key already present is not overwritten. */
  function IndexMedia(images: map<string, Media>, media: seq<Media>, keepExisting: bool): map<string, Media>
    decreases |media|
  {
    if media == [] then images
    else
      var m := IndexMedia(images, media[..|media| - 1], keepExisting);
      var x := media[|media| - 1];
      if keepExisting && x.key in m then m else m[x.key := x]
  }

  /** What the scan of the tweets collects: ids seen, referenced ids, tweets per author, authors. */
  datatype Scan = Scan(ids: seq<string>, refer: seq<string>,
                       groups: map<string, seq<Tweet>>, authors: seq<string>)

  function AddToGroup(groups: map<string, seq<Tweet>>, t: Tweet): map<string, seq<Tweet>>
  {
    groups[t.author := if t.author in groups then groups[t.author] + [t] else [t]]
  }

  predicate RefersTo(t: Tweet, id: string)
  {
    t.refs != [] && t.refs[0].id == id
  }

  function ScanTweets(tweets: seq<Tweet>): Scan
    decreases |tweets|
  {
    if tweets == [] then Scan([], [], map[], [])
    else
      var s := ScanTweets(tweets[..|tweets| - 1]);
      var t := tweets[|tweets| - 1];
      Scan(s.ids + [t.id],
           if t.refs != [] && t.refs[0].id !in s.refer then s.refer + [t.refs[0].id] else s.refer,
           AddToGroup(s.groups, t),
           if t.author in s.groups then s.authors else s.authors + [t.author])
  }

  /** The tweets of `tweets` written by `author`, in order. */
  function By(tweets: seq<Tweet>, author: string): seq<Tweet>
    decreases |tweets|
  {
    if tweets == [] then []
    else
      var rest := By(tweets[..|tweets| - 1], author);
      if tweets[|tweets| - 1].author == author then rest + [tweets[|tweets| - 1]] else rest
  }

  /** Referenced tweets whose id has not been seen join their author's group. */
  function MergeReferenced(s: Scan, tweets: seq<Tweet>): Scan
    decreases |tweets|
  {
    if tweets == [] then s
    else
      var m := MergeReferenced(s, tweets[..|tweets| - 1]);
      var t := tweets[|tweets| - 1];
      if t.id in m.ids then m else m.(ids := m.ids + [t.id], groups := AddToGroup(m.groups, t))
  }

  /** Users of the second answer that are not among the authors of the first. */
  function NewUsers(users: seq<User>, known: seq<string>): seq<User>
    decreases |users|
  {
    if users == [] then []
    else
      var rest := NewUsers(users[..|users| - 1], known);
      if users[|users| - 1].id in known then rest else rest + [users[|users| - 1]]
  }

  // ---------------------------------------------------------------------------
  // rendering

  predicate IsRetweet(t: Tweet)
  {
    t.refs != [] && t.refs[0].kind == "retweeted"
  }

  /** A non-empty `url` wins over `preview_image_url`, which may itself be absent. */
  function ImageUrl(m: Media): Option<string>
  {
    if m.url.Some? && m.url.value != "" then m.url else m.preview
  }

  function ImageUrls(keys: seq<string>, images: map<string, Media>): Result<seq<Option<string>>, KeyError>
    decreases |keys|
  {
    if keys == [] then Success([])
    else
      match ImageUrls(keys[..|keys| - 1], images)
      case Failure(e) => Failure(e)
      case Success(urls) =>
        var k := keys[|keys| - 1];
        if k in images then Success(urls + [ImageUrl(images[k])]) else Failure(MissingMedia(k))
  }

  function Header(c: Clock, u: User): string
  {
    "时间：" + NatToString(c.year) + "年" + NatToString(c.month) + "月" + NatToString(c.day) + "日 "
    + TwoDigits(c.hour) + ":" + TwoDigits(c.minute) + ":" + TwoDigits(c.second) + "\n"
    + "【推特更新】\n\n" + u.name + " @" + u.username + ":"
  }

  function RenderTweet(u: User, t: Tweet, images: map<string, Media>): Result<Parsed, KeyError>
  {
    match ImageUrls(t.mediaKeys, images)
    case Failure(e) => Failure(e)
    case Success(urls) =>
      Success(Parsed(Header(t.created, u) + Rewritten(t.text, t.urls), urls, IntToString(t.created.stamp)))
  }

  function RenderTweets(u: User, tweets: seq<Tweet>, images: map<string, Media>): Result<seq<Parsed>, KeyError>
    decreases |tweets|
  {
    if tweets == [] then Success([])
    else
      match RenderTweets(u, tweets[..|tweets| - 1], images)
      case Failure(e) => Failure(e)
      case Success(ms) =>
        var t := tweets[|tweets| - 1];
        if IsRetweet(t) then Success(ms)
        else
          match RenderTweet(u, t, images)
          case Failure(e) => Failure(e)
          case Success(p) => Success(ms + [p])
  }

  function RenderUsers(users: seq<User>, groups: map<string, seq<Tweet>>, images: map<string, Media>)
    : Result<seq<Parsed>, KeyError>
    decreases |users|
  {
    if users == [] then Success([])
    else
      match RenderUsers(users[..|users| - 1], groups, images)
      case Failure(e) => Failure(e)
      case Success(ms) =>
        var u := users[|users| - 1];
        if u.id !in groups then Failure(MissingUser(u.id))
        else
          match RenderTweets(u, groups[u.id], images)
          case Failure(e) => Failure(e)
          case Success(ps) => Success(ms + ps)
  }

  /** What parse_tweet returns: the newest id and the messages, or the KeyError it raises. */
  function ParseTweetSpec(t: Response, fetch: string -> Response): Result<(string, seq<Parsed>), KeyError>
  {
    if t.resultCount == 0 then Success(("", []))
    else
      var images := IndexMedia(map[], t.media, false);
      var s := ScanTweets(t.data);
      if s.refer == [] then
        match RenderUsers(t.users, s.groups, images)
        case Failure(e) => Failure(e)
        case Success(ms) => Success((t.newestId, ms))
      else
        var tt := fetch(Join(s.refer, ','));
        var m := MergeReferenced(s, tt.data);
        match RenderUsers(t.users + NewUsers(tt.users, s.authors), m.groups, IndexMedia(images, tt.media, true))
        case Failure(e) => Failure(e)
        case Success(ms) => Success((t.newestId, ms))
  }

  // ---------------------------------------------------------------------------
  // parse_tweet, loop by loop

  method IndexMediaLoop(images: map<string, Media>, media: seq<Media>, keepExisting: bool)
    returns (r: map<string, Media>)
    ensures r == IndexMedia(images, media, keepExisting)
  {
    r := images;
    var k := 0;
    while k < |media|
      invariant 0 <= k <= |media|
      invariant r == IndexMedia(images, media[..k], keepExisting)
    {
      if !keepExisting || media[k].key !in r {
        r := r[media[k].key := media[k]];
      }
      assert media[..k + 1][..k] == media[..k];
      k := k + 1;
    }
    assert media[..k] == media;
  }

  method ScanLoop(tweets: seq<Tweet>) returns (s: Scan)
    ensures s == ScanTweets(tweets)
  {
    var ids, refer, groups, authors := [], [], map[], [];
    var k := 0;
    while k < |tweets|
      invariant 0 <= k <= |tweets|
      invariant Scan(ids, refer, groups, authors) == ScanTweets(tweets[..k])
    {
      var t := tweets[k];
      ids := ids + [t.id];
      if t.refs != [] && t.refs[0].id !in refer {
        refer := refer + [t.refs[0].id];
      }
      if t.author in groups {
        groups := groups[t.author := groups[t.author] + [t]];
      } else {
        groups := groups[t.author := [t]];
        authors := authors + [t.author];
      }
      assert tweets[..k + 1][..k] == tweets[..k];
      k := k + 1;
    }
    assert tweets[..k] == tweets;
    s := Scan(ids, refer, groups, authors);
  }

  method MergeLoop(s: Scan, tweets: seq<Tweet>) returns (m: Scan)
    ensures m == MergeReferenced(s, tweets)
  {
    m := s;
    var k := 0;
    while k < |tweets|
      invariant 0 <= k <= |tweets|
      invariant m == MergeReferenced(s, tweets[..k])
    {
      var t := tweets[k];
      if t.id !in m.ids {
        m := m.(ids := m.ids + [t.id], groups := AddToGroup(m.groups, t));
      }
      assert tweets[..k + 1][..k] == tweets[..k];
      k := k + 1;
    }
    assert tweets[..k] == tweets;
  }

  method NewUsersLoop(users: seq<User>, known: seq<string>) returns (r: seq<User>)
    ensures r == NewUsers(users, known)
  {
    r := [];
    var k := 0;
    while k < |users|
      invariant 0 <= k <= |users|
      invariant r == NewUsers(users[..k], known)
    {
      if users[k].id !in known {
        r := r + [users[k]];
      }
      assert users[..k + 1][..k] == users[..k];
      k := k + 1;
    }
    assert users[..k] == users;
  }

  method ImageUrlsLoop(keys: seq<string>, images: map<string, Media>)
    returns (r: Result<seq<Option<string>>, KeyError>)
    ensures r == ImageUrls(keys, images)
  {
    var urls := [];
    var k := 0;
    while k < |keys|
      invariant 0 <= k <= |keys|
      invariant ImageUrls(keys[..k], images) == Success(urls)
    {
      assert keys[..k + 1][..k] == keys[..k];
      if keys[k] !in images {
        ImageUrlsFailureSticks(keys, images, k + 1);
        return Failure(MissingMedia(keys[k]));
      }
      var m := images[keys[k]];
      if m.url.Some? && m.url.value != "" {
        urls := urls + [m.url];
      } else {
        urls := urls + [m.preview];
      }
      k := k + 1;
    }
    assert keys[..k] == keys;
    r := Success(urls);
  }

  method RenderTweetMethod(u: User, t: Tweet, images: map<string, Media>) returns (r: Result<Parsed, KeyError>)
    ensures r == RenderTweet(u, t, images)
  {
    var text := RemoveUrlsInTweet(t.text, t.urls);
    var urls := ImageUrlsLoop(t.mediaKeys, images);
    if urls.Failure? {
      return Failure(urls.error);
    }
    r := Success(Parsed(Header(t.created, u) + text, urls.value, IntToString(t.created.stamp)));
  }

  method RenderTweetsLoop(u: User, tweets: seq<Tweet>, images: map<string, Media>)
    returns (r: Result<seq<Parsed>, KeyError>)
    ensures r == RenderTweets(u, tweets, images)
  {
    var msgs := [];
    var k := 0;
    while k < |tweets|
      invariant 0 <= k <= |tweets|
      invariant RenderTweets(u, tweets[..k], images) == Success(msgs)
    {
      assert tweets[..k + 1][..k] == tweets[..k];
      var t := tweets[k];
      if !IsRetweet(t) {
        var p := RenderTweetMethod(u, t, images);
        if p.Failure? {
          RenderTweetsFailureSticks(u, tweets, images, k + 1);
          return Failure(p.error);
        }
        msgs := msgs + [p.value];
      }
      k := k + 1;
    }
    assert tweets[..k] == tweets;
    r := Success(msgs);
  }

  method RenderUsersLoop(users: seq<User>, groups: map<string, seq<Tweet>>, images: map<string, Media>)
    returns (r: Result<seq<Parsed>, KeyError>)
    ensures r == RenderUsers(users, groups, images)
  {
    var msgs := [];
    var k := 0;
    while k < |users|
      invariant 0 <= k <= |users|
      invariant RenderUsers(users[..k], groups, images) == Success(msgs)
    {
      assert users[..k + 1][..k] == users[..k];
      var u := users[k];
      if u.id !in groups {
        RenderUsersFailureSticks(users, groups, images, k + 1);
        return Failure(MissingUser(u.id));
      }
      var ps := RenderTweetsLoop(u, groups[u.id], images);
      if ps.Failure? {
        RenderUsersFailureSticks(users, groups, images, k + 1);
        return Failure(ps.error);
      }
      msgs := msgs + ps.value;
      k := k + 1;
    }
    assert users[..k] == users;
    r := Success(msgs);
  }

  /** Once a prefix has raised, the whole loop raises the same error. */
  lemma {:induction false} ImageUrlsFailureSticks(keys: seq<string>, images: map<string, Media>, k: nat)
    requires k <= |keys| && ImageUrls(keys[..k], images).Failure?
    ensures ImageUrls(keys, images) == ImageUrls(keys[..k], images)
    decreases |keys|
  {
    if k < |keys| {
      assert keys[..|keys| - 1][..k] == keys[..k];
      ImageUrlsFailureSticks(keys[..|keys| - 1], images, k);
    } else {
      assert keys[..k] == keys;
    }
  }

  lemma {:induction false} RenderTweetsFailureSticks(u: User, tweets: seq<Tweet>, images: map<string, Media>, k: nat)
    requires k <= |tweets| && RenderTweets(u, tweets[..k], images).Failure?
    ensures RenderTweets(u, tweets, images) == RenderTweets(u, tweets[..k], images)
    decreases |tweets|
  {
    if k < |tweets| {
      assert tweets[..|tweets| - 1][..k] == tweets[..k];
      RenderTweetsFailureSticks(u, tweets[..|tweets| - 1], images, k);
    } else {
      assert tweets[..k] == tweets;
    }
  }

  lemma {:induction false} RenderUsersFailureSticks(users: seq<User>, groups: map<string, seq<Tweet>>,
                                                    images: map<string, Media>, k: nat)
    requires k <= |users| && RenderUsers(users[..k], groups, images).Failure?
    ensures RenderUsers(users, groups, images) == RenderUsers(users[..k], groups, images)
    decreases |users|
  {
    if k < |users| {
      assert users[..|users| - 1][..k] == users[..k];
      RenderUsersFailureSticks(users[..|users| - 1], groups, images, k);
    } else {
      assert users[..k] == users;
    }
  }

  method ParseTweet(t: Response, fetch: string -> Response) returns (r: Result<(string, seq<Parsed>), KeyError>)
    ensures r == ParseTweetSpec(t, fetch)
  {
    if t.resultCount == 0 {
      return Success(("", []));
    }
    var images := IndexMediaLoop(map[], t.media, false);
    var s := ScanLoop(t.data);
    var users := t.users;
    if s.refer != [] {
      var tt := fetch(Join(s.refer, ','));
      images := IndexMediaLoop(images, tt.media, true);
      var extra := NewUsersLoop(tt.users, s.authors);
      s := MergeLoop(s, tt.data);
      users := users + extra;
    }
    var msgs := RenderUsersLoop(users, s.groups, images);
    if msgs.Failure? {
      return Failure(msgs.error);
    }
    r := Success((t.newestId, msgs.value));
  }

  // ---------------------------------------------------------------------------
  // properties of parse_tweet

  /** An answer with no results gives no id and no messages, whatever else it holds. */
  lemma EmptyAnswer(t: Response, fetch: string -> Response)
    requires t.resultCount == 0
    ensures ParseTweetSpec(t, fetch) == Success(("", []))
  {
  }

  /** The referenced ids: each once, and exactly the first reference of some tweet. */
  lemma {:induction false} ReferencesCollected(tweets: seq<Tweet>)
    ensures NoDup(ScanTweets(tweets).refer)
    ensures forall x :: x in ScanTweets(tweets).refer <==>
      exists i :: 0 <= i < |tweets| && RefersTo(tweets[i], x)
    decreases |tweets|
  {
    if tweets != [] {
      var init := tweets[..|tweets| - 1];
      var t := tweets[|tweets| - 1];
      ReferencesCollected(init);
      ReferSnoc(init, t, tweets);
      forall x ensures x in ScanTweets(tweets).refer <==> exists i :: 0 <= i < |tweets| && RefersTo(tweets[i], x) {
        if exists i :: 0 <= i < |tweets| && RefersTo(tweets[i], x) {
          var i :| 0 <= i < |tweets| && RefersTo(tweets[i], x);
          if i < |init| {
            assert RefersTo(init[i], x);
          }
        }
        if x in ScanTweets(init).refer {
          var i :| 0 <= i < |init| && RefersTo(init[i], x);
          assert RefersTo(tweets[i], x);
        }
      }
    }
  }

  /** One more tweet adds its first reference to the list, unless it is already there. */
  lemma ReferSnoc(init: seq<Tweet>, t: Tweet, tweets: seq<Tweet>)
    requires NoDup(ScanTweets(init).refer)
    requires tweets == init + [t]
    ensures NoDup(ScanTweets(tweets).refer)
    ensures forall x :: x in ScanTweets(tweets).refer <==> x in ScanTweets(init).refer || RefersTo(t, x)
  {
    assert tweets[..|tweets| - 1] == init;
  }

  /** Every author gets one group holding exactly their tweets, in order. */
  lemma {:induction false} TweetsGroupedByAuthor(tweets: seq<Tweet>)
    ensures forall a :: a in ScanTweets(tweets).groups ==> ScanTweets(tweets).groups[a] == By(tweets, a)
    ensures forall a :: a in ScanTweets(tweets).groups <==> By(tweets, a) != []
    decreases |tweets|
  {
    if tweets != [] {
      TweetsGroupedByAuthor(tweets[..|tweets| - 1]);
    }
  }

  /** Authors are listed once each, exactly those that have a group; the ids are the tweets' ids. */
  lemma {:induction false} AuthorsListedOnce(tweets: seq<Tweet>)
    ensures forall a :: a in ScanTweets(tweets).authors <==> a in ScanTweets(tweets).groups
    ensures NoDup(ScanTweets(tweets).authors)
    ensures |ScanTweets(tweets).ids| == |tweets|
    ensures forall i :: 0 <= i < |tweets| ==> ScanTweets(tweets).ids[i] == tweets[i].id
    decreases |tweets|
  {
    if tweets != [] {
      AuthorsListedOnce(tweets[..|tweets| - 1]);
    }
  }

  /** Merging keeps the id list free of repeats and adds exactly the ids of the referenced tweets. */
  lemma {:induction false} MergeKeepsIdsDistinct(s: Scan, tweets: seq<Tweet>)
    requires NoDup(s.ids)
    ensures NoDup(MergeReferenced(s, tweets).ids)
    ensures forall x :: x in MergeReferenced(s, tweets).ids <==>
      x in s.ids || exists i :: 0 <= i < |tweets| && tweets[i].id == x
    decreases |tweets|
  {
    if tweets != [] {
      var init := tweets[..|tweets| - 1];
      MergeKeepsIdsDistinct(s, init);
      forall x ensures x in MergeReferenced(s, tweets).ids <==>
        x in s.ids || exists i :: 0 <= i < |tweets| && tweets[i].id == x
      {
        if exists i :: 0 <= i < |tweets| && tweets[i].id == x {
          var i :| 0 <= i < |tweets| && tweets[i].id == x;
          if i < |init| {
            assert init[i].id == x;
          }
        }
        if exists i :: 0 <= i < |init| && init[i].id == x {
          var i :| 0 <= i < |init| && init[i].id == x;
          assert tweets[i].id == x;
        }
      }
    }
  }

  /** A referenced tweet that was already among the results is not added a second time. */
  lemma {:induction false} MergeSkipsKnown(s: Scan, tweets: seq<Tweet>)
    requires forall i :: 0 <= i < |tweets| ==> tweets[i].id in s.ids
    ensures MergeReferenced(s, tweets) == s
    decreases |tweets|
  {
    if tweets != [] {
      MergeSkipsKnown(s, tweets[..|tweets| - 1]);
    }
  }

  /** Number of tweets in `tweets` that are not retweets. */
  function Shown(tweets: seq<Tweet>): nat
    decreases |tweets|
  {
    if tweets == [] then 0
    else Shown(tweets[..|tweets| - 1]) + if IsRetweet(tweets[|tweets| - 1]) then 0 else 1
  }

  /** Each tweet that is not a retweet yields one message, in order; retweets yield none. */
  lemma {:induction false} RetweetsSkipped(u: User, tweets: seq<Tweet>, images: map<string, Media>)
    requires RenderTweets(u, tweets, images).Success?
    ensures |RenderTweets(u, tweets, images).value| == Shown(tweets)
    decreases |tweets|
  {
    if tweets != [] {
      RetweetsSkipped(u, tweets[..|tweets| - 1], images);
    }
  }

  /** A group made only of retweets renders to nothing and cannot fail. */
  lemma {:induction false} OnlyRetweets(u: User, tweets: seq<Tweet>, images: map<string, Media>)
    requires forall i :: 0 <= i < |tweets| ==> IsRetweet(tweets[i])
    ensures RenderTweets(u, tweets, images) == Success([])
    decreases |tweets|
  {
    if tweets != [] {
      OnlyRetweets(u, tweets[..|tweets| - 1], images);
    }
  }

  /** The attachment list has one entry per media key, or a KeyError names a missing key. */
  lemma {:induction false} AttachmentUrls(keys: seq<string>, images: map<string, Media>)
    ensures ImageUrls(keys, images).Success? <==> forall i :: 0 <= i < |keys| ==> keys[i] in images
    ensures ImageUrls(keys, images).Success? ==>
      |ImageUrls(keys, images).value| == |keys| &&
      forall i :: 0 <= i < |keys| ==> ImageUrls(keys, images).value[i] == ImageUrl(images[keys[i]])
    ensures ImageUrls(keys, images).Failure? ==>
      ImageUrls(keys, images).error.MissingMedia? && ImageUrls(keys, images).error.key !in images
    decreases |keys|
  {
    if keys != [] {
      AttachmentUrls(keys[..|keys| - 1], images);
      if ImageUrls(keys, images).Success? {
        assert forall i :: 0 <= i < |keys| - 1 ==> keys[..|keys| - 1][i] == keys[i];
      } else if ImageUrls(keys[..|keys| - 1], images).Failure? {
        assert keys[..|keys| - 1][..] == keys[..|keys| - 1];
      }
    }
  }

  // ---------------------------------------------------------------------------
  // the ids kept between polls

  /** One keyword's answer: a larger newest id (compared as strings) moves both ids along. */
  function Advance(ids: (string, string), fetched: string): (string, string)
  {
    if StrLess(ids.0, fetched) then (fetched, ids.0) else ids
  }

  /** (newest, last) after a round in which the keywords answered with these newest ids. */
  function Round(ids: (string, string), fetched: seq<string>): (string, string)
    decreases |fetched|
  {
    if fetched == [] then ids else Advance(Round(ids, fetched[..|fetched| - 1]), fetched[|fetched| - 1])
  }

  /** Why a keyword gave no answer: its download came back empty (ValueError), or `parse_tweet` raised a KeyError. */
  datatype Fault = EmptyDownload | Raised(err: KeyError)

  /** One keyword's outcome in a round: its newest id and messages, or its fault. */
  type Reply = Result<(string, seq<Parsed>), Fault>

  /** The answers of a round up to the first keyword that failed. */
  function Answered(results: seq<Reply>): seq<(string, seq<Parsed>)>
    decreases |results|
  {
    if results == [] || results[0].Failure? then [] else [results[0].value] + Answered(results[1..])
  }

  function NewestIds(answers: seq<(string, seq<Parsed>)>): seq<string>
    decreases |answers|
  {
    if answers == [] then [] else [answers[0].0] + NewestIds(answers[1..])
  }

  function Messages(answers: seq<(string, seq<Parsed>)>): seq<Parsed>
    decreases |answers|
  {
    if answers == [] then [] else answers[0].1 + Messages(answers[1..])
  }

  predicate AllAnswered(results: seq<Reply>)
  {
    forall i :: 0 <= i < |results| ==> results[i].Success?
  }

  /** The newest id never moves backwards over a round. */
  lemma {:induction false} RoundNeverGoesBack(ids: (string, string), fetched: seq<string>)
    ensures Round(ids, fetched).0 == ids.0 || StrLess(ids.0, Round(ids, fetched).0)
    decreases |fetched|
  {
    if fetched != [] {
      var mid := Round(ids, fetched[..|fetched| - 1]);
      RoundNeverGoesBack(ids, fetched[..|fetched| - 1]);
      if StrLess(mid.0, fetched[|fetched| - 1]) && mid.0 != ids.0 {
        StrLessTransitive(ids.0, mid.0, fetched[|fetched| - 1]);
      }
    }
  }

  /** After a round the newest id is at least every id an answer reported. */
  lemma {:induction false} RoundReachesEveryAnswer(ids: (string, string), fetched: seq<string>)
    ensures forall i :: 0 <= i < |fetched| ==>
      fetched[i] == Round(ids, fetched).0 || StrLess(fetched[i], Round(ids, fetched).0)
    decreases |fetched|
  {
    if fetched != [] {
      var init := fetched[..|fetched| - 1];
      var mid := Round(ids, init);
      var x := fetched[|fetched| - 1];
      RoundReachesEveryAnswer(ids, init);
      var r := Round(ids, fetched);
      forall i | 0 <= i < |fetched| ensures fetched[i] == r.0 || StrLess(fetched[i], r.0) {
        if i < |init| {
          assert fetched[i] == init[i];
          if StrLess(mid.0, x) && fetched[i] != mid.0 {
            StrLessTransitive(fetched[i], mid.0, x);
          }
        } else if !StrLess(mid.0, x) && x != mid.0 {
          StrLessTotal(mid.0, x);
        }
      }
    }
  }

  /** The id restored after a failed round, as the code keeps it: the one before the LAST advance. */
  lemma RestoreAfterTwoAdvances(n0: string, l0: string, n1: string, n2: string)
    requires StrLess(n0, n1) && StrLess(n1, n2)
    ensures Round((n0, l0), [n1, n2]) == (n2, n1)
    ensures Round((n0, l0), [n1, n2]).1 != n0
  {
    assert [n1, n2][..1] == [n1];
    assert [n1][..0] == [];
    assert Round((n0, l0), [n1]) == (n1, n0);
    StrLessIrreflexive(n0);
  }

  /** The fault of the first keyword that failed, None when every keyword answered. */
  function FirstFault(results: seq<Reply>): Option<Fault>
    decreases |results|
  {
    if results == [] then None
    else if results[0].Failure? then Some(results[0].error)
    else FirstFault(results[1..])
  }

  /** What `check_tweet_update` gives back for a round (a KeyError propagates to its caller). */
  function RoundReply(results: seq<Reply>): Result<seq<Parsed>, KeyError>
  {
    match FirstFault(results)
    case None => Success(Messages(Answered(results)))
    case Some(EmptyDownload) => Success([])
    case Some(Raised(e)) => Failure(e)
  }

  /** A round has a fault exactly when some keyword failed. */
  lemma {:induction false} FirstFaultIffUnanswered(results: seq<Reply>)
    ensures FirstFault(results).None? <==> AllAnswered(results)
    decreases |results|
  {
    if results != [] {
      FirstFaultIffUnanswered(results[1..]);
      assert forall i :: 1 <= i < |results| ==> results[1..][i - 1] == results[i];
    }
  }

  /** The fault reported is the one of the first failing keyword. */
  lemma {:induction false} FirstFaultAt(results: seq<Reply>, k: nat)
    requires k < |results| && results[k].Failure?
    requires forall i :: 0 <= i < k ==> results[i].Success?
    ensures FirstFault(results) == Some(results[k].error)
    decreases k
  {
    if k > 0 {
      FirstFaultAt(results[1..], k - 1);
    }
  }

  /**
   * A round that raises a KeyError after one keyword advanced the newest id
   * raises, and the advanced id stays advanced.
   */
  lemma RaisedRoundKeepsAdvance(n0: string, l0: string, n1: string, ps: seq<Parsed>, e: KeyError)
    requires StrLess(n0, n1)
    ensures var results := [Success((n1, ps)), Failure(Raised(e))];
            RoundReply(results) == Failure(e) && Round((n0, l0), NewestIds(Answered(results))) == (n1, n0)
  {
    var results: seq<Reply> := [Success((n1, ps)), Failure(Raised(e))];
    assert results[1..] == [Failure(Raised(e))];
    FirstFaultAt(results, 1);
    assert Answered(results) == [(n1, ps)];
    assert NewestIds(Answered(results)) == [n1];
    assert [n1][..0] == [];
  }

  lemma {:induction false} AnsweredAll(results: seq<Reply>)
    requires AllAnswered(results)
    ensures |Answered(results)| == |results|
    ensures forall i :: 0 <= i < |results| ==> Answered(results)[i] == results[i].value
    decreases |results|
  {
    if results != [] {
      AnsweredAll(results[1..]);
      assert forall i :: 1 <= i < |results| ==> results[1..][i - 1] == results[i];
    }
  }

  /**
   * A round that fails after one keyword advanced the newest id drops that
   * keyword's messages, yet the next round asks only for tweets after the new id.
   */
  lemma FailedRoundLosesMessages(n0: string, l0: string, n1: string, ps: seq<Parsed>)
    requires StrLess(n0, n1)
    ensures var results := [Success((n1, ps)), Failure(EmptyDownload)];
            RoundReply(results) == Success([]) && Round((n0, l0), NewestIds(Answered(results))) == (n1, n0)
  {
    var results: seq<Reply> := [Success((n1, ps)), Failure(EmptyDownload)];
    assert results[1..] == [Failure(EmptyDownload)];
    FirstFaultAt(results, 1);
    assert Answered(results) == [(n1, ps)];
    assert NewestIds(Answered(results)) == [n1];
    assert [n1][..0] == [];
  }

  /** The pair of ids the feed keeps between polls (`newest_twi_id`, `_last_newest_twi_id`). */
  class TweetTracker {
    var newest: string
    var last: string

    constructor()
      ensures newest == "" && last == ""
    {
      newest := "";
      last := "";
    }

    /** The `since_id` sent with a search: only when asked for updates and an id is known. */
    method SinceId(update: bool) returns (since: Option<string>)
      ensures since.Some? <==> update && newest != ""
      ensures since.Some? ==> since.value == newest
    {
      if newest != "" && update {
        since := Some(newest);
      } else {
        since := None;
      }
    }

    /**
     * One polling round over the keywords, each keyword's reply in order. An
     * empty download ends the round with no messages and a KeyError ends it by
     * raising; either way the ids advanced by earlier keywords stay advanced.
     */
    method CheckUpdate(results: seq<Reply>) returns (r: Result<seq<Parsed>, KeyError>)
      modifies this
      ensures (newest, last) == Round((old(newest), old(last)), NewestIds(Answered(results)))
      ensures r == RoundReply(results)
    {
      var tweets := [];
      var k := 0;
      while k < |results|
        invariant 0 <= k <= |results|
        invariant forall i :: 0 <= i < k ==> results[i].Success?
        invariant Answered(results) == Answered(results[..k]) + Answered(results[k..])
        invariant (newest, last) == Round((old(newest), old(last)), NewestIds(Answered(results[..k])))
        invariant tweets == Messages(Answered(results[..k]))
      {
        if results[k].Failure? {
          AnsweredStopsAt(results, k);
          FirstFaultAt(results, k);
          if results[k].error.Raised? {
            return Failure(results[k].error.err);
          }
          return Success([]);
        }
        var (id, ps) := results[k].value;
        AnsweredStep(results, k);
        if StrLess(newest, id) {
          last := newest;
          newest := id;
        }
        tweets := tweets + ps;
        k := k + 1;
      }
      assert results[..k] == results;
      FirstFaultIffUnanswered(results);
      r := Success(tweets);
    }

    /**
     * The round as evidently intended: the id to go back to is saved once,
     * before the keyword loop, so it is the id held when the round began.
     */
    method CheckUpdateSavingOnce(results: seq<Reply>) returns (r: Result<seq<Parsed>, KeyError>)
      modifies this
      ensures newest == Round((old(newest), old(last)), NewestIds(Answered(results))).0
      ensures last == old(newest)
      ensures r == RoundReply(results)
    {
      ghost var ids := (newest, last);
      last := newest;
      var tweets := [];
      var k := 0;
      while k < |results|
        invariant 0 <= k <= |results|
        invariant last == old(newest)
        invariant forall i :: 0 <= i < k ==> results[i].Success?
        invariant Answered(results) == Answered(results[..k]) + Answered(results[k..])
        invariant newest == Round(ids, NewestIds(Answered(results[..k]))).0
        invariant tweets == Messages(Answered(results[..k]))
      {
        if results[k].Failure? {
          AnsweredStopsAt(results, k);
          FirstFaultAt(results, k);
          if results[k].error.Raised? {
            return Failure(results[k].error.err);
          }
          return Success([]);
        }
        var (id, ps) := results[k].value;
        AnsweredStep(results, k);
        if StrLess(newest, id) {
          newest := id;
        }
        tweets := tweets + ps;
        k := k + 1;
      }
      assert results[..k] == results;
      FirstFaultIffUnanswered(results);
      r := Success(tweets);
    }

    /** With the id saved once, restoring after any round returns to the id held before it. */
    method FailedRoundSavingOnce(results: seq<Reply>)
      modifies this
      ensures newest == old(newest) && last == old(newest)
    {
      var _ := CheckUpdateSavingOnce(results);
      Restore();
    }

    /** `restore_tweet_id`: marks the last round as failed by going back one id. */
    method Restore()
      modifies this
      ensures newest == old(last) && last == old(last)
    {
      newest := last;
    }
  }

  /** Helpers for the round loop: how `Answered` grows by one answered keyword. */
  lemma AnsweredStep(results: seq<Reply>, k: nat)
    requires k < |results| && results[k].Success?
    requires forall i :: 0 <= i < k ==> results[i].Success?
    ensures Answered(results[..k + 1]) == Answered(results[..k]) + [results[k].value]
    ensures NewestIds(Answered(results[..k + 1])) == NewestIds(Answered(results[..k])) + [results[k].value.0]
    ensures Messages(Answered(results[..k + 1])) == Messages(Answered(results[..k])) + results[k].value.1
    ensures Answered(results) == Answered(results[..k + 1]) + Answered(results[k + 1..])
  {
    AnsweredSnoc(results, k);
    AnsweredSplit(results, k);
    NewestIdsSnoc(Answered(results[..k]), results[k].value);
    MessagesSnoc(Answered(results[..k]), results[k].value);
  }

  lemma {:induction false} AnsweredSnoc(results: seq<Reply>, k: nat)
    requires k < |results| && results[k].Success?
    requires forall i :: 0 <= i < k ==> results[i].Success?
    ensures Answered(results[..k + 1]) == Answered(results[..k]) + [results[k].value]
    decreases k
  {
    if k == 0 {
      assert results[..1] == [results[0]];
      assert results[..1][1..] == [];
    } else {
      AnsweredSnoc(results[1..], k - 1);
      assert results[..k + 1][1..] == results[1..][..k];
      assert results[..k][1..] == results[1..][..k - 1];
    }
  }

  lemma {:induction false} AnsweredSplit(results: seq<Reply>, k: nat)
    requires k < |results|
    requires forall i :: 0 <= i <= k ==> results[i].Success?
    ensures Answered(results) == Answered(results[..k + 1]) + Answered(results[k + 1..])
    decreases k
  {
    if k == 0 {
      assert results[..1] == [results[0]];
      assert results[..1][1..] == [];
      assert results[1..] == results[k + 1..];
    } else {
      AnsweredSplit(results[1..], k - 1);
      assert results[..k + 1][1..] == results[1..][..k];
      assert results[1..][k..] == results[k + 1..];
    }
  }

  lemma {:induction false} NewestIdsSnoc(answers: seq<(string, seq<Parsed>)>, x: (string, seq<Parsed>))
    ensures NewestIds(answers + [x]) == NewestIds(answers) + [x.0]
    decreases |answers|
  {
    if answers == [] {
      assert [x][1..] == [];
    } else {
      NewestIdsSnoc(answers[1..], x);
      assert (answers + [x])[1..] == answers[1..] + [x];
    }
  }

  lemma {:induction false} MessagesSnoc(answers: seq<(string, seq<Parsed>)>, x: (string, seq<Parsed>))
    ensures Messages(answers + [x]) == Messages(answers) + x.1
    decreases |answers|
  {
    if answers == [] {
      assert [x][1..] == [];
    } else {
      MessagesSnoc(answers[1..], x);
      assert (answers + [x])[1..] == answers[1..] + [x];
    }
  }

  lemma AnsweredStopsAt(results: seq<Reply>, k: nat)
    requires k < |results| && results[k].Failure?
    requires forall i :: 0 <= i < k ==> results[i].Success?
    ensures !AllAnswered(results)
    ensures Answered(results) == Answered(results[..k])
    decreases k
  {
    if k == 0 {
      assert results[..0] == [];
    } else {
      AnsweredStopsAt(results[1..], k - 1);
      assert results[..k][1..] == results[1..][..k - 1];
    }
  }
}
