/**
 * What the three feeds (tweets, mail, blog) hand to the relay, and the view of
 * a parsed HTML document they read: its elements in document order, as lxml's
 * `iter()` yields them.
 */
module Feed {
  import opened Wrappers
  import opened Text

  /**
   * `ParsedObject`: the message text, the image urls (an `<img>` without `src`
   * gives None) and the timestamp, "" where the feed sets none.
   */
  datatype Parsed = Parsed(text: string, imageUrls: seq<Option<string>>, timestamp: string)

  /** An element: its tag, its `text` and `tail` ("" for None) and its `src` attribute. */
  datatype Element = Element(tag: string, text: string, tail: string, src: Option<string>)

  /** The `src` of every `<img>`, in document order. */
  function ImageSources(els: seq<Element>): (r: seq<Option<string>>)
    ensures |r| <= |els|
    decreases |els|
  {
    if els == [] then []
    else ImageSources(els[..|els| - 1]) + if els[|els| - 1].tag == "img" then [els[|els| - 1].src] else []
  }

  /** Exactly the sources of the `<img>` elements are collected. */
  lemma {:induction false} ImageSourcesComplete(els: seq<Element>)
    ensures forall x :: x in ImageSources(els) <==> exists i :: 0 <= i < |els| && els[i].tag == "img" && els[i].src == x
    decreases |els|
  {
    if els != [] {
      var init := els[..|els| - 1];
      ImageSourcesComplete(init);
      forall x ensures x in ImageSources(els) <==> exists i :: 0 <= i < |els| && els[i].tag == "img" && els[i].src == x {
        if exists i :: 0 <= i < |els| && els[i].tag == "img" && els[i].src == x {
          var i :| 0 <= i < |els| && els[i].tag == "img" && els[i].src == x;
          if i < |init| {
            assert init[i] == els[i];
          }
        }
        if exists i :: 0 <= i < |init| && init[i].tag == "img" && init[i].src == x {
          var i :| 0 <= i < |init| && init[i].tag == "img" && init[i].src == x;
          assert els[i] == init[i];
        }
      }
    }
  }

  /** An hour, minute or second as `time()` prints it. */
  function TwoDigits(n: nat): string
  {
    if n < 10 then "0" + NatToString(n) else NatToString(n)
  }
}
