/**
 * The tab watcher: on every tab update whose URL contains
 * "youtube.com/watch" it sends NEW, with the URL's video id, to that tab.
 */
module Background {
  import opened Wrappers
  import opened Messages
  import opened Url

  /**
   * The `chrome.tabs.onUpdated` listener: `url` is the `url` field of the
   * update (absent when the update did not change it); the result is the
   * message sent, if any.
   */
  function OnTabUpdated(tabId: TabId, url: Option<string>): (r: Option<Outgoing>)
    ensures r.Some? <==> url.Some? && Includes(url.value, WatchPattern)
    ensures r.Some? ==> r.value == Outgoing(tabId, New(VideoIdOf(url.value)))
  {
    if url.Some? && url.value != "" && Includes(url.value, WatchPattern) then
      Some(Outgoing(tabId, New(VideoIdOf(url.value))))
    else None
  }

  /** The watch-page test is unanchored: the pattern may stand anywhere in the URL. */
  lemma SendsOnPatternAnywhere(tabId: TabId, a: string, b: string)
    ensures OnTabUpdated(tabId, Some(a + WatchPattern + b)).Some?
  {
    IncludesAnywhere(a, WatchPattern, b);
  }

  /** A watch URL whose query starts with `v=id` makes the watcher send NEW with that id. */
  lemma SendsVideoId(tabId: TabId, url: string, a: string, id: string, tail: string)
    requires url == a + "?v=" + id + tail
    requires Includes(a, WatchPattern)
    requires '?' !in a && '?' !in id && '?' !in tail
    requires '&' !in id && '+' !in id
    requires tail == [] || tail[0] == '&'
    ensures OnTabUpdated(tabId, Some(url)) == Some(Outgoing(tabId, New(Some(id))))
  {
    assert Includes(url, WatchPattern) by {
      IncludesExtend(a, "?v=" + id + tail, WatchPattern);
      assert a + ("?v=" + id + tail) == url;
    }
    assert VideoIdOf(url) == Some(id) by {
      VideoIdOfWatchUrl(a, id, tail);
    }
  }

  /** A watch URL without a query still makes the watcher send NEW, with a null id. */
  lemma SendsNullId(tabId: TabId, url: string)
    requires Includes(url, WatchPattern) && '?' !in url
    ensures OnTabUpdated(tabId, Some(url)) == Some(Outgoing(tabId, New(None)))
  {
    VideoIdOfNoQuery(url);
  }
}
