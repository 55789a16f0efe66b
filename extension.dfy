/**
 * Whole-extension runs: the tab watcher, the page controller and the popup
 * exchanging their messages in one order, with storage shared between the
 * page and the popup.
 */
module Extension {
  import opened Wrappers
  import opened Decimal
  import opened Bookmarks
  import opened Messages
  import opened Url
  import opened TimeFormat
  import Background
  import opened ContentScript
  import opened Popup

  /**
   * The watcher's NEW and the popup both name the video of the tab's URL,
   * so the page controller files bookmarks under the key the popup reads.
   */
  lemma SameVideoKey(tab: TabId, url: string)
    requires PopupVideo(url).Some?
    ensures Background.OnTabUpdated(tab, Some(url)).Some?
    ensures KeyOf(Background.OnTabUpdated(tab, Some(url)).value.message.videoId) == PopupVideo(url).value
  {
    PopupAgreesWithWatcher(tab, url);
  }

  /** A page on video `v` receives the watcher's NEW for its URL. */
  method OpenPage(initial: Store, tab: TabId, url: string, v: string) returns (page: Controller)
    requires PopupVideo(url) == Some(v)
    ensures fresh(page)
    ensures page.store == initial && page.currentVideo == v && page.cache == Fetch(initial, v)
    ensures page.playerBound && page.Valid() && page.AllSorted() == StoreSorted(initial)
  {
    page := new Controller(initial, 0, 0);
    var watched := Background.OnTabUpdated(tab, Some(url));
    SameVideoKey(tab, url);
    var _ := page.HandleMessage(watched.value.message);
  }

  /** The popup opened on the tab with `url`, which shows video `v`. */
  method OpenPopup(tab: TabId, url: string, store: Store, v: string) returns (popup: PopupView)
    requires PopupVideo(url) == Some(v)
    ensures fresh(popup)
    ensures popup.activeTab == tab && !popup.notVideoPage && popup.Valid()
    ensures popup.children == Render(Fetch(store, v))
  {
    popup := new PopupView(tab);
    var read := popup.Load(url, store);
  }

  /** The delete control of row `i` of a popup showing `list`. */
  method ClickDelete(popup: PopupView, list: seq<Bookmark>, i: nat) returns (out: Outgoing)
    requires popup.Valid() && !popup.notVideoPage && popup.children == Render(list) && i < |list|
    modifies popup
    ensures out.message == Delete(list[i].time)
    ensures popup.Valid() && !popup.notVideoPage
  {
    RenderedRow(list, i);
    out := popup.OnDelete(i);
  }

  /** The popup receives the page's answer to DELETE and redraws its rows. */
  method ShowDeleteResponse(popup: PopupView, response: Option<seq<Bookmark>>, list: seq<Bookmark>)
    returns (shown: seq<Bookmark>)
    requires !popup.notVideoPage && response == Some(list)
    modifies popup
    ensures shown == list
  {
    popup.OnDeleteResponse(response);
    ShownRender(list);
    shown := Shown(popup.children);
  }

  /**
   * The user opens the popup on video `v` and deletes row `i`: storage and
   * the popup end with the same list, the stored list without every
   * bookmark at that row's time.
   */
  method DeleteFromPopup(initial: Store, tab: TabId, url: string, v: string, i: nat)
    returns (shown: seq<Bookmark>, stored: seq<Bookmark>)
    requires PopupVideo(url) == Some(v)
    requires i < |Fetch(initial, v)|
    ensures stored == WithoutTime(Fetch(initial, v), Fetch(initial, v)[i].time)
    ensures shown == stored
    ensures forall k :: 0 <= k < |shown| ==> shown[k].time != Fetch(initial, v)[i].time
  {
    var list := Fetch(initial, v);
    var page := OpenPage(initial, tab, url, v);
    var popup := OpenPopup(tab, url, page.store, v);
    var out := ClickDelete(popup, list, i);
    var response := page.HandleMessage(out.message);
    stored := page.store[v];
    shown := ShowDeleteResponse(popup, response, stored);
  }

  /**
   * The user opens the popup on video `v` and plays row `i`: the player of
   * the page moves to that bookmark's time.
   */
  method PlayFromPopup(initial: Store, tab: TabId, url: string, v: string, i: nat) returns (playerTime: nat)
    requires PopupVideo(url) == Some(v)
    requires i < |Fetch(initial, v)|
    ensures playerTime == Fetch(initial, v)[i].time
  {
    var list := Fetch(initial, v);
    var page := OpenPage(initial, tab, url, v);
    var popup := OpenPopup(tab, url, page.store, v);
    RenderedRow(list, i);
    var out := popup.OnPlay(i);
    NatToStringInjective(out.message.value, list[i].time);
    var _ := page.HandleMessage(out.message);
    playerTime := page.playerTime;
  }

  /** A bookmark added with the button is among the rows of a popup opened afterwards. */
  method AddThenOpenPopup(initial: Store, tab: TabId, url: string, v: string, t: nat) returns (shown: seq<Bookmark>)
    requires PopupVideo(url) == Some(v) && t < MaxSeconds
    ensures NewBookmark(t) in shown
    ensures SortedByTime(shown)
    ensures |shown| == |Fetch(initial, v)| + 1
  {
    var page := OpenPage(initial, tab, url, v);
    page.PlaybackReaches(t);
    page.AddBookmark();
    var list := page.store[v];
    AppendAndSortKeeps(Fetch(initial, v), NewBookmark(t));
    assert NewBookmark(t) in multiset(list);

    var popup := OpenPopup(tab, url, page.store, v);
    ShownRender(list);
    shown := Shown(popup.children);
  }

  /**
   * A watch URL without a `v` parameter: the watcher still sends NEW, so
   * the page files bookmarks under "null", while the popup shows its
   * notice and reads nothing.
   */
  method WatchPageWithoutVideo(initial: Store, tab: TabId, url: string)
    returns (pageKey: string, notice: bool, read: Option<string>)
    requires Includes(url, WatchPattern) && VideoIdOf(url).None?
    ensures pageKey == "null"
    ensures notice && read.None?
  {
    var page := new Controller(initial, 0, 0);
    var watched := Background.OnTabUpdated(tab, Some(url));
    var _ := page.HandleMessage(watched.value.message);
    pageKey := page.currentVideo;

    var popup := new PopupView(tab);
    read := popup.Load(url, page.store);
    notice := popup.notVideoPage;
  }
}
