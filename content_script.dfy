/**
 * The page controller injected into the video page. Its closure state is
 * the current video id, the cached bookmark list of that video, the
 * player's current time and whether the bookmark button is on the page;
 * `store` is `chrome.storage.sync` as this page reads and writes it. Every
 * handler runs as one atomic step.
 */
module ContentScript {
  import opened Wrappers
  import opened Bookmarks
  import opened Messages
  import opened TimeFormat

  /**
   * The storage key used for a NEW message's id: a null id becomes "null",
   * as JavaScript converts it when it is used as a property key.
   */
  function KeyOf(videoId: Option<string>): (key: string)
    ensures videoId.Some? ==> key == videoId.value
    ensures key == "null" <==> videoId == None || videoId == Some("null")
  {
    match videoId
    case Some(id) => id
    case None => "null"
  }

  /** The bookmark that the button creates at playback time `t`. */
  function NewBookmark(t: nat): (b: Bookmark)
    requires t < MaxSeconds
    ensures b.time == t
  {
    Bookmark(t, "Bookmark at " + GetTime(t))
  }

  /** The list the button stores: `list` with the bookmark at `t` appended, sorted stably by time. */
  function WithNewBookmark(list: seq<Bookmark>, t: nat): (r: seq<Bookmark>)
    requires t < MaxSeconds
    ensures SortedByTime(r) && |r| == |list| + 1
    ensures SortedByTime(list) ==>
              exists k ::
                && 0 <= k <= |list|
                && r == list[..k] + [NewBookmark(t)] + list[k..]
                && (forall i :: 0 <= i < k ==> list[i].time <= t)
                && (forall i :: k <= i < |list| ==> t < list[i].time)
  {
    if SortedByTime(list) then
      AppendAndSort(list, NewBookmark(t));
      SortByTime(list + [NewBookmark(t)])
    else
      SortByTime(list + [NewBookmark(t)])
  }

  /**
   * Storage after the button is pressed at time `t` on video `key`: the new
   * bookmark joins the list stored under `key` (a missing key reads as
   * empty); every other key keeps its list.
   */
  function StoreAfterAdd(store: Store, key: string, t: nat): (r: Store)
    requires t < MaxSeconds
    ensures forall k :: k in r <==> k in store || k == key
    ensures forall k :: k in store && k != key ==> r[k] == store[k]
    ensures r[key] == WithNewBookmark(Fetch(store, key), t)
  {
    store[key := WithNewBookmark(Fetch(store, key), t)]
  }

  /**
   * The button loses nothing: the list it stores holds the old list and the
   * new bookmark, and storage stays sorted.
   */
  lemma StoreAfterAddKeeps(store: Store, key: string, t: nat)
    requires t < MaxSeconds
    ensures multiset(StoreAfterAdd(store, key, t)[key]) == multiset(Fetch(store, key)) + multiset{NewBookmark(t)}
    ensures StoreSorted(store) ==> StoreSorted(StoreAfterAdd(store, key, t))
  {
    AppendAndSortKeeps(Fetch(store, key), NewBookmark(t));
    StoreSortedUpdate(store, key, WithNewBookmark(Fetch(store, key), t));
  }

  /** The button on a video with nothing stored stores the new bookmark alone. */
  lemma AddToEmpty(t: nat)
    requires t < MaxSeconds
    ensures WithNewBookmark([], t) == [NewBookmark(t)]
  {
    var r := WithNewBookmark([], t);
    assert |r| == 1;
    assert r == [][..0] + [NewBookmark(t)] + [][0..];
  }

  /** Two presses of the button store the old list and both new bookmarks. */
  lemma TwoAddsKeep(store: Store, key: string, t1: nat, t2: nat)
    requires t1 < MaxSeconds && t2 < MaxSeconds
    ensures var once := StoreAfterAdd(store, key, t1);
            multiset(StoreAfterAdd(once, key, t2)[key])
            == multiset(Fetch(store, key)) + multiset{NewBookmark(t1)} + multiset{NewBookmark(t2)}
  {
    var once := StoreAfterAdd(store, key, t1);
    StoreAfterAddKeeps(store, key, t1);
    StoreAfterAddKeeps(once, key, t2);
    assert Fetch(once, key) == once[key];
  }

  /** The new bookmark is labelled with the clock reading of `t` seconds into a day. */
  lemma NewBookmarkLabel(t: nat)
    requires t < MaxSeconds
    ensures NewBookmark(t).desc == "Bookmark at " + ClockOfDay(t % SecondsPerDay)
  {
    GetTimeIsClock(t);
  }

  class Controller {
    var store: Store
    /** `currentVideo`. */
    var currentVideo: string
    /** `currentVideoBookmarks`: a copy of a stored list, refreshed by NEW and by the button. */
    var cache: seq<Bookmark>
    /** `youtubePlayer.currentTime`, in whole seconds. */
    var playerTime: nat
    /** How many elements of class `bookmark-btn` the page holds. */
    var buttons: nat
    /** Whether this controller created the button, and with it bound `youtubePlayer`. */
    var playerBound: bool

    /** The page holds a button, and when this controller made it, that is the only one. */
    ghost predicate Valid()
      reads this
    {
      buttons >= 1 && (playerBound ==> buttons == 1)
    }

    /** Every list the controller holds or has stored is sorted by time. */
    ghost predicate AllSorted()
      reads this
    {
      SortedByTime(cache) && StoreSorted(store)
    }

    /**
     * Page load: the closure starts with `currentVideo = ""` and an empty
     * cache, and runs `newVideoLoaded` once.
     */
    constructor (initial: Store, buttonsOnPage: nat, time: nat)
      ensures Valid()
      ensures store == initial && currentVideo == "" && playerTime == time
      ensures cache == Fetch(initial, "")
      ensures buttons == (if buttonsOnPage == 0 then 1 else buttonsOnPage)
      ensures playerBound == (buttonsOnPage == 0)
    {
      store := initial;
      currentVideo := "";
      cache := [];
      playerTime := time;
      buttons := buttonsOnPage;
      playerBound := false;
      new;
      NewVideoLoaded();
    }

    /** `newVideoLoaded`: refresh the cache from storage; add the button if the page has none. */
    method NewVideoLoaded()
      modifies this`cache, this`buttons, this`playerBound
      ensures cache == Fetch(store, currentVideo)
      ensures buttons == (if old(buttons) == 0 then 1 else old(buttons))
      ensures playerBound == (old(playerBound) || old(buttons) == 0)
    {
      var bookmarkBtnExists := buttons > 0;
      cache := Fetch(store, currentVideo);
      if !bookmarkBtnExists {
        buttons := 1;
        playerBound := true;
      }
    }

    /**
     * `addNewBookmarkEventHandler`: read the list stored for the current
     * video (into the cache), append the new bookmark, sort stably by time
     * and store the result. The cache does not receive the new bookmark.
     */
    method AddBookmark()
      requires playerBound && playerTime < MaxSeconds
      modifies this`store, this`cache
      ensures cache == Fetch(old(store), currentVideo)
      ensures store == StoreAfterAdd(old(store), old(currentVideo), old(playerTime))
      ensures old(AllSorted()) ==> AllSorted()
    {
      StoreAfterAddKeeps(store, currentVideo, playerTime);
      var stored := StoreAfterAdd(store, currentVideo, playerTime);
      cache := Fetch(store, currentVideo);
      store := stored;
    }

    /** NEW: switch to `videoId` and run `newVideoLoaded`. */
    method OnNew(videoId: Option<string>)
      modifies this`currentVideo, this`cache, this`buttons, this`playerBound
      ensures currentVideo == KeyOf(videoId)
      ensures cache == Fetch(store, currentVideo)
      ensures buttons == (if old(buttons) == 0 then 1 else old(buttons))
      ensures playerBound == (old(playerBound) || old(buttons) == 0)
      ensures old(Valid()) ==> Valid()
      ensures old(AllSorted()) ==> AllSorted()
    {
      currentVideo := KeyOf(videoId);
      NewVideoLoaded();
    }

    /** PLAY: seek the player; before the player is bound the handler throws and nothing changes. */
    method OnPlay(value: nat)
      modifies this`playerTime
      ensures playerTime == if playerBound then value else old(playerTime)
    {
      if playerBound {
        playerTime := value;
      }
    }

    /**
     * DELETE: drop from the cache every bookmark at time `value`, store the
     * cache under the current video, and answer with it.
     */
    method OnDelete(value: nat) returns (response: seq<Bookmark>)
      modifies this`cache, this`store
      ensures cache == WithoutTime(old(cache), value)
      ensures store == old(store)[currentVideo := cache]
      ensures response == cache
      ensures old(AllSorted()) ==> AllSorted()
    {
      var list := WithoutTime(cache, value);
      if AllSorted() {
        WithoutTimeSorted(cache, value);
        StoreSortedUpdate(store, currentVideo, list);
      }
      cache := list;
      store := store[currentVideo := cache];
      response := cache;
    }

    /** The `chrome.runtime.onMessage` listener; the result is the response sent, if any. */
    method HandleMessage(msg: Message) returns (response: Option<seq<Bookmark>>)
      modifies this
      ensures response == if msg.Delete? then Some(cache) else None
      ensures msg.New? ==>
                && currentVideo == KeyOf(msg.videoId) && cache == Fetch(store, currentVideo)
                && store == old(store) && playerTime == old(playerTime)
                && buttons == (if old(buttons) == 0 then 1 else old(buttons))
                && playerBound == (old(playerBound) || old(buttons) == 0)
      ensures msg.Play? ==>
                && playerTime == (if playerBound then msg.value else old(playerTime))
                && currentVideo == old(currentVideo) && cache == old(cache) && store == old(store)
                && buttons == old(buttons) && playerBound == old(playerBound)
      ensures msg.Delete? ==>
                && cache == WithoutTime(old(cache), msg.value)
                && store == old(store)[currentVideo := cache]
                && currentVideo == old(currentVideo) && playerTime == old(playerTime)
                && buttons == old(buttons) && playerBound == old(playerBound)
      ensures msg.Unrecognised? ==> unchanged(this)
      ensures old(Valid()) ==> Valid()
      ensures old(AllSorted()) ==> AllSorted()
    {
      match msg
      case New(videoId) =>
        OnNew(videoId);
        response := None;
      case Play(value) =>
        OnPlay(value);
        response := None;
      case Delete(value) =>
        var list := OnDelete(value);
        response := Some(list);
      case Unrecognised(_) =>
        response := None;
    }

    /** The video plays on (or the user seeks) to time `t`: not an action of the controller. */
    method PlaybackReaches(t: nat)
      modifies this`playerTime
      ensures playerTime == t
    {
      playerTime := t;
    }
  }

  // ---------------------------------------------------------------------------
  // Runs of the controller

  /** However many NEW messages arrive, a page that had no button ends with exactly one. */
  method RepeatedNew(initial: Store, ids: seq<Option<string>>) returns (buttons: nat, video: string)
    ensures buttons == 1
    ensures video == if ids == [] then "" else KeyOf(ids[|ids| - 1])
  {
    var c := new Controller(initial, 0, 0);
    var i := 0;
    while i < |ids|
      invariant 0 <= i <= |ids|
      invariant c.Valid() && c.playerBound
      invariant c.currentVideo == if i == 0 then "" else KeyOf(ids[i - 1])
    {
      var _ := c.HandleMessage(New(ids[i]));
      i := i + 1;
    }
    buttons, video := c.buttons, c.currentVideo;
  }

  /** On a video with nothing stored, the button stores exactly the one new bookmark. */
  method AddToUnmarkedVideo(initial: Store, v: string, t: nat) returns (stored: seq<Bookmark>)
    requires v !in initial && t < MaxSeconds
    ensures stored == [NewBookmark(t)]
  {
    var c := new Controller(initial, 0, 0);
    c.OnNew(Some(v));
    c.PlaybackReaches(t);
    c.AddBookmark();
    stored := c.store[v];
    assert stored == WithNewBookmark([], t);
    AddToEmpty(t);
  }

  /**
   * NEW, then the button at time `t`, then DELETE of time `x`: DELETE stores
   * what the cache held, the list from before the addition, so the new
   * bookmark is lost from storage unless it was already there.
   */
  method AddThenDelete(initial: Store, v: string, t: nat, x: nat)
    returns (stored: seq<Bookmark>, response: Option<seq<Bookmark>>)
    requires t < MaxSeconds
    ensures stored == WithoutTime(Fetch(initial, v), x)
    ensures response == Some(stored)
    ensures NewBookmark(t) !in Fetch(initial, v) ==> NewBookmark(t) !in stored
  {
    var c := new Controller(initial, 0, 0);
    c.OnNew(Some(v));
    c.PlaybackReaches(t);
    c.AddBookmark();
    assert c.cache == Fetch(initial, v);
    response := c.HandleMessage(Delete(x));
    stored := c.store[v];
  }

  /**
   * Two presses of the button without a NEW in between: the second one reads
   * the list the first one stored, so both bookmarks are kept.
   */
  method AddTwice(initial: Store, v: string, t1: nat, t2: nat) returns (stored: seq<Bookmark>)
    requires t1 < MaxSeconds && t2 < MaxSeconds
    ensures stored == WithNewBookmark(WithNewBookmark(Fetch(initial, v), t1), t2)
    ensures multiset(stored) == multiset(Fetch(initial, v)) + multiset{NewBookmark(t1)} + multiset{NewBookmark(t2)}
  {
    var c := new Controller(initial, 0, 0);
    c.OnNew(Some(v));
    c.PlaybackReaches(t1);
    c.AddBookmark();
    ghost var s1 := c.store;
    assert s1 == StoreAfterAdd(initial, v, t1);
    var first := c.store[v];
    c.PlaybackReaches(t2);
    c.AddBookmark();
    assert c.store == StoreAfterAdd(s1, v, t2);
    assert Fetch(s1, v) == first;
    stored := c.store[v];
    TwoAddsKeep(initial, v, t1, t2);
  }
}
