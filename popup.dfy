/**
 * The extension's popup: it decides whether the active tab shows a video,
 * renders the stored bookmarks of that video as rows, and turns clicks on a
 * row's play and delete controls into PLAY and DELETE messages.
 */
module Popup {
  import opened Wrappers
  import opened Decimal
  import opened Bookmarks
  import opened Messages
  import opened Url
  import Background

  /**
   * A child of the `bookmarks` element: a bookmark row (its `id`, its
   * `timestamp` attribute and its title text) or the "No bookmarks to show"
   * note. The play and delete images inside a row are not modelled.
   */
  datatype Node =
    | BookmarkRow(id: string, timestamp: string, title: string)
    | EmptyNote

  const RowIdPrefix := "bookmark-"

  /**
   * The video the popup shows: the `v` parameter of the tab's URL,
   * provided the URL contains the watch pattern and the parameter is a
   * non-empty string (JavaScript truthiness).
   */
  function PopupVideo(url: string): (r: Option<string>)
    ensures r.Some? <==> Includes(url, WatchPattern) && VideoIdOf(url).Some? && VideoIdOf(url).value != ""
    ensures r.Some? ==> r == VideoIdOf(url)
  {
    var currentVideo := VideoIdOf(url);
    if Includes(url, WatchPattern) && currentVideo.Some? && currentVideo.value != "" then currentVideo else None
  }

  /** The row `addNewBookmark` builds for one bookmark. */
  function RowOf(b: Bookmark): (row: Node)
    ensures row.BookmarkRow? && row.id == RowIdPrefix + row.timestamp && Canonical(row.timestamp)
    ensures ParseDecimal(row.timestamp) == b.time && row.title == b.desc
  {
    ParseNatToString(b.time);
    BookmarkRow(RowIdPrefix + NatToString(b.time), NatToString(b.time), b.desc)
  }

  /** One row per bookmark, in the order of the list. */
  function Rows(list: seq<Bookmark>): (r: seq<Node>)
    ensures |r| == |list|
    ensures forall k :: 0 <= k < |list| ==> r[k] == RowOf(list[k])
  {
    if list == [] then [] else [RowOf(list[0])] + Rows(list[1..])
  }

  /** The children `viewBookmarks` leaves in the `bookmarks` element. */
  function Render(list: seq<Bookmark>): (r: seq<Node>)
    ensures r == [EmptyNote] <==> list == []
    ensures list != [] ==> |r| == |list| && forall k :: 0 <= k < |list| ==> r[k] == RowOf(list[k])
  {
    if |list| == 0 then [EmptyNote] else Rows(list)
  }

  /** The bookmark one child displays: a row shows one, the note none. */
  function ShownNode(n: Node): seq<Bookmark> {
    match n
    case BookmarkRow(_, ts, title) => [Bookmark(ParseDecimal(ts), title)]
    case EmptyNote => []
  }

  /** The bookmarks a list of children displays, read off its rows. */
  function Shown(children: seq<Node>): seq<Bookmark> {
    if children == [] then [] else ShownNode(children[0]) + Shown(children[1..])
  }

  /** A timestamp attribute as `String(n)` writes a whole number `n`. */
  predicate Canonical(ts: string) {
    NatToString(ParseDecimal(ts)) == ts
  }

  /** Every row's id is the prefix followed by its timestamp, written canonically. */
  predicate WellFormed(children: seq<Node>) {
    forall k :: 0 <= k < |children| && children[k].BookmarkRow? ==>
      children[k].id == RowIdPrefix + children[k].timestamp && Canonical(children[k].timestamp)
  }

  predicate HasId(n: Node, id: string) {
    n.BookmarkRow? && n.id == id
  }

  /** `document.getElementById`: the first child with that id, if any. */
  function FirstWithId(children: seq<Node>, id: string): (r: Option<nat>)
    ensures r.None? <==> forall k :: 0 <= k < |children| ==> !HasId(children[k], id)
    ensures r.Some? ==>
              && r.value < |children| && HasId(children[r.value], id)
              && forall k :: 0 <= k < r.value ==> !HasId(children[k], id)
  {
    if children == [] then None
    else if HasId(children[0], id) then Some(0)
    else match FirstWithId(children[1..], id)
      case None => None
      case Some(j) => Some(j + 1)
  }

  function RemoveAt<T>(s: seq<T>, j: nat): (r: seq<T>)
    requires j < |s|
    ensures |r| == |s| - 1
    ensures forall k :: 0 <= k < j ==> r[k] == s[k]
    ensures forall k :: j <= k < |r| ==> r[k] == s[k + 1]
  {
    s[..j] + s[j + 1..]
  }

  /** The list without its first bookmark at time `t`. */
  function RemoveFirstTime(list: seq<Bookmark>, t: nat): (r: seq<Bookmark>)
    ensures (forall k :: 0 <= k < |list| ==> list[k].time != t) ==> r == list
    ensures (exists k :: 0 <= k < |list| && list[k].time == t) ==> |r| == |list| - 1
  {
    if list == [] then []
    else if list[0].time == t then list[1..]
    else [list[0]] + RemoveFirstTime(list[1..], t)
  }

  // ---------------------------------------------------------------------------
  // Rendering

  lemma CanonicalNat(n: nat)
    ensures Canonical(NatToString(n)) && ParseDecimal(NatToString(n)) == n
  {
    ParseNatToString(n);
  }

  lemma RenderWellFormed(list: seq<Bookmark>)
    ensures WellFormed(Render(list))
  {
    forall k | 0 <= k < |list| {
      CanonicalNat(list[k].time);
    }
  }

  /** Each row shows its bookmark: the timestamp attribute reads back as the bookmark's time. */
  lemma RenderedRow(list: seq<Bookmark>, i: nat)
    requires i < |list|
    ensures Render(list)[i].BookmarkRow?
    ensures ParseDecimal(Render(list)[i].timestamp) == list[i].time
    ensures Render(list)[i].title == list[i].desc
  {
    CanonicalNat(list[i].time);
  }

  lemma {:induction false} ShownRows(list: seq<Bookmark>)
    ensures Shown(Rows(list)) == list
  {
    if list != [] {
      assert Rows(list)[1..] == Rows(list[1..]);
      ShownRows(list[1..]);
      CanonicalNat(list[0].time);
      assert list == [list[0]] + list[1..];
    }
  }

  /** The rendered children display exactly the list they were rendered from. */
  lemma ShownRender(list: seq<Bookmark>)
    ensures Shown(Render(list)) == list
  {
    if list != [] {
      ShownRows(list);
    }
  }

  // ---------------------------------------------------------------------------
  // Deleting a row

  lemma SameIdSameTimestamp(ts1: string, ts2: string)
    requires RowIdPrefix + ts1 == RowIdPrefix + ts2
    ensures ts1 == ts2
  {
    assert ts1 == (RowIdPrefix + ts1)[|RowIdPrefix|..];
    assert ts2 == (RowIdPrefix + ts2)[|RowIdPrefix|..];
  }

  lemma CanonicalInjective(ts1: string, ts2: string)
    requires Canonical(ts1) && Canonical(ts2)
    ensures ParseDecimal(ts1) == ParseDecimal(ts2) <==> ts1 == ts2
  {
  }

  /**
   * Removing the first row whose id names timestamp `ts` takes from the
   * displayed list its first bookmark at that time.
   */
  lemma {:induction false} RemoveRowShown(children: seq<Node>, ts: string)
    requires WellFormed(children) && Canonical(ts)
    requires FirstWithId(children, RowIdPrefix + ts).Some?
    ensures Shown(RemoveAt(children, FirstWithId(children, RowIdPrefix + ts).value))
            == RemoveFirstTime(Shown(children), ParseDecimal(ts))
    decreases |children|
  {
    WellFormedTail(children);
    if HasId(children[0], RowIdPrefix + ts) {
      RemoveRowAtHead(children, ts);
    } else {
      RemoveRowShown(children[1..], ts);
      RemoveRowAfterHead(children, ts);
    }
  }

  lemma RemoveRowAtHead(children: seq<Node>, ts: string)
    requires children != [] && WellFormed(children) && HasId(children[0], RowIdPrefix + ts)
    ensures FirstWithId(children, RowIdPrefix + ts) == Some(0)
    ensures Shown(RemoveAt(children, 0)) == RemoveFirstTime(Shown(children), ParseDecimal(ts))
  {
    var rest := children[1..];
    assert Shown(children) == ShownNode(children[0]) + Shown(rest);
    SameIdSameTimestamp(children[0].timestamp, ts);
    assert RemoveAt(children, 0) == rest;
    RemoveFirstTimeHead(ShownNode(children[0])[0], Shown(rest), ParseDecimal(ts));
  }

  lemma RemoveRowAfterHead(children: seq<Node>, ts: string)
    requires children != [] && WellFormed(children) && Canonical(ts)
    requires !HasId(children[0], RowIdPrefix + ts)
    requires FirstWithId(children[1..], RowIdPrefix + ts).Some?
    requires Shown(RemoveAt(children[1..], FirstWithId(children[1..], RowIdPrefix + ts).value))
             == RemoveFirstTime(Shown(children[1..]), ParseDecimal(ts))
    ensures FirstWithId(children, RowIdPrefix + ts).Some?
    ensures Shown(RemoveAt(children, FirstWithId(children, RowIdPrefix + ts).value))
            == RemoveFirstTime(Shown(children), ParseDecimal(ts))
  {
    var rest := children[1..];
    var j' := FirstWithId(rest, RowIdPrefix + ts).value;
    var removed := RemoveAt(rest, j');
    var t := ParseDecimal(ts);
    assert FirstWithId(children, RowIdPrefix + ts) == Some(j' + 1);
    RemoveAtLater(children, j' + 1);
    ShownPrepend(children[0], removed);
    assert Shown(children) == ShownNode(children[0]) + Shown(rest);
    assert Shown(RemoveAt(children, j' + 1)) == ShownNode(children[0]) + RemoveFirstTime(Shown(rest), t);
    match children[0]
    case EmptyNote =>
      assert ShownNode(children[0]) == [];
      assert Shown(children) == Shown(rest);
    case BookmarkRow(id0, ts0, title) =>
      assert id0 == RowIdPrefix + ts0 && Canonical(ts0);
      assert ts0 != ts;
      CanonicalInjective(ts0, ts);
      var b := Bookmark(ParseDecimal(ts0), title);
      assert ShownNode(children[0]) == [b] && b.time != t;
      RemoveFirstTimeOther(b, Shown(rest), t);
  }

  lemma RemoveAtLater<T>(s: seq<T>, j: nat)
    requires 0 < j < |s|
    ensures RemoveAt(s, j) == [s[0]] + RemoveAt(s[1..], j - 1)
  {
    assert s[..j] == [s[0]] + s[1..][..j - 1];
    assert s[j + 1..] == s[1..][j..];
  }

  lemma WellFormedTail(children: seq<Node>)
    requires WellFormed(children) && children != []
    ensures WellFormed(children[1..])
  {
    var rest := children[1..];
    forall k | 0 <= k < |rest| && rest[k].BookmarkRow?
      ensures rest[k].id == RowIdPrefix + rest[k].timestamp && Canonical(rest[k].timestamp)
    {
      assert rest[k] == children[k + 1];
    }
  }

  lemma RemoveFirstTimeHead(b: Bookmark, list: seq<Bookmark>, t: nat)
    requires b.time == t
    ensures RemoveFirstTime([b] + list, t) == list
  {
    assert ([b] + list)[1..] == list;
  }

  lemma ShownPrepend(n: Node, rest: seq<Node>)
    ensures Shown([n] + rest) == ShownNode(n) + Shown(rest)
  {
    assert ([n] + rest)[1..] == rest;
  }

  lemma RemoveFirstTimeOther(b: Bookmark, list: seq<Bookmark>, t: nat)
    requires b.time != t
    ensures RemoveFirstTime([b] + list, t) == [b] + RemoveFirstTime(list, t)
  {
    assert ([b] + list)[1..] == list;
  }

  /** The row clicked is found by its id, at its own position or at an earlier row with the same timestamp. */
  lemma ClickedRowFound(children: seq<Node>, i: nat)
    requires WellFormed(children) && i < |children| && children[i].BookmarkRow?
    ensures FirstWithId(children, RowIdPrefix + children[i].timestamp).Some?
    ensures var j := FirstWithId(children, RowIdPrefix + children[i].timestamp).value;
            j <= i && children[j].BookmarkRow? && children[j].timestamp == children[i].timestamp
  {
    var ts := children[i].timestamp;
    assert HasId(children[i], RowIdPrefix + ts);
    var j := FirstWithId(children, RowIdPrefix + ts).value;
    SameIdSameTimestamp(children[j].timestamp, ts);
  }

  // ---------------------------------------------------------------------------
  // Agreement with the tab watcher

  /**
   * The popup shows a video exactly when the tab watcher sends NEW with a
   * non-empty id for the same URL, and then it is the same video.
   */
  lemma PopupAgreesWithWatcher(tabId: TabId, url: string)
    ensures PopupVideo(url).Some? <==>
              && Background.OnTabUpdated(tabId, Some(url)).Some?
              && Background.OnTabUpdated(tabId, Some(url)).value.message.videoId.Some?
              && Background.OnTabUpdated(tabId, Some(url)).value.message.videoId.value != ""
    ensures PopupVideo(url).Some? ==>
              Background.OnTabUpdated(tabId, Some(url)) == Some(Outgoing(tabId, New(PopupVideo(url))))
  {
  }

  // ---------------------------------------------------------------------------
  // The popup page

  class PopupView {
    /** The id of the tab `getActiveTabURL` returns. */
    const activeTab: TabId
    /** The container holds "This is not a youtube video page." instead of the list. */
    var notVideoPage: bool
    /** The children of the `bookmarks` element. */
    var children: seq<Node>

    ghost predicate Valid()
      reads this
    {
      WellFormed(children) && (notVideoPage ==> children == [])
    }

    constructor (tab: TabId)
      ensures Valid()
      ensures activeTab == tab && !notVideoPage && children == []
    {
      activeTab := tab;
      notVideoPage := false;
      children := [];
    }

    /** `viewBookmarks`: empty the element, then add one row per bookmark, or the note. */
    method ViewBookmarks(list: seq<Bookmark>)
      requires !notVideoPage
      modifies this`children
      ensures children == Render(list)
      ensures Shown(children) == list
      ensures Valid()
    {
      children := [];
      if |list| > 0 {
        for i := 0 to |list|
          invariant |children| == i
          invariant forall k :: 0 <= k < i ==> children[k] == RowOf(list[k])
        {
          children := children + [RowOf(list[i])];
        }
      } else {
        children := [EmptyNote];
      }
      ShownRender(list);
      RenderWellFormed(list);
    }

    /**
     * The DOMContentLoaded handler: on a video page, render the list stored
     * for the video (`read` is the key read); otherwise show the notice.
     */
    method Load(url: string, store: Store) returns (read: Option<string>)
      requires !notVideoPage
      modifies this`children, this`notVideoPage
      ensures read == PopupVideo(url)
      ensures read.Some? ==> !notVideoPage && children == Render(Fetch(store, read.value))
      ensures read.None? ==> notVideoPage && children == []
      ensures Valid()
    {
      var video := PopupVideo(url);
      if video.Some? {
        read := Some(video.value);
        ViewBookmarks(Fetch(store, video.value));
      } else {
        read := None;
        notVideoPage := true;
        children := [];
      }
    }

    /** `onPlay` on row `i`: PLAY with the row's timestamp, converted to a number. */
    method OnPlay(i: nat) returns (out: Outgoing)
      requires i < |children| && children[i].BookmarkRow?
      ensures out.tabId == activeTab && out.message.Play?
      ensures Valid() ==> NatToString(out.message.value) == children[i].timestamp
      ensures Valid() ==> RowIdPrefix + NatToString(out.message.value) == children[i].id
    {
      out := Outgoing(activeTab, Play(ParseDecimal(children[i].timestamp)));
    }

    /**
     * `onDelete` on row `i`: remove the first row with the clicked row's id
     * and send DELETE with its timestamp.
     */
    method OnDelete(i: nat) returns (out: Outgoing)
      requires Valid() && i < |children| && children[i].BookmarkRow?
      modifies this`children
      ensures out == Outgoing(activeTab, Delete(ParseDecimal(old(children)[i].timestamp)))
      ensures FirstWithId(old(children), RowIdPrefix + old(children)[i].timestamp).Some?
      ensures children == RemoveAt(old(children), FirstWithId(old(children), RowIdPrefix + old(children)[i].timestamp).value)
      ensures Shown(children) == RemoveFirstTime(Shown(old(children)), out.message.value)
      ensures Valid()
    {
      var bookmarkTime := children[i].timestamp;
      ClickedRowFound(children, i);
      var j := FirstWithId(children, RowIdPrefix + bookmarkTime).value;
      RemoveRowShown(children, bookmarkTime);
      children := RemoveAt(children, j);
      out := Outgoing(activeTab, Delete(ParseDecimal(bookmarkTime)));
    }

    /** The DELETE callback: `viewBookmarks` of the response, or of `[]` when there is none. */
    method OnDeleteResponse(response: Option<seq<Bookmark>>)
      requires !notVideoPage
      modifies this`children
      ensures children == Render(response.GetOr([]))
      ensures Valid()
    {
      ViewBookmarks(response.GetOr([]));
    }
  }
}
