/**
 * Bookmarks of one video and the list operations the page controller applies
 * to them: the stable sort by time of `Array.prototype.sort` with comparator
 * `a.time - b.time`, the filter used by DELETE, and the storage lookup that
 * reads a missing key as the empty list.
 */
module Bookmarks {

  /** A bookmark: a playback position in whole seconds and its title. */
  datatype Bookmark = Bookmark(time: nat, desc: string)

  /** `chrome.storage.sync` as this model sees it: video id to bookmark list. */
  type Store = map<string, seq<Bookmark>>

  predicate SortedByTime(s: seq<Bookmark>) {
    forall i, j :: 0 <= i < j < |s| ==> s[i].time <= s[j].time
  }

  lemma SortedTail(s: seq<Bookmark>)
    requires SortedByTime(s) && s != []
    ensures SortedByTime(s[1..])
    ensures forall i :: 0 <= i < |s| ==> s[0].time <= s[i].time
  {
  }

  ghost predicate StoreSorted(store: Store) {
    forall key :: key in store ==> SortedByTime(store[key])
  }

  lemma StoreSortedUpdate(store: Store, key: string, list: seq<Bookmark>)
    requires SortedByTime(list)
    ensures StoreSorted(store) ==> StoreSorted(store[key := list])
  {
  }

  /** The bookmarks of `s` whose time is `k`, in their order in `s`. */
  ghost function WithTime(s: seq<Bookmark>, k: nat): seq<Bookmark> {
    if s == [] then [] else (if s[0].time == k then [s[0]] else []) + WithTime(s[1..], k)
  }

  /**
   * Insert `b` into the list `s`, after every leading bookmark whose time is
   * at most `b.time`; into a sorted list, that is after all bookmarks of equal time.
   */
  function InsertByTime(s: seq<Bookmark>, b: Bookmark): (r: seq<Bookmark>)
    ensures |r| == |s| + 1
  {
    if s == [] || b.time < s[0].time then [b] + s
    else
      assert s == [s[0]] + s[1..];
      [s[0]] + InsertByTime(s[1..], b)
  }

  /**
   * The stable sort ascending by time that `Array.prototype.sort` must
   * perform with comparator `a.time - b.time`, as an insertion sort.
   */
  function SortByTime(s: seq<Bookmark>): (r: seq<Bookmark>)
    ensures SortedByTime(r)
    ensures |r| == |s|
  {
    if s == [] then []
    else
      assert s == s[..|s| - 1] + [s[|s| - 1]];
      InsertByTimeSorted(SortByTime(s[..|s| - 1]), s[|s| - 1]);
      InsertByTime(SortByTime(s[..|s| - 1]), s[|s| - 1])
  }

  /** Inserting adds exactly the one bookmark. */
  lemma {:induction false} InsertByTimePermutes(s: seq<Bookmark>, b: Bookmark)
    ensures multiset(InsertByTime(s, b)) == multiset(s) + multiset{b}
  {
    if s != [] && b.time >= s[0].time {
      InsertByTimePermutes(s[1..], b);
      assert s == [s[0]] + s[1..];
    }
  }

  /** Sorting neither loses nor adds a bookmark. */
  lemma {:induction false} SortByTimePermutes(s: seq<Bookmark>)
    ensures multiset(SortByTime(s)) == multiset(s)
  {
    if s != [] {
      var init, last := s[..|s| - 1], s[|s| - 1];
      assert s == init + [last];
      assert multiset(s) == multiset(init) + multiset([last]);
      var sorted := SortByTime(init);
      assert SortByTime(s) == InsertByTime(sorted, last);
      SortByTimePermutes(init);
      InsertByTimePermutes(sorted, last);
    }
  }

  /** The bookmarks of `s` whose time is not `v`, in their order in `s`. */
  function WithoutTime(s: seq<Bookmark>, v: nat): (r: seq<Bookmark>)
    ensures forall x :: x in r <==> x in s && x.time != v
  {
    if s == [] then [] else (if s[0].time == v then [] else [s[0]]) + WithoutTime(s[1..], v)
  }

  /** `fetchBookmarks`: the stored list for `key`, the empty list for a missing key. */
  function Fetch(store: Store, key: string): (r: seq<Bookmark>)
    ensures key in store ==> r == store[key]
    ensures key !in store ==> r == []
    ensures StoreSorted(store) ==> SortedByTime(r)
  {
    if key in store then store[key] else []
  }

  // ---------------------------------------------------------------------------
  // Per-time sublists

  lemma {:induction false} WithTimeAppend(a: seq<Bookmark>, b: seq<Bookmark>, k: nat)
    ensures WithTime(a + b, k) == WithTime(a, k) + WithTime(b, k)
  {
    if a != [] {
      var head := if a[0].time == k then [a[0]] else [];
      assert (a + b)[0] == a[0];
      assert (a + b)[1..] == a[1..] + b;
      WithTimeAppend(a[1..], b, k);
      assert WithTime(a + b, k) == head + (WithTime(a[1..], k) + WithTime(b, k));
      assert WithTime(a, k) == head + WithTime(a[1..], k);
      assert head + (WithTime(a[1..], k) + WithTime(b, k)) == (head + WithTime(a[1..], k)) + WithTime(b, k);
    } else {
      assert a + b == b;
    }
  }

  lemma {:induction false} WithTimeNone(s: seq<Bookmark>, k: nat)
    requires forall i :: 0 <= i < |s| ==> s[i].time != k
    ensures WithTime(s, k) == []
  {
    if s != [] {
      WithTimeNone(s[1..], k);
    }
  }

  lemma WithTimeTail(s: seq<Bookmark>, k: nat)
    requires s != []
    ensures WithTime(s[1..], k) == if s[0].time == k then WithTime(s, k)[1..] else WithTime(s, k)
  {
    var head := if s[0].time == k then [s[0]] else [];
    assert WithTime(s, k) == head + WithTime(s[1..], k);
  }

  lemma HeadTimeOccurs(s: seq<Bookmark>)
    ensures s != [] ==> WithTime(s, s[0].time) != []
  {
  }

  /** In a sorted list, a time that occurs is at least the first time. */
  lemma {:induction false} WithTimeSortedHead(s: seq<Bookmark>, k: nat)
    requires SortedByTime(s) && WithTime(s, k) != []
    ensures s[0].time <= k
  {
    if s[0].time != k {
      WithTimeSortedHead(s[1..], k);
    }
  }

  /**
   * Inserting `b` into a sorted list appends `b` to the bookmarks of its own
   * time and leaves those of every other time as they were.
   */
  lemma {:induction false} InsertByTimeWithTime(s: seq<Bookmark>, b: Bookmark, k: nat)
    requires SortedByTime(s)
    ensures WithTime(InsertByTime(s, b), k) == WithTime(s, k) + (if b.time == k then [b] else [])
  {
    var tail := if b.time == k then [b] else [];
    if s == [] {
      assert InsertByTime(s, b) == [b];
      assert WithTime([b], k) == tail + WithTime([], k);
    } else if b.time < s[0].time {
      var r := InsertByTime(s, b);
      assert r == [b] + s;
      assert r[0] == b && r[1..] == s;
      if b.time == k {
        SortedTail(s);
        WithTimeNone(s, k);
      }
      assert WithTime(r, k) == tail + WithTime(s, k);
    } else {
      var r := InsertByTime(s, b);
      var rest := InsertByTime(s[1..], b);
      var head := if s[0].time == k then [s[0]] else [];
      assert r == [s[0]] + rest;
      assert r[0] == s[0] && r[1..] == rest;
      SortedTail(s);
      InsertByTimeWithTime(s[1..], b, k);
      assert WithTime(r, k) == head + (WithTime(s[1..], k) + tail);
      assert WithTime(s, k) == head + WithTime(s[1..], k);
      assert head + (WithTime(s[1..], k) + tail) == (head + WithTime(s[1..], k)) + tail;
    }
  }

  /** Stability: for every time, the bookmarks of that time keep their order. */
  lemma {:induction false} SortByTimeStable(s: seq<Bookmark>, k: nat)
    ensures WithTime(SortByTime(s), k) == WithTime(s, k)
  {
    if s != [] {
      var init, last := s[..|s| - 1], s[|s| - 1];
      SortByTimeStable(init, k);
      InsertByTimeWithTime(SortByTime(init), last, k);
      assert s == init + [last];
      WithTimeAppend(init, [last], k);
      assert WithTime([last], k) == if last.time == k then [last] else [];
    }
  }

  /**
   * Two sorted lists that agree, time by time, on the bookmarks of that time
   * (and their order) are equal.
   */
  lemma {:induction false} SortedUnique(a: seq<Bookmark>, b: seq<Bookmark>)
    requires SortedByTime(a) && SortedByTime(b)
    requires forall k :: WithTime(a, k) == WithTime(b, k)
    ensures a == b
    decreases |a|
  {
    if a == [] {
      HeadTimeOccurs(b);
    } else if b == [] {
      HeadTimeOccurs(a);
    } else {
      var ka, kb := a[0].time, b[0].time;
      assert WithTime(a, ka) != [];
      WithTimeSortedHead(b, ka);
      assert WithTime(b, kb) != [];
      WithTimeSortedHead(a, kb);
      assert ka == kb;
      assert WithTime(a, ka) == [a[0]] + WithTime(a[1..], ka);
      assert WithTime(b, ka) == [b[0]] + WithTime(b[1..], ka);
      assert a[0] == WithTime(a, ka)[0] == WithTime(b, ka)[0] == b[0];
      forall k: nat
        ensures WithTime(a[1..], k) == WithTime(b[1..], k)
      {
        assert WithTime(a, k) == WithTime(b, k);
        WithTimeTail(a, k);
        WithTimeTail(b, k);
      }
      SortedUnique(a[1..], b[1..]);
      assert a == [a[0]] + a[1..];
      assert b == [b[0]] + b[1..];
    }
  }

  /**
   * `SortByTime(s)` is the only sorted list that keeps, for every time, the
   * bookmarks of that time in their order in `s`: the result a stable sort
   * conforming to ECMA-262 must produce.
   */
  lemma SortByTimeCharacterized(s: seq<Bookmark>, r: seq<Bookmark>)
    requires SortedByTime(r)
    requires forall k :: WithTime(r, k) == WithTime(s, k)
    ensures r == SortByTime(s)
  {
    forall k
      ensures WithTime(r, k) == WithTime(SortByTime(s), k)
    {
      SortByTimeStable(s, k);
    }
    SortedUnique(r, SortByTime(s));
  }

  /** Sorting a sorted list gives it back. */
  lemma SortByTimeIdempotent(s: seq<Bookmark>)
    requires SortedByTime(s)
    ensures SortByTime(s) == s
  {
    SortByTimeCharacterized(s, s);
  }

  /** The place `InsertByTime` puts a bookmark of time `t` into a list. */
  function InsertionPoint(s: seq<Bookmark>, t: nat): (k: nat)
    ensures k <= |s|
  {
    if s == [] || t < s[0].time then 0 else 1 + InsertionPoint(s[1..], t)
  }

  /** `InsertByTime` puts the bookmark at the insertion point. */
  lemma {:induction false} InsertByTimeAt(s: seq<Bookmark>, b: Bookmark)
    ensures var k := InsertionPoint(s, b.time);
            InsertByTime(s, b) == s[..k] + [b] + s[k..]
  {
    var k := InsertionPoint(s, b.time);
    if s == [] || b.time < s[0].time {
      assert s[..0] == [] && s[0..] == s;
    } else {
      var t := s[1..];
      InsertByTimeAt(t, b);
      assert s[..k] == [s[0]] + t[..k - 1];
      assert s[k..] == t[k - 1..];
    }
  }

  /** Every bookmark before the insertion point has a time at most `t`. */
  lemma {:induction false} InsertionPointBefore(s: seq<Bookmark>, t: nat, i: nat)
    requires i < InsertionPoint(s, t)
    ensures s[i].time <= t
  {
    if i > 0 {
      InsertionPointBefore(s[1..], t, i - 1);
    }
  }

  /** In a sorted list, every bookmark from the insertion point on has a time above `t`. */
  lemma {:induction false} InsertionPointAfter(s: seq<Bookmark>, t: nat, i: nat)
    requires SortedByTime(s)
    requires InsertionPoint(s, t) <= i < |s|
    ensures t < s[i].time
  {
    if s[0].time <= t {
      SortedTail(s);
      InsertionPointAfter(s[1..], t, i - 1);
    }
  }

  lemma InsertByTimeSplit(s: seq<Bookmark>, b: Bookmark)
    requires SortedByTime(s)
    ensures var k := InsertionPoint(s, b.time);
            && InsertByTime(s, b) == s[..k] + [b] + s[k..]
            && (forall i :: 0 <= i < k ==> s[i].time <= b.time)
            && (forall i :: k <= i < |s| ==> b.time < s[i].time)
  {
    InsertByTimeAt(s, b);
    forall i | 0 <= i < InsertionPoint(s, b.time) {
      InsertionPointBefore(s, b.time, i);
    }
    forall i | InsertionPoint(s, b.time) <= i < |s| {
      InsertionPointAfter(s, b.time, i);
    }
  }

  /** Inserting into a sorted list keeps it sorted. */
  lemma {:induction false} InsertByTimeSorted(s: seq<Bookmark>, b: Bookmark)
    ensures SortedByTime(s) ==> SortedByTime(InsertByTime(s, b))
  {
    if SortedByTime(s) && s != [] && b.time >= s[0].time {
      var rest := InsertByTime(s[1..], b);
      assert InsertByTime(s, b) == [s[0]] + rest;
      SortedTail(s);
      InsertByTimeSorted(s[1..], b);
      InsertByTimePermutes(s[1..], b);
      forall j | 0 <= j < |rest|
        ensures s[0].time <= rest[j].time
      {
        assert rest[j] in multiset(rest);
      }
    }
  }

  /** Appending one bookmark and sorting keeps every bookmark that was there, and the new one. */
  lemma AppendAndSortKeeps(s: seq<Bookmark>, b: Bookmark)
    ensures multiset(SortByTime(s + [b])) == multiset(s) + multiset{b}
  {
    SortByTimePermutes(s + [b]);
    assert multiset(s + [b]) == multiset(s) + multiset{b};
  }

  /**
   * Appending `b` to a sorted list and sorting puts `b` after every bookmark
   * whose time is at most `b.time` and before all later ones; the other
   * bookmarks keep their order.
   */
  lemma AppendAndSort(s: seq<Bookmark>, b: Bookmark)
    requires SortedByTime(s)
    ensures exists k ::
              && 0 <= k <= |s|
              && SortByTime(s + [b]) == s[..k] + [b] + s[k..]
              && (forall i :: 0 <= i < k ==> s[i].time <= b.time)
              && (forall i :: k <= i < |s| ==> b.time < s[i].time)
  {
    assert (s + [b])[..|s|] == s;
    SortByTimeIdempotent(s);
    InsertByTimeSplit(s, b);
    var k := InsertionPoint(s, b.time);
    assert SortByTime(s + [b]) == s[..k] + [b] + s[k..];
  }

  // ---------------------------------------------------------------------------
  // The DELETE filter

  lemma {:induction false} WithoutTimeAppend(a: seq<Bookmark>, b: seq<Bookmark>, v: nat)
    ensures WithoutTime(a + b, v) == WithoutTime(a, v) + WithoutTime(b, v)
  {
    if a != [] {
      var head := if a[0].time == v then [] else [a[0]];
      assert (a + b)[0] == a[0];
      assert (a + b)[1..] == a[1..] + b;
      WithoutTimeAppend(a[1..], b, v);
      assert WithoutTime(a + b, v) == head + (WithoutTime(a[1..], v) + WithoutTime(b, v));
      assert WithoutTime(a, v) == head + WithoutTime(a[1..], v);
      assert head + (WithoutTime(a[1..], v) + WithoutTime(b, v)) == (head + WithoutTime(a[1..], v)) + WithoutTime(b, v);
    } else {
      assert a + b == b;
    }
  }

  /** Deleting a time that no bookmark has leaves the list as it is. */
  lemma {:induction false} WithoutTimeAbsent(s: seq<Bookmark>, v: nat)
    requires forall i :: 0 <= i < |s| ==> s[i].time != v
    ensures WithoutTime(s, v) == s
  {
    if s != [] {
      WithoutTimeAbsent(s[1..], v);
      assert s == [s[0]] + s[1..];
    }
  }

  /**
   * The filter drops the bookmarks of time `v` and nothing else: no bookmark
   * of time `v` is left, and those of any other time keep their order.
   */
  lemma {:induction false} WithoutTimeWithTime(s: seq<Bookmark>, v: nat, k: nat)
    ensures WithTime(WithoutTime(s, v), k) == if k == v then [] else WithTime(s, k)
  {
    if s != [] {
      WithoutTimeWithTime(s[1..], v, k);
      var head := if s[0].time == v then [] else [s[0]];
      WithTimeAppend(head, WithoutTime(s[1..], v), k);
    }
  }

  /** What the filter drops is exactly the bookmarks of time `v`. */
  lemma {:induction false} WithoutTimeSplits(s: seq<Bookmark>, v: nat)
    ensures multiset(s) == multiset(WithoutTime(s, v)) + multiset(WithTime(s, v))
    ensures |WithoutTime(s, v)| == |s| - |WithTime(s, v)|
  {
    if s != [] {
      WithoutTimeSplits(s[1..], v);
      assert s == [s[0]] + s[1..];
    }
  }

  /** The filter keeps a sorted list sorted (it keeps a subsequence). */
  lemma {:induction false} WithoutTimeSorted(s: seq<Bookmark>, v: nat)
    requires SortedByTime(s)
    ensures SortedByTime(WithoutTime(s, v))
  {
    if s != [] {
      WithoutTimeSorted(s[1..], v);
      var rest := WithoutTime(s[1..], v);
      assert forall x :: x in rest ==> x in s[1..];
      assert forall j :: 0 <= j < |rest| ==> rest[j] in s[1..];
    }
  }

  /** Filtering twice by the same time is filtering once. */
  lemma WithoutTimeIdempotent(s: seq<Bookmark>, v: nat)
    ensures WithoutTime(WithoutTime(s, v), v) == WithoutTime(s, v)
  {
    var r := WithoutTime(s, v);
    assert forall i :: 0 <= i < |r| ==> r[i] in r;
    WithoutTimeAbsent(r, v);
  }
}
