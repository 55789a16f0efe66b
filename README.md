# YouTube bookmarker, modelled in Dafny

YouTube bookmarker is a browser extension made of three scripts.

- The **tab watcher** (`background.js`) sends NEW to a tab whenever that tab's URL contains `youtube.com/watch`. The message carries the URL's `v` parameter.
- The **page controller** (`contentScript.js`) runs inside the video page and holds the current video, a cached copy of that video's bookmark list, and the player. It answers three things:
  - NEW fetches the stored list and makes sure the page has exactly one bookmark button;
  - the button adds a bookmark, labelled `Bookmark at HH:MM:SS`, to the list read fresh from storage, sorts the list by time and stores it;
  - PLAY seeks the player, and DELETE filters the cached list, stores it and answers with it.
- The **popup** (`popup.js`) decides whether the active tab shows a video and renders that video's stored bookmarks as rows. It turns a click on a row's play or delete control into PLAY or DELETE with the row's `timestamp` attribute, and redraws itself from the DELETE answer.

The model has one module per concern:

- **Bookmarks:** the stable sort of `Array.prototype.sort` with comparator `a.time - b.time`, the DELETE filter, and the storage read.
- **TimeFormat:** `getTime`, through ECMA-262's time-value decomposition and the `toISOString` layout.
- **Url:** `includes`, `split("?")[1]` and `URLSearchParams.get("v")`. The parameters are parsed as the application/x-www-form-urlencoded parser of section 5.1 of the WHATWG URL Standard does.
- **Decimal:** number-to-string and string-to-number for row ids and timestamps.
- **Background:** the tab watcher.
- **ContentScript:** the page controller, as a class whose fields are the closure variables.
- **Popup:** classification, rendering and clicks, as a class whose fields are the popup's DOM state.
- **Extension:** runs that pass messages between the components.

Storage is a map from video id to bookmark list, shared by the page and the popup.

Three behaviours of the code are proved as they are written:

- **A DELETE after an add loses the new bookmark.** The button stores a fresh list but does not update the controller's cache. A DELETE that follows, with no NEW in between, stores the filtered *old* cache, so the new bookmark disappears from storage (`ContentScript.AddThenDelete`).
- **Bookmarks with equal times are all kept.** A bookmark's only key is its time: its row id and the value PLAY and DELETE carry are made from the time alone. Yet the code keeps bookmarks with equal times. A new bookmark is placed after the existing bookmarks of the same time, and DELETE removes every bookmark of that time (`Bookmarks.AppendAndSort`, `Bookmarks.WithoutTimeWithTime`).
- **A watch URL without a `v` parameter still sends NEW, with a null id** (`Background.SendsNullId`). The popup treats a missing `v` as no video: it shows its "not a youtube video page" notice and reads nothing (`Extension.WatchPageWithoutVideo`).

For that null id the page keys storage by `null`. What storage does with that key is an assumption of the model, not a proved behaviour; see "The `null` key" under "## Left out".

## Model

| member | source | states |
|---|---|---|
| Decimal.NatToString | youtube-bookmarker/popup.js:21-23 | A whole number's string form is non-empty, all digits, with no leading zero |
| Decimal.ParseNatToString | youtube-bookmarker/popup.js:54 | Converting a row's `timestamp` attribute back to a number gives the bookmark's time |
| Decimal.NatToStringInjective | youtube-bookmarker/popup.js:72 | Two times have the same decimal form, and hence the same row id, exactly when they are equal |
| Decimal.Pad2ReadsBack | youtube-bookmarker/contentScript.js:106 | A two-digit clock field reads back as its number |
| Bookmarks.Fetch | youtube-bookmarker/contentScript.js:28-34 | The stored list for the key, or `[]` when the key is missing; sorted whenever storage is |
| Bookmarks.SortByTime | youtube-bookmarker/contentScript.js:48 | The sort produces a list sorted ascending by time, of the same length |
| Bookmarks.SortByTimePermutes | youtube-bookmarker/contentScript.js:48 | The sort is a permutation: same multiset of bookmarks |
| Bookmarks.SortByTimeStable | youtube-bookmarker/contentScript.js:48 | The sort is stable: for every time, the bookmarks of that time keep their relative order |
| Bookmarks.SortByTimeCharacterized | youtube-bookmarker/contentScript.js:48 | Any sorted list that keeps every time's bookmarks in order equals the sort's result, so every conforming stable sort gives this list |
| Bookmarks.SortByTimeIdempotent | youtube-bookmarker/contentScript.js:48 | Sorting an already sorted list leaves it unchanged |
| Bookmarks.InsertByTime | youtube-bookmarker/contentScript.js:48 | Inserting one bookmark lengthens the list by one |
| Bookmarks.InsertByTimeSorted | youtube-bookmarker/contentScript.js:48 | Inserting into a sorted list keeps it sorted |
| Bookmarks.InsertByTimePermutes | youtube-bookmarker/contentScript.js:48 | Inserting adds exactly the one bookmark |
| Bookmarks.InsertByTimeWithTime | youtube-bookmarker/contentScript.js:48 | Inserting appends the bookmark after those of its own time and leaves other times alone |
| Bookmarks.AppendAndSort | youtube-bookmarker/contentScript.js:48 | Appending to a sorted list and sorting places the new bookmark after every bookmark of time at most its own and before every later one; the others keep their places |
| Bookmarks.AppendAndSortKeeps | youtube-bookmarker/contentScript.js:48 | After appending and sorting, the list holds the old bookmarks plus the new one (as a multiset) |
| Bookmarks.WithoutTime | youtube-bookmarker/contentScript.js:91 | A bookmark remains after the filter exactly when it was in the list and its time differs from the value |
| Bookmarks.WithoutTimeSplits | youtube-bookmarker/contentScript.js:91 | The filter drops exactly the bookmarks of that time: the multisets add up, and so do the lengths |
| Bookmarks.WithoutTimeWithTime | youtube-bookmarker/contentScript.js:91 | After the filter, no bookmark of the deleted time is left, and every other time's bookmarks are unchanged and in order |
| Bookmarks.WithoutTimeAppend | youtube-bookmarker/contentScript.js:91 | The filter works element by element: filtering a concatenation concatenates the filtered parts, so the survivors keep their original order |
| Bookmarks.WithoutTimeAbsent | youtube-bookmarker/contentScript.js:91 | Deleting a time no bookmark has changes nothing |
| Bookmarks.WithoutTimeSorted | youtube-bookmarker/contentScript.js:91-92 | The filter keeps a sorted list sorted |
| Bookmarks.WithoutTimeIdempotent | youtube-bookmarker/contentScript.js:91 | Deleting the same time twice is the same as deleting it once |
| TimeFormat.YearWithin | youtube-bookmarker/contentScript.js:106 | The year and day-of-year found for a day count add back up to that day count, with the day inside its year |
| TimeFormat.MonthWithin | youtube-bookmarker/contentScript.js:106 | The month and day found for a day of the year lie within the month's length |
| TimeFormat.YearOfTimeValue | youtube-bookmarker/contentScript.js:106 | Every time this model admits falls before year 10000, where the ISO string has a four-digit year |
| TimeFormat.ToIsoString | youtube-bookmarker/contentScript.js:106 | `toISOString()` has 24 characters, and characters 11 to 18 are the time value's `HH:mm:ss` |
| TimeFormat.TimeDecomposition | youtube-bookmarker/contentScript.js:104 | A time value is the sum of its day, hour, minute, second and millisecond fields |
| TimeFormat.SetSeconds | youtube-bookmarker/contentScript.js:104 | `setSeconds(sec)` moves the time value by the difference between `sec` and the old seconds field |
| TimeFormat.TimeFields | youtube-bookmarker/contentScript.js:103-104 | The epoch with its seconds set to `t` has the hour, minute and second of `t` modulo one day, and no milliseconds |
| TimeFormat.GetTime | youtube-bookmarker/contentScript.js:102-107 | `getTime(t)` has eight characters |
| TimeFormat.GetTimeIsClock | youtube-bookmarker/contentScript.js:102-107 | `getTime(t)` is the zero-padded clock reading of `t` modulo one day |
| TimeFormat.ClockOfDayIs | youtube-bookmarker/contentScript.js:106 | The clock reading of a second of the day shows its unique hours, minutes and seconds |
| TimeFormat.ClockReadsBack | youtube-bookmarker/contentScript.js:106 | A clock reading's three fields have their `:` separators, are all digits and read back as the hours, minutes and seconds |
| TimeFormat.ClockOfDayReadsBack | youtube-bookmarker/contentScript.js:106 | A clock reading of a second of the day reads back as that second, with each field in range |
| TimeFormat.GetTimeReadsBack | youtube-bookmarker/contentScript.js:102-107 | Reading `getTime(t)` back as hours, minutes and seconds gives `t` modulo one day |
| TimeFormat.GetTimeWraps | youtube-bookmarker/contentScript.js:102-107 | `getTime` wraps around after one day |
| TimeFormat.ClockOfDayExamples | youtube-bookmarker/contentScript.js:106 | Concrete clock readings: 0, 65 and 3661 seconds |
| TimeFormat.GetTimeExamples | youtube-bookmarker/contentScript.js:102-107 | Concrete labels: 0 s is `00:00:00`, 65 s is `00:01:05`, 3661 s is `01:01:01`, and one day is `00:00:00` again |
| Url.Includes | youtube-bookmarker/background.js:9 | The empty pattern is always included, and an included pattern is no longer than the text |
| Url.IncludesIff | youtube-bookmarker/background.js:9 | `includes` holds exactly when the pattern occurs at some position |
| Url.IncludesAnywhere | youtube-bookmarker/background.js:9 | The test is unanchored: the pattern matches wherever it stands |
| Url.IncludesExtend | youtube-bookmarker/background.js:9 | Appending text after a match keeps the match |
| Url.Split | youtube-bookmarker/background.js:10 | `split` yields at least one field, and no field contains the separator |
| Url.JoinSplit | youtube-bookmarker/background.js:10 | Joining the fields of a split gives the string back |
| Url.SplitJoin | youtube-bookmarker/background.js:10 | Splitting a join of separator-free fields gives the fields back |
| Url.SplitAtFirst | youtube-bookmarker/background.js:10 | The first field ends at the first separator |
| Url.QueryString | youtube-bookmarker/background.js:10 | The query string taken by `split("?")[1]` holds no `?` |
| Url.QueryStringBetween | youtube-bookmarker/background.js:10 | `split("?")[1]` is the text between the first `?` and the next one, if any |
| Url.QueryStringNone | youtube-bookmarker/background.js:10 | Without a `?`, the query string is empty (`undefined` in the source) |
| Url.Decode | youtube-bookmarker/background.js:11 | Decoding keeps the length and maps each `+` to a space |
| Url.PairOf | youtube-bookmarker/background.js:11 | A field splits at its first `=`: the name holds no `=`, a field without `=` is all name with an empty value, and otherwise name, `=` and value use up the field; a field without `&` gives a name and value without `&` |
| Url.PairsOf | youtube-bookmarker/background.js:11 | Empty fields are skipped, so there are at most as many pairs as fields, and exactly as many when none is empty; `&`-free fields give `&`-free values |
| Url.ParseUrlEncoded | youtube-bookmarker/background.js:11 | A non-empty input without `&` is one pair; no parsed value contains `&` |
| Url.SearchParams | youtube-bookmarker/background.js:11 | A string without a leading `?` is parsed as it stands; a leading `?` is dropped and the rest is parsed |
| Url.PairOfField | youtube-bookmarker/background.js:11 | A field written `name=value`, with neither part holding a separator or `+`, parses back to that pair |
| Url.PairsOfFields | youtube-bookmarker/background.js:11 | The fields written from a list of such pairs parse back to the list |
| Url.ParseSerialize | youtube-bookmarker/background.js:11 | Parsing the `&`-joined serialization of such pairs gives the pairs back: the parser's round trip |
| Url.GetParam | youtube-bookmarker/background.js:15 | `get` returns null exactly when no pair has the name; otherwise it returns the value of the first pair with the name |
| Url.VideoIdOf | youtube-bookmarker/background.js:10-15 | A video id found in a URL holds no `&` |
| Url.VideoIdOfWatchUrl | youtube-bookmarker/background.js:10-15 | A URL whose query starts with `v=id` yields `id`, whatever parameters follow |
| Url.VideoIdOfNoQuery | youtube-bookmarker/background.js:10-15 | A URL without `?` yields a null video id |
| Background.OnTabUpdated | youtube-bookmarker/background.js:8-18 | The watcher sends a message exactly when the update has a URL containing `youtube.com/watch`; the message is NEW, with that URL's `v` parameter, to the same tab |
| Background.SendsOnPatternAnywhere | youtube-bookmarker/background.js:9 | Any URL with the pattern anywhere triggers NEW |
| Background.SendsVideoId | youtube-bookmarker/background.js:8-16 | A watch URL whose query starts with `v=id` sends NEW with `id` |
| Background.SendsNullId | youtube-bookmarker/background.js:8-16 | A watch URL without a query still sends NEW, with a null id |
| ContentScript.KeyOf | youtube-bookmarker/contentScript.js:84 | The storage key is the video id itself, and it is `"null"` exactly when the id is null or the string `"null"` |
| ContentScript.WithNewBookmark | youtube-bookmarker/contentScript.js:48 | The list with the new bookmark is sorted and one longer; from a sorted list, it is that list with the new bookmark inserted after every bookmark of time at most its own and before every later one |
| ContentScript.NewBookmark | youtube-bookmarker/contentScript.js:39-43 | The new bookmark's time is the player's time |
| ContentScript.NewBookmarkLabel | youtube-bookmarker/contentScript.js:42 | The new bookmark's label is `Bookmark at ` followed by the clock reading of its time modulo one day |
| ContentScript.StoreAfterAdd | youtube-bookmarker/contentScript.js:46-49 | After the button, the current video's list is the fetched list with the new bookmark, sorted; no other key changes, and only that key is added |
| ContentScript.StoreAfterAddKeeps | youtube-bookmarker/contentScript.js:46-49 | The button loses nothing: the stored list holds the old bookmarks plus the new one, and storage stays sorted |
| ContentScript.AddToEmpty | youtube-bookmarker/contentScript.js:46-49 | On a video with nothing stored, the list the button stores is the new bookmark alone |
| ContentScript.TwoAddsKeep | youtube-bookmarker/contentScript.js:46-49 | Two presses of the button store the old list plus both new bookmarks (as a multiset) |
| ContentScript.Controller.constructor | youtube-bookmarker/contentScript.js:24-98 | At page load the video is `""`, the cache is what storage holds under `""`, and a button is added, and the player bound, exactly when the page had none |
| ContentScript.Controller.NewVideoLoaded | youtube-bookmarker/contentScript.js:53-76 | The cache is refreshed from storage; a button is added, and the player bound, only when the page had none |
| ContentScript.Controller.AddBookmark | youtube-bookmarker/contentScript.js:37-50 | The cache becomes the fetched list (without the new bookmark); storage becomes `StoreAfterAdd` of the old state; sortedness is kept |
| ContentScript.Controller.OnNew | youtube-bookmarker/contentScript.js:82-85 | NEW switches to the id's key (`"null"` for a null id), refreshes the cache and never adds a second button |
| ContentScript.Controller.OnPlay | youtube-bookmarker/contentScript.js:86-88 | PLAY sets the player's time when this controller bound the player; otherwise (the source throws) nothing changes |
| ContentScript.Controller.OnDelete | youtube-bookmarker/contentScript.js:89-94 | DELETE filters the cache, stores it under the current video and answers with it; sortedness is kept |
| ContentScript.Controller.HandleMessage | youtube-bookmarker/contentScript.js:79-95 | The listener dispatches on the type and states the whole new state per type; an unrecognised type changes nothing; only DELETE answers; validity and sortedness are kept |
| ContentScript.RepeatedNew | youtube-bookmarker/contentScript.js:53-85 | However many NEW messages arrive, the page has exactly one button, and the current video is the last one named |
| ContentScript.AddToUnmarkedVideo | youtube-bookmarker/contentScript.js:37-50 | On a video with nothing stored, the button stores exactly the new bookmark |
| ContentScript.AddThenDelete | youtube-bookmarker/contentScript.js:37-94 | Add, then DELETE: storage gets the filtered list from before the add, and the new bookmark is lost unless it was already stored |
| ContentScript.AddTwice | youtube-bookmarker/contentScript.js:37-50 | Two presses of the button keep both new bookmarks and every old one |
| Popup.PopupVideo | youtube-bookmarker/popup.js:96-104 | The popup shows a video exactly when the URL contains the watch pattern and its `v` parameter is present and non-empty |
| Popup.Rows | youtube-bookmarker/popup.js:39-42 | There is one row per bookmark, in list order, each built as `addNewBookmark` builds it |
| Popup.RowOf | youtube-bookmarker/popup.js:5-29 | A bookmark's row has the id `bookmark-` followed by its timestamp, a canonically written timestamp that converts back to the bookmark's time, and the bookmark's label as its title |
| Popup.Render | youtube-bookmarker/popup.js:32-49 | The rendering is the single note exactly when the list is empty; otherwise it has one row per bookmark, row `k` being bookmark `k`'s row |
| Popup.RenderWellFormed | youtube-bookmarker/popup.js:21-23 | Every rendered row's id is `bookmark-` followed by its timestamp, and the timestamp is written canonically |
| Popup.RenderedRow | youtube-bookmarker/popup.js:12-23 | Row `i` is a bookmark row whose timestamp converts back to bookmark `i`'s time and whose title is its label |
| Popup.ShownRender | youtube-bookmarker/popup.js:32-49 | The rendered rows display exactly the list they were rendered from |
| Popup.FirstWithId | youtube-bookmarker/popup.js:72 | `getElementById` returns the first child with the id, or none exactly when no child has it |
| Popup.RemoveAt | youtube-bookmarker/popup.js:73 | `removeChild` removes one child at its index and shifts the rest |
| Popup.RemoveFirstTime | youtube-bookmarker/popup.js:72-73 | Removing the first bookmark at a time shortens the list by one when the time occurs, and otherwise changes nothing |
| Popup.RemoveRowShown | youtube-bookmarker/popup.js:72-73 | Removing the first row with the clicked id removes the first displayed bookmark at that time |
| Popup.ClickedRowFound | youtube-bookmarker/popup.js:70-72 | The clicked row's id is found, at that row or at an earlier row with the same timestamp |
| Popup.CanonicalInjective | youtube-bookmarker/popup.js:72 | Two canonically written timestamps convert to the same number exactly when they are the same string |
| Popup.PopupAgreesWithWatcher | youtube-bookmarker/popup.js:98-104 | The popup shows a video exactly when the watcher sends NEW with a non-empty id for that URL, and then it is the same video |
| Popup.PopupView.ViewBookmarks | youtube-bookmarker/popup.js:32-49 | The loop leaves the rendering of the list, which displays exactly that list |
| Popup.PopupView.Load | youtube-bookmarker/popup.js:94-117 | On a video page, the popup reads the key of that video (its output `read`) and renders the list stored there; otherwise it reads no key and shows the notice and no rows |
| Popup.PopupView.OnPlay | youtube-bookmarker/popup.js:52-63 | PLAY goes to the active tab with a value whose decimal form is the row's timestamp and names the row's id |
| Popup.PopupView.OnDelete | youtube-bookmarker/popup.js:66-80 | DELETE goes to the active tab with the row's time; the first row with that id is removed; the display loses its first bookmark at that time |
| Popup.PopupView.OnDeleteResponse | youtube-bookmarker/popup.js:79 | The callback re-renders the answer, or the empty list when there is none |
| Extension.SameVideoKey | youtube-bookmarker/background.js:10-15 | The page files bookmarks under the same key the popup reads for the same URL |
| Extension.DeleteFromPopup | youtube-bookmarker/popup.js:66-80 | Delete from the popup: storage and the redrawn popup hold the same list, the stored list without every bookmark at the row's time |
| Extension.PlayFromPopup | youtube-bookmarker/popup.js:52-63 | Play from the popup: the page's player moves to that row's bookmark time |
| Extension.AddThenOpenPopup | youtube-bookmarker/contentScript.js:37-50 | A bookmark added with the button appears in a popup opened afterwards, which is sorted and one longer |
| Extension.OpenPage | youtube-bookmarker/background.js:8-16 | A page receiving the watcher's NEW for a video URL switches to that video, caches its stored list and holds the only button |
| Extension.WatchPageWithoutVideo | youtube-bookmarker/popup.js:104-116 | A watch URL without `v`: the page uses the key `"null"` (under the storage assumption below), and the popup shows its notice and reads nothing |

## Left out

- **Asynchrony.** Every handler, storage callback and message runs as one atomic step, in the order the scenario methods give. Interleavings are not modelled. Two of them matter:
  - the race between two tabs writing the same video;
  - a second NEW arriving while `newVideoLoaded` awaits storage, which in the browser can add a second button.
- **DOM, images and CSS.** The button image, the play and delete images, class names and the container markup are not modelled. The popup's `bookmarks` element is a sequence of rows and the "No bookmarks to show" note. `getElementById` searches only those rows.
- **`utils.js` `getActiveTabURL`.** Its result (the tab id and URL) is a parameter.
- **JSON.** Storage holds lists directly. The `JSON.stringify`/`JSON.parse` round trip is taken as exact.
- **Fractional times.** Times are whole seconds (`nat`). A fractional `currentTime` and its decimal form are not modelled.
- **Decimal.NatToString:** models `Number::toString` only for whole numbers below 2^53. Above 2^53 not every integer is an exact Number, and from 10^21 on the string is in exponent form (`1e+21`). Stored times are assumed below 2^53; new bookmarks are, since they are below `MaxSeconds`.
- **Loose comparison.** PLAY and DELETE carry the string attribute in the source. Their value here is the attribute converted to a number, which is equivalent for the canonical strings the rows carry.
- **Percent-decoding.** `URLSearchParams` decoding is modelled for `+` only. Percent-escapes are not decoded.
- **Time zones.** `setSeconds` works in local time: it reads the local fields of the epoch, sets the seconds, and converts back with `UTC()` at the new local time. The model treats local time as UTC. That gives the source's label when the zone's offset is a whole number of minutes and does not change during the first `t` seconds after the epoch. Otherwise the label can be off by the change. For example, in America/New_York daylight saving time began on 26 April 1970, so labels for `t` from about 9.96 million to about 25.7 million seconds (26 April to 25 October 1970), and in each later daylight-saving period, are an hour off.
- **ContentScript.NewBookmark:** requires the time to be below 253402300800 seconds (year 10000). Beyond that, `toISOString` writes a six-digit year and the label changes layout.
- **ContentScript.Controller.AddBookmark:** requires `playerTime < MaxSeconds`, for the same reason. It also requires `playerBound`, because the click handler exists only on a button this controller created.
- **The `"null"` key.** For a null id, `fetchBookmarks` calls `chrome.storage.sync.get([null])` (contentScript.js:30), while the writes use the computed key `[currentVideo]`, which is the string `"null"` (lines 48 and 92). The model assumes that storage accepts `[null]` and reads the key `"null"`. If the read failed instead, `newVideoLoaded` would stop at line 57 and the button handler at line 46; that is not modelled.
