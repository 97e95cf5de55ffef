# RSS reader extension: a Dafny model of its feed logic

This project models the logic at the centre of a Chrome extension that reads RSS feeds. The extension has three scripts.

- **Background script**
  - Parses each feed into items and gives every item a clickbait score.
  - Merges fresh items into the per-feed cache, newest first, without re-adding an id that is already cached.
  - Records fetch errors.
  - Shows the number of unread items on the toolbar badge.
- **Popup**
  - Flattens the cache into one list.
  - Filters that list by "unread only" and a case-insensitive search term, then sorts it by date.
  - Marks an item read when it is opened.
- **Options page**
  - Keeps the list of feed URLs: add, remove, and OPML import with de-duplication.
  - Writes the list out as an OPML document, escaping XML.

Values become datatypes and pure functions. Where the extension works step by step, the model does too:
- `ParseRss` and `ScoreTitle` are loops.
- `TriggerFetch` updates the cache map inside a loop.
- `UpdateBadge` sums over the cache keys.
- `MarkAsRead` is a nested search with a found flag and `break`.
- `ExportOpml` appends to a string in a loop.
- The popup's `allItems` is a field of the class `Popup.PopupView`.

Each method is proved against a specification function. The properties the extension promises are lemmas about those functions.

The host environment becomes parameters:
- The clock is a `now` value; the fetch cycle takes one value per feed.
- Each fetch result is a `FetchOutcome`: the parsed entries, or the error message.
- The date the host parses from `pubDate` is an integer that each `Entry` carries.
- Whether `new URL` accepts the input is a boolean.
- The order in which the host enumerates the keys of the cache object is a sequence `order` (or, in `UpdateBadge`, any order).

Modules:
- `Wrappers`: `Option`.
- `Text`: substring search and ASCII lower-casing.
- `Items`: the stored item record and the stable date sort used by both scripts.
- `FeedParser`, `CacheMerge`, `FetchCycle`, `Badge`: the background script.
- `Popup`: the popup.
- `FeedList`, `Opml`: the options page.

Behaviour of the code worth knowing, which the model reproduces:
- **Duplicates within one fetch are kept:** an id is dropped only if it is already cached (background.js:83-84). Two entries with the same guid in one response both end up in the cache (`CacheMerge.MergeIdCounts` in general, `CacheMerge.BatchDuplicatesKept` as an example).
- **A failed fetch keeps `fetchedAt`:** when the feed already has a cache entry, only `lastError` changes (background.js:95-96). `fetchedAt` is set only when the entry is new.
- **An unparseable date is not replaced:** it gives `new Date(...).getTime()`, which is NaN, not the fetch time. The model takes the parsed time as a given integer.

## Model

| member | source | states |
|---|---|---|
| Text.ToLowerMeaning | popup.js:69-74 | a lower-cased string has no upper-case ASCII letter, other characters are kept, and lower-casing again changes nothing |
| Items.SortSorted | popup.js:80-84 | the date sort yields a list ordered by `publishedAt` in the chosen direction |
| Items.SortPermutes | background.js:88-90 | the date sort is a permutation of its input |
| Items.SortStable | background.js:88-90 | items with equal dates keep their relative order (stable `Array.prototype.sort`) |
| Items.SortCharacterized | popup.js:80-84 | any sorted list that has, for every date, the same items in the same order as the input is exactly the sort's result |
| Items.SortedUnique | background.js:88-90 | two sorted lists that agree on the items of every date are equal |
| FeedParser.MatchCountBounds | background.js:138-143 | the number of matching patterns is at most the number of patterns; it is 0 exactly when no pattern occurs and the maximum exactly when all do |
| FeedParser.MatchCountIsDistinctMatches | background.js:117-125 | with distinct patterns, the count equals the size of the set of patterns found in the title |
| FeedParser.ScoreMeaning | background.js:138-143 | score = -10 × the number of patterns found; it lies between -70 and 0 and is 0 exactly when no pattern occurs |
| FeedParser.ScoreTitle | background.js:138-143 | the scoring loop returns the intended score of the title |
| FeedParser.ParseRss | background.js:127-156 | one item per entry, in order. Each item is unread, carries the feed URL and a score in [-70, 0], and has title `title \|\| ""`. Its link is href, else the link text, else "". Its id is the guid when non-empty, else the link. `publishedAt` is the parsed date when `pubDate` is non-empty, else now |
| FeedParser.ScoreTwoPatterns | background.js:117-125 | the example title "충격 단독 보도", which holds exactly two of the patterns, scores -20 (the general rule is `FeedParser.ScoreMeaning`) |
| FeedParser.ScoreNoPattern | background.js:117-125 | the example title "Weekly update", which holds none of the patterns, scores 0 (the general rule is `FeedParser.ScoreMeaning`) |
| FeedParser.FirstTitleScoredAsIntended | background.js:138-143 | with untouched regex state (the first entry of a feed), the as-written `/g` scoring equals the intended score |
| FeedParser.LastIndexMissesRepeatedPattern | background.js:117-143 | as written, the second of two titles "충격" scores 0 instead of -10 |
| CacheMerge.NewItemsFilter | background.js:83-84 | the fresh items kept are exactly those whose id is not cached, with their multiplicities |
| CacheMerge.MergeSortedPermutation | background.js:86-90 | the merged list is sorted newest first and is a permutation of the kept fresh items plus the cached ones |
| CacheMerge.MergeMembers | background.js:82-90 | every cached item is kept; an item is in the result iff it was cached or is fresh with an id that was not cached |
| CacheMerge.MergeIdCounts | background.js:83-88 | an id that was cached occurs as often as before; any other id occurs as often as in the fresh batch |
| CacheMerge.MergeUnique | background.js:83-88 | when neither the cached items nor the fresh batch repeat an id, the merged list repeats none |
| CacheMerge.MergeStable | background.js:88-90 | among equal dates, kept fresh items come before cached ones, each in its original order |
| CacheMerge.BatchDuplicatesKept | background.js:83-84 | merging a fresh batch of two items with one id into an empty feed keeps both (the general rule is `CacheMerge.MergeIdCounts`) |
| CacheMerge.MergeIntoEmpty | background.js:86-90 | merging two fresh items into an empty cache puts the newer first |
| CacheMerge.CountIdPositive | background.js:83 | an id occurs in a list iff it is among the list's ids |
| FetchCycle.TriggerFetch | background.js:60-105 | no URLs means nothing is written; otherwise the cache written is the fold of every URL's outcome over the cached map (or `{}`) |
| FetchCycle.ApplyOutcomeEffect | background.js:73-103 | one URL's step. Other entries are unchanged. On success: `lastError` is cleared, `fetchedAt` is now, the items are sorted and no cached item is lost. On failure of a known feed: only `lastError` changes. On failure of a new feed: the entry is (now, [], message) |
| FetchCycle.CycleKeys | background.js:72-105 | the written cache's keys are the old keys plus all configured URLs; other feeds' entries are unchanged |
| FetchCycle.CycleKeepsItems | background.js:82-90 | no item cached before the cycle is missing after it |
| FetchCycle.CycleKeepsSorted | background.js:88-90 | if every feed's items were sorted newest first, they still are |
| FetchCycle.CycleRecordsOutcome | background.js:72-105 | with distinct URLs, each feed's entry after the whole cycle follows its own outcome. After a success: the merge of the items cached before the cycle with the parsed ones, that feed's clock reading, and no error. After a failure: the message, with the items and `fetchedAt` cached before, or no items and the clock reading for a feed not cached before |
| FetchCycle.FirstFetchExample | background.js:72-92 | a first fetch of two entries stores the newer item first, with no error |
| Badge.Decimal | background.js:191 | `String(n)`: a non-empty string of decimal digits with no leading zero |
| Badge.DecimalRoundTrip | background.js:191 | reading the decimal text back gives the number |
| Badge.BadgeTextMeaning | background.js:190-192 | the badge text is empty iff there are no unread items, and otherwise reads back as the count |
| Badge.UpdateBadge | background.js:180-192 | the loop's count is the number of unread items over all feeds (0 without a cache); the text is the badge text of that count |
| Badge.UnreadOverRemove | background.js:185-187 | the sum over feeds does not depend on the order the keys are visited |
| Badge.AllReadClearsBadge | background.js:183-191 | when every item is read the badge is empty |
| Badge.UnreadItemShowsBadge | background.js:183-191 | one unread item anywhere makes the badge non-empty |
| Popup.FlattenMembers | popup.js:50 | `allItems` holds exactly the items of all feeds |
| Popup.ShownItemsPipeline | popup.js:61-76 | the two successive filters keep exactly the items that the combined condition lets through, in order |
| Popup.RenderMeaning | popup.js:60-84 | the rendered list is the stable date sort of the shown items. Each item of `allItems` that passes the filters appears as often as there, and nothing else appears. "Unread only" shows only unread items; a non-empty term matches the title or the feed URL, ignoring case; both off shows every item |
| Popup.PopupView.constructor | popup.js:19 | `allItems` starts empty |
| Popup.PopupView.LoadAndRenderFeeds | popup.js:39-58 | a missing or empty cache shows the empty state and keeps `allItems`; otherwise `allItems` becomes the flattened cache and is rendered unless empty |
| Popup.FindById | popup.js:163 | `find`: the index of the first item with the id, or none when no item has it |
| Popup.FirstFeedWith | popup.js:162-169 | the first feed, in enumeration order, that holds an item with the id |
| Popup.MarkAsRead | popup.js:156-175 | the loop writes exactly the specified result: nothing without a cache or a match; otherwise the cache with that one item marked read |
| Popup.MarkAsReadNothingFound | popup.js:159-171 | nothing is written iff there is no cache or no item of any feed has the id |
| Popup.MarkAsReadChangesOneItem | popup.js:162-172 | only the first item with the id, in the first feed that has one, changes, and it becomes read; all other items, fields and feeds stay the same |
| FeedList.TrimMeaning | options.js:44 | `trim` removes leading and trailing whitespace only: the result is a slice of the input, only whitespace is cut off, and the result does not start or end with whitespace |
| FeedList.TrimEmpty | options.js:44-45 | the trimmed input is empty iff the input is all whitespace |
| FeedList.AddFeedMeaning | options.js:43-60 | blank input is ignored; an unparseable URL and a URL already listed store nothing; otherwise the trimmed URL is appended at the end, and a duplicate-free list stays duplicate-free |
| FeedList.WithoutMeaning | options.js:70 | every occurrence of the URL is removed; every other URL keeps its multiplicity and relative order; a list without the URL is unchanged |
| FeedList.WithoutDistinct | options.js:70 | removal keeps a duplicate-free list duplicate-free |
| FeedList.RemoveFeedMeaning | options.js:68-73 | `removeFeed` writes nothing iff no list is stored (the `filter` throws). Otherwise every occurrence of the URL goes, every other URL keeps its count and relative order, a list without the URL is unchanged, and a duplicate-free list stays duplicate-free |
| FeedList.DedupMeaning | options.js:90 | `[...new Set(urls)]` has no duplicates, holds exactly the input's URLs and orders them by first occurrence |
| FeedList.DedupDistinct | options.js:90 | a duplicate-free list is unchanged by de-duplication |
| FeedList.DedupPrefix | options.js:90 | the de-duplication of a prefix is a prefix of the de-duplication |
| FeedList.ImportedUrlsMembers | options.js:86 | the imported URLs are exactly the present, non-empty `xmlUrl` values; there are none iff every value is missing or empty |
| FeedList.ImportOpmlMeaning | options.js:86-91 | a file with no URL stores nothing. Otherwise the stored list has no duplicates and holds exactly the existing and imported URLs, ordered by first occurrence. A duplicate-free existing list stays its prefix |
| FeedList.ImportOfUrls | options.js:86-91 | importing outlines that carry any list of non-empty URLs into an empty list stores that list with repeats collapsed to their first occurrence |
| Opml.UnescapeEscape | options.js:123-133 | decoding the five XML entities in the escaped text gives the original text |
| Opml.EscapeXmlSafe | options.js:123-133 | the escaped text holds no `<`, `>`, `'` or `"`, and every `&` starts one of the five entities |
| Opml.EscapeXmlPlain | options.js:123-133 | text without any of the five special characters is copied unchanged |
| Opml.EscapeXmlAppend | options.js:124 | each character is replaced on its own: escaping a concatenation concatenates the escapings |
| Opml.ExportOpml | options.js:100-111 | no URLs means no document; otherwise the loop builds the fixed header, one `outline` line per URL in list order, and the footer |
| Opml.ExportReadsBack | options.js:107-111 | reading the exported document gives back exactly the URL list, in order |
| Opml.ExportThenImport | options.js:86-111 | importing the export of a duplicate-free list of non-empty URLs into an empty list stores that list |

## Left out

- The `chrome.*` storage, runtime, tabs and action APIs, `fetch`, `FileReader`, the download of the exported file, alerts and all DOM rendering. Their effects are modelled as inputs and results.
- `DOMParser` and the `querySelector` lookups. An RSS or Atom entry arrives already split into the optional title, link href, link text, guid and pubDate texts (`FeedParser.Entry`). An OPML file arrives as its `xmlUrl` attribute values.
- Date parsing (`new Date(pubDate).getTime()`) and `Date.now()` are host primitives, taken as integers. NaN from an unparseable date is not represented.
- FetchCycle.TriggerFetch takes one clock value per feed. That value stands for both the items' default `publishedAt` and `fetchedAt`, although the extension reads the clock separately for each entry.
- `new URL(...)` validation in `addFeed` is a boolean input. Hostname extraction for display is left out.
- `fetchArticleContent` and Readability are a third-party library. Showing the reader view, and marking the item read from it, call the modelled `MarkAsRead`.
- Text.ToLower folds only ASCII letters. JavaScript's `toLowerCase` also folds other scripts.
- Popup.Flatten: the `feed.items || []` fallback is not modelled. Every cache entry this code writes has an `items` list.
- FeedParser.GlobalTest counts `lastIndex` in Unicode code points, while JavaScript counts UTF-16 code units. After a character outside the Basic Multilingual Plane, such as an emoji, the two differ. This affects only the as-written model in the Findings row.
- Badge.Decimal: JavaScript's `String(n)` writes an exponent from 10^21 on (`"1e+21"`); the model always writes plain digits, and no badge count reaches that size.
- Opml.Unescape decodes only the five predefined entities. Numeric character references and XML attribute-value normalisation (a tab or newline in a URL reads back as a space) are not modelled.
- The read-modify-write race between overlapping `markAsRead` or fetch calls is concurrency, and is not modelled.
- The `notificationsEnabled` setting (options.js:136-144) is stored but nothing reads it, so it is not modelled.
- A feed removed from the list keeps its cache entry and still counts on the badge. `FetchCycle.CycleKeys` proves that the entry of a URL no longer configured is unchanged by a cycle, and `Badge.TotalUnread` sums over every key of the cache. No lemma relates the options page's list to the cache.

## Findings

| source | as written | input that shows it | evidently intended | confidence | as-written member | corrected member |
|---|---|---|---|---|---|---|
| background.js:117-143 | The seven patterns are `/g` regexes created once per `parseRSS` call and shared by all of a feed's entries. `test` then starts at the previous match's `lastIndex`, so a later title can miss a pattern it contains. | One feed with two entries, both titled "충격": the second scores 0. | Every title scores -10 per pattern it contains, whatever came before (-10 for both). | not executed | FeedParser.ScoresAsWritten, shown by FeedParser.LastIndexMissesRepeatedPattern | FeedParser.Score, computed by FeedParser.ScoreTitle and described by FeedParser.ScoreMeaning |
