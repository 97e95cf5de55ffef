/** One run of `triggerFetch`: every configured feed is fetched in turn and
    its outcome folded into the cache. */
module FetchCycle {
  import opened Wrappers
  import opened Items
  import opened FeedParser
  import opened CacheMerge

  /** What fetching one feed produced: the entries of its document, or the
      message of the error that `fetch`, a non-2xx status or reading the body
      raised. */
  datatype FetchOutcome = Fetched(entries: seq<Entry>) | Failed(message: string)

  /** `newCache[url]?.items || []`. */
  function CachedItems(cache: Cache, url: string): seq<FeedItem>
  {
    if url in cache then cache[url].items else []
  }

  /** One pass of the loop body for `url`; `now` is the clock reading of that pass. */
  function ApplyOutcome(cache: Cache, url: string, outcome: FetchOutcome, now: int): Cache
  {
    match outcome
    case Fetched(entries) =>
      cache[url := CacheEntry(now, Merge(CachedItems(cache, url), ParseItems(entries, url, now)), None)]
    case Failed(message) =>
      if url in cache then cache[url := cache[url].(lastError := Some(message))]
      else cache[url := CacheEntry(now, [], Some(message))]
  }

  /** The loop over `urls`, the i-th feed with the i-th outcome and clock reading. */
  function Cycle(cache: Cache, urls: seq<string>, outcomes: seq<FetchOutcome>, clock: seq<int>): Cache
    requires |outcomes| == |urls| == |clock|
    decreases |urls|
  {
    if urls == [] then cache
    else Cycle(ApplyOutcome(cache, urls[0], outcomes[0], clock[0]), urls[1..], outcomes[1..], clock[1..])
  }

  /** `triggerFetch`. `feedUrls` and `oldCache` are what storage held (absent
      when never written); the result is the cache written back, or `None`
      when there is no feed URL and nothing is written. */
  method TriggerFetch(feedUrls: Option<seq<string>>, oldCache: Option<Cache>,
                      outcomes: seq<FetchOutcome>, clock: seq<int>) returns (written: Option<Cache>)
    requires |outcomes| == |feedUrls.GetOr([])| == |clock|
    ensures feedUrls.GetOr([]) == [] ==> written == None
    ensures feedUrls.GetOr([]) != [] ==>
      written == Some(Cycle(oldCache.GetOr(map[]), feedUrls.value, outcomes, clock))
  {
    if feedUrls.None? || |feedUrls.value| == 0 {
      return None;
    }
    var urls := feedUrls.value;
    var newCache := oldCache.GetOr(map[]);
    var i := 0;
    while i < |urls|
      invariant 0 <= i <= |urls|
      invariant Cycle(newCache, urls[i..], outcomes[i..], clock[i..])
             == Cycle(oldCache.GetOr(map[]), urls, outcomes, clock)
    {
      var url := urls[i];
      match outcomes[i] {
        case Fetched(entries) =>
          var items := ParseRss(entries, url, clock[i]);
          assert items == ParseItems(entries, url, clock[i]);
          var existingItems := if url in newCache then newCache[url].items else [];
          newCache := newCache[url := CacheEntry(clock[i], Merge(existingItems, items), None)];
        case Failed(message) =>
          if url in newCache {
            newCache := newCache[url := newCache[url].(lastError := Some(message))];
          } else {
            newCache := newCache[url := CacheEntry(clock[i], [], Some(message))];
          }
      }
      assert urls[i..][1..] == urls[i + 1..];
      assert outcomes[i..][1..] == outcomes[i + 1..];
      assert clock[i..][1..] == clock[i + 1..];
      i := i + 1;
    }
    return Some(newCache);
  }

  /** What one pass does to the entry of its feed, and that it does nothing
      to any other feed's entry. */
  lemma ApplyOutcomeEffect(cache: Cache, url: string, outcome: FetchOutcome, now: int)
    ensures ApplyOutcome(cache, url, outcome, now).Keys == cache.Keys + {url}
    ensures forall u :: u in cache && u != url ==> ApplyOutcome(cache, url, outcome, now)[u] == cache[u]
    ensures outcome.Fetched? ==>
      var e := ApplyOutcome(cache, url, outcome, now)[url];
      && e.lastError == None
      && e.fetchedAt == now
      && Sorted(e.items, true)
      && (forall x :: x in CachedItems(cache, url) ==> x in e.items)
      && (forall x :: x in e.items <==>
            (x in CachedItems(cache, url) || (x in ParseItems(outcome.entries, url, now) && x.id !in Ids(CachedItems(cache, url)))))
    ensures outcome.Failed? && url in cache ==>
      var e := ApplyOutcome(cache, url, outcome, now)[url];
      && e.items == cache[url].items
      && e.fetchedAt == cache[url].fetchedAt
      && e.lastError == Some(outcome.message)
    ensures outcome.Failed? && url !in cache ==>
      ApplyOutcome(cache, url, outcome, now)[url] == CacheEntry(now, [], Some(outcome.message))
  {
    if outcome.Fetched? {
      var batch := ParseItems(outcome.entries, url, now);
      MergeSortedPermutation(CachedItems(cache, url), batch);
      MergeMembers(CachedItems(cache, url), batch);
    }
  }

  /** After a cycle the cache has an entry for every configured URL, and the
      entries of other URLs are what they were. */
  lemma {:induction false} CycleKeys(cache: Cache, urls: seq<string>, outcomes: seq<FetchOutcome>, clock: seq<int>)
    requires |outcomes| == |urls| == |clock|
    ensures Cycle(cache, urls, outcomes, clock).Keys == cache.Keys + set u | u in urls
    ensures forall u :: u in cache && u !in urls ==> Cycle(cache, urls, outcomes, clock)[u] == cache[u]
    decreases |urls|
  {
    if urls != [] {
      ApplyOutcomeEffect(cache, urls[0], outcomes[0], clock[0]);
      CycleKeys(ApplyOutcome(cache, urls[0], outcomes[0], clock[0]), urls[1..], outcomes[1..], clock[1..]);
      assert forall u :: u in urls <==> u == urls[0] || u in urls[1..];
    }
  }

  /** Fetching never drops a cached item nor changes it: read flags survive. */
  lemma {:induction false} CycleKeepsItems(cache: Cache, urls: seq<string>, outcomes: seq<FetchOutcome>, clock: seq<int>)
    requires |outcomes| == |urls| == |clock|
    ensures forall u, x :: u in cache && x in cache[u].items ==>
      u in Cycle(cache, urls, outcomes, clock) && x in Cycle(cache, urls, outcomes, clock)[u].items
    decreases |urls|
  {
    if urls != [] {
      var next := ApplyOutcome(cache, urls[0], outcomes[0], clock[0]);
      ApplyOutcomeEffect(cache, urls[0], outcomes[0], clock[0]);
      CycleKeepsItems(next, urls[1..], outcomes[1..], clock[1..]);
      forall u, x | u in cache && x in cache[u].items ensures u in next && x in next[u].items {
        if u == urls[0] {
          assert CachedItems(cache, u) == cache[u].items;
        }
      }
    }
  }

  /** Every cached feed's items are newest first. */
  ghost predicate AllSorted(cache: Cache)
  {
    forall u :: u in cache ==> Sorted(cache[u].items, true)
  }

  /** A cycle keeps every feed's items newest first. */
  lemma {:induction false} CycleKeepsSorted(cache: Cache, urls: seq<string>, outcomes: seq<FetchOutcome>, clock: seq<int>)
    requires |outcomes| == |urls| == |clock|
    requires AllSorted(cache)
    ensures AllSorted(Cycle(cache, urls, outcomes, clock))
    decreases |urls|
  {
    if urls != [] {
      ApplyOutcomeEffect(cache, urls[0], outcomes[0], clock[0]);
      CycleKeepsSorted(ApplyOutcome(cache, urls[0], outcomes[0], clock[0]), urls[1..], outcomes[1..], clock[1..]);
    }
  }

  /** With each URL configured once, every feed's entry records its own
      outcome: after a success the merge of the items cached before with the
      parsed ones, the feed's clock reading and no error; after a failure the
      message, and the items and fetch time cached before (or none and the
      clock reading, for a feed not cached before). */
  lemma {:induction false} CycleRecordsOutcome(cache: Cache, urls: seq<string>, outcomes: seq<FetchOutcome>, clock: seq<int>, i: nat)
    requires |outcomes| == |urls| == |clock|
    requires forall j, k :: 0 <= j < k < |urls| ==> urls[j] != urls[k]
    requires i < |urls|
    ensures urls[i] in Cycle(cache, urls, outcomes, clock)
    ensures outcomes[i].Fetched? ==> Cycle(cache, urls, outcomes, clock)[urls[i]].lastError == None
    ensures outcomes[i].Fetched? ==>
      Cycle(cache, urls, outcomes, clock)[urls[i]].items
        == Merge(CachedItems(cache, urls[i]), ParseItems(outcomes[i].entries, urls[i], clock[i]))
    ensures outcomes[i].Fetched? ==> Cycle(cache, urls, outcomes, clock)[urls[i]].fetchedAt == clock[i]
    ensures outcomes[i].Failed? ==> Cycle(cache, urls, outcomes, clock)[urls[i]].lastError == Some(outcomes[i].message)
    ensures outcomes[i].Failed? && urls[i] in cache ==>
      Cycle(cache, urls, outcomes, clock)[urls[i]].items == cache[urls[i]].items
    ensures outcomes[i].Failed? && urls[i] in cache ==>
      Cycle(cache, urls, outcomes, clock)[urls[i]].fetchedAt == cache[urls[i]].fetchedAt
    ensures outcomes[i].Failed? && urls[i] !in cache ==>
      Cycle(cache, urls, outcomes, clock)[urls[i]].items == []
    ensures outcomes[i].Failed? && urls[i] !in cache ==>
      Cycle(cache, urls, outcomes, clock)[urls[i]].fetchedAt == clock[i]
    decreases |urls|
  {
    var next := ApplyOutcome(cache, urls[0], outcomes[0], clock[0]);
    ApplyOutcomeEffect(cache, urls[0], outcomes[0], clock[0]);
    if i == 0 {
      assert urls[0] !in urls[1..] by {
        forall k | 0 <= k < |urls| - 1 ensures urls[1..][k] != urls[0] {
          assert urls[1..][k] == urls[k + 1];
        }
      }
      CycleKeys(next, urls[1..], outcomes[1..], clock[1..]);
    } else {
      CycleRecordsOutcome(next, urls[1..], outcomes[1..], clock[1..], i - 1);
      assert urls[1..][i - 1] == urls[i] && urls[i] != urls[0];
    }
  }

  /** From an empty cache, a feed whose document has entries A (published at
      t1) and B (published at t2 > t1) is cached as [B, A] without an error. */
  lemma FirstFetchExample(url: string, a: Entry, b: Entry, now: int)
    requires HasText(a.pubDate) && HasText(b.pubDate) && a.pubTime < b.pubTime
    ensures url in Cycle(map[], [url], [Fetched([a, b])], [now])
    ensures Cycle(map[], [url], [Fetched([a, b])], [now])[url]
         == CacheEntry(now, [ItemOf(b, url, now), ItemOf(a, url, now)], None)
  {
    var items := ParseItems([a, b], url, now);
    assert items == [ItemOf(a, url, now), ItemOf(b, url, now)];
    MergeIntoEmpty(ItemOf(a, url, now), ItemOf(b, url, now));
    assert Cycle(map[], [url], [Fetched([a, b])], [now]) == ApplyOutcome(map[], url, Fetched([a, b]), now);
  }
}
