/** The popup: the flattened item list, the filter/sort pipeline behind the
    rendered list, and marking an item read. */
module Popup {
  import opened Wrappers
  import opened Text
  import opened Items
  import opened CacheMerge

  /** `order` lists every key of `cache` exactly once: the order in which
      the host enumerates the keys of the stored cache object. */
  ghost predicate IsEnumeration(order: seq<string>, cache: Cache)
  {
    && (forall i, j :: 0 <= i < j < |order| ==> order[i] != order[j])
    && (forall u :: u in order <==> u in cache)
  }

  /** `Object.values(cache).flatMap((feed) => feed.items)`, feeds taken in `order`. */
  function Flatten(cache: Cache, order: seq<string>): seq<FeedItem>
    requires forall u :: u in order ==> u in cache
    decreases |order|
  {
    if order == [] then [] else cache[order[0]].items + Flatten(cache, order[1..])
  }

  lemma {:induction false} FlattenMembersOf(cache: Cache, order: seq<string>, x: FeedItem)
    requires forall u :: u in order ==> u in cache
    ensures x in Flatten(cache, order) <==> exists u :: u in order && x in cache[u].items
    decreases |order|
  {
    if order != [] {
      FlattenMembersOf(cache, order[1..], x);
      assert forall u :: u in order <==> u == order[0] || u in order[1..];
    }
  }

  /** `allItems` holds exactly the items of all feeds. */
  lemma FlattenMembers(cache: Cache, order: seq<string>)
    requires IsEnumeration(order, cache)
    ensures forall x :: x in Flatten(cache, order) <==> exists u :: u in cache && x in cache[u].items
  {
    forall x ensures x in Flatten(cache, order) <==> exists u :: u in cache && x in cache[u].items {
      FlattenMembersOf(cache, order, x);
    }
  }

  /** The popup's controls: the "unread only" toggle, the search box and the sort select. */
  datatype Controls = Controls(unreadOnly: bool, search: string, sortBy: string)

  /** The search term matches the item's title or feed URL, ignoring case. */
  predicate Matches(item: FeedItem, term: string)
  {
    Contains(ToLower(item.title), term) || Contains(ToLower(item.feedUrl), term)
  }

  /** Whether the controls let `item` through. */
  predicate Shown(item: FeedItem, controls: Controls)
  {
    && (!controls.unreadOnly || !item.read)
    && (ToLower(controls.search) == "" || Matches(item, ToLower(controls.search)))
  }

  /** `items.filter((item) => !item.read)`. */
  function UnreadItems(s: seq<FeedItem>): seq<FeedItem>
    decreases |s|
  {
    if s == [] then [] else (if s[0].read then [] else [s[0]]) + UnreadItems(s[1..])
  }

  /** `items.filter((item) => title or feedUrl, lower-cased, includes term)`. */
  function MatchingItems(s: seq<FeedItem>, term: string): seq<FeedItem>
    decreases |s|
  {
    if s == [] then [] else (if Matches(s[0], term) then [s[0]] else []) + MatchingItems(s[1..], term)
  }

  /** The items of `s` the controls let through, in order. */
  function ShownItems(s: seq<FeedItem>, controls: Controls): seq<FeedItem>
    decreases |s|
  {
    if s == [] then [] else (if Shown(s[0], controls) then [s[0]] else []) + ShownItems(s[1..], controls)
  }

  /** The list `renderItems` draws from `allItems`. */
  function RenderItems(allItems: seq<FeedItem>, controls: Controls): seq<FeedItem>
  {
    var afterUnread := if controls.unreadOnly then UnreadItems(allItems) else allItems;
    var searchTerm := ToLower(controls.search);
    var afterSearch := if searchTerm != "" then MatchingItems(afterUnread, searchTerm) else afterUnread;
    SortByDate(afterSearch, controls.sortBy == "newest")
  }

  lemma {:induction false} ShownItemsPipeline(s: seq<FeedItem>, controls: Controls)
    ensures
      var afterUnread := if controls.unreadOnly then UnreadItems(s) else s;
      var searchTerm := ToLower(controls.search);
      ShownItems(s, controls) == if searchTerm != "" then MatchingItems(afterUnread, searchTerm) else afterUnread
    decreases |s|
  {
    if s != [] {
      ShownItemsPipeline(s[1..], controls);
      var searchTerm := ToLower(controls.search);
      if controls.unreadOnly && searchTerm != "" {
        var head := if s[0].read then [] else [s[0]];
        assert UnreadItems(s) == head + UnreadItems(s[1..]);
        if head != [] {
          assert (head + UnreadItems(s[1..]))[1..] == UnreadItems(s[1..]);
        } else {
          assert head + UnreadItems(s[1..]) == UnreadItems(s[1..]);
        }
      }
    }
  }

  lemma {:induction false} ShownItemsCounts(s: seq<FeedItem>, controls: Controls)
    ensures forall x :: multiset(ShownItems(s, controls))[x] == if Shown(x, controls) then multiset(s)[x] else 0
    decreases |s|
  {
    if s != [] {
      ShownItemsCounts(s[1..], controls);
      assert s == [s[0]] + s[1..];
    }
  }

  lemma RenderIsSortedShown(allItems: seq<FeedItem>, controls: Controls)
    ensures RenderItems(allItems, controls) == SortByDate(ShownItems(allItems, controls), controls.sortBy == "newest")
    ensures Sorted(RenderItems(allItems, controls), controls.sortBy == "newest")
  {
    ShownItemsPipeline(allItems, controls);
    SortSorted(ShownItems(allItems, controls), controls.sortBy == "newest");
  }

  lemma RenderCounts(allItems: seq<FeedItem>, controls: Controls)
    ensures forall x :: multiset(RenderItems(allItems, controls))[x]
                     == if Shown(x, controls) then multiset(allItems)[x] else 0
  {
    RenderIsSortedShown(allItems, controls);
    SortPermutes(ShownItems(allItems, controls), controls.sortBy == "newest");
    ShownItemsCounts(allItems, controls);
  }

  lemma RenderShown(allItems: seq<FeedItem>, controls: Controls)
    ensures forall x :: x in RenderItems(allItems, controls) ==> Shown(x, controls)
  {
    RenderCounts(allItems, controls);
    forall x | x in RenderItems(allItems, controls) ensures Shown(x, controls) {
      assert multiset(RenderItems(allItems, controls))[x] > 0;
    }
  }

  /** The rendered list is the stable sort, in the chosen direction, of the
      items the controls let through: every shown item is unread when "unread
      only" is on and matches a non-empty search term, no item of `allItems`
      that passes is missing, and nothing else appears. */
  lemma RenderMeaning(allItems: seq<FeedItem>, controls: Controls)
    ensures RenderItems(allItems, controls) == SortByDate(ShownItems(allItems, controls), controls.sortBy == "newest")
    ensures Sorted(RenderItems(allItems, controls), controls.sortBy == "newest")
    ensures forall x :: multiset(RenderItems(allItems, controls))[x]
                     == if Shown(x, controls) then multiset(allItems)[x] else 0
    ensures multiset(RenderItems(allItems, controls)) <= multiset(allItems)
    ensures controls.unreadOnly ==> forall x :: x in RenderItems(allItems, controls) ==> !x.read
    ensures ToLower(controls.search) != "" ==>
      forall x :: x in RenderItems(allItems, controls) ==> Matches(x, ToLower(controls.search))
    ensures !controls.unreadOnly && controls.search == "" ==>
      multiset(RenderItems(allItems, controls)) == multiset(allItems)
  {
    RenderIsSortedShown(allItems, controls);
    RenderCounts(allItems, controls);
    RenderShown(allItems, controls);
    if !controls.unreadOnly && controls.search == "" {
      assert ToLower(controls.search) == "";
      assert multiset(RenderItems(allItems, controls)) == multiset(allItems);
    }
  }

  /** The popup's state: the items of the last cache it loaded. */
  class PopupView {
    var allItems: seq<FeedItem>

    constructor ()
      ensures allItems == []
    {
      allItems := [];
    }

    /** `loadAndRenderFeeds`: returns the list rendered, or `None` when the
        empty state is shown instead. An absent or key-less cache leaves
        `allItems` as it was. */
    method LoadAndRenderFeeds(cache: Option<Cache>, order: seq<string>, controls: Controls)
      returns (rendered: Option<seq<FeedItem>>)
      requires cache.Some? ==> IsEnumeration(order, cache.value)
      modifies this
      ensures cache.None? || |cache.value| == 0 ==> allItems == old(allItems) && rendered == None
      ensures cache.Some? && |cache.value| > 0 ==>
        && allItems == Flatten(cache.value, order)
        && rendered == if allItems == [] then None else Some(RenderItems(allItems, controls))
    {
      if cache.None? || |cache.value.Keys| == 0 {
        return None;
      }
      allItems := Flatten(cache.value, order);
      if |allItems| == 0 {
        rendered := None;
      } else {
        rendered := Some(RenderItems(allItems, controls));
      }
    }
  }

  // ---------------------------------------------------------------------------
  // markAsRead

  /** `items.find((i) => i.id === itemId)`, as the index of the found item. */
  function FindById(items: seq<FeedItem>, itemId: string): (r: Option<nat>)
    ensures r.Some? ==> r.value < |items| && items[r.value].id == itemId
    ensures r.Some? ==> forall j :: 0 <= j < r.value ==> items[j].id != itemId
    ensures r.None? ==> forall j :: 0 <= j < |items| ==> items[j].id != itemId
    decreases |items|
  {
    if items == [] then None
    else if items[0].id == itemId then Some(0)
    else match FindById(items[1..], itemId)
      case Some(k) => Some(k + 1)
      case None => None
  }

  /** The position in `order` of the first feed holding an item with `itemId`. */
  function FirstFeedWith(cache: Cache, order: seq<string>, itemId: string): (r: Option<nat>)
    requires forall u :: u in order ==> u in cache
    ensures r.Some? ==> r.value < |order| && FindById(cache[order[r.value]].items, itemId).Some?
    ensures r.Some? ==> forall q :: 0 <= q < r.value ==> FindById(cache[order[q]].items, itemId).None?
    ensures r.None? ==> forall q :: 0 <= q < |order| ==> FindById(cache[order[q]].items, itemId).None?
    decreases |order|
  {
    if order == [] then None
    else if FindById(cache[order[0]].items, itemId).Some? then Some(0)
    else match FirstFeedWith(cache, order[1..], itemId)
      case Some(p) => Some(p + 1)
      case None => None
  }

  /** The cache with item `k` of feed `url` marked read. */
  function SetRead(cache: Cache, url: string, k: nat): Cache
    requires url in cache && k < |cache[url].items|
  {
    cache[url := cache[url].(items := cache[url].items[k := cache[url].items[k].(read := true)])]
  }

  /** What `markAsRead` writes back to storage, if anything. */
  function MarkAsReadResult(cache: Option<Cache>, order: seq<string>, itemId: string): Option<Cache>
    requires cache.Some? ==> forall u :: u in order ==> u in cache.value
  {
    if cache.None? then None
    else match FirstFeedWith(cache.value, order, itemId)
      case None => None
      case Some(p) => Some(SetRead(cache.value, order[p], FindById(cache.value[order[p]].items, itemId).value))
  }

  /** `markAsRead`: the cache written back, or `None` when nothing is written. */
  method MarkAsRead(cache: Option<Cache>, order: seq<string>, itemId: string) returns (written: Option<Cache>)
    requires cache.Some? ==> IsEnumeration(order, cache.value)
    ensures written == MarkAsReadResult(cache, order, itemId)
  {
    if cache.None? {
      return None;
    }
    var c := cache.value;
    var itemFound := false;
    var p := 0;
    while p < |order|
      invariant 0 <= p <= |order|
      invariant c == cache.value && !itemFound
      invariant forall q :: 0 <= q < p ==> FindById(c[order[q]].items, itemId).None?
    {
      var feedUrl := order[p];
      var item := FindById(c[feedUrl].items, itemId);
      if item.Some? {
        assert FirstFeedWith(c, order, itemId) == Some(p) by {
          FirstFeedAt(c, order, itemId, p);
        }
        c := SetRead(c, feedUrl, item.value);
        itemFound := true;
        break;
      }
      p := p + 1;
    }
    if itemFound {
      written := Some(c);
    } else {
      written := None;
    }
  }

  lemma {:induction false} FirstFeedAt(cache: Cache, order: seq<string>, itemId: string, p: nat)
    requires forall u :: u in order ==> u in cache
    requires p < |order| && FindById(cache[order[p]].items, itemId).Some?
    requires forall q :: 0 <= q < p ==> FindById(cache[order[q]].items, itemId).None?
    ensures FirstFeedWith(cache, order, itemId) == Some(p)
    decreases p
  {
    if p > 0 {
      FirstFeedAt(cache, order[1..], itemId, p - 1);
    }
  }

  /** Nothing is written when there is no cache or no item has the id. */
  lemma MarkAsReadNothingFound(cache: Option<Cache>, order: seq<string>, itemId: string)
    requires cache.Some? ==> IsEnumeration(order, cache.value)
    ensures MarkAsReadResult(cache, order, itemId).None? <==>
      (cache.None? || forall u, x :: u in cache.value && x in cache.value[u].items ==> x.id != itemId)
  {
    if cache.Some? {
      var c := cache.value;
      if FirstFeedWith(c, order, itemId).None? {
        forall u, x | u in c && x in c[u].items ensures x.id != itemId {
          var q :| 0 <= q < |order| && order[q] == u;
          assert FindById(c[order[q]].items, itemId).None?;
        }
      }
    }
  }

  /** When an item has the id, exactly one item changes: the first with that
      id in the first feed, in enumeration order, that holds one. It becomes
      read; every other item, every other field and every other feed stays. */
  lemma MarkAsReadChangesOneItem(cache: Cache, order: seq<string>, itemId: string, p: nat)
    requires IsEnumeration(order, cache)
    requires FirstFeedWith(cache, order, itemId) == Some(p)
    ensures
      var url := order[p];
      var items := cache[url].items;
      var k := FindById(items, itemId).value;
      var c' := MarkAsReadResult(Some(cache), order, itemId).value;
      && k < |items| && items[k].id == itemId
      && (forall j :: 0 <= j < k ==> items[j].id != itemId)
      && (forall q, x :: 0 <= q < p && x in cache[order[q]].items ==> x.id != itemId)
      && c'.Keys == cache.Keys
      && (forall v :: v in cache && v != url ==> c'[v] == cache[v])
      && c'[url].fetchedAt == cache[url].fetchedAt && c'[url].lastError == cache[url].lastError
      && |c'[url].items| == |items|
      && c'[url].items[k] == items[k].(read := true)
      && (forall j :: 0 <= j < |items| && j != k ==> c'[url].items[j] == items[j])
  {
    forall q, x | 0 <= q < p && x in cache[order[q]].items ensures x.id != itemId {
      assert FindById(cache[order[q]].items, itemId).None?;
    }
  }
}
