/** Merging a freshly parsed batch of items into a feed's cached items. */
module CacheMerge {
  import opened Wrappers
  import opened Items

  /** What the cache keeps for one feed URL. */
  datatype CacheEntry = CacheEntry(fetchedAt: int, items: seq<FeedItem>, lastError: Option<string>)

  /** The `feedsCache` object: one entry per feed URL. */
  type Cache = map<string, CacheEntry>

  /** The ids of `items`. */
  function Ids(items: seq<FeedItem>): set<string>
  {
    set x | x in items :: x.id
  }

  /** The items of `batch` whose id is not among the ids of `existing`, in order. */
  function NewItems(existing: seq<FeedItem>, batch: seq<FeedItem>): seq<FeedItem>
    decreases |batch|
  {
    if batch == [] then []
    else (if batch[0].id in Ids(existing) then [] else [batch[0]]) + NewItems(existing, batch[1..])
  }

  /** `[...newItems, ...existingItems].sort((a, b) => b.publishedAt - a.publishedAt)`. */
  function Merge(existing: seq<FeedItem>, batch: seq<FeedItem>): seq<FeedItem>
  {
    SortByDate(NewItems(existing, batch) + existing, true)
  }

  /** How many items of `s` carry `id`. */
  function CountId(s: seq<FeedItem>, id: string): nat
    decreases |s|
  {
    if s == [] then 0 else (if s[0].id == id then 1 else 0) + CountId(s[1..], id)
  }

  /** No two items of `s` share an id. */
  ghost predicate UniqueIds(s: seq<FeedItem>)
  {
    forall id :: CountId(s, id) <= 1
  }

  lemma {:induction false} CountIdAppend(a: seq<FeedItem>, b: seq<FeedItem>, id: string)
    ensures CountId(a + b, id) == CountId(a, id) + CountId(b, id)
    decreases |a|
  {
    if a == [] {
      assert a + b == b;
    } else {
      CountIdAppend(a[1..], b, id);
      assert (a + b)[1..] == a[1..] + b;
    }
  }

  lemma {:induction false} CountIdInsert(x: FeedItem, s: seq<FeedItem>, newestFirst: bool, id: string)
    ensures CountId(Insert(x, s, newestFirst), id) == CountId(s, id) + (if x.id == id then 1 else 0)
    decreases |s|
  {
    if s == [] || InOrder(x, s[0], newestFirst) {
      CountIdAppend([x], s, id);
    } else {
      CountIdInsert(x, s[1..], newestFirst, id);
      CountIdAppend([s[0]], Insert(x, s[1..], newestFirst), id);
    }
  }

  lemma {:induction false} CountIdSort(s: seq<FeedItem>, newestFirst: bool, id: string)
    ensures CountId(SortByDate(s, newestFirst), id) == CountId(s, id)
    decreases |s|
  {
    if s != [] {
      CountIdSort(s[1..], newestFirst, id);
      CountIdInsert(s[0], SortByDate(s[1..], newestFirst), newestFirst, id);
    }
  }

  /** Filtering against the existing ids: every occurrence of an item in the
      batch survives exactly when its id is new, and the survivors keep
      their order. */
  lemma {:induction false} NewItemsFilter(existing: seq<FeedItem>, batch: seq<FeedItem>)
    ensures forall x :: multiset(NewItems(existing, batch))[x]
                     == if x.id in Ids(existing) then 0 else multiset(batch)[x]
    ensures forall id :: CountId(NewItems(existing, batch), id)
                      == if id in Ids(existing) then 0 else CountId(batch, id)
    decreases |batch|
  {
    if batch != [] {
      var head := if batch[0].id in Ids(existing) then [] else [batch[0]];
      NewItemsFilter(existing, batch[1..]);
      assert batch == [batch[0]] + batch[1..];
      forall id ensures CountId(NewItems(existing, batch), id)
                     == if id in Ids(existing) then 0 else CountId(batch, id) {
        CountIdAppend(head, NewItems(existing, batch[1..]), id);
      }
    }
  }

  /** A successful fetch leaves the feed's items newest first, and they are
      exactly the new-id items of the batch together with the existing items. */
  lemma MergeSortedPermutation(existing: seq<FeedItem>, batch: seq<FeedItem>)
    ensures Sorted(Merge(existing, batch), true)
    ensures multiset(Merge(existing, batch)) == multiset(NewItems(existing, batch)) + multiset(existing)
    ensures |Merge(existing, batch)| == |existing| + |NewItems(existing, batch)|
  {
    var combined := NewItems(existing, batch) + existing;
    SortSorted(combined, true);
    SortPermutes(combined, true);
    assert |Merge(existing, batch)| == |combined| by {
      assert |multiset(Merge(existing, batch))| == |multiset(combined)|;
    }
  }

  /** Every existing item, with its `read` flag, is still there; a batch item
      is there exactly when its id was not cached yet. */
  lemma MergeMembers(existing: seq<FeedItem>, batch: seq<FeedItem>)
    ensures forall x :: x in existing ==> x in Merge(existing, batch)
    ensures forall x :: x in Merge(existing, batch) <==>
      x in existing || (x in batch && x.id !in Ids(existing))
  {
    MergeSortedPermutation(existing, batch);
    NewItemsFilter(existing, batch);
    forall x ensures x in Merge(existing, batch) <==> x in existing || (x in batch && x.id !in Ids(existing)) {
      assert x in Merge(existing, batch) <==> x in multiset(Merge(existing, batch));
      assert x in batch <==> x in multiset(batch);
    }
  }

  /** Ids after the merge: an id already cached occurs as often as before,
      any other as often as in the batch. */
  lemma MergeIdCounts(existing: seq<FeedItem>, batch: seq<FeedItem>, id: string)
    ensures CountId(Merge(existing, batch), id)
         == CountId(existing, id) + (if id in Ids(existing) then 0 else CountId(batch, id))
  {
    NewItemsFilter(existing, batch);
    CountIdSort(NewItems(existing, batch) + existing, true, id);
    CountIdAppend(NewItems(existing, batch), existing, id);
  }

  /** Merging a batch without repeated ids into items without repeated ids
      repeats no id. */
  lemma MergeUnique(existing: seq<FeedItem>, batch: seq<FeedItem>)
    requires UniqueIds(existing) && UniqueIds(batch)
    ensures UniqueIds(Merge(existing, batch))
  {
    forall id ensures CountId(Merge(existing, batch), id) <= 1 {
      MergeIdCounts(existing, batch, id);
      CountIdPositive(existing, id);
    }
  }

  /** An id occurs in `s` exactly when some item of `s` carries it. */
  lemma {:induction false} CountIdPositive(s: seq<FeedItem>, id: string)
    ensures CountId(s, id) > 0 <==> id in Ids(s)
    decreases |s|
  {
    if s != [] {
      CountIdPositive(s[1..], id);
      assert Ids(s) == {s[0].id} + Ids(s[1..]) by {
        assert forall x :: x in s <==> x == s[0] || x in s[1..];
      }
    }
  }

  /** Among items published at the same time, the merge keeps the order of
      `[...newItems, ...existingItems]`. */
  lemma MergeStable(existing: seq<FeedItem>, batch: seq<FeedItem>, t: int)
    ensures WithDate(Merge(existing, batch), t) == WithDate(NewItems(existing, batch) + existing, t)
  {
    SortStable(NewItems(existing, batch) + existing, true, t);
  }

  /** The batch is not checked against itself: two entries with one id, as
      when neither has a guid nor a link, both enter the cache. */
  lemma BatchDuplicatesKept(x: FeedItem, y: FeedItem)
    requires x.id == y.id
    ensures CountId(Merge([], [x, y]), x.id) == 2
  {
    MergeIdCounts([], [x, y], x.id);
    assert Ids([]) == {};
    assert [x, y][1..] == [y];
    assert CountId([y], x.id) == 1;
  }

  /** From an empty cache, items A (time 1) and B (time 2) are stored newest first. */
  lemma MergeIntoEmpty(a: FeedItem, b: FeedItem)
    requires a.publishedAt < b.publishedAt
    ensures Merge([], [a, b]) == [b, a]
  {
    assert Ids([]) == {};
    assert [a, b][1..] == [b];
    assert NewItems([], [b]) == [b];
    assert NewItems([], [a, b]) == [a, b];
    assert [a, b] + [] == [a, b];
    assert SortByDate([b], true) == [b];
    assert Insert(a, [b], true) == [b, a];
  }
}
