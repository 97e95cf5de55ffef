/** Feed items and the stable ordering by publication time used by the
    background merge and by the popup. */
module Items {

  /** One article of a feed, as parsed and cached. */
  datatype FeedItem = FeedItem(
    id: string,
    title: string,
    link: string,
    publishedAt: int,
    feedUrl: string,
    read: bool,
    score: int)

  /** The comparator `b.publishedAt - a.publishedAt` (newest first) or
      `a.publishedAt - b.publishedAt` (oldest first) does not place `y` before `x`. */
  predicate InOrder(x: FeedItem, y: FeedItem, newestFirst: bool)
  {
    if newestFirst then y.publishedAt <= x.publishedAt else x.publishedAt <= y.publishedAt
  }

  predicate Sorted(s: seq<FeedItem>, newestFirst: bool)
  {
    forall i, j :: 0 <= i < j < |s| ==> InOrder(s[i], s[j], newestFirst)
  }

  /** Inserts `x` in front of the first element it may precede, so that it
      stays ahead of every element with the same time. */
  function Insert(x: FeedItem, s: seq<FeedItem>, newestFirst: bool): seq<FeedItem>
    decreases |s|
  {
    if s == [] || InOrder(x, s[0], newestFirst) then [x] + s
    else [s[0]] + Insert(x, s[1..], newestFirst)
  }

  /** `Array.prototype.sort` with the publication-time comparator. The sort is
      stable (ECMAScript 2019): items with equal times keep their order. */
  function SortByDate(s: seq<FeedItem>, newestFirst: bool): seq<FeedItem>
    decreases |s|
  {
    if s == [] then [] else Insert(s[0], SortByDate(s[1..], newestFirst), newestFirst)
  }

  /** The items of `s` published at time `t`, in their order in `s`. */
  function WithDate(s: seq<FeedItem>, t: int): seq<FeedItem>
    decreases |s|
  {
    if s == [] then []
    else (if s[0].publishedAt == t then [s[0]] else []) + WithDate(s[1..], t)
  }

  lemma {:induction false} InsertPermutes(x: FeedItem, s: seq<FeedItem>, newestFirst: bool)
    ensures multiset(Insert(x, s, newestFirst)) == multiset(s) + multiset{x}
    decreases |s|
  {
    if s == [] || InOrder(x, s[0], newestFirst) {
    } else {
      InsertPermutes(x, s[1..], newestFirst);
      assert s == [s[0]] + s[1..];
    }
  }

  lemma {:induction false} InsertSorted(x: FeedItem, s: seq<FeedItem>, newestFirst: bool)
    requires Sorted(s, newestFirst)
    ensures Sorted(Insert(x, s, newestFirst), newestFirst)
    decreases |s|
  {
    if s == [] || InOrder(x, s[0], newestFirst) {
    } else {
      var tail := Insert(x, s[1..], newestFirst);
      InsertSorted(x, s[1..], newestFirst);
      InsertPermutes(x, s[1..], newestFirst);
      forall k | 0 <= k < |tail| ensures InOrder(s[0], tail[k], newestFirst) {
        assert tail[k] in multiset(tail);
        if tail[k] != x {
          assert tail[k] in multiset(s[1..]);
          var j :| 0 <= j < |s[1..]| && s[1..][j] == tail[k];
          assert s[j + 1] == tail[k];
        }
      }
    }
  }

  /** The sort returns a permutation of its input. */
  lemma {:induction false} SortPermutes(s: seq<FeedItem>, newestFirst: bool)
    ensures multiset(SortByDate(s, newestFirst)) == multiset(s)
    decreases |s|
  {
    if s != [] {
      SortPermutes(s[1..], newestFirst);
      InsertPermutes(s[0], SortByDate(s[1..], newestFirst), newestFirst);
      assert s == [s[0]] + s[1..];
    }
  }

  /** The sort returns its input in comparator order. */
  lemma {:induction false} SortSorted(s: seq<FeedItem>, newestFirst: bool)
    ensures Sorted(SortByDate(s, newestFirst), newestFirst)
    decreases |s|
  {
    if s != [] {
      SortSorted(s[1..], newestFirst);
      InsertSorted(s[0], SortByDate(s[1..], newestFirst), newestFirst);
    }
  }

  lemma {:induction false} WithDateAppend(a: seq<FeedItem>, b: seq<FeedItem>, t: int)
    ensures WithDate(a + b, t) == WithDate(a, t) + WithDate(b, t)
    decreases |a|
  {
    if a == [] {
      assert a + b == b;
    } else {
      WithDateAppend(a[1..], b, t);
      assert (a + b)[0] == a[0];
      assert (a + b)[1..] == a[1..] + b;
    }
  }

  lemma {:induction false} InsertStable(x: FeedItem, s: seq<FeedItem>, newestFirst: bool, t: int)
    ensures WithDate(Insert(x, s, newestFirst), t)
         == (if x.publishedAt == t then [x] else []) + WithDate(s, t)
    decreases |s|
  {
    if s == [] || InOrder(x, s[0], newestFirst) {
      WithDateAppend([x], s, t);
    } else {
      InsertStable(x, s[1..], newestFirst, t);
      WithDateAppend([s[0]], Insert(x, s[1..], newestFirst), t);
    }
  }

  /** Stability: the items with any one publication time come out of the
      sort in the order they went in. */
  lemma {:induction false} SortStable(s: seq<FeedItem>, newestFirst: bool, t: int)
    ensures WithDate(SortByDate(s, newestFirst), t) == WithDate(s, t)
    decreases |s|
  {
    if s != [] {
      SortStable(s[1..], newestFirst, t);
      InsertStable(s[0], SortByDate(s[1..], newestFirst), newestFirst, t);
    }
  }

  lemma {:induction false} WithDateMember(s: seq<FeedItem>, t: int, x: FeedItem)
    ensures x in WithDate(s, t) <==> x in s && x.publishedAt == t
    decreases |s|
  {
    if s != [] {
      WithDateMember(s[1..], t, x);
      assert s == [s[0]] + s[1..];
    }
  }

  /** Two sequences in comparator order that agree on the items of every
      publication time are equal. */
  lemma {:induction false} SortedUnique(a: seq<FeedItem>, b: seq<FeedItem>, newestFirst: bool)
    requires Sorted(a, newestFirst) && Sorted(b, newestFirst)
    requires forall t :: WithDate(a, t) == WithDate(b, t)
    ensures a == b
    decreases |a|
  {
    if a == [] || b == [] {
      if a != [] {
        WithDateMember(a, a[0].publishedAt, a[0]);
      } else if b != [] {
        WithDateMember(b, b[0].publishedAt, b[0]);
      }
    } else {
      var ta, tb := a[0].publishedAt, b[0].publishedAt;
      WithDateMember(a, ta, a[0]);
      WithDateMember(b, ta, a[0]);
      WithDateMember(b, tb, b[0]);
      WithDateMember(a, tb, b[0]);
      var i :| 0 <= i < |b| && b[i] == a[0];
      var j :| 0 <= j < |a| && a[j] == b[0];
      assert InOrder(b[0], b[i], newestFirst) && InOrder(a[0], a[j], newestFirst);
      assert ta == tb;
      assert WithDate(a, ta) == [a[0]] + WithDate(a[1..], ta);
      assert WithDate(b, ta) == [b[0]] + WithDate(b[1..], ta);
      assert WithDate(a, ta) == WithDate(b, ta);
      assert WithDate(a, ta)[0] == a[0] && WithDate(b, ta)[0] == b[0];
      forall t ensures WithDate(a[1..], t) == WithDate(b[1..], t) {
        var head := if ta == t then [a[0]] else [];
        assert WithDate(a, t) == head + WithDate(a[1..], t);
        assert WithDate(b, t) == head + WithDate(b[1..], t);
        assert WithDate(a, t) == WithDate(b, t);
        assert WithDate(a[1..], t) == WithDate(a, t)[|head|..];
        assert WithDate(b[1..], t) == WithDate(b, t)[|head|..];
      }
      SortedUnique(a[1..], b[1..], newestFirst);
      assert a == [a[0]] + a[1..] && b == [b[0]] + b[1..];
    }
  }

  /** The sort is THE stable sort: any sequence in comparator order that
      keeps the input order among items of equal time is its result. */
  lemma SortCharacterized(s: seq<FeedItem>, r: seq<FeedItem>, newestFirst: bool)
    requires Sorted(r, newestFirst)
    requires forall t :: WithDate(r, t) == WithDate(s, t)
    ensures r == SortByDate(s, newestFirst)
  {
    SortSorted(s, newestFirst);
    forall t ensures WithDate(r, t) == WithDate(SortByDate(s, newestFirst), t) {
      SortStable(s, newestFirst, t);
    }
    SortedUnique(r, SortByDate(s, newestFirst), newestFirst);
  }
}
