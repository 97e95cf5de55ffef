/** The toolbar badge: the number of unread items over the whole cache. */
module Badge {
  import opened Wrappers
  import opened Items
  import opened CacheMerge

  /** `items.filter((item) => !item.read).length`. */
  function UnreadIn(items: seq<FeedItem>): nat
    decreases |items|
  {
    if items == [] then 0 else (if items[0].read then 0 else 1) + UnreadIn(items[1..])
  }

  /** The unread items of the feeds in `urls`, summed. */
  ghost function UnreadOver(cache: Cache, urls: set<string>): nat
    requires urls <= cache.Keys
    decreases urls
  {
    if urls == {} then 0
    else
      var u :| u in urls;
      UnreadIn(cache[u].items) + UnreadOver(cache, urls - {u})
  }

  /** The unread items of the whole cache. */
  ghost function TotalUnread(cache: Cache): nat
  {
    UnreadOver(cache, cache.Keys)
  }

  /** The sum does not depend on the order in which feeds are visited. */
  lemma {:induction false} UnreadOverRemove(cache: Cache, urls: set<string>, u: string)
    requires urls <= cache.Keys && u in urls
    ensures UnreadOver(cache, urls) == UnreadIn(cache[u].items) + UnreadOver(cache, urls - {u})
    decreases urls
  {
    var v :| v in urls && UnreadOver(cache, urls) == UnreadIn(cache[v].items) + UnreadOver(cache, urls - {v});
    if v != u {
      UnreadOverRemove(cache, urls - {v}, u);
      UnreadOverRemove(cache, urls - {u}, v);
      assert urls - {v} - {u} == urls - {u} - {v};
    }
  }

  /** The decimal digits of `n`, as `String(n)` writes them. */
  function Decimal(n: nat): (s: string)
    ensures |s| > 0
    ensures forall i :: 0 <= i < |s| ==> '0' <= s[i] <= '9'
    ensures n > 0 ==> s[0] != '0'
    decreases n
  {
    var d := ['0' + (n % 10) as char];
    if n < 10 then d else Decimal(n / 10) + d
  }

  /** The number a string of decimal digits denotes. */
  function DigitsValue(s: string): nat
    requires forall i :: 0 <= i < |s| ==> '0' <= s[i] <= '9'
    decreases |s|
  {
    if s == [] then 0 else 10 * DigitsValue(s[..|s| - 1]) + (s[|s| - 1] - '0') as int
  }

  /** `String(n)` can be read back as `n`. */
  lemma {:induction false} DecimalRoundTrip(n: nat)
    ensures DigitsValue(Decimal(n)) == n
    decreases n
  {
    var s := Decimal(n);
    if n >= 10 {
      DecimalRoundTrip(n / 10);
      assert s[..|s| - 1] == Decimal(n / 10);
    }
  }

  /** The badge text for an unread count: empty when there is nothing unread. */
  function BadgeText(count: nat): string
  {
    if count > 0 then Decimal(count) else ""
  }

  /** The badge is empty exactly when nothing is unread, and otherwise shows
      the count in decimal. */
  lemma BadgeTextMeaning(count: nat)
    ensures BadgeText(count) == "" <==> count == 0
    ensures count > 0 ==> DigitsValue(BadgeText(count)) == count
  {
    if count > 0 {
      DecimalRoundTrip(count);
    }
  }

  /** The counting part of `updateBadge`: the unread count over every feed
      entry (0 when storage holds no cache) and the badge text for it. */
  method UpdateBadge(cache: Option<Cache>) returns (unreadCount: nat, text: string)
    ensures unreadCount == if cache.Some? then TotalUnread(cache.value) else 0
    ensures text == BadgeText(unreadCount)
  {
    unreadCount := 0;
    if cache.Some? {
      var c := cache.value;
      var left := c.Keys;
      while left != {}
        invariant left <= c.Keys
        invariant unreadCount + UnreadOver(c, left) == TotalUnread(c)
        decreases left
      {
        var url :| url in left;
        UnreadOverRemove(c, left, url);
        unreadCount := unreadCount + UnreadIn(c[url].items);
        left := left - {url};
      }
    }
    text := if unreadCount > 0 then Decimal(unreadCount) else "";
  }

  lemma {:induction false} AllReadUnreadIn(items: seq<FeedItem>)
    requires forall x :: x in items ==> x.read
    ensures UnreadIn(items) == 0
    decreases |items|
  {
    if items != [] {
      AllReadUnreadIn(items[1..]);
    }
  }

  lemma {:induction false} AllReadUnreadOver(cache: Cache, urls: set<string>)
    requires urls <= cache.Keys
    requires forall u, x :: u in cache && x in cache[u].items ==> x.read
    ensures UnreadOver(cache, urls) == 0
    decreases urls
  {
    if urls != {} {
      var u :| u in urls && UnreadOver(cache, urls) == UnreadIn(cache[u].items) + UnreadOver(cache, urls - {u});
      AllReadUnreadIn(cache[u].items);
      AllReadUnreadOver(cache, urls - {u});
    }
  }

  /** With every item read, or an empty cache, the count is 0 and the badge is cleared. */
  lemma AllReadClearsBadge(cache: Cache)
    requires forall u, x :: u in cache && x in cache[u].items ==> x.read
    ensures TotalUnread(cache) == 0
    ensures BadgeText(TotalUnread(cache)) == ""
  {
    AllReadUnreadOver(cache, cache.Keys);
  }

  /** A single unread item anywhere makes the badge show a count. */
  lemma UnreadItemShowsBadge(cache: Cache, u: string, x: FeedItem)
    requires u in cache && x in cache[u].items && !x.read
    ensures TotalUnread(cache) > 0
    ensures BadgeText(TotalUnread(cache)) != ""
  {
    UnreadOverRemove(cache, cache.Keys, u);
    UnreadPositive(cache[u].items, x);
  }

  lemma {:induction false} UnreadPositive(items: seq<FeedItem>, x: FeedItem)
    requires x in items && !x.read
    ensures UnreadIn(items) > 0
    decreases |items|
  {
    if items[0] != x {
      UnreadPositive(items[1..], x);
    }
  }
}
