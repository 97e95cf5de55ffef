/** Turning the `item` elements of RSS 2.0 and the `entry` elements of Atom
    (RFC 4287) into feed items, with the clickbait score of their titles. */
module FeedParser {
  import opened Wrappers
  import opened Text
  import opened Items

  /** One `item` or `entry` element as the host's XML parser exposes it. */
  datatype Entry = Entry(
    title: Option<string>,     // text of the first `title` child
    linkHref: Option<string>,  // `href` attribute of the first `link` child (Atom, section 4.2.7 of RFC 4287)
    linkText: Option<string>,  // text of the first `link` child (RSS 2.0)
    guid: Option<string>,      // text of the first `guid` child
    pubDate: Option<string>,   // text of the first `pubDate` or `published` child (section 4.2.9 of RFC 4287)
    pubTime: int)              // the host's reading of `pubDate` as a millisecond timestamp

  /** A string that JavaScript treats as true: present and non-empty. */
  predicate HasText(o: Option<string>)
  {
    o.Some? && o.value != ""
  }

  /** The seven clickbait title patterns. Each regular expression is a literal
      string ("shock", "appalling", "how could this be", "in the end",
      "exclusive", "...turns out", "?!"), so a match is a substring occurrence. */
  const ClickbaitPatterns: seq<string> := ["충격", "경악", "이럴수가", "결국", "단독", "...보니", "?!"]

  /** What each matching pattern takes off a score that starts at 0. */
  const Penalty: int := 10

  /** How many of `patterns` occur in `title`. */
  function MatchCount(patterns: seq<string>, title: string): nat
    decreases |patterns|
  {
    if patterns == [] then 0
    else (if Contains(title, patterns[0]) then 1 else 0) + MatchCount(patterns[1..], title)
  }

  function Score(title: string): int
  {
    -Penalty * MatchCount(ClickbaitPatterns, title)
  }

  lemma {:induction false} MatchCountBounds(patterns: seq<string>, title: string)
    ensures MatchCount(patterns, title) <= |patterns|
    ensures MatchCount(patterns, title) == 0 <==> forall p :: p in patterns ==> !Contains(title, p)
    ensures MatchCount(patterns, title) == |patterns| <==> forall p :: p in patterns ==> Contains(title, p)
    decreases |patterns|
  {
    if patterns != [] {
      var rest := patterns[1..];
      MatchCountBounds(rest, title);
      assert MatchCount(patterns, title) == (if Contains(title, patterns[0]) then 1 else 0) + MatchCount(rest, title);
      assert forall p :: p in patterns <==> p == patterns[0] || p in rest;
    }
  }

  /** The patterns that occur in `title`. */
  function Found(patterns: seq<string>, title: string): set<string>
  {
    set p | p in patterns && Contains(title, p)
  }

  /** For distinct patterns, the count is the number of distinct patterns
      found in the title. */
  lemma {:induction false} MatchCountIsDistinctMatches(patterns: seq<string>, title: string)
    requires forall i, j :: 0 <= i < j < |patterns| ==> patterns[i] != patterns[j]
    ensures MatchCount(patterns, title) == |Found(patterns, title)|
    decreases |patterns|
  {
    var found := Found(patterns, title);
    if patterns == [] {
      assert found == {};
    } else {
      var rest := patterns[1..];
      var foundRest := Found(rest, title);
      MatchCountIsDistinctMatches(rest, title);
      assert patterns[0] !in rest by {
        forall j | 0 <= j < |rest| ensures rest[j] != patterns[0] {
          assert rest[j] == patterns[j + 1];
        }
      }
      assert forall p :: p in patterns <==> p == patterns[0] || p in rest;
      assert MatchCount(patterns, title) == (if Contains(title, patterns[0]) then 1 else 0) + MatchCount(rest, title);
      assert |foundRest| == MatchCount(rest, title);
      if Contains(title, patterns[0]) {
        assert found == foundRest + {patterns[0]};
        assert patterns[0] !in foundRest;
        assert |found| == |foundRest| + 1;
      } else {
        assert found == foundRest;
      }
      assert |found| == MatchCount(patterns, title);
    }
  }

  /** The score is -10 per distinct pattern found in the title, between -70
      and 0, and 0 exactly when no pattern occurs. */
  lemma ScoreMeaning(title: string)
    ensures Score(title) == -Penalty * |Found(ClickbaitPatterns, title)|
    ensures -70 <= Score(title) <= 0
    ensures Score(title) == 0 <==> forall p :: p in ClickbaitPatterns ==> !Contains(title, p)
  {
    MatchCountBounds(ClickbaitPatterns, title);
    MatchCountIsDistinctMatches(ClickbaitPatterns, title);
  }

  /** The scoring loop: every matching pattern subtracts the penalty. */
  method ScoreTitle(title: string) returns (score: int)
    ensures score == Score(title)
  {
    score := 0;
    var i := 0;
    while i < |ClickbaitPatterns|
      invariant 0 <= i <= |ClickbaitPatterns|
      invariant score - Penalty * MatchCount(ClickbaitPatterns[i..], title) == Score(title)
    {
      assert ClickbaitPatterns[i..][1..] == ClickbaitPatterns[i + 1..];
      if Contains(title, ClickbaitPatterns[i]) {
        score := score - Penalty;
      }
      i := i + 1;
    }
  }

  /** The item built from one entry. */
  function ItemOf(e: Entry, feedUrl: string, now: int): FeedItem
  {
    var title := OrElse(e.title, "");
    var link := OrElse(e.linkHref, OrElse(e.linkText, ""));
    FeedItem(
      id := OrElse(e.guid, link),
      title := title,
      link := link,
      publishedAt := if HasText(e.pubDate) then e.pubTime else now,
      feedUrl := feedUrl,
      read := false,
      score := Score(title))
  }

  /** `parseRSS`: one unread item per entry, in document order. `now` stands
      for the clock reading used when an entry has no date. */
  method ParseRss(entries: seq<Entry>, feedUrl: string, now: int) returns (items: seq<FeedItem>)
    ensures |items| == |entries|
    ensures forall k :: 0 <= k < |entries| ==> items[k] == ItemOf(entries[k], feedUrl, now)
    ensures forall k :: 0 <= k < |items| ==>
      && !items[k].read
      && items[k].feedUrl == feedUrl
      && -70 <= items[k].score <= 0
      && items[k].title == (if HasText(entries[k].title) then entries[k].title.value else "")
      && items[k].link == (if HasText(entries[k].linkHref) then entries[k].linkHref.value
                           else if HasText(entries[k].linkText) then entries[k].linkText.value
                           else "")
      && items[k].id == (if HasText(entries[k].guid) then entries[k].guid.value else items[k].link)
      && items[k].publishedAt == (if HasText(entries[k].pubDate) then entries[k].pubTime else now)
  {
    items := [];
    var i := 0;
    while i < |entries|
      invariant 0 <= i <= |entries|
      invariant |items| == i
      invariant forall k :: 0 <= k < i ==> items[k] == ItemOf(entries[k], feedUrl, now)
    {
      var e := entries[i];
      var title := OrElse(e.title, "");
      var link := OrElse(e.linkHref, OrElse(e.linkText, ""));
      var guid := OrElse(e.guid, link);
      var score := ScoreTitle(title);
      items := items + [FeedItem(guid, title, link, if HasText(e.pubDate) then e.pubTime else now, feedUrl, false, score)];
      i := i + 1;
    }
    forall k | 0 <= k < |items| ensures -70 <= items[k].score <= 0 {
      ScoreMeaning(entries[k].title.GetOr(""));
    }
  }

  /** The items `parseRSS` returns, as a function of the entries. */
  function ParseItems(entries: seq<Entry>, feedUrl: string, now: int): seq<FeedItem>
  {
    seq(|entries|, k requires 0 <= k < |entries| => ItemOf(entries[k], feedUrl, now))
  }

  /** Every pattern other than `hits` is missing from `t`, by a character it lacks. */
  lemma OnlyThesePatterns(t: string, hits: set<string>)
    requires forall p :: p in ClickbaitPatterns && p !in hits ==>
      (if p == "...보니" then '.' else if p == "?!" then '?' else p[0]) !in t
    ensures forall p :: p in ClickbaitPatterns && p !in hits ==> !Contains(t, p)
  {
    forall p | p in ClickbaitPatterns && p !in hits ensures !Contains(t, p) {
      MissingCharExcludes(t, p, if p == "...보니" then '.' else if p == "?!" then '?' else p[0]);
    }
  }

  lemma ScoreOfFound(t: string, n: nat)
    requires |Found(ClickbaitPatterns, t)| == n
    ensures Score(t) == -Penalty * n
  {
    ScoreMeaning(t);
  }

  /** Two distinct patterns in one title cost 20 points. */
  lemma ScoreTwoPatterns()
    ensures Score("충격 단독 보도") == -20
  {
    var t := "충격 단독 보도";
    assert OccursAt(t, "충격", 0);
    assert OccursAt(t, "단독", 3);
    OnlyThesePatterns(t, {"충격", "단독"});
    assert Found(ClickbaitPatterns, t) == {"충격", "단독"};
    ScoreOfFound(t, 2);
  }

  /** A title without any pattern costs nothing. */
  lemma ScoreNoPattern()
    ensures Score("Weekly update") == 0
  {
    var t := "Weekly update";
    OnlyThesePatterns(t, {});
    assert Found(ClickbaitPatterns, t) == {};
    ScoreOfFound(t, 0);
  }
  // ---------------------------------------------------------------------------
  // The scoring loop as written. The seven patterns are regular expressions
  // with the `g` flag, created once per `parseRSS` call and shared by all its
  // entries; `test` on such an expression starts its search at the
  // expression's `lastIndex` and leaves `lastIndex` after the match (or resets
  // it to 0 when there is none). A match in one title therefore moves the
  // start of the search in the next title.

  /** The first position at or after `from` where `p` occurs in `s`. */
  function FindFrom(s: string, p: string, from: nat): (r: Option<nat>)
    ensures r.Some? ==> from <= r.value && OccursAt(s, p, r.value)
    ensures r.Some? ==> forall i: nat :: from <= i < r.value ==> !OccursAt(s, p, i)
    ensures r.None? ==> forall i: nat :: from <= i ==> !OccursAt(s, p, i)
    decreases |s| - from
  {
    if from + |p| > |s| then None
    else if OccursAt(s, p, from) then Some(from)
    else FindFrom(s, p, from + 1)
  }

  /** `RegExp.prototype.test` with the `g` flag on a literal pattern: the
      outcome and the new `lastIndex`. */
  function GlobalTest(s: string, p: string, lastIndex: nat): (bool, nat)
  {
    if lastIndex > |s| then (false, 0)
    else match FindFrom(s, p, lastIndex)
      case Some(i) => (true, i + |p|)
      case None => (false, 0)
  }

  /** The score of one title as the loop computes it, and the patterns'
      `lastIndex` values afterwards. */
  function ScoreAsWritten(title: string, patterns: seq<string>, lastIndices: seq<nat>): (r: (int, seq<nat>))
    requires |lastIndices| == |patterns|
    ensures |r.1| == |patterns|
    decreases |patterns|
  {
    if patterns == [] then (0, [])
    else
      var (hit, next) := GlobalTest(title, patterns[0], lastIndices[0]);
      var rest := ScoreAsWritten(title, patterns[1..], lastIndices[1..]);
      ((if hit then -Penalty else 0) + rest.0, [next] + rest.1)
  }

  /** The scores of the titles of one feed, in document order. */
  function ScoresAsWritten(titles: seq<string>, lastIndices: seq<nat>): seq<int>
    requires |lastIndices| == |ClickbaitPatterns|
    decreases |titles|
  {
    if titles == [] then []
    else
      var r := ScoreAsWritten(titles[0], ClickbaitPatterns, lastIndices);
      [r.0] + ScoresAsWritten(titles[1..], r.1)
  }

  /** `n` regular expressions that have not been used yet. */
  function Zeros(n: nat): (z: seq<nat>)
    ensures |z| == n
  {
    if n == 0 then [] else [0] + Zeros(n - 1)
  }

  const FreshIndices: seq<nat> := Zeros(|ClickbaitPatterns|)

  lemma GlobalTestFromStart(s: string, p: string)
    ensures GlobalTest(s, p, 0).0 == Contains(s, p)
  {
  }

  lemma {:induction false} ScoreAsWrittenFromStart(title: string, patterns: seq<string>)
    ensures ScoreAsWritten(title, patterns, Zeros(|patterns|)).0 == -Penalty * MatchCount(patterns, title)
    decreases |patterns|
  {
    if patterns != [] {
      assert Zeros(|patterns|)[1..] == Zeros(|patterns| - 1);
      ScoreAsWrittenFromStart(title, patterns[1..]);
      GlobalTestFromStart(title, patterns[0]);
    }
  }

  /** As long as no earlier title of the feed has matched, the loop computes
      the intended score: the first title is always scored right. */
  lemma FirstTitleScoredAsIntended(title: string)
    ensures ScoreAsWritten(title, ClickbaitPatterns, FreshIndices).0 == Score(title)
  {
    ScoreAsWrittenFromStart(title, ClickbaitPatterns);
  }

  /** A title that contains none of `patterns` leaves fresh indices fresh and scores 0. */
  lemma {:induction false} AllMissFromStart(title: string, patterns: seq<string>)
    requires forall p :: p in patterns ==> !Contains(title, p)
    ensures ScoreAsWritten(title, patterns, Zeros(|patterns|)) == (0, Zeros(|patterns|))
    decreases |patterns|
  {
    if patterns != [] {
      assert Zeros(|patterns|)[1..] == Zeros(|patterns| - 1);
      AllMissFromStart(title, patterns[1..]);
      GlobalTestFromStart(title, patterns[0]);
    }
  }

  /** A title that is exactly the first pattern and contains no other: the
      second of two such titles in one feed is searched from past the last
      possible match and scores 0. */
  lemma RepeatedFirstPattern(t: string)
    requires t == ClickbaitPatterns[0]
    requires forall p :: p in ClickbaitPatterns[1..] ==> !Contains(t, p)
    ensures ScoresAsWritten([t, t], FreshIndices) == [-10, 0]
    ensures Score(t) == -10
  {
    var others := ClickbaitPatterns[1..];
    var six := Zeros(6);
    assert OccursAt(t, t, 0);
    AllMissFromStart(t, others);
    assert Zeros(7)[1..] == six;
    var first := ScoreAsWritten(t, ClickbaitPatterns, FreshIndices);
    assert first == (-10, [2] + six);
    assert GlobalTest(t, t, 2) == (false, 0);
    var second := ScoreAsWritten(t, ClickbaitPatterns, [2] + six);
    assert ([2] + six)[1..] == six;
    assert second.0 == 0;
    assert ScoresAsWritten([t], first.1) == [second.0];
    assert Found(ClickbaitPatterns, t) == {t};
    ScoreOfFound(t, 1);
  }

  /** Two entries titled "충격" ("shock"): the second item scores 0 where -10
      is intended. */
  lemma LastIndexMissesRepeatedPattern()
    ensures ScoresAsWritten(["충격", "충격"], FreshIndices) == [-10, 0]
    ensures [Score("충격"), Score("충격")] == [-10, -10]
  {
    OnlyThesePatterns("충격", {"충격"});
    RepeatedFirstPattern("충격");
  }
}
