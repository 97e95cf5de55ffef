/** The options page's feed list: adding, removing and merging imported URLs. */
module FeedList {
  import opened Wrappers

  /** The characters `String.prototype.trim` removes: ECMAScript WhiteSpace
      and LineTerminator. */
  predicate IsJsSpace(c: char)
  {
    || c == '\t' || c == '\U{000B}' || c == '\U{000C}' || c == ' ' || c == '\U{00A0}' || c == '\U{FEFF}'
    || c == '\U{1680}' || ('\U{2000}' <= c <= '\U{200A}') || c == '\U{202F}' || c == '\U{205F}' || c == '\U{3000}'
    || c == '\n' || c == '\r' || c == '\U{2028}' || c == '\U{2029}'
  }

  /** The number of whitespace characters `s` starts with. */
  function LeadingSpace(s: string): (n: nat)
    ensures n <= |s|
    ensures forall i :: 0 <= i < n ==> IsJsSpace(s[i])
    ensures n < |s| ==> !IsJsSpace(s[n])
    decreases |s|
  {
    if s != [] && IsJsSpace(s[0]) then 1 + LeadingSpace(s[1..]) else 0
  }

  /** The number of whitespace characters `s` ends with. */
  function TrailingSpace(s: string): (n: nat)
    ensures n <= |s|
    ensures forall i :: |s| - n <= i < |s| ==> IsJsSpace(s[i])
    ensures n < |s| ==> !IsJsSpace(s[|s| - n - 1])
    decreases |s|
  {
    if s != [] && IsJsSpace(s[|s| - 1]) then 1 + TrailingSpace(s[..|s| - 1]) else 0
  }

  /** `String.prototype.trim`. */
  function Trim(s: string): string
  {
    var a := LeadingSpace(s);
    s[a..|s| - TrailingSpace(s[a..])]
  }

  /** `trim` cuts `s` into whitespace, the result and whitespace, and the
      result neither starts nor ends with whitespace. */
  lemma TrimMeaning(s: string)
    ensures
      var r := Trim(s);
      var a := LeadingSpace(s);
      && a + |r| <= |s| && r == s[a..a + |r|]
      && (forall i :: 0 <= i < a ==> IsJsSpace(s[i]))
      && (forall i :: a + |r| <= i < |s| ==> IsJsSpace(s[i]))
      && (r != [] ==> !IsJsSpace(r[0]) && !IsJsSpace(r[|r| - 1]))
  {
    var a := LeadingSpace(s);
    var t := s[a..];
    var b := TrailingSpace(t);
    var r := Trim(s);
    assert r == t[..|t| - b];
    assert r == s[a..a + |r|];
    forall i | a + |r| <= i < |s| ensures IsJsSpace(s[i]) {
      assert s[i] == t[i - a];
    }
    if r != [] {
      assert r[0] == t[0];
      assert r[|r| - 1] == t[|t| - b - 1];
    }
  }

  /** `trim` leaves nothing exactly when `s` is all whitespace. */
  lemma TrimEmpty(s: string)
    ensures Trim(s) == [] <==> forall i :: 0 <= i < |s| ==> IsJsSpace(s[i])
  {
    TrimMeaning(s);
  }

  /** The list holds no URL twice. */
  predicate Distinct(urls: seq<string>)
  {
    forall i, j :: 0 <= i < j < |urls| ==> urls[i] != urls[j]
  }

  // ---------------------------------------------------------------------------
  // addFeed

  /** What `addFeed` does with the input box's text. */
  datatype AddOutcome =
    | Ignored               // empty after trimming: nothing happens
    | InvalidUrl            // `new URL` threw: an alert, nothing stored
    | AlreadyAdded          // the URL is in the list: an alert, nothing stored
    | Added(urls: seq<string>)  // the list stored in its place

  /** `addFeed`, given the input's text, whether `new URL` accepts the trimmed
      text, and the stored list (absent reads as the empty list). */
  function AddFeed(input: string, parses: bool, stored: Option<seq<string>>): AddOutcome
  {
    var url := Trim(input);
    if url == [] then Ignored
    else if !parses then InvalidUrl
    else
      var urls := stored.GetOr([]);
      if url in urls then AlreadyAdded else Added(urls + [url])
  }

  /** The outcome of `addFeed` in each case, and a stored list that had no
      duplicates before has none after. */
  lemma AddFeedMeaning(input: string, parses: bool, stored: Option<seq<string>>)
    ensures var o := AddFeed(input, parses, stored); var url := Trim(input);
      && (o == Ignored <==> url == [])
      && (o == InvalidUrl <==> url != [] && !parses)
      && (o == AlreadyAdded <==> url != [] && parses && url in stored.GetOr([]))
      && (o.Added? <==> url != [] && parses && url !in stored.GetOr([]))
    ensures var o := AddFeed(input, parses, stored);
      o.Added? ==>
        && o.urls[..|o.urls| - 1] == stored.GetOr([])
        && o.urls[|o.urls| - 1] == Trim(input)
        && (Distinct(stored.GetOr([])) ==> Distinct(o.urls))
  {
    var o := AddFeed(input, parses, stored);
    if o.Added? {
      assert o.urls[..|o.urls| - 1] == stored.GetOr([]);
    }
  }

  // ---------------------------------------------------------------------------
  // removeFeed

  /** `urls.filter((url) => url !== urlToRemove)`. */
  function Without(urls: seq<string>, urlToRemove: string): seq<string>
    decreases |urls|
  {
    if urls == [] then []
    else (if urls[0] == urlToRemove then [] else [urls[0]]) + Without(urls[1..], urlToRemove)
  }

  /** `removeFeed`: the list stored in place of `stored`; `None` when there is
      no stored list (the filter throws and nothing is written). */
  function RemoveFeed(stored: Option<seq<string>>, urlToRemove: string): Option<seq<string>>
  {
    if stored.None? then None else Some(Without(stored.value, urlToRemove))
  }

  /** `IsSubsequence(a, b)`: `a` is `b` with some elements left out, the rest in order. */
  predicate IsSubsequence(a: seq<string>, b: seq<string>)
    decreases |b|
  {
    if a == [] then true
    else if b == [] then false
    else if a[0] == b[0] then IsSubsequence(a[1..], b[1..])
    else IsSubsequence(a, b[1..])
  }

  /** Every occurrence of the URL goes and every other occurrence of every
      other URL stays, in its relative order. */
  lemma {:induction false} WithoutMeaning(urls: seq<string>, urlToRemove: string)
    ensures urlToRemove !in Without(urls, urlToRemove)
    ensures forall u :: u != urlToRemove ==> multiset(Without(urls, urlToRemove))[u] == multiset(urls)[u]
    ensures IsSubsequence(Without(urls, urlToRemove), urls)
    ensures urlToRemove !in urls ==> Without(urls, urlToRemove) == urls
    decreases |urls|
  {
    if urls != [] {
      WithoutMeaning(urls[1..], urlToRemove);
      assert urls == [urls[0]] + urls[1..];
      var rest := Without(urls[1..], urlToRemove);
      if urls[0] == urlToRemove {
        SubsequenceSkip(rest, urls[1..], urls[0]);
        assert [] + rest == rest;
      } else {
        assert ([urls[0]] + rest)[1..] == rest;
      }
    }
  }

  lemma {:induction false} SubsequenceSkip(a: seq<string>, b: seq<string>, x: string)
    requires IsSubsequence(a, b)
    ensures IsSubsequence(a, [x] + b)
    decreases |a| + |b|, 1
  {
    assert ([x] + b)[1..] == b;
    if a != [] && a[0] == x {
      SubsequenceDropHead(a, b);
    }
  }

  lemma {:induction false} SubsequenceDropHead(a: seq<string>, b: seq<string>)
    requires a != [] && IsSubsequence(a, b)
    ensures IsSubsequence(a[1..], b)
    decreases |a| + |b|, 0
  {
    if a[0] == b[0] {
      SubsequenceSkip(a[1..], b[1..], b[0]);
    } else {
      SubsequenceDropHead(a, b[1..]);
      SubsequenceSkip(a[1..], b[1..], b[0]);
    }
    assert [b[0]] + b[1..] == b;
  }

  /** The list stays duplicate-free when it was. */
  lemma {:induction false} WithoutDistinct(urls: seq<string>, urlToRemove: string)
    requires Distinct(urls)
    ensures Distinct(Without(urls, urlToRemove))
    decreases |urls|
  {
    if urls != [] {
      WithoutDistinct(urls[1..], urlToRemove);
      WithoutMeaning(urls[1..], urlToRemove);
      var rest := Without(urls[1..], urlToRemove);
      if urls[0] != urlToRemove {
        assert urls[0] !in urls[1..];
        assert multiset(rest)[urls[0]] == 0;
        assert urls[0] !in rest;
      } else {
        assert [] + rest == rest;
      }
    }
  }

  /** `removeFeed` writes nothing exactly when no list is stored. Otherwise
      the stored list loses every occurrence of the URL, keeps every other
      URL with its count and relative order, and stays duplicate-free. */
  lemma RemoveFeedMeaning(stored: Option<seq<string>>, urlToRemove: string)
    ensures RemoveFeed(stored, urlToRemove).None? <==> stored.None?
    ensures var r := RemoveFeed(stored, urlToRemove);
      r.Some? ==>
        && urlToRemove !in r.value
        && (forall u :: u != urlToRemove ==> multiset(r.value)[u] == multiset(stored.value)[u])
        && IsSubsequence(r.value, stored.value)
        && (urlToRemove !in stored.value ==> r.value == stored.value)
        && (Distinct(stored.value) ==> Distinct(r.value))
  {
    if stored.Some? {
      WithoutMeaning(stored.value, urlToRemove);
      if Distinct(stored.value) {
        WithoutDistinct(stored.value, urlToRemove);
      }
    }
  }

  // ---------------------------------------------------------------------------
  // importOpml

  /** `[...new Set(urls)]`: each URL once, at its first occurrence. */
  function Dedup(urls: seq<string>): seq<string>
    decreases |urls|
  {
    if urls == [] then []
    else
      var d := Dedup(urls[..|urls| - 1]);
      if urls[|urls| - 1] in d then d else d + [urls[|urls| - 1]]
  }

  /** The index of the first occurrence of `u` in `urls`. */
  function FirstIndex(urls: seq<string>, u: string): (k: nat)
    requires u in urls
    ensures k < |urls| && urls[k] == u && u !in urls[..k]
    decreases |urls|
  {
    if urls[0] == u then 0 else 1 + FirstIndex(urls[1..], u)
  }

  lemma FirstIndexPrefix(urls: seq<string>, n: nat, u: string)
    requires n <= |urls| && u in urls[..n]
    ensures FirstIndex(urls[..n], u) == FirstIndex(urls, u)
  {
    var k := FirstIndex(urls[..n], u);
    assert urls[..n][k] == urls[k];
    assert urls[..n][..k] == urls[..k];
  }

  /** The merged list holds every URL once, exactly the URLs of the input,
      ordered by where each first occurs in it. */
  lemma {:induction false} DedupMeaning(urls: seq<string>)
    ensures Distinct(Dedup(urls))
    ensures forall u :: u in Dedup(urls) <==> u in urls
    ensures forall i, j :: 0 <= i < j < |Dedup(urls)| ==>
      FirstIndex(urls, Dedup(urls)[i]) < FirstIndex(urls, Dedup(urls)[j])
    decreases |urls|
  {
    if urls != [] {
      var n := |urls| - 1;
      var init := urls[..n];
      var last := urls[n];
      DedupMeaning(init);
      var d := Dedup(init);
      assert urls == init + [last];
      forall u | u in init ensures FirstIndex(init, u) == FirstIndex(urls, u) {
        FirstIndexPrefix(urls, n, u);
      }
      if last !in d {
        assert last !in init;
        assert FirstIndex(urls, last) == n by {
          assert urls[..n] == init;
        }
        forall i, j | 0 <= i < j < |d| + 1
          ensures FirstIndex(urls, (d + [last])[i]) < FirstIndex(urls, (d + [last])[j])
        {
          assert (d + [last])[i] == d[i];
          if j < |d| {
            assert (d + [last])[j] == d[j];
          }
        }
      }
    }
  }

  /** A list with no duplicates is its own deduplication. */
  lemma {:induction false} DedupDistinct(urls: seq<string>)
    requires Distinct(urls)
    ensures Dedup(urls) == urls
    decreases |urls|
  {
    if urls != [] {
      var n := |urls| - 1;
      DedupDistinct(urls[..n]);
      assert urls[n] !in urls[..n];
      assert urls[..n] + [urls[n]] == urls;
    }
  }

  /** The deduplication of a prefix is a prefix of the deduplication. */
  lemma {:induction false} DedupPrefix(a: seq<string>, b: seq<string>)
    ensures |Dedup(a)| <= |Dedup(a + b)| && Dedup(a + b)[..|Dedup(a)|] == Dedup(a)
    decreases |b|
  {
    if b == [] {
      assert a + b == a;
    } else {
      var n := |b| - 1;
      DedupPrefix(a, b[..n]);
      assert (a + b)[..|a + b| - 1] == a + b[..n];
    }
  }

  /** The `xmlUrl` values of the `type="rss"` outlines, without the missing
      and empty ones: `.filter(Boolean)`. */
  function ImportedUrls(xmlUrls: seq<Option<string>>): seq<string>
    decreases |xmlUrls|
  {
    if xmlUrls == [] then []
    else
      (if xmlUrls[0].Some? && xmlUrls[0].value != [] then [xmlUrls[0].value] else [])
      + ImportedUrls(xmlUrls[1..])
  }

  lemma {:induction false} ImportedUrlsMembers(xmlUrls: seq<Option<string>>)
    ensures forall u :: u in ImportedUrls(xmlUrls) <==> u != [] && Some(u) in xmlUrls
    ensures |ImportedUrls(xmlUrls)| == 0 <==> forall o :: o in xmlUrls ==> o.None? || o.value == []
    decreases |xmlUrls|
  {
    if xmlUrls != [] {
      ImportedUrlsMembers(xmlUrls[1..]);
      assert forall o :: o in xmlUrls <==> o == xmlUrls[0] || o in xmlUrls[1..];
    }
  }

  /** The list `importOpml` stores, or `None` when no outline yields a URL
      and nothing is stored. */
  function ImportOpml(xmlUrls: seq<Option<string>>, stored: Option<seq<string>>): Option<seq<string>>
  {
    var newUrls := ImportedUrls(xmlUrls);
    if |newUrls| > 0 then Some(Dedup(stored.GetOr([]) + newUrls)) else None
  }

  /** After import the list is duplicate-free and holds exactly the existing
      URLs and the non-empty imported ones, existing ones first when the
      list had no duplicates, each at its first occurrence. */
  lemma ImportOpmlMeaning(xmlUrls: seq<Option<string>>, stored: Option<seq<string>>)
    ensures ImportOpml(xmlUrls, stored).None? <==> forall o :: o in xmlUrls ==> o.None? || o.value == []
    ensures var r := ImportOpml(xmlUrls, stored); var existing := stored.GetOr([]);
      r.Some? ==>
        && Distinct(r.value)
        && (forall u :: u in r.value <==> u in existing || (u != [] && Some(u) in xmlUrls))
        && (forall u :: u in r.value ==> u in existing + ImportedUrls(xmlUrls))
        && (forall i, j :: 0 <= i < j < |r.value| ==>
              FirstIndex(existing + ImportedUrls(xmlUrls), r.value[i])
                < FirstIndex(existing + ImportedUrls(xmlUrls), r.value[j]))
        && (Distinct(existing) ==> |existing| <= |r.value| && r.value[..|existing|] == existing)
  {
    ImportedUrlsMembers(xmlUrls);
    var existing := stored.GetOr([]);
    var all := existing + ImportedUrls(xmlUrls);
    DedupMeaning(all);
    DedupPrefix(existing, ImportedUrls(xmlUrls));
    if Distinct(existing) {
      DedupDistinct(existing);
    }
  }

  /** The `xmlUrl` values of outlines that each carry one of `urls`. */
  function AsXmlUrls(urls: seq<string>): seq<Option<string>>
  {
    seq(|urls|, i requires 0 <= i < |urls| => Some(urls[i]))
  }

  lemma {:induction false} ImportedAll(urls: seq<string>)
    requires forall i :: 0 <= i < |urls| ==> urls[i] != []
    ensures ImportedUrls(AsXmlUrls(urls)) == urls
    decreases |urls|
  {
    if urls != [] {
      ImportedAll(urls[1..]);
      assert AsXmlUrls(urls)[1..] == AsXmlUrls(urls[1..]);
      assert [urls[0]] + urls[1..] == urls;
    }
  }

  /** Importing outlines that carry a list of non-empty URLs into an empty
      list stores the list with repeats collapsed to their first occurrence. */
  lemma ImportOfUrls(urls: seq<string>)
    requires urls != []
    requires forall i :: 0 <= i < |urls| ==> urls[i] != []
    ensures ImportOpml(AsXmlUrls(urls), None) == Some(Dedup(urls))
  {
    ImportedAll(urls);
    assert [] + urls == urls;
  }
}
