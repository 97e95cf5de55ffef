/** OPML export: escaping attribute values and building the document. */
module Opml {
  import opened Wrappers
  import opened Text
  import opened FeedList

  /** The replacement `escapeXml` writes for one character: the five
      predefined entities of section 4.6 of XML 1.0. */
  function EscapeChar(c: char): string
  {
    match c
    case '<' => "&lt;"
    case '>' => "&gt;"
    case '&' => "&amp;"
    case '\'' => "&apos;"
    case '"' => "&quot;"
    case _ => [c]
  }

  /** `escapeXml`. */
  function EscapeXml(s: string): string
    decreases |s|
  {
    if s == [] then [] else EscapeChar(s[0]) + EscapeXml(s[1..])
  }

  /** The five characters `escapeXml` replaces. */
  predicate Special(c: char)
  {
    c == '<' || c == '>' || c == '&' || c == '\'' || c == '"'
  }

  /** The character an entity at the start of `s` stands for, and its length. */
  function EntityAt(s: string): Option<(char, nat)>
  {
    if OccursAt(s, "&lt;", 0) then Some(('<', 4))
    else if OccursAt(s, "&gt;", 0) then Some(('>', 4))
    else if OccursAt(s, "&amp;", 0) then Some(('&', 5))
    else if OccursAt(s, "&apos;", 0) then Some(('\'', 6))
    else if OccursAt(s, "&quot;", 0) then Some(('"', 6))
    else None
  }

  lemma EntityAtLength(s: string)
    ensures EntityAt(s).Some? ==> 0 < EntityAt(s).value.1 <= |s|
  {
  }

  /** Reading the five predefined entities back, as an XML parser does for an
      attribute value; any other character stands for itself. */
  function Unescape(s: string): string
    decreases |s|
  {
    if s == [] then []
    else
      EntityAtLength(s);
      match EntityAt(s)
      case Some((c, n)) => [c] + Unescape(s[n..])
      case None => [s[0]] + Unescape(s[1..])
  }

  lemma EntityAtEscapeChar(c: char, t: string)
    ensures EntityAt(EscapeChar(c) + t) == if Special(c) then Some((c, |EscapeChar(c)|)) else None
  {
    var s := EscapeChar(c) + t;
    if !Special(c) {
      assert s[0] == c;
    } else if c == '<' {
      assert s[..4] == "&lt;";
    } else if c == '>' {
      assert s[..4] == "&gt;" && s[1] != "&lt;"[1];
    } else if c == '&' {
      assert s[..5] == "&amp;" && s[1] != "&lt;"[1] && s[1] != "&gt;"[1];
    } else if c == '\'' {
      assert s[..6] == "&apos;" && s[1] != "&lt;"[1] && s[1] != "&gt;"[1] && s[2] != "&amp;"[2];
    } else {
      assert s[..6] == "&quot;" && s[1] != "&lt;"[1] && s[1] != "&gt;"[1] && s[1] != "&amp;"[1]
        && s[1] != "&apos;"[1];
    }
  }

  lemma UnescapeEscapeChar(c: char, t: string)
    ensures Unescape(EscapeChar(c) + t) == [c] + Unescape(t)
  {
    var e := EscapeChar(c);
    var s := e + t;
    EntityAtEscapeChar(c, t);
    assert s[|e|..] == t;
    if !Special(c) {
      assert s[0] == c;
    }
  }

  /** Decoding the escaped text gives the text back. */
  lemma {:induction false} UnescapeEscape(s: string)
    ensures Unescape(EscapeXml(s)) == s
    decreases |s|
  {
    if s != [] {
      UnescapeEscape(s[1..]);
      UnescapeEscapeChar(s[0], EscapeXml(s[1..]));
      assert s == [s[0]] + s[1..];
    }
  }

  /** Position `i` of `r` starts one of the five entities. */
  predicate StartsEntity(r: string, i: nat)
  {
    || OccursAt(r, "&lt;", i) || OccursAt(r, "&gt;", i) || OccursAt(r, "&amp;", i)
    || OccursAt(r, "&apos;", i) || OccursAt(r, "&quot;", i)
  }

  lemma StartsEntityShift(a: string, b: string, i: nat)
    requires StartsEntity(b, i)
    ensures StartsEntity(a + b, |a| + i)
  {
    forall p: string | OccursAt(b, p, i) ensures OccursAt(a + b, p, |a| + i) {
      assert (a + b)[|a| + i..|a| + i + |p|] == b[i..i + |p|];
    }
  }

  lemma EscapeCharSafe(c: char)
    ensures forall k :: 0 <= k < |EscapeChar(c)| ==>
      EscapeChar(c)[k] != '<' && EscapeChar(c)[k] != '>' && EscapeChar(c)[k] != '\'' && EscapeChar(c)[k] != '"'
    ensures forall k :: 0 <= k < |EscapeChar(c)| && EscapeChar(c)[k] == '&' ==> k == 0 && Special(c)
  {
  }

  lemma EscapeCharEntity(c: char, t: string)
    requires Special(c)
    ensures StartsEntity(EscapeChar(c) + t, 0)
  {
    var s := EscapeChar(c) + t;
    assert s[..|EscapeChar(c)|] == EscapeChar(c);
  }

  lemma {:induction false} EscapeXmlNoMarkup(s: string)
    ensures forall i :: 0 <= i < |EscapeXml(s)| ==>
      EscapeXml(s)[i] != '<' && EscapeXml(s)[i] != '>' && EscapeXml(s)[i] != '\'' && EscapeXml(s)[i] != '"'
    decreases |s|
  {
    if s != [] {
      EscapeXmlNoMarkup(s[1..]);
      EscapeCharSafe(s[0]);
      var e := EscapeChar(s[0]);
      var t := EscapeXml(s[1..]);
      forall i | 0 <= i < |e + t| ensures (e + t)[i] == if i < |e| then e[i] else t[i - |e|] {
      }
    }
  }

  lemma {:induction false} EscapeXmlAmpersands(s: string)
    ensures forall i :: 0 <= i < |EscapeXml(s)| && EscapeXml(s)[i] == '&' ==> StartsEntity(EscapeXml(s), i)
    decreases |s|
  {
    if s != [] {
      EscapeXmlAmpersands(s[1..]);
      EscapeCharSafe(s[0]);
      var e := EscapeChar(s[0]);
      var t := EscapeXml(s[1..]);
      var r := e + t;
      assert EscapeXml(s) == r;
      forall i | 0 <= i < |r| && r[i] == '&' ensures StartsEntity(r, i) {
        if i < |e| {
          assert r[i] == e[i];
          EscapeCharEntity(s[0], t);
        } else {
          assert r[i] == t[i - |e|];
          StartsEntityShift(e, t, i - |e|);
        }
      }
    }
  }

  /** The escaped text holds none of `<`, `>`, `'` and `"`, and each of its `&`
      starts an entity. */
  lemma EscapeXmlSafe(s: string)
    ensures forall i :: 0 <= i < |EscapeXml(s)| ==>
      EscapeXml(s)[i] != '<' && EscapeXml(s)[i] != '>' && EscapeXml(s)[i] != '\'' && EscapeXml(s)[i] != '"'
    ensures forall i :: 0 <= i < |EscapeXml(s)| && EscapeXml(s)[i] == '&' ==> StartsEntity(EscapeXml(s), i)
  {
    EscapeXmlNoMarkup(s);
    EscapeXmlAmpersands(s);
  }

  /** Text without any of the five characters is copied unchanged. */
  lemma {:induction false} EscapeXmlPlain(s: string)
    requires forall i :: 0 <= i < |s| ==> !Special(s[i])
    ensures EscapeXml(s) == s
    decreases |s|
  {
    if s != [] {
      EscapeXmlPlain(s[1..]);
      assert EscapeChar(s[0]) == [s[0]];
      assert s == [s[0]] + s[1..];
    }
  }

  /** The escaping of a concatenation is the concatenation of the escapings:
      each character is replaced on its own. */
  lemma {:induction false} EscapeXmlAppend(s: string, u: string)
    ensures EscapeXml(s + u) == EscapeXml(s) + EscapeXml(u)
    decreases |s|
  {
    if s != [] {
      EscapeXmlAppend(s[1..], u);
      assert (s + u)[1..] == s[1..] + u;
    } else {
      assert s + u == u;
    }
  }

  // ---------------------------------------------------------------------------
  // exportOpml

  const Header := "<?xml version=\"1.0\" encoding=\"UTF-8\"?>\n<opml version=\"2.0\">\n  <body>\n"
  const LineStart := "    <outline type=\"rss\" xmlUrl=\""
  const LineEnd := "\" />\n"
  const Footer := "  </body>\n</opml>"

  /** The `outline` line for one URL. */
  function OutlineLine(url: string): string
  {
    LineStart + EscapeXml(url) + LineEnd
  }

  /** The strings of `lines` joined end to end. */
  function Concat(lines: seq<string>): string
    decreases |lines|
  {
    if lines == [] then [] else lines[0] + Concat(lines[1..])
  }

  lemma {:induction false} ConcatAppend(lines: seq<string>, line: string)
    ensures Concat(lines + [line]) == Concat(lines) + line
    decreases |lines|
  {
    if lines == [] {
      assert [] + [line] == [line];
      assert Concat([line]) == line + Concat([]);
    } else {
      ConcatAppend(lines[1..], line);
      assert (lines + [line])[1..] == lines[1..] + [line];
    }
  }

  /** One `outline` line per URL, in list order. */
  function OutlineLines(urls: seq<string>): seq<string>
  {
    seq(|urls|, i requires 0 <= i < |urls| => OutlineLine(urls[i]))
  }

  /** The `outline` lines for `urls`, in list order, as one string. */
  function Outlines(urls: seq<string>): string
  {
    Concat(OutlineLines(urls))
  }

  /** The document `exportOpml` offers for download. */
  function OpmlDocument(urls: seq<string>): string
  {
    Header + Outlines(urls) + Footer
  }

  lemma OutlinesAppend(urls: seq<string>, url: string)
    ensures Outlines(urls + [url]) == Outlines(urls) + OutlineLine(url)
  {
    assert OutlineLines(urls + [url]) == OutlineLines(urls) + [OutlineLine(url)];
    ConcatAppend(OutlineLines(urls), OutlineLine(url));
  }

  lemma OutlinesCons(urls: seq<string>)
    requires urls != []
    ensures Outlines(urls) == OutlineLine(urls[0]) + Outlines(urls[1..])
  {
    assert OutlineLines(urls)[1..] == OutlineLines(urls[1..]);
  }

  /** Appending the next line to `prefix` plus the lines so far. */
  lemma OutlinesStep(prefix: string, us: seq<string>, i: nat)
    requires i < |us|
    ensures prefix + Outlines(us[..i + 1]) == (prefix + Outlines(us[..i])) + OutlineLine(us[i])
  {
    assert us[..i + 1] == us[..i] + [us[i]];
    OutlinesAppend(us[..i], us[i]);
  }

  /** After the last line, the lines so far are all of them. */
  lemma OutlinesDone(prefix: string, us: seq<string>, suffix: string)
    ensures (prefix + Outlines(us[..|us|])) + suffix == prefix + Outlines(us) + suffix
  {
    assert us[..|us|] == us;
  }

  /** `exportOpml`: the document, or `None` when there is no URL to export. */
  method ExportOpml(urls: Option<seq<string>>) returns (doc: Option<string>)
    ensures urls.None? || urls.value == [] ==> doc == None
    ensures urls.Some? && urls.value != [] ==> doc == Some(OpmlDocument(urls.value))
  {
    if urls.None? || |urls.value| == 0 {
      return None;
    }
    var us := urls.value;
    var opml := Header;
    var i := 0;
    while i < |us|
      invariant 0 <= i <= |us|
      invariant opml == Header + Outlines(us[..i])
    {
      var line := OutlineLine(us[i]);
      OutlinesStep(Header, us, i);
      opml := opml + line;
      i := i + 1;
    }
    OutlinesDone(Header, us, Footer);
    doc := Some(opml + Footer);
  }

  // ---------------------------------------------------------------------------
  // Reading an exported document back

  /** The index of the first `"` in `s`. */
  function QuoteIndex(s: string): (r: Option<nat>)
    ensures r.Some? ==> r.value < |s| && s[r.value] == '"' && forall j :: 0 <= j < r.value ==> s[j] != '"'
    ensures r.None? ==> forall j :: 0 <= j < |s| ==> s[j] != '"'
    decreases |s|
  {
    if s == [] then None
    else if s[0] == '"' then Some(0)
    else match QuoteIndex(s[1..])
      case Some(k) => Some(k + 1)
      case None => None
  }

  /** The decoded `xmlUrl` values of a run of `outline` lines ending in the footer. */
  function ReadOutlines(s: string): Option<seq<string>>
    decreases |s|
  {
    if s == Footer then Some([])
    else if !OccursAt(s, LineStart, 0) then None
    else
      var rest := s[|LineStart|..];
      match QuoteIndex(rest)
      case None => None
      case Some(j) =>
        if !OccursAt(rest, LineEnd, j) then None
        else match ReadOutlines(rest[j + |LineEnd|..])
          case None => None
          case Some(tail) => Some([Unescape(rest[..j])] + tail)
  }

  /** The URLs listed by a document of the exported form, in document order. */
  function ReadExport(doc: string): Option<seq<string>>
  {
    if OccursAt(doc, Header, 0) then ReadOutlines(doc[|Header|..]) else None
  }

  lemma {:induction false} QuoteIndexAfter(e: string, t: string)
    requires forall k :: 0 <= k < |e| ==> e[k] != '"'
    ensures QuoteIndex(e + "\"" + t) == Some(|e|)
    decreases |e|
  {
    if e == [] {
      assert (e + "\"" + t)[0] == '"';
    } else {
      QuoteIndexAfter(e[1..], t);
      assert (e + "\"" + t)[1..] == e[1..] + "\"" + t;
    }
  }

  /** What follows `xmlUrl="` in the line for `url`. */
  lemma LineRest(url: string, t: string)
    ensures var rest := EscapeXml(url) + LineEnd + t;
      && QuoteIndex(rest) == Some(|EscapeXml(url)|)
      && OccursAt(rest, LineEnd, |EscapeXml(url)|)
      && rest[|EscapeXml(url)| + |LineEnd|..] == t
      && rest[..|EscapeXml(url)|] == EscapeXml(url)
  {
    var e := EscapeXml(url);
    var rest := e + LineEnd + t;
    EscapeXmlSafe(url);
    assert e + LineEnd + t == e + "\"" + (" />\n" + t);
    QuoteIndexAfter(e, " />\n" + t);
    assert rest[|e|..|e| + |LineEnd|] == LineEnd;
  }

  lemma ReadOutlinesStep(s: string, j: nat)
    requires s != Footer && OccursAt(s, LineStart, 0)
    requires QuoteIndex(s[|LineStart|..]) == Some(j)
    requires OccursAt(s[|LineStart|..], LineEnd, j)
    requires ReadOutlines(s[|LineStart|..][j + |LineEnd|..]).Some?
    ensures ReadOutlines(s) == Some([Unescape(s[|LineStart|..][..j])] + ReadOutlines(s[|LineStart|..][j + |LineEnd|..]).value)
  {
  }

  lemma AfterLineStart(rest: string)
    ensures LineStart + rest != Footer
    ensures OccursAt(LineStart + rest, LineStart, 0)
    ensures (LineStart + rest)[|LineStart|..] == rest
  {
    var s := LineStart + rest;
    assert s[2] == ' ' && Footer[2] == '<';
    assert s[..|LineStart|] == LineStart;
  }

  lemma AppendAssoc(a: string, b: string, c: string)
    ensures (a + b) + c == a + (b + c)
  {
  }

  lemma ReadOutlineLine(url: string, t: string)
    requires ReadOutlines(t).Some?
    ensures ReadOutlines(OutlineLine(url) + t) == Some([url] + ReadOutlines(t).value)
  {
    var e := EscapeXml(url);
    var rest := e + LineEnd + t;
    AppendAssoc(LineStart + e, LineEnd, t);
    AppendAssoc(LineStart, e, LineEnd + t);
    AppendAssoc(e, LineEnd, t);
    AfterLineStart(rest);
    LineRest(url, t);
    UnescapeEscape(url);
    ReadOutlinesStep(LineStart + rest, |e|);
  }

  lemma {:induction false} ReadOutlinesOf(urls: seq<string>)
    ensures ReadOutlines(Outlines(urls) + Footer) == Some(urls)
    decreases |urls|
  {
    if urls == [] {
      assert Outlines(urls) + Footer == Footer;
    } else {
      ReadOutlinesOf(urls[1..]);
      OutlinesCons(urls);
      AppendAssoc(OutlineLine(urls[0]), Outlines(urls[1..]), Footer);
      ReadOutlineLine(urls[0], Outlines(urls[1..]) + Footer);
      assert [urls[0]] + urls[1..] == urls;
    }
  }

  /** The exported document holds exactly one `outline` per URL, in list
      order, each reading back as that URL. */
  lemma ExportReadsBack(urls: seq<string>)
    ensures ReadExport(OpmlDocument(urls)) == Some(urls)
  {
    var doc := OpmlDocument(urls);
    assert doc == Header + (Outlines(urls) + Footer);
    assert doc[..|Header|] == Header;
    assert doc[|Header|..] == Outlines(urls) + Footer;
    ReadOutlinesOf(urls);
  }

  /** Importing the export of a duplicate-free list of non-empty URLs, the
      only lists the options page stores, into an empty list gives it back. */
  lemma ExportThenImport(urls: seq<string>)
    requires urls != [] && Distinct(urls)
    requires forall i :: 0 <= i < |urls| ==> urls[i] != []
    ensures ReadExport(OpmlDocument(urls)) == Some(urls)
    ensures ImportOpml(AsXmlUrls(urls), None) == Some(urls)
  {
    ExportReadsBack(urls);
    ImportOfUrls(urls);
    DedupDistinct(urls);
  }
}
