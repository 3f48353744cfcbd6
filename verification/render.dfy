/**
 * `displayResults`: the markup written into the results container. An empty
 * result list shows a single "No results found" placeholder; otherwise there is
 * one link per result, in order. Either way the container is shown and its old
 * content is replaced. Url, type and title are interpolated as they are, without
 * HTML escaping.
 */
module Render {
  import opened JsText
  import opened Matcher
  import opened Highlight

  /** The results container: its inner HTML and whether `style.display` shows it. */
  datatype Container = Container(html: string, visible: bool)

  /** Cleared and hidden: `innerHTML = ''` with `display = 'none'`. */
  const Hidden: Container := Container("", false)

  /** The placeholder shown when nothing matches, written as its opening tag followed by its text. */
  const NoResultsHtml: string := "<div class=\"search-no-results\">" + "No results found</div>"

  /** The opening of a result's link, up to the end of its `href` attribute. */
  function AnchorOpen(url: string): string {
    "\n                <a href=\"" + url + "\""
  }

  /** The template text from the end of the `href` attribute to the type label. */
  const TypeOpen: string := " class=\"search-result-item\">\n                    <div class=\"search-result-type\">"

  /** The template text between the type label and the highlighted title. */
  const TitleOpen: string := "</div>\n                    <div class=\"search-result-title\">"

  /** The template text after the highlighted title. */
  const ItemClose: string := "</div>\n                </a>\n            "

  /** Where the type label starts in a result's markup. */
  function KindAt(e: Entry): nat {
    |AnchorOpen(e.url)| + |TypeOpen|
  }

  /** Where the highlighted title starts in a result's markup. */
  function TitleAt(e: Entry): nat {
    KindAt(e) + |e.kind| + |TitleOpen|
  }

  /**
   * The template literal of one result: it opens with the link to the result's url,
   * then carries the result's type and its highlighted title (`ItemFields`).
   */
  function ItemMarkup(e: Entry, query: string): (m: string)
    ensures |AnchorOpen(e.url)| <= |m| && m[..|AnchorOpen(e.url)|] == AnchorOpen(e.url)
  {
    FillLayout(AnchorOpen(e.url), TypeOpen, e.kind, TitleOpen, HighlightMatch(e.title, query), ItemClose);
    Fill(AnchorOpen(e.url), TypeOpen, e.kind, TitleOpen, HighlightMatch(e.title, query), ItemClose)
  }

  /** A result's markup carries its type at `KindAt(e)` and its highlighted title at `TitleAt(e)`, followed only by the closing tags. */
  lemma ItemFields(e: Entry, query: string)
    ensures var m, h := ItemMarkup(e, query), HighlightMatch(e.title, query);
            && OccursAt(m, e.kind, KindAt(e))
            && OccursAt(m, h, TitleAt(e))
            && m[TitleAt(e) + |h|..] == ItemClose
  {
    FillLayout(AnchorOpen(e.url), TypeOpen, e.kind, TitleOpen, HighlightMatch(e.title, query), ItemClose);
  }

  /** A template with two holes, `k` and `h`, filled in. */
  function Fill(p0: string, p1: string, k: string, p2: string, h: string, p3: string): string {
    p0 + p1 + k + p2 + h + p3
  }

  /** In a filled template each piece sits right after the ones before it. */
  lemma FillLayout(p0: string, p1: string, k: string, p2: string, h: string, p3: string)
    ensures var m, a := Fill(p0, p1, k, p2, h, p3), |p0| + |p1|;
            var b := a + |k| + |p2|;
            && |m| == b + |h| + |p3|
            && m[..|p0|] == p0
            && OccursAt(m, k, a)
            && OccursAt(m, h, b)
            && m[b + |h|..] == p3
  {
  }

  /** `join('')`: the parts, one after the other. */
  function Concat(parts: seq<string>): string
    decreases |parts|
  {
    if parts == [] then [] else parts[0] + Concat(parts[1..])
  }

  /** `results.map(…)`: the markup of each result, in order. */
  function ItemMarkups(results: seq<Entry>, query: string): seq<string> {
    seq(|results|, i requires 0 <= i < |results| => ItemMarkup(results[i], query))
  }

  /**
   * `displayResults(results, query)`: the container it leaves behind. The placeholder
   * opens with `<` and any list of items with the newline before its first link, so
   * the container holds the placeholder exactly when there are no results
   * (`PlaceholderIffEmpty`).
   */
  function DisplayResults(results: seq<Entry>, query: string): (c: Container)
    ensures c.visible
    ensures results == [] ==> c.html == NoResultsHtml
    ensures results != [] ==> |c.html| > 0 && c.html[0] == '\n'
  {
    if results == [] then Container(NoResultsHtml, true)
    else
      JoinOpensWithNewline(results, query);
      Container(Concat(ItemMarkups(results, query)), true)
  }

  /** The joined items open with the newline that starts the first item's link. */
  lemma JoinOpensWithNewline(results: seq<Entry>, query: string)
    requires results != []
    ensures |Concat(ItemMarkups(results, query))| > 0 && Concat(ItemMarkups(results, query))[0] == '\n'
  {
    ItemOpensWithLink(results, query, 0);
    var parts := ItemMarkups(results, query);
    assert Concat(parts) == parts[0] + Concat(parts[1..]);
    assert parts[0][0] == AnchorOpen(results[0].url)[0] == '\n';
  }

  /** Joining distributes over concatenation of the part lists. */
  lemma {:induction false} ConcatAppend(a: seq<string>, b: seq<string>)
    ensures Concat(a + b) == Concat(a) + Concat(b)
    decreases |a|
  {
    if a == [] {
      assert a + b == b;
    } else {
      assert (a + b)[0] == a[0] && (a + b)[1..] == a[1..] + b;
      ConcatAppend(a[1..], b);
    }
  }

  /** Joining parts that start with `p`: `p`, then the rest joined. */
  lemma ConcatHead(p: string, rest: seq<string>)
    ensures Concat([p] + rest) == p + Concat(rest)
  {
    assert ([p] + rest)[0] == p && ([p] + rest)[1..] == rest;
  }

  /** The joined parts are the parts before `i`, then part `i`, then the rest. */
  lemma ConcatSplit(parts: seq<string>, i: nat)
    requires i < |parts|
    ensures Concat(parts) == Concat(parts[..i]) + (parts[i] + Concat(parts[i + 1..]))
  {
    var pre, mid := parts[..i], parts[i..];
    assert parts == pre + mid;
    ConcatAppend(pre, mid);
    assert mid[0] == parts[i] && mid[1..] == parts[i + 1..];
  }

  /** The first `i + 1` parts, joined, end with part `i`. */
  lemma ConcatExtend(parts: seq<string>, i: nat)
    requires i < |parts|
    ensures Concat(parts[..i + 1]) == Concat(parts[..i]) + parts[i]
  {
    assert parts[..i + 1] == parts[..i] + [parts[i]];
    ConcatAppend(parts[..i], [parts[i]]);
    ConcatHead(parts[i], []);
    assert parts[i] + [] == parts[i];
  }

  /** The middle part of a three-part concatenation sits right after the first part. */
  lemma SliceOfConcat(a: string, b: string, c: string)
    ensures |a| + |b| <= |a + (b + c)| && (a + (b + c))[|a|..|a| + |b|] == b
  {
  }

  /** Part `i` sits in the joined parts right after the parts before it, and ends the first `i + 1`. */
  lemma PartAt(parts: seq<string>, i: nat)
    requires i < |parts|
    ensures var at := |Concat(parts[..i])|;
            && at + |parts[i]| <= |Concat(parts)|
            && Concat(parts)[at..at + |parts[i]|] == parts[i]
            && |Concat(parts[..i + 1])| == at + |parts[i]|
  {
    ConcatSplit(parts, i);
    ConcatExtend(parts, i);
    SliceOfConcat(Concat(parts[..i]), parts[i], Concat(parts[i + 1..]));
  }

  /** What occurs in `item` at `x` occurs in `s` at `at + x` when `item` occurs in `s` at `at`. */
  lemma OccursWithin(s: string, item: string, at: nat, k: string, x: nat)
    requires OccursAt(s, item, at) && OccursAt(item, k, x)
    ensures OccursAt(s, k, at + x)
  {
    forall j | 0 <= j < |k|
      ensures s[at + x..at + x + |k|][j] == k[j]
    {
      assert k[j] == item[x..x + |k|][j] == item[x + j] == s[at..at + |item|][x + j];
    }
  }

  /** The container shows the "No results found" placeholder exactly when there are no results. */
  lemma PlaceholderIffEmpty(results: seq<Entry>, query: string)
    ensures DisplayResults(results, query).html == NoResultsHtml <==> results == []
  {
    assert NoResultsHtml[0] == '<';
  }

  /** A non-empty list of results is shown as the join of their markups. */
  lemma DisplayedHtml(results: seq<Entry>, query: string)
    requires results != []
    ensures DisplayResults(results, query).html == Concat(ItemMarkups(results, query))
  {
  }

  lemma AnchorOpenNonEmpty(url: string)
    ensures |AnchorOpen(url)| > 0
  {
    assert AnchorOpen(url)[0] == '\n';
  }

  /** Part `i` of a join, when it opens with a non-empty `pre`, sits right after the parts before it and opens with `pre`. */
  lemma JoinedPartOpens(html: string, parts: seq<string>, i: nat, pre: string)
    requires html == Concat(parts) && i < |parts| && 0 < |pre| <= |parts[i]| && parts[i][..|pre|] == pre
    ensures |Concat(parts[..i])| + |parts[i]| <= |html|
    ensures html[|Concat(parts[..i])|..|Concat(parts[..i])| + |parts[i]|] == parts[i]
    ensures |Concat(parts[..i])| < |Concat(parts[..i + 1])| == |Concat(parts[..i])| + |parts[i]|
  {
    PartAt(parts, i);
  }

  /** The markup of result `i` in the list is that result's template, which opens with its link. */
  lemma ItemOpensWithLink(results: seq<Entry>, query: string, i: nat)
    requires i < |results|
    ensures ItemMarkups(results, query)[i] == ItemMarkup(results[i], query)
    ensures 0 < |AnchorOpen(results[i].url)| <= |ItemMarkups(results, query)[i]|
    ensures ItemMarkups(results, query)[i][..|AnchorOpen(results[i].url)|] == AnchorOpen(results[i].url)
  {
    AnchorOpenNonEmpty(results[i].url);
  }

  /**
   * One link per result, in order: in the joined markup, which `DisplayedHtml` shows
   * is the container's content, the markup of result `i` starts right after that of
   * the results before it, which it extends by exactly that markup, and opens with a
   * link whose `href` is the result's url. With `OccursWithin` and `ItemFields` this
   * also locates the result's type label and highlighted title in the join.
   */
  lemma ResultLinkAt(results: seq<Entry>, query: string, i: nat)
    requires i < |results|
    ensures ItemMarkups(results, query)[i] == ItemMarkup(results[i], query)
    ensures ItemMarkups(results, query)[i][..|AnchorOpen(results[i].url)|] == AnchorOpen(results[i].url)
    ensures |Concat(ItemMarkups(results, query)[..i])| + |ItemMarkups(results, query)[i]| <= |Concat(ItemMarkups(results, query))|
    ensures Concat(ItemMarkups(results, query))[|Concat(ItemMarkups(results, query)[..i])|..|Concat(ItemMarkups(results, query)[..i])| + |ItemMarkups(results, query)[i]|]
            == ItemMarkups(results, query)[i]
    ensures |Concat(ItemMarkups(results, query)[..i + 1])| == |Concat(ItemMarkups(results, query)[..i])| + |ItemMarkups(results, query)[i]|
    ensures |Concat(ItemMarkups(results, query)[..i])| < |Concat(ItemMarkups(results, query)[..i + 1])|
  {
    ItemOpensWithLink(results, query, i);
    JoinedPartOpens(Concat(ItemMarkups(results, query)), ItemMarkups(results, query), i, AnchorOpen(results[i].url));
  }
}
