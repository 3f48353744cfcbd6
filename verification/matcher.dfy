/**
 * The query matcher of `performSearch`: normalise the raw input, keep the index
 * entries whose lower-cased title or content includes the query, in index order,
 * and cut the list to the first ten.
 */
module Matcher {
  import opened Wrappers
  import opened JsText

  /** One record of the search index. `kind` is the record's `type` field. */
  datatype Entry = Entry(title: string, content: Option<string>, kind: string, url: string)

  /** The `slice(0, 10)` bound on the result list. */
  const MaxResults: nat := 10

  /** The shortest query, in UTF-16 code units, that runs a search. */
  const MinQueryLength: nat := 2

  /** `searchInput.value.toLowerCase().trim()`. */
  function NormalizeQuery(raw: string): (q: string)
    ensures IsTrimOf(Lower(raw), q)
  {
    TrimIsTrimOf(Lower(raw));
    Trim(Lower(raw))
  }

  /** The normalised query is already in lower case, so lower-casing it again (as the matcher does to titles) changes nothing. */
  lemma NormalizedQueryIsLower(raw: string)
    ensures Lower(NormalizeQuery(raw)) == NormalizeQuery(raw)
  {
    var low := Lower(raw);
    var t := TrimStart(low);
    var q := TrimEnd(t);
    var a := |low| - |t|;
    assert t == low[a..];
    assert q == low[a..a + |q|];
    LowerOfLoweredSlice(raw, a, a + |q|);
  }

  /** `query.length >= 2`, with JavaScript's length. */
  predicate IsSearchable(query: string) {
    JsLength(query) >= MinQueryLength
  }

  /** The guard `item.content && …`: content counts when present and not the (falsy) empty string. */
  predicate HasContent(e: Entry) {
    e.content.Some? && e.content.value != []
  }

  /** The filter callback: the lower-cased title, or the lower-cased content when there is one, includes the query. */
  predicate Matches(e: Entry, query: string) {
    || Includes(Lower(e.title), query)
    || (HasContent(e) && Includes(Lower(e.content.value), query))
  }

  /** `searchIndex.filter(…)`: the matching entries, in index order. */
  function Filter(index: seq<Entry>, query: string): (r: seq<Entry>)
    ensures |r| <= |index|
    ensures forall e :: e in r <==> e in index && Matches(e, query)
    decreases |index|
  {
    if index == [] then []
    else (if Matches(index[0], query) then [index[0]] else []) + Filter(index[1..], query)
  }

  /** `….slice(0, 10)` of the filtered list. */
  function Select(index: seq<Entry>, query: string): (r: seq<Entry>)
    ensures |r| <= MaxResults && |r| <= |index|
    ensures forall e :: e in r ==> e in index && Matches(e, query)
  {
    var matches := Filter(index, query);
    matches[..if |matches| < MaxResults then |matches| else MaxResults]
  }

  /** The number of matching entries before position `i`: the slot a match at `i` takes in the filtered list. */
  function Rank(index: seq<Entry>, query: string, i: nat): nat
    requires i <= |index|
  {
    |Filter(index[..i], query)|
  }

  /** Slot `j` of `r` holds the matching index entry of rank `j`. */
  ghost predicate SlotHoldsRank(index: seq<Entry>, query: string, r: seq<Entry>, j: int) {
    0 <= j < |r| && exists i :: 0 <= i < |index| && Matches(index[i], query) && Rank(index, query, i) == j && r[j] == index[i]
  }

  /** An entry matches exactly when the query is a substring of its lower-cased title, or of its lower-cased, non-empty content. */
  lemma MatchesIsSubstring(e: Entry, query: string)
    ensures Matches(e, query) <==>
              || (exists p :: OccursAt(Lower(e.title), query, p))
              || (HasContent(e) && exists p :: OccursAt(Lower(e.content.value), query, p))
  {
    IncludesIsOccurrence(Lower(e.title), query);
    if HasContent(e) {
      IncludesIsOccurrence(Lower(e.content.value), query);
    }
  }

  /** Filtering works entry by entry, so it distributes over concatenation. */
  lemma {:induction false} FilterAppend(a: seq<Entry>, b: seq<Entry>, query: string)
    ensures Filter(a + b, query) == Filter(a, query) + Filter(b, query)
    decreases |a|
  {
    if a == [] {
      assert a + b == b;
    } else {
      assert (a + b)[0] == a[0] && (a + b)[1..] == a[1..] + b;
      FilterAppend(a[1..], b, query);
    }
  }

  /** Filtering a list that ends in `last`: the filter of the rest, then `last` when it matches. */
  lemma FilterSnoc(init: seq<Entry>, last: Entry, query: string)
    ensures Filter(init + [last], query) == Filter(init, query) + (if Matches(last, query) then [last] else [])
  {
    FilterAppend(init, [last], query);
    assert [last][1..] == [];
  }

  /** A matching entry at position `i` sits in the filtered list at slot `Rank(i)`. */
  lemma FilterPlacesMatch(index: seq<Entry>, query: string, i: nat)
    requires i < |index| && Matches(index[i], query)
    ensures Rank(index, query, i) < |Filter(index, query)|
    ensures Filter(index, query)[Rank(index, query, i)] == index[i]
  {
    assert index == index[..i] + index[i..];
    FilterAppend(index[..i], index[i..], query);
    assert index[i..][0] == index[i];
  }

  /** Ranks of positions inside a prefix of the index are the same as in the whole index. */
  lemma RankInPrefix(index: seq<Entry>, query: string, n: nat, i: nat)
    requires i <= n <= |index|
    ensures Rank(index[..n], query, i) == Rank(index, query, i)
  {
    assert index[..n][..i] == index[..i];
  }

  /** Every slot of the filtered list holds the matching entry whose rank is that slot. */
  lemma {:induction false} FilterSlotSource(index: seq<Entry>, query: string, j: nat)
    requires j < |Filter(index, query)|
    ensures SlotHoldsRank(index, query, Filter(index, query), j)
    decreases |index|
  {
    var n := |index| - 1;
    var init, last := index[..n], index[n];
    assert index == init + [last];
    FilterSnoc(init, last, query);
    var whole, front := Filter(index, query), Filter(init, query);
    if j < |front| {
      FilterSlotSource(init, query, j);
      var i :| 0 <= i < |init| && Matches(init[i], query) && Rank(init, query, i) == j && front[j] == init[i];
      RankInPrefix(index, query, n, i);
      assert whole[j] == front[j] && index[i] == init[i];
      assert Matches(index[i], query) && Rank(index, query, i) == j && whole[j] == index[i];
    } else {
      assert Rank(index, query, n) == j && whole[j] == index[n];
    }
  }

  /** Ranks grow along the index, strictly past a matching entry: the filtered list keeps index order. */
  lemma RankMonotone(index: seq<Entry>, query: string, i: nat, k: nat)
    requires i < k <= |index|
    ensures Rank(index, query, i) <= Rank(index, query, k)
    ensures Matches(index[i], query) ==> Rank(index, query, i) < Rank(index, query, k)
  {
    assert index[..k] == index[..i] + index[i..k];
    FilterAppend(index[..i], index[i..k], query);
    assert index[i..k][0] == index[i];
  }

  /** There are min(10, number of matches) results, and each is a matching entry of the index. */
  lemma SelectIsBoundedAndSound(index: seq<Entry>, query: string)
    ensures var r, m := Select(index, query), |Filter(index, query)|;
            |r| <= MaxResults && |r| == (if m < MaxResults then m else MaxResults)
    ensures forall e :: e in Select(index, query) ==> e in index && Matches(e, query)
  {
    var r, m := Select(index, query), Filter(index, query);
    forall e | e in r
      ensures e in index && Matches(e, query)
    {
      var j :| 0 <= j < |r| && r[j] == e;
      assert m[j] == e;
    }
  }

  /** A match with fewer than ten matches before it in the index is shown, at the slot of its rank. */
  lemma SelectKeepsFirstMatches(index: seq<Entry>, query: string, i: nat)
    requires i < |index| && Matches(index[i], query) && Rank(index, query, i) < MaxResults
    ensures Rank(index, query, i) < |Select(index, query)|
    ensures Select(index, query)[Rank(index, query, i)] == index[i]
  {
    FilterPlacesMatch(index, query, i);
  }

  /** Every shown result is the matching index entry whose rank is its slot, so results follow index order. */
  lemma SelectSlotsHoldRanks(index: seq<Entry>, query: string, j: nat)
    requires j < |Select(index, query)|
    ensures SlotHoldsRank(index, query, Select(index, query), j)
  {
    var r, m := Select(index, query), Filter(index, query);
    FilterSlotSource(index, query, j);
    var i :| 0 <= i < |index| && Matches(index[i], query) && Rank(index, query, i) == j && m[j] == index[i];
    assert r[j] == m[j];
  }
}
