/**
 * The widget's controller: a state record holding the loaded index, the input's
 * value and the results container, and the events that change it.
 *
 * The debounced `input` listener is abstracted into two events: `Typed`, the
 * browser changing the input's value, and `SearchFires`, the delayed
 * `performSearch` run. Any interleaving of events is a possible history, which
 * covers every timing of the debounce timer.
 */
module Widget {
  import opened JsText
  import opened Matcher
  import opened Render
  import opened Highlight

  datatype State = State(index: seq<Entry>, input: string, results: Container)

  datatype Event =
    | Typed(value: string)                // the user edits the input field
    | KeyDown(key: string)                // a `keydown` on the input field
    | SearchFires                         // the debounced `performSearch` runs
    | IndexLoaded(entries: seq<Entry>)    // the index request resolves with its data

  const EscapeKey: string := "Escape"

  /** The page's state when the widget starts: no index yet, whatever the page holds in the input and the container. */
  function Start(input: string, results: Container): State {
    State([], input, results)
  }

  /**
   * `performSearch` over the given index and raw input: a query shorter than two
   * code units clears and hides the container, whatever the index holds; a longer
   * one shows the rendered first matches.
   */
  function PerformSearch(index: seq<Entry>, raw: string): (c: Container)
    ensures !IsSearchable(NormalizeQuery(raw)) ==> c == Hidden
    ensures c.visible <==> IsSearchable(NormalizeQuery(raw))
    ensures c.html == NoResultsHtml <==> IsSearchable(NormalizeQuery(raw)) && Select(index, NormalizeQuery(raw)) == []
  {
    var query := NormalizeQuery(raw);
    if !IsSearchable(query) then Hidden
    else DisplayResults(Select(index, query), query)
  }

  /** `handleKeyDown`: Escape clears the input and the results and hides them; every other key changes nothing. */
  function HandleKeyDown(s: State, key: string): (s': State)
    ensures key == EscapeKey ==> s'.input == "" && s'.results == Hidden && s'.index == s.index
    ensures key != EscapeKey ==> s' == s
  {
    if key == EscapeKey then s.(input := "", results := Hidden) else s
  }

  /**
   * The effect of one event. Typing changes only the input, a search run only the
   * container, which it sets to `performSearch`'s result, and the index's arrival
   * only the index.
   */
  function Step(s: State, ev: Event): (s': State)
    ensures ev.Typed? ==> s' == s.(input := ev.value)
    ensures ev.KeyDown? ==> s'.index == s.index
    ensures ev.SearchFires? ==> s'.index == s.index && s'.input == s.input
                                && s'.results == PerformSearch(s.index, s.input)
    ensures ev.IndexLoaded? ==> s' == s.(index := ev.entries)
  {
    match ev
    case Typed(v) => s.(input := v)
    case KeyDown(k) => HandleKeyDown(s, k)
    case SearchFires => s.(results := PerformSearch(s.index, s.input))
    case IndexLoaded(entries) => s.(index := entries)
  }

  /**
   * The effect of a sequence of events, in order. Only the index's arrival changes
   * the index, and only typing or a key press changes the input.
   */
  function Run(s: State, evs: seq<Event>): (s': State)
    ensures (forall k :: 0 <= k < |evs| ==> !evs[k].IndexLoaded?) ==> s'.index == s.index
    ensures (forall k :: 0 <= k < |evs| ==> !evs[k].Typed? && !evs[k].KeyDown?) ==> s'.input == s.input
    decreases |evs|
  {
    if evs == [] then s else Run(Step(s, evs[0]), evs[1..])
  }

  /** The blank input normalises to the empty query, which is below the search threshold. */
  lemma BlankInputIsNotSearchable()
    ensures !IsSearchable(NormalizeQuery(""))
  {
    assert Lower("") == "";
    assert TrimStart("") == "";
  }

  /** A search run after Escape reads the emptied input, so it leaves the container empty and hidden. */
  lemma SearchAfterEscapeStaysHidden(s: State)
    ensures Step(HandleKeyDown(s, EscapeKey), SearchFires).results == Hidden
  {
    BlankInputIsNotSearchable();
  }

  /**
   * Escape is not undone by anything but typing: after it, any mix of search runs,
   * key presses and index loads leaves the input empty and the container empty and
   * hidden.
   */
  lemma {:induction false} EscapeHoldsUntilTyping(s: State, evs: seq<Event>)
    requires forall k :: 0 <= k < |evs| ==> !evs[k].Typed?
    ensures Run(HandleKeyDown(s, EscapeKey), evs).input == ""
    ensures Run(HandleKeyDown(s, EscapeKey), evs).results == Hidden
    decreases |evs|
  {
    if evs != [] {
      var s1 := HandleKeyDown(s, EscapeKey);
      var s2 := Step(s1, evs[0]);
      BlankInputIsNotSearchable();
      assert s2 == HandleKeyDown(s2, EscapeKey);
      EscapeHoldsUntilTyping(s2, evs[1..]);
    }
  }

  /**
   * Under the model's one ASCII case mapping, the matcher and the highlighter
   * agree: a shown result selected for its title gets at least one opening mark
   * tag in its rendered title. (JavaScript's `toLowerCase` and the pattern's `i`
   * flag can disagree outside ASCII; that case is not modelled.)
   */
  lemma TitleMatchIsMarked(index: seq<Entry>, raw: string, j: nat)
    ensures var q := NormalizeQuery(raw);
            IsSearchable(q) && j < |Select(index, q)| && Includes(Lower(Select(index, q)[j].title), q) ==>
              exists p :: OpenAt(HighlightMatch(Select(index, q)[j].title, q), p)
  {
    var q := NormalizeQuery(raw);
    if IsSearchable(q) && j < |Select(index, q)| && Includes(Lower(Select(index, q)[j].title), q) {
      NormalizedQueryIsLower(raw);
      IncludedQueryIsTagged(Select(index, q)[j].title, q);
    }
  }

  /**
   * Until the index arrives it is the empty list of line 6, so any search run on a
   * long-enough query shows the "No results found" placeholder.
   */
  lemma NoResultsBeforeIndexLoads(input: string, results: Container, evs: seq<Event>)
    requires forall k :: 0 <= k < |evs| ==> !evs[k].IndexLoaded?
    ensures var s := Run(Start(input, results), evs);
            IsSearchable(NormalizeQuery(s.input)) ==> Step(s, SearchFires).results == Container(NoResultsHtml, true)
  {
    var s := Run(Start(input, results), evs);
    assert s.index == [];
  }

  /** Running the same search twice over an unchanged index leaves the same markup as running it once. */
  lemma SearchIsIdempotent(s: State)
    ensures Step(Step(s, SearchFires), SearchFires) == Step(s, SearchFires)
  {
  }
}
