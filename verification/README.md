# Static-site search widget, modelled in Dafny

This project models the client-side search widget of a static site generator's
output (`search.js`). The widget filters a pre-built index of pages by the
text typed into a search box. It renders the first ten matches as links with the
query highlighted in each title. The Escape key clears the box.

The model follows the query-to-markup pipeline:

- `JsText` (text.dfy): the JavaScript string primitives the widget uses: `toLowerCase`, `trim`, `length` and `includes`.
- `RegexEscape` (escape.dfy): `escapeRegex`, and a reader for the literal fragment of pattern syntax. Together they show that the highlighting pattern captures exactly the query.
- `Highlight` (highlight.dfy): `highlightMatch`. The global, case-insensitive replace is an explicit left-to-right scan that produces plain characters and marked stretches.
- `Matcher` (matcher.dfy): query normalisation, the filter callback, and the cut to the first ten matches.
- `Render` (render.dfy): `displayResults`, with the results container as a record `{html, visible}`.
- `Widget` (widget.dfy): `performSearch`, `handleKeyDown`, and a state machine over `{index, input, results}`. Its events are typing, key presses, the debounced search firing, and the index arriving.
- `Wrappers` (wrappers.dfy): the option type.

Strings are Dafny strings (sequences of Unicode scalar values). The threshold
`query.length < 2` uses JavaScript's length in UTF-16 code units (`JsLength`),
so a single character outside the Basic Multilingual Plane already runs a search.

## Model

| member | source | states |
|---|---|---|
| JsText.LowerIsNormal | tapestry/output/testinggrounds/campaignone/assets/search.js:37 | a lower-cased string has no ASCII capital letter, and lower-casing it again changes nothing |
| JsText.TrimIsTrimOf | tapestry/output/testinggrounds/campaignone/assets/search.js:37 | the trimmed query is a slice of the input with only white space outside it, and it neither starts nor ends with white space |
| JsText.TrimIsUnique | tapestry/output/testinggrounds/campaignone/assets/search.js:37 | at most one string meets that description, so it determines what `trim` returns |
| JsText.JsLength | tapestry/output/testinggrounds/campaignone/assets/search.js:39 | the length compared with 2 counts UTF-16 code units, between one and two per character |
| JsText.JsLengthAppend | tapestry/output/testinggrounds/campaignone/assets/search.js:39 | the code-unit length of a concatenation is the sum of the parts' lengths |
| JsText.JsLengthIsSizeIffBmp | tapestry/output/testinggrounds/campaignone/assets/search.js:39 | the code-unit length equals the number of characters exactly when every character lies in the Basic Multilingual Plane |
| JsText.IncludesIsOccurrence | tapestry/output/testinggrounds/campaignone/assets/search.js:46-47 | the left-to-right `includes` scan answers yes exactly when the needle occurs at some position of the haystack |
| Matcher.NormalizedQueryIsLower | tapestry/output/testinggrounds/campaignone/assets/search.js:37 | the lower-cased, trimmed query is its own lower case, so comparing it with lower-cased titles is a case-insensitive comparison |
| Matcher.NormalizeQuery | tapestry/output/testinggrounds/campaignone/assets/search.js:37 | the query is the lower-cased input with its surrounding white space removed: a slice of it with only white space outside, and no white space at either end |
| Matcher.MatchesIsSubstring | tapestry/output/testinggrounds/campaignone/assets/search.js:45-47 | an entry matches iff the query is a substring of its lower-cased title, or its content is present and non-empty and the query is a substring of its lower-cased content |
| Matcher.Filter | tapestry/output/testinggrounds/campaignone/assets/search.js:45-47 | an entry is in the filtered list iff it is in the index and matches; the list is no longer than the index |
| Matcher.FilterPlacesMatch | tapestry/output/testinggrounds/campaignone/assets/search.js:45-47 | a matching entry at index position i sits in the filtered list at the slot equal to the number of matches before i |
| Matcher.FilterSlotSource | tapestry/output/testinggrounds/campaignone/assets/search.js:45-47 | every slot of the filtered list holds the matching index entry whose count of earlier matches is that slot |
| Matcher.RankMonotone | tapestry/output/testinggrounds/campaignone/assets/search.js:45-47 | the slot numbers grow along the index, strictly past each match, so the filtered list keeps index order |
| Matcher.Select | tapestry/output/testinggrounds/campaignone/assets/search.js:45-48 | at most ten results, no more than the index holds, each a matching entry of the index |
| Matcher.SelectIsBoundedAndSound | tapestry/output/testinggrounds/campaignone/assets/search.js:45-48 | there are min(10, number of matches) results, at most ten, and each is a matching entry of the index |
| Matcher.SelectKeepsFirstMatches | tapestry/output/testinggrounds/campaignone/assets/search.js:45-48 | a match with fewer than ten matches before it in the index is shown, at the slot equal to its number of earlier matches |
| Matcher.SelectSlotsHoldRanks | tapestry/output/testinggrounds/campaignone/assets/search.js:45-48 | every shown result is the matching index entry whose number of earlier matches is its slot, so results are the first matches in index order |
| RegexEscape.EscapeRegex | tapestry/output/testinggrounds/campaignone/assets/search.js:79-81 | the escaped query is longer than the query by exactly the number of metacharacters in it |
| RegexEscape.EscapeAt | tapestry/output/testinggrounds/campaignone/assets/search.js:79-81 | each of the fourteen metacharacters (dot, star, plus, question mark, caret, dollar, braces, parentheses, vertical bar, square brackets, backslash) is preceded by one backslash in the output, and every other character is copied unchanged, in place |
| RegexEscape.ParseEscaped | tapestry/output/testinggrounds/campaignone/assets/search.js:79-81 | reading the escaped query as pattern syntax gives the query back as a literal string |
| RegexEscape.ParsedIsEscaped | tapestry/output/testinggrounds/campaignone/assets/search.js:79-81 | conversely, any literal pattern body that reads as a string s is exactly the escaping of s |
| RegexEscape.EscapeInjective | tapestry/output/testinggrounds/campaignone/assets/search.js:79-81 | different queries give different escaped patterns |
| RegexEscape.CompileEscaped | tapestry/output/testinggrounds/campaignone/assets/search.js:75 | the pattern `(escaped query)` always compiles to one capture group whose literal is the query |
| Highlight.HighlightMatch | tapestry/output/testinggrounds/campaignone/assets/search.js:74-77 | `highlightMatch` emits the pieces of the case-insensitive, left-to-right occurrence scan for the query itself, because the escaped pattern always compiles to a group capturing exactly the query |
| Highlight.MarkOccurrencesRestores | tapestry/output/testinggrounds/campaignone/assets/search.js:76 | the scan's pieces spell the title exactly, with its own casing, for every query |
| Highlight.MarkOccurrencesIsHighlighting | tapestry/output/testinggrounds/campaignone/assets/search.js:74-77 | for a non-empty query, each marked stretch equals the query ignoring case, and no occurrence of the query starts at a character left plain |
| Highlight.HighlightingIsUnique | tapestry/output/testinggrounds/campaignone/assets/search.js:74-77 | any division of the title into plain characters and marked stretches with those properties is the scan's, so the marking is the leftmost, non-overlapping one |
| Highlight.MatchIsMarked | tapestry/output/testinggrounds/campaignone/assets/search.js:76 | if the query occurs anywhere in the title (ignoring case), the scan marks at least one stretch |
| Highlight.IncludedQueryIsMarked | tapestry/output/testinggrounds/campaignone/assets/search.js:46 | a title whose lower-cased form includes the lower-case query gets at least one mark |
| Highlight.MarkedPieceEmitsOpen | tapestry/output/testinggrounds/campaignone/assets/search.js:76 | a marked stretch among the pieces puts an opening `<mark>` tag into the emitted markup |
| Highlight.IncludedQueryIsTagged | tapestry/output/testinggrounds/campaignone/assets/search.js:74-77 | under the model's ASCII case mapping, a title whose lower-cased form includes the lower-case query comes out of `highlightMatch` with at least one opening `<mark>` tag |
| Highlight.StripEmit | tapestry/output/testinggrounds/campaignone/assets/search.js:76 | deleting every `<mark>` and `</mark>` from emitted pieces gives back the text they spell, when that text has no `<` |
| Highlight.HighlightRoundTrip | tapestry/output/testinggrounds/campaignone/assets/search.js:74-77 | deleting the inserted mark tags from `highlightMatch`'s output gives back the title, for titles without `<` |
| Render.DisplayResults | tapestry/output/testinggrounds/campaignone/assets/search.js:53-72 | the container is always shown; with no results it holds the "No results found" placeholder, and otherwise markup that opens with the newline before the first link |
| Render.PlaceholderIffEmpty | tapestry/output/testinggrounds/campaignone/assets/search.js:53-59 | the container holds the "No results found" placeholder iff there are no results |
| Render.DisplayedHtml | tapestry/output/testinggrounds/campaignone/assets/search.js:60-71 | a non-empty list of results is shown as the markups of the results joined in order, with nothing between them |
| Render.ConcatSplit | tapestry/output/testinggrounds/campaignone/assets/search.js:60-68 | the joined markup is the markup of the results before i, then result i's, then the rest |
| Render.ItemMarkup | tapestry/output/testinggrounds/campaignone/assets/search.js:62-67 | each result's markup opens with a link whose `href` is the result's url |
| Render.ItemFields | tapestry/output/testinggrounds/campaignone/assets/search.js:62-67 | in a result's markup, the type label sits at a fixed template offset after the link, the title highlighted for the query sits at a fixed offset after the type label, and only the closing tags follow it |
| Render.ResultLinkAt | tapestry/output/testinggrounds/campaignone/assets/search.js:60-71 | in the joined markup, result i's markup starts right after the markup of the results before it, is non-empty, ends where the next result's starts, and opens with a link whose `href` is the result's url |
| Widget.PerformSearch | tapestry/output/testinggrounds/campaignone/assets/search.js:36-51 | a query under two code units empties and hides the container whatever the index holds; otherwise the container is shown, with the placeholder iff no entry was selected |
| Widget.HandleKeyDown | tapestry/output/testinggrounds/campaignone/assets/search.js:83-89 | Escape empties the input and the container and hides it, keeping the index; any other key changes nothing |
| Widget.Step | tapestry/output/testinggrounds/campaignone/assets/search.js:21-29 | typing changes only the input; a search run changes only the container, setting it to `performSearch`'s result; a key press keeps the index; the index's arrival changes only the index |
| Widget.Run | tapestry/output/testinggrounds/campaignone/assets/search.js:21-22 | along any sequence of events, the index changes only when it arrives, and the input only on typing or a key press |
| Widget.NoResultsBeforeIndexLoads | tapestry/output/testinggrounds/campaignone/assets/search.js:6-51 | until the index arrives it is the empty list, so every search on a long-enough query shows the "No results found" placeholder |
| Widget.BlankInputIsNotSearchable | tapestry/output/testinggrounds/campaignone/assets/search.js:37-39 | the emptied input normalises to a query below the threshold |
| Widget.SearchAfterEscapeStaysHidden | tapestry/output/testinggrounds/campaignone/assets/search.js:37-43 | a debounced search that fires after Escape leaves the container empty and hidden |
| Widget.EscapeHoldsUntilTyping | tapestry/output/testinggrounds/campaignone/assets/search.js:83-89 | after Escape, any sequence of search runs, key presses and index loads without typing keeps the input empty and the container empty and hidden |
| Widget.TitleMatchIsMarked | tapestry/output/testinggrounds/campaignone/assets/search.js:45-61 | under the model's ASCII case mapping, a shown result that was selected for its title renders with at least one opening `<mark>` tag in its title |
| Widget.SearchIsIdempotent | tapestry/output/testinggrounds/campaignone/assets/search.js:50-51 | running the same search twice over an unchanged index leaves the same markup as running it once |

## Left out

- Index loading (`loadSearchIndex`, lines 25-34): the fetch, the JSON parsing and the console message are network I/O. The index starts empty (`Widget.Start`). An `IndexLoaded` event models only the assignment at line 29.
- The debounce (lines 91-101): timers are scheduling, not logic. Typing (`Typed`) and the delayed run (`SearchFires`) are separate events, and any interleaving of events is allowed. This covers every timing of the timer, including runs that never fire.
- The DOM wiring (lines 11-23): element lookup, listener registration, and going inert when an element is missing. The container is the record `Container(html, visible)`.
- Widget.TitleMatchIsMarked: holds under the model's single ASCII case mapping, not under JavaScript's. The filter uses Unicode `toLowerCase`, while the non-Unicode `i` flag of the pattern compares upper-cased characters. A title of two KELVIN SIGNs (U+212A U+212A) with query `kk` is selected, since `toLowerCase` maps U+212A to `k`. Yet nothing is marked, since the `i` flag maps `k` to `K` and leaves U+212A as it is.
- Highlight.IncludedQueryIsMarked: the same restriction and the same counterexample. It speaks of `Lower`, which changes only `A`-`Z`.
- Highlight.IncludedQueryIsTagged: the same restriction and the same counterexample. A title of two KELVIN SIGNs with query `kk` is included after JavaScript's `toLowerCase`, but gets no `<mark>` tag. The lemma holds for `Lower`, which changes only `A`-`Z`.
- Case mapping outside ASCII: `LowerChar` changes only `A`-`Z`. Unicode `toLowerCase` and the pattern's `i` flag can disagree with it, and with each other, on other characters.
- JavaScript strings with unpaired surrogates cannot be written as Dafny strings.
- Index entries whose fields are not strings: `content` is an optional string, and `title` is required.
- HTML escaping: url, type and title are put into the markup raw, so nothing is claimed about well-formed or safe markup.
- RegexEscape.ParseLiteral reads only the literal fragment of pattern syntax: plain characters and escaped metacharacters. Other escapes, classes and operators give `None`. This is enough for every pattern the widget builds.
- Highlight.HighlightMatch has a branch for a pattern that fails to compile. There JavaScript would throw, and the model returns the title unchanged. `CompileEscaped` shows the branch is never taken.
- Highlight.HighlightRoundTrip: stated only for titles without `<`. A title that itself contains `<mark>` makes "delete the tags" ambiguous. The piece-level round trip `MarkOccurrencesRestores` has no such restriction.
- Highlight.MarkOccurrencesIsHighlighting: stated for non-empty queries only. An empty pattern matches at every character boundary, which the scan models, but the widget never highlights with a query shorter than two code units.
- Render.ResultLinkAt: gives the position of each result's link in the joined markup. It does not count anchors in the final string, because raw titles and urls may contain anchor markup of their own. The positions of a result's type label and highlighted title in the joined markup are not stated as one lemma. They follow by composing it with `Render.ItemFields` through `Render.OccursWithin`.
- The source has no base-path prefix for links or for the index request, and no embedded index. The model follows the code.
