# pdf_reader core, modelled in Dafny

`pdf_reader` is a terminal PDF viewer. It extracts the text of a PDF and
cuts it into pages. It shows one page at a time with a scroll offset, and
lets the user turn pages, jump to a page by number, search the document
case-insensitively, cycle through the hits and see them highlighted.
This project models the part of `src/main.rs` that does not touch the
terminal:

- `text.dfy` (module `Text`): the string operations the viewer relies on,
  as total functions with their laws. These are `trim`, ASCII
  `to_lowercase`, `contains`/`find`, `split`, `lines`, `join` and the
  decimal parse of the page number.
- `pagination.dfy` (module `Pagination`): `split_into_pages` and
  `format_pdf_content`. The 50-line chunk loop is a method that is proved
  against the function `Paginate`.
- `search.dfy` (module `LineSearch`): the hits of a search, namely the
  (page, line) pairs whose lower-cased line contains the lower-cased
  query, in reading order.
- `highlight.dfy` (module `Highlight`): the span computation of the
  content view. The `while let` loop is a method that is proved against
  the function `Highlight`. Concatenating the spans gives back the line,
  and the matches are exactly the leftmost non-overlapping occurrences.
- `app_model.dfy` (module `AppModel`): the state of `App` as a value, one
  function per method of `App`, the invariant every reachable state keeps,
  and the navigation, input and search properties.
- `key_dispatch.dfy` (module `KeyDispatch`): one step of the key handling
  in `run_app`, as a function of the state and the key event.
- `app.dfy` (module `Viewer`): the class `App`, with the source's fields.
  Each method updates the fields in place and is proved to leave exactly
  the state that the matching `AppModel` function describes. The search
  loops are methods proved against `LineSearch`.

One might expect text made only of whitespace to give exactly one (empty)
page, since `split_into_pages` ends with a whole-text fallback for the
case where no page survives. The code does not do that in every case: the
form-feed branch returns before the fallback, so whitespace that contains
a form feed gives no page at all. The model follows the code. `Pagination.PaginateAllBlank` states both cases. The
fallback page exists only in the branch without form feeds, where
`Pagination.FallbackOnlyWhenBlank` shows that it is always empty.

## Model

| member | source | states |
|---|---|---|
| Text.TrimStart | src/main.rs:317 | no contract of its own: `TrimStartFacts` carries its properties |
| Text.TrimEnd | src/main.rs:317 | no contract of its own: `TrimEndFacts` carries its properties |
| Text.Trim | src/main.rs:317 | no contract of its own: `TrimIsTrimmed`, `TrimIsSlice`, `TrimOfTrimmed`, `TrimKeepsOut` and `TrimEmptyIff` carry its properties |
| Text.TrimStartFacts | src/main.rs:317 | `trim_start` removes exactly a leading run of whitespace and leaves a suffix that starts with non-whitespace or is empty |
| Text.TrimEndFacts | src/main.rs:317 | `trim_end` removes exactly a trailing run of whitespace and leaves a prefix that ends with non-whitespace or is empty |
| Text.TrimIsTrimmed | src/main.rs:317 | a trimmed line has whitespace at neither end |
| Text.TrimIsSlice | src/main.rs:317 | `trim` returns a slice of the line with only whitespace outside it |
| Text.TrimOfTrimmed | src/main.rs:317 | trimming a line that is already trimmed changes nothing |
| Text.TrimKeepsOut | src/main.rs:317 | trimming introduces no new character |
| Text.TrimEmptyIff | src/main.rs:289 | `trim().is_empty()` holds exactly for text made only of whitespace |
| Text.Lower | src/main.rs:127 | lower-casing keeps the length, which the highlight loop relies on when it indexes the line with offsets taken from its lower-cased copy |
| Text.FindFrom | src/main.rs:421 | a found position lies at or after the start, and the occurrence there fits inside the text |
| Text.FindFromLeftmost | src/main.rs:421 | `find` returns an occurrence with no earlier occurrence before it, and finds nothing only when there is no occurrence at all |
| Text.OccursShift | src/main.rs:421 | an occurrence in `s[a..]` at `j` is an occurrence in `s` at `a + j`, and conversely |
| Text.FindFromIsFindOnSuffix | src/main.rs:421-422 | `line_lower[last_end..].find(q)` plus `last_end` is the first occurrence in the whole line at or after `last_end` |
| Text.Find | src/main.rs:421 | no contract of its own: it is `FindFrom` from 0, so `FindFrom`, `FindFromLeftmost` and `FindFromIsFindOnSuffix` carry its properties |
| Text.Contains | src/main.rs:131 | no contract of its own: `ContainsIff` carries its property |
| Text.ContainsIff | src/main.rs:131 | `contains` holds exactly when the query occurs at some position |
| Text.Split | src/main.rs:287 | `split` yields at least one piece and no piece contains the separator |
| Text.JoinOfSplit | src/main.rs:287 | joining the pieces of a split with the separator gives back the text |
| Text.SplitCount | src/main.rs:287 | a split yields one piece more than there are separators |
| Text.SplitAllWhitespace | src/main.rs:287-289 | the pieces of whitespace-only text are whitespace-only |
| Text.Lines | src/main.rs:294 | `lines` yields pieces without '\n', nothing for empty text, and the split on '\n' when the text does not end with '\n' |
| Text.LinesAllWhitespace | src/main.rs:294 | the lines of whitespace-only text are whitespace-only |
| Text.Join | src/main.rs:299 | no contract of its own: `JoinOfSplit`, `JoinInjective`, `SplitOfJoin` and `LinesOfJoin` carry its properties |
| Text.JoinInjective | src/main.rs:299 | joining lines that contain no separator loses nothing: equal joins come from equal lines |
| Text.SplitOfJoin | src/main.rs:299 | splitting joined lines gives the lines back |
| Text.SplitSnocSep | src/main.rs:287 | a trailing separator adds exactly one empty piece to a split |
| Text.SplitSnocOther | src/main.rs:287 | any other trailing character only extends the last piece of a split |
| Text.LinesSnocNewline | src/main.rs:294 | appending '\n' to a text leaves its lines as they were or adds one empty line |
| Text.LinesOfJoin | src/main.rs:299 | `lines` of lines joined with '\n' gives the lines back when the last one is not empty |
| Text.ParseNat | src/main.rs:209 | a decimal parse succeeds exactly on a non-empty string of ASCII digits, and then gives their decimal value |
| Text.ShowNat | src/main.rs:209 | a number's decimal form is a non-empty digit string |
| Text.ParseShowNat | src/main.rs:209 | parsing the decimal form of a number gives the number back |
| Pagination.NormalLines | src/main.rs:315-319 | the kept lines are no more than the input lines, and each is non-empty and trimmed |
| Pagination.DropBlank | src/main.rs:289 | the pages kept are no more than the input pages, and none is blank |
| Pagination.DropBlankKeepsNonBlank | src/main.rs:289 | every non-blank page is kept, as many times as it occurs in the input; with `DropBlankKeepsOrder` this pins the result to exactly the non-blank pages in order |
| Pagination.NonBlankChunksArePages | src/main.rs:298-304 | the filtered list contains every non-blank formatted chunk, with the same multiplicity, in input order, each non-empty and normalized |
| Pagination.Chunks | src/main.rs:298 | every chunk has between 1 and 50 lines, and every chunk but the last has exactly 50 |
| Pagination.SplitIntoPages | src/main.rs:284-311 | the loop over the chunks returns exactly `Paginate(text)` |
| Pagination.NormalLinesNoNewline | src/main.rs:315-319 | normalizing lines puts no '\n' into them |
| Pagination.NormalLinesOfNormal | src/main.rs:315-319 | normalizing lines that are already non-empty and trimmed changes nothing |
| Pagination.FormatLines | src/main.rs:313-321 | the lines of a formatted page are the normalized lines of the input |
| Pagination.FormatIsNormalized | src/main.rs:313-321 | a formatted page has no empty line and no line with whitespace at either end |
| Pagination.FormatIdempotent | src/main.rs:313-321 | formatting a formatted page changes nothing |
| Pagination.FormatTrimmed | src/main.rs:313-321 | a formatted page is trimmed, and it is blank exactly when it is empty |
| Pagination.Format | src/main.rs:313-321 | no contract of its own: `FormatLines`, `FormatIsNormalized`, `FormatIdempotent`, `FormatTrimmed` and `FormatEmptyIff` carry its properties |
| Pagination.Paginate | src/main.rs:284-311 | no contract of its own: it is the specification `SplitIntoPages` is proved against, and `PaginateFormFeed`, `PaginateNoFormFeed`, `PaginateExactCount` and `PaginateAllBlank` carry its properties |
| Pagination.DropBlankKeepsOrder | src/main.rs:289 | dropping blank pages keeps the remaining pages in input order |
| Pagination.DropBlankEmpty | src/main.rs:289 | no page survives exactly when every page is blank |
| Pagination.DropBlankNone | src/main.rs:289 | with no blank page nothing is dropped |
| Pagination.NormalLinesEmptyIff | src/main.rs:315-319 | normalizing leaves nothing exactly when every line is blank |
| Pagination.NormalLinesAppend | src/main.rs:315-319 | normalizing works line by line: it distributes over concatenation |
| Pagination.FormatEmptyIff | src/main.rs:313-321 | a page formats to nothing exactly when its normalized lines are none |
| Pagination.NormalLinesOfJoin | src/main.rs:299-300 | formatting a joined chunk sees exactly the chunk's own lines |
| Pagination.ChunkBlankIff | src/main.rs:299-301 | a chunk yields a blank page exactly when all its lines are blank |
| Pagination.FormatAllNormalized | src/main.rs:287-288 | every formatted form-feed segment is a normalized page |
| Pagination.FormatChunksNormalized | src/main.rs:298-300 | every formatted chunk is a normalized page |
| Pagination.PaginateFormFeed | src/main.rs:286-291 | with form feeds: at most one page more than there are form feeds, every page non-empty and normalized, pages in input order, each the formatting of a segment, and every segment that does not format to blank is a page, as often as it occurs |
| Pagination.PaginateNoFormFeed | src/main.rs:293-310 | without form feeds: at least one and at most ⌈L/50⌉ pages, all normalized; every chunk that does not format to blank is a page; either exactly the non-blank formatted chunks, with their multiplicities, in input order, or the single empty fallback page when every line is blank |
| Pagination.FallbackOnlyWhenBlank | src/main.rs:306-308 | the fallback is reached only when every line is blank, and then it is the empty page |
| Pagination.PaginateExactCount | src/main.rs:293-310 | L lines without form feeds and without blank lines give exactly ⌈L/50⌉ pages |
| Pagination.FormatSnocNewline | src/main.rs:313-321 | a trailing '\n' does not change how a page formats |
| Pagination.ChunksSnoc | src/main.rs:298 | one more line starts a new chunk when the last chunk is full (or there is none), and otherwise joins the last chunk |
| Pagination.PaginateTrailingNewline | src/main.rs:284-311 | a text and the same text with a trailing '\n' are split into the same pages |
| Pagination.PaginateAllBlank | src/main.rs:284-310 | whitespace-only text gives no page when it holds a form feed and one empty page otherwise |
| Pagination.ChunksCount | src/main.rs:298 | `chunks(50)` yields ⌈L/50⌉ chunks |
| Pagination.ChunksConcat | src/main.rs:298 | the chunks put back together are the lines, in order |
| LineSearch.PageHits | src/main.rs:129-138 | no contract of its own: `PageHitsMembers` and `PageHitsOrdered` carry its properties, and `Viewer.ScanPages` is proved against it |
| LineSearch.SearchHits | src/main.rs:127-138 | no contract of its own: `SearchMembers`, `SearchOrdered` and `SearchBounds` carry its properties |
| LineSearch.LineHits | src/main.rs:130-137 | a page yields at most one hit per line |
| LineSearch.LineHitsMembers | src/main.rs:130-137 | a (page, line) pair is a hit of a page exactly when that line's lower-cased text contains the query |
| LineSearch.LineHitsOrdered | src/main.rs:130-137 | the hits of a page come in strictly increasing line order |
| LineSearch.PageHitsMembers | src/main.rs:129-138 | a pair is a hit exactly when its page exists, its line exists on that page, and the lower-cased line contains the query |
| LineSearch.PageHitsOrdered | src/main.rs:129-138 | the hits come in strictly increasing (page, line) order |
| LineSearch.SearchMembers | src/main.rs:127-138 | the hits of a query are exactly the lines containing the lower-cased query |
| LineSearch.SearchOrdered | src/main.rs:127-138 | the hits of a query are strictly ordered, so there is one per matching line |
| LineSearch.SearchBounds | src/main.rs:127-138 | every hit names an existing page and an existing line of it |
| Viewer.ScanLines | src/main.rs:130-137 | the inner loop over the lines of a page collects exactly that page's hits |
| Viewer.ScanPages | src/main.rs:129-138 | the outer loop over the pages collects exactly the hits of the document |
| Highlight.Highlight | src/main.rs:415-447 | no contract of its own: it is the specification `HighlightSpans` is proved against, and `HighlightRoundTrip`, `HighlightIsCut`, `HighlightUnique` and `HighlightHasMatchIff` carry its properties |
| Highlight.HighlightFrom | src/main.rs:418-444 | no contract of its own: `HighlightFromTexts` and `HighlightFromCut` carry its properties, and `CutAtMatches` is proved against it |
| Highlight.HighlightSpans | src/main.rs:415-447 | the spans of a line are `Highlight(line, query)` |
| Highlight.CutAtMatches | src/main.rs:416-444 | the loop and the remaining-text push together give the spans `HighlightFrom(line, 0)` |
| Highlight.EmitMatches | src/main.rs:418-437 | the `while let` loop stops where no occurrence is left, having emitted what the specification emits up to that point |
| Highlight.EmitOne | src/main.rs:421-436 | one turn of the loop moves `last_end` strictly forward, past the match, and finds the next match, without changing what the whole loop emits |
| Highlight.FindAfter | src/main.rs:421 | `line_lower[last_end..].find(q)` finds nothing exactly when no occurrence starts at or after `last_end`, and otherwise gives the first such occurrence, counted from `last_end` |
| Highlight.PushMatch | src/main.rs:425-434 | one turn of the loop pushes the text before the match (when there is any) as plain and the match as highlighted |
| Highlight.HighlightAccIsFrom | src/main.rs:418-444 | what the loop emits, followed by the spans of the rest of the line, is the spans of the whole line |
| Highlight.TextsAppend | src/main.rs:415-447 | the text of concatenated spans is the concatenation of their texts |
| Highlight.HighlightFromTexts | src/main.rs:418-444 | the spans from `last_end` on tile `line[last_end..]` exactly |
| Highlight.HighlightRoundTrip | src/main.rs:415-447 | concatenating the texts of a line's spans gives back the line exactly |
| Highlight.HighlightFromCut | src/main.rs:418-444 | the spans are a cut of the line at the leftmost non-overlapping occurrences, and no span is empty |
| Highlight.HighlightIsCut | src/main.rs:415-447 | for a non-empty query, the highlighted spans are non-overlapping occurrences, left to right, with no occurrence starting in plain text |
| Highlight.CutUnique | src/main.rs:418-444 | two canonical cuts with the same text are equal |
| Highlight.HighlightUnique | src/main.rs:415-447 | the spans are the only canonical cut at leftmost occurrences that spells the line |
| Highlight.HighlightHasMatchIff | src/main.rs:415-447 | a line has a highlighted span exactly when the query is non-empty and occurs in it ignoring case; otherwise it is the single plain span of the whole line |
| AppModel.SatSub | src/main.rs:71 | `saturating_sub` is the difference when it is not negative and 0 otherwise |
| AppModel.Inv | src/main.rs:41-52 | no contract of its own: the invariant of the `App` fields (the page is in range or 0, the buffer is empty while navigating and all digits in page-jump mode, the results are exactly `SearchHits` of the query, the result cursor is in range); `Init` establishes it and every `AppModel` operation and `KeyDispatch.Step` preserve it |
| AppModel.Init | src/main.rs:55-68 | a new viewer is on the first page, at its top, in navigation mode, with no search, and satisfies the invariant |
| AppModel.NextPage | src/main.rs:70-75 | next-page keeps the invariant |
| AppModel.PrevPage | src/main.rs:77-82 | previous-page keeps the invariant |
| AppModel.ScrollDown | src/main.rs:84-86 | scrolling down keeps the invariant |
| AppModel.ScrollUp | src/main.rs:88-90 | scrolling up keeps the invariant |
| AppModel.GoHome | src/main.rs:348-351 | the Home key keeps the invariant |
| AppModel.GoEnd | src/main.rs:352-355 | the End key keeps the invariant |
| AppModel.Quit | src/main.rs:92-94 | quitting keeps the invariant |
| AppModel.JumpToPage | src/main.rs:96-104 | a page jump keeps the page index in range |
| AppModel.StartPageJump | src/main.rs:106-110 | entering page-number mode keeps the invariant |
| AppModel.StartSearch | src/main.rs:112-116 | entering search mode keeps the invariant |
| AppModel.CancelInput | src/main.rs:179-183 | cancelling keeps the invariant |
| AppModel.HandleInput | src/main.rs:192-204 | typing keeps the invariant, in particular a page-number buffer of digits only |
| AppModel.Backspace | src/main.rs:226-228 | backspace keeps the invariant |
| AppModel.ParseUsize | src/main.rs:209 | `parse::<usize>` succeeds exactly when the text after an optional leading '+' is a non-empty digit string whose value is at most `usize::MAX`, and then gives that value; the empty text fails |
| AppModel.SubmitInput | src/main.rs:206-224 | submitting keeps the invariant |
| AppModel.ExecuteSearch | src/main.rs:118-146 | a search keeps the invariant: the results are those of the new query and the cursor points into them |
| AppModel.GoToSearchResult | src/main.rs:148-159 | showing a result keeps the page index in range |
| AppModel.NextSearchResult | src/main.rs:161-166 | the next-result cursor stays below the number of results |
| AppModel.PrevSearchResult | src/main.rs:168-177 | the previous-result cursor stays below the number of results |
| AppModel.ClearSearch | src/main.rs:185-190 | clearing the search keeps the invariant |
| AppModel.NextPagesReach | src/main.rs:70-75 | after k presses of next-page the page is min(p + k, last page); only the page and the offset change, and the offset is 0 once the page has moved; when the page cannot move nothing changes, at any offset |
| AppModel.PrevPagesReach | src/main.rs:77-82 | after k presses of previous-page the page is p - k saturated at 0; only the page and the offset change, and the offset is 0 once the page has moved; when the page cannot move nothing changes, at any offset |
| AppModel.PrevAfterNext | src/main.rs:70-82 | below the last page, next-page then previous-page returns to the same page at its top |
| AppModel.HomeEndAreEnds | src/main.rs:348-355 | Home lands on the first page and End on the last one; from there previous-page and next-page change nothing |
| AppModel.ScrollUpsSaturate | src/main.rs:88-90 | k presses of scroll-up reach offset o - k, never below 0, and change nothing else |
| AppModel.ScrollUpAfterDown | src/main.rs:84-90 | scroll-up undoes scroll-down exactly |
| AppModel.JumpToPageIff | src/main.rs:96-104 | a jump succeeds exactly for 1 <= n <= page count and then shows page n - 1 from its top; otherwise only the status changes |
| AppModel.TypeTextSearch | src/main.rs:199-201 | in search mode every typed character is appended to the buffer |
| AppModel.TypeTextPageJump | src/main.rs:194-198 | in page-number mode the typed digits are appended and every other character is dropped |
| AppModel.Digits | src/main.rs:195 | the characters kept in page-number mode are digits, no more than were typed |
| AppModel.TypeTextNormal | src/main.rs:202 | in navigation mode typing changes nothing |
| AppModel.BackspaceUndoesInput | src/main.rs:192-204 | backspace takes back a character that typing appended |
| AppModel.BackspaceRemovesLast | src/main.rs:226-228 | backspace removes exactly the last character of the buffer and nothing else, and does nothing on an empty buffer |
| AppModel.SubmitCancelEndNormal | src/main.rs:179-224 | submitting and cancelling both end in navigation mode with an empty buffer |
| AppModel.SubmitInvalidPage | src/main.rs:207-215 | Enter on a page number that does not parse sets the invalid-input status, returns to navigation and clears the buffer, and changes nothing else |
| AppModel.SubmitEmptyPage | src/main.rs:207-215 | Enter on an empty page-number buffer is such an invalid input, with the same exact new state |
| AppModel.ParseUsizeOverflow | src/main.rs:209 | a digit string whose value exceeds `usize::MAX` does not parse |
| AppModel.ParseUsizeShowNat | src/main.rs:209 | the decimal form of any `usize` parses back to it |
| AppModel.DigitsOfDigits | src/main.rs:195 | typing a digit string in page-number mode keeps all of it |
| AppModel.PageJumpScenario | src/main.rs:96-110 | `g`, the digits of n, Enter: the viewer shows page n from its top when 1 <= n <= page count and otherwise stays on its page with the invalid-page status; it is back in navigation mode either way |
| AppModel.SearchScenario | src/main.rs:112-159 | `/`, a query, Enter: the exact new state. Input mode ends with an empty buffer and the query becomes active. The results are exactly the matching lines, in order. With no results nothing else changes but the status. Otherwise the cursor goes to 0, the page to the first hit's page, the offset to that hit's line minus 5 saturated at 0, and the status reports "1 of n" |
| AppModel.ExecuteSearchExact | src/main.rs:118-159 | the exact state after a search on a non-empty buffer: with no hit only the query, the results and the status change; otherwise the cursor, the page, the offset and the status also go to the first hit |
| AppModel.ExecuteSearchResults | src/main.rs:118-146 | an empty buffer changes only the status; otherwise the buffer becomes the query and the results are exactly the matching lines, strictly ordered |
| AppModel.GoToSearchResultShowsHit | src/main.rs:148-159 | showing a result changes exactly the page (to the result's page), the offset (to the result's line minus 5, saturated at 0) and the status (its position and the count); the line then lies at most 5 lines below the top of the view |
| AppModel.GoToForgetsView | src/main.rs:148-159 | where the view was before does not affect where showing a result leaves it |
| AppModel.NextResultsCycle | src/main.rs:161-166 | for 1 <= k <= n (n the number of results), k presses of next-result show the result k places on, wrapping from the last to the first |
| AppModel.NextResultsCycleMod | src/main.rs:161-166 | for any k >= 1, k presses of next-result show the result at (cursor + k) mod n |
| AppModel.NextResultsFullCycle | src/main.rs:161-166 | pressing next-result as many times as there are results comes back to the same result |
| AppModel.PrevNextResultInverse | src/main.rs:161-177 | previous-result undoes next-result and next-result undoes previous-result |
| AppModel.NoResultsNoMove | src/main.rs:148-177 | with no results, next-result, previous-result and showing a result change nothing |
| KeyDispatch.NormalKey | src/main.rs:329-358 | a key pressed while navigating keeps the invariant |
| KeyDispatch.InputKey | src/main.rs:359-367 | a key pressed while typing keeps the invariant |
| KeyDispatch.Step | src/main.rs:328-368 | every key event keeps the invariant |
| KeyDispatch.NonPressIgnored | src/main.rs:328 | repeats and releases change nothing |
| KeyDispatch.EscRule | src/main.rs:331-337 | Esc while navigating clears an active search and otherwise quits; while typing it abandons the input and nothing else |
| KeyDispatch.QuitIff | src/main.rs:329-337 | a key event asks to quit exactly when it is `q`, or Esc with no active search, pressed while navigating |
| KeyDispatch.InputKeysKeepView | src/main.rs:359-367 | while typing, no key except Enter moves the view or touches the search |
| KeyDispatch.HomeEndKeys | src/main.rs:348-355 | Home shows the first page and End the last, from the top |
| KeyDispatch.PageJumpTakesDigits | src/main.rs:194-198 | while a page number is typed, a digit is appended and any other character is dropped |
| Viewer.App.constructor | src/main.rs:55-68 | the new viewer's fields are those of `Init`, which satisfies the invariant |
| Viewer.App.NextPage | src/main.rs:70-75 | the fields become those of `AppModel.NextPage` of the old fields |
| Viewer.App.PrevPage | src/main.rs:77-82 | the fields become those of `AppModel.PrevPage` of the old fields |
| Viewer.App.ScrollDown | src/main.rs:84-86 | the fields become those of `AppModel.ScrollDown` of the old fields |
| Viewer.App.ScrollUp | src/main.rs:88-90 | the fields become those of `AppModel.ScrollUp` of the old fields |
| Viewer.App.Quit | src/main.rs:92-94 | the fields become those of `AppModel.Quit` of the old fields |
| Viewer.App.JumpToPage | src/main.rs:96-104 | the fields become those of `AppModel.JumpToPage` of the old fields |
| Viewer.App.StartPageJump | src/main.rs:106-110 | the fields become those of `AppModel.StartPageJump` of the old fields |
| Viewer.App.StartSearch | src/main.rs:112-116 | the fields become those of `AppModel.StartSearch` of the old fields |
| Viewer.App.ExecuteSearch | src/main.rs:118-146 | the fields, including the results collected by the nested loops, become those of `AppModel.ExecuteSearch` of the old fields |
| Viewer.App.GoToSearchResult | src/main.rs:148-159 | the fields become those of `AppModel.GoToSearchResult` of the old fields |
| Viewer.App.NextSearchResult | src/main.rs:161-166 | the fields become those of `AppModel.NextSearchResult` of the old fields |
| Viewer.App.PrevSearchResult | src/main.rs:168-177 | the fields become those of `AppModel.PrevSearchResult` of the old fields |
| Viewer.App.CancelInput | src/main.rs:179-183 | the fields become those of `AppModel.CancelInput` of the old fields |
| Viewer.App.ClearSearch | src/main.rs:185-190 | the fields become those of `AppModel.ClearSearch` of the old fields |
| Viewer.App.HandleInput | src/main.rs:192-204 | the fields become those of `AppModel.HandleInput` of the old fields |
| Viewer.App.SubmitInput | src/main.rs:206-224 | the fields become those of `AppModel.SubmitInput` of the old fields |
| Viewer.App.Backspace | src/main.rs:226-228 | the fields become those of `AppModel.Backspace` of the old fields |
| Viewer.App.HandleKey | src/main.rs:327-368 | one key event leaves the fields `KeyDispatch.Step` describes and keeps the invariant |

## Left out

- PDF extraction (`read_pdf`, `pdf_extract::extract_text`) is a foreign library call. The model starts from the extracted text as a string.
- The terminal is not modelled: raw mode and the alternate screen in `main`, `event::read` and `terminal.draw` in `run_app`, and the ratatui layout, widgets and colours in `ui`. One key event is one `KeyDispatch.Step`. The loop that repeats it until `should_quit` is not modelled.
- The command line (`clap`) and the exit on an empty document in `main` are not modelled.
- The status line is an abstract tag (`AppModel.Status`) that carries the numbers and the query the message prints, not the formatted text.
- Text.Lower: lower-casing is ASCII only, so it keeps the length. Rust's Unicode `to_lowercase` can change byte lengths, and then the source's highlight offsets, which are computed on the lower-cased line and use the original query's length, no longer line up.
- Text.Lines: `lines()` splits on '\n' and drops one trailing empty piece. Stripping the '\r' of a "\r\n" ending is not modelled; on the pages it is invisible, because every line is trimmed.
- Text.Trim: whitespace is a fixed set of code points (Unicode White_Space), matched character by character.
- Strings are sequences of characters, not UTF-8 bytes. Byte offsets and char-boundary panics of Rust slicing are not modelled.
- AppModel.ScrollDown: `scroll_offset + 1` is unbounded; the `usize` overflow at 2^64 - 1 is not modelled.
- AppModel.ParseUsize: accepts an optional '+' and digits up to 2^64 - 1, as `parse::<usize>` does on a 64-bit target. The page-number buffer only ever holds digits, so the '+' case is never reached from the keyboard.
- The view's own skipping of `scroll_offset` lines and the `Wrap` of the paragraph are rendering; only the spans of one line are modelled (`Highlight.Highlight`).
