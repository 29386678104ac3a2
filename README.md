# Autocomplete widget — a Dafny model

This project models the autocomplete widget of `components/Autocomplete.tsx`: a text input with a dropdown
of suggestions drawn from a fixed candidate list (`data`). Without React and the DOM, the widget is a small
state machine over five state fields: `hide`, `input`, `suggestions`, `selected` and `activeIndex`. One
more field, `pending`, records whether a debounce timer is scheduled. One pure computation chooses the
suggestions: a case-insensitive substring filter that keeps candidate order and falls back to the whole
list when nothing matches.

The project has three modules:

- `AutocompleteFilter` (`filter.dfy`) covers the filter of `handleSuggestions` as functions. It contains
  - `Lower`, an ASCII stand-in for `toLowerCase`;
  - `Includes`, the substring test of `String.prototype.includes`;
  - `Matches`, `Filter` and `Suggest`.

  The lemmas say that `Filter` is exactly the ordered sub-sequence of matching candidates, and that
  `Suggest` falls back to all of `data`.
- `AutocompleteWidget` (`widget.dfy`) holds the class `Autocomplete`. Its fields are the widget's state,
  and each handler is a method with a `modifies this` frame. The object invariant `Valid()` holds in every
  reachable state. It says:
  - every suggestion is a candidate;
  - the suggestions never outnumber the candidates;
  - the suggestions are never empty unless `data` is, so "No suggestions" only ever shows for an empty
    candidate list;
  - `activeIndex` is -1, 0, or an index into `data`. It may still point past the current
    suggestions.

  The arrow-key index updates are the functions `NextIndex` and `PrevIndex`. Every method requires and
  ensures `Valid()` and states the whole new state.
- `AutocompleteScenarios` (`scenarios.dfy`) drives the widget through concrete traces over
  `["apple", "banana", "cherry"]`, calling the handlers in React's order.

How the model treats the source's runtime:

- The 500 ms debounce is not modelled as time. Instead, `InputEffect` is one run of the input effect: it
  clears any old timer and, unless a selection was just made, schedules a new one (`pending`).
  `DebounceFire` is that timer firing with the latest `input`.
- A click on the document is reduced to a boolean: whether the click landed outside the widget.

Where the code and the design intent differ, the model follows the code, except for the one defect
recorded under Findings:

- Enter reads `suggestions[activeIndex]` without a bounds check. This is modelled as written
  (`KeyEnterAsWritten`) and also corrected (`KeyEnter`); the key handler `KeyDown` uses the corrected
  `KeyEnter`. See Findings.
- A non-empty re-filter does not reset the highlighted index. The model keeps that behaviour, so the
  index can be left past the end of the new list (`StaleIndexScenario`).

## Model

| member | source | states |
|---|---|---|
| `AutocompleteFilter.Lower` | components/Autocomplete.tsx:52 | `toLowerCase` (ASCII): same length, no upper-case letter left, every other character kept; its partners are `LowerIdempotent` and `MatchIgnoresCase` |
| `AutocompleteFilter.Includes` | components/Autocomplete.tsx:52 | `String.prototype.includes`: a longer string is never included, a prefix or suffix always is; its partner `IncludesIffOccurs` characterizes it completely |
| `AutocompleteFilter.Matches` | components/Autocomplete.tsx:52 | the filter callback: a query longer than the candidate never matches, and a query equal to it up to case always does; its partner is `MatchIgnoresCase` |
| `AutocompleteFilter.LowerIdempotent` | components/Autocomplete.tsx:52 | lower-casing an already lower-cased string changes nothing |
| `AutocompleteFilter.IncludesIffOccurs` | components/Autocomplete.tsx:52 | `includes(s, t)` holds exactly when `t` occurs at some position of `s`, so the empty query is included everywhere |
| `AutocompleteFilter.MatchIgnoresCase` | components/Autocomplete.tsx:52 | whether a candidate matches does not change when the candidate or the query is lower-cased first |
| `AutocompleteFilter.EmptyQueryMatches` | components/Autocomplete.tsx:52 | the empty query matches every candidate |
| `AutocompleteFilter.Filter` | components/Autocomplete.tsx:51-53 | the filter result is no longer than `data` and every element of it is a candidate (that it keeps exactly the matches is `FilterSelectsMatches`) |
| `AutocompleteFilter.ShiftMembership` | components/Autocomplete.tsx:51-53 | proof step of `FilterSelectsMatches`: after every position is shifted up by one, `j` is listed exactly when `j - 1` was listed before |
| `AutocompleteFilter.PicksShift` | components/Autocomplete.tsx:51-53 | proof step of `FilterSelectsMatches`: reading the tail of `data` at some positions is reading `data` at those positions plus one, with or without the head in front |
| `AutocompleteFilter.MatchIndicesPick` | components/Autocomplete.tsx:51-53 | each match position is a valid index into `data`, and the filter result at rank k is the candidate at the k-th match position |
| `AutocompleteFilter.MatchIndicesIncreasing` | components/Autocomplete.tsx:51-53 | match positions are non-negative and strictly increasing, so the filter keeps candidate order |
| `AutocompleteFilter.MatchIndicesComplete` | components/Autocomplete.tsx:51-53 | a position is a match position exactly when the candidate there matches |
| `AutocompleteFilter.FilterSelectsMatches` | components/Autocomplete.tsx:51-53 | the filter result is exactly the ordered sub-sequence of `data` made of the matching candidates |
| `AutocompleteFilter.FilterMembership` | components/Autocomplete.tsx:51-53 | a string is in the filter result exactly when it is a candidate and it matches |
| `AutocompleteFilter.FilterEmptyIffNoMatch` | components/Autocomplete.tsx:51-54 | the filter keeps nothing exactly when no candidate matches |
| `AutocompleteFilter.FilterEmptyQuery` | components/Autocomplete.tsx:13 | filtering with the empty query keeps all of `data`, so the initial suggestion list is itself a filter result |
| `AutocompleteFilter.Suggest` | components/Autocomplete.tsx:50-59 | the new suggestions are all candidates, are no more than `data`, and are non-empty whenever `data` is non-empty |
| `AutocompleteFilter.SuggestFallback` | components/Autocomplete.tsx:54-58 | with no matching candidate the suggestions are all of `data`; with some match they are exactly the filter result |
| `AutocompleteFilter.SuggestMembership` | components/Autocomplete.tsx:54-58 | when some candidate matches, a string is suggested exactly when it is a matching candidate |
| `AutocompleteWidget.NextIndex` | components/Autocomplete.tsx:79 | ArrowDown moves to `(i + 1) mod n`; from -1 it goes to 0; for a non-empty list and a start in [-1, n) the result is in [0, n) |
| `AutocompleteWidget.PrevIndex` | components/Autocomplete.tsx:81 | ArrowUp moves to `(i + n - 1) mod n`; from -1 it goes to the last row; for a non-empty list and a start in [-1, n) the result is in [0, n) |
| `AutocompleteWidget.NavigationRoundTrip` | components/Autocomplete.tsx:78-81 | within the list, ArrowUp undoes ArrowDown and ArrowDown undoes ArrowUp |
| `AutocompleteWidget.NextIndexIterWraps` | components/Autocomplete.tsx:79 | up to n presses of ArrowDown walk forward from the start and wrap past the end exactly once |
| `AutocompleteWidget.NavigationCycles` | components/Autocomplete.tsx:79 | n presses of ArrowDown in a list of n return to the starting row |
| `AutocompleteWidget.StaleIndexSurvivesArrowUp` | components/Autocomplete.tsx:81 | ArrowUp from an index more than one past the end still leaves it outside the list |
| `AutocompleteWidget.Autocomplete.constructor` | components/Autocomplete.tsx:11-15 | on mount the dropdown is hidden, the input is empty, the suggestions are all of `data`, nothing is selected, the index is 0 and no timer is scheduled; `Valid()` holds |
| `AutocompleteWidget.Autocomplete.InputEffect` | components/Autocomplete.tsx:20-36 | just after a selection: hides the dropdown, clears `selected` and schedules nothing; otherwise: schedules the timer and changes nothing else; input, suggestions and index are unchanged |
| `AutocompleteWidget.Autocomplete.DebounceFire` | components/Autocomplete.tsx:27-33 | non-empty input: suggestions become `Suggest(data, input)`, the dropdown opens and the index is untouched; empty input: suggestions become `data`, the index becomes -1 and `hide` is unchanged; `Valid()` is kept |
| `AutocompleteWidget.Autocomplete.InputChange` | components/Autocomplete.tsx:60-63 | the input becomes the new text and `selected` is cleared; nothing else changes |
| `AutocompleteWidget.Autocomplete.Select` | components/Autocomplete.tsx:65-70 | input := item, dropdown hidden, index := the chosen row, `selected` set; suggestions unchanged |
| `AutocompleteWidget.Autocomplete.ClickSuggestion` | components/Autocomplete.tsx:138 | clicking row `index` puts that suggestion, which is a candidate, into the input, closes the dropdown and highlights the row |
| `AutocompleteWidget.Autocomplete.InputClick` | components/Autocomplete.tsx:72-75 | toggles `hide` and changes nothing else |
| `AutocompleteWidget.Autocomplete.ClickOutside` | components/Autocomplete.tsx:39-43 | a click outside hides the dropdown, a click inside changes nothing; input, suggestions and index are never changed |
| `AutocompleteWidget.Autocomplete.KeyEnterAsWritten` | components/Autocomplete.tsx:82-83 | Enter as written: only defined when the index lies in the current list, and then it selects `suggestions[activeIndex]` |
| `AutocompleteWidget.Autocomplete.KeyEnter` | components/Autocomplete.tsx:82-83 | guarded Enter: selects the highlighted suggestion when the index is in range and otherwise changes nothing |
| `AutocompleteWidget.Autocomplete.KeyDown` | components/Autocomplete.tsx:77-87 | ArrowDown and ArrowUp apply `NextIndex` and `PrevIndex` to the current list length; Enter behaves as `KeyEnter`; Escape only hides the dropdown; other keys change nothing; suggestions are never changed |
| `AutocompleteScenarios.IncludedCharsOccur` | components/Autocomplete.tsx:52 | every character of an included string occurs in the including string |
| `AutocompleteScenarios.LowerOfLowercase` | components/Autocomplete.tsx:52 | lower-casing leaves a string without upper-case ASCII letters unchanged |
| `AutocompleteScenarios.MissingCharNoMatch` | components/Autocomplete.tsx:52 | a lower-case candidate that lacks one character of a lower-case query does not match it |
| `AutocompleteScenarios.FruitsMatchingAn` | components/Autocomplete.tsx:50-59 | over apple, banana and cherry, the query "an" suggests only "banana" |
| `AutocompleteScenarios.FruitsMatchingXyz` | components/Autocomplete.tsx:54-55 | over apple, banana and cherry, the query "xyz" matches nothing and falls back to all three |
| `AutocompleteScenarios.Mount` | components/Autocomplete.tsx:20-33 | after mount and the first debounce, the suggestions are all of `data`, the index is -1 and the dropdown is still hidden |
| `AutocompleteScenarios.Type` | components/Autocomplete.tsx:60-63 | a keystroke followed by the effect and the timer leaves the input set, `selected` cleared and the suggestions re-filtered, or reset when the input is empty |
| `AutocompleteScenarios.FruitScenario` | components/Autocomplete.tsx:20-87 | "an" gives [banana]; "xyz" gives all three; ArrowDown twice from -1 then Enter selects "banana"; the next effect run closes the dropdown without re-filtering; clearing the query restores all three and the index -1 |
| `AutocompleteScenarios.StaleIndexScenario` | components/Autocomplete.tsx:77-83 | after highlighting "cherry" and then typing "an", the index is 2 while the list has one entry; the guarded Enter then changes nothing |
| `AutocompleteScenarios.ClearedIndexScenario` | components/Autocomplete.tsx:82-83 | after the mount debounce fires with the empty input, the index is -1 while the list is full; the guarded Enter then changes nothing |

## Left out

- Rendering (components/Autocomplete.tsx:88-146) is not modelled: the JSX, CSS classes, the chevron icon and the ARIA attributes. The dropdown is visible exactly when `hidden` is false, and "No suggestions" shows when the list is empty.
- Registering and removing the document click listener, and the DOM `contains` test (lines 39-47), are not modelled. The click target is reduced to a boolean argument of `ClickOutside`.
- `setTimeout`, `clearTimeout` and the 500 ms delay are not modelled. The model has a `pending` flag set by `InputEffect` and a `DebounceFire` step that requires it. Only the latest input is ever filtered, because each effect run clears the previous timer.
- React runs the effect only when `input` or `data` changed (the dependency list at line 36). The model does not track that comparison; `InputEffect` is one run of the effect, to be called on mount and after each render that changed `input`. So the model does not capture what happens when a selection writes the text already in the input: React skips the effect, `selected` stays set, and an already scheduled timer still fires.
- `data` never changes after mount. Re-running the effect on a new candidate list is not modelled.
- `inputRef.current?.focus()` (line 74) is a DOM side effect and is not modelled.
- `toLowerCase` is modelled for ASCII only ('A'..'Z'). Unicode case mapping is not modelled.
- app/autocomplete/page.tsx is not part of this model. It only lays out the page and supplies a static fruit list, and the scenarios use three of those fruits.
- React's functional updates and update batching are modelled as plain assignments. Each handler's updates take effect together, before the next render.
- AutocompleteWidget.Autocomplete.Select: requires `0 <= index < |suggestions|`, although `handleSelect` itself checks nothing. Its click caller passes a row index. Its Enter caller is modelled separately: as written in `KeyEnterAsWritten` and guarded in `KeyEnter`.
- AutocompleteWidget.Autocomplete.KeyDown: its Enter branch is the corrected `KeyEnter`, a no-op when the index is outside the current list. Lines 82-83 instead call `handleSelect(undefined, activeIndex)` there, which sets `selected` and `hide` and writes `undefined` into `input`; that out-of-range behaviour is not modelled (see Findings).
- AutocompleteWidget.Autocomplete.KeyEnterAsWritten: requires the index to be in range. The model does not say what JavaScript does out of range: `input` becomes `undefined`. The scenarios show reachable states where the requirement fails.

## Findings

| source | as written | input that shows it | evidently intended | confidence | as-written member | corrected member |
|---|---|---|---|---|---|---|
| components/Autocomplete.tsx:82-83 | Enter calls `handleSelect(suggestions[activeIndex], activeIndex)` with no bounds check. A non-empty re-filter (lines 27-29) keeps the old index, and clearing the query sets it to -1 (line 32). | Candidates apple, banana, cherry. Press ArrowDown three times and type "an": the index is 2 and the list holds one entry. Or, once the mount debounce has fired with the empty input (line 32), the index is -1. | Enter selects only when a row is highlighted and otherwise does nothing. | not executed | `AutocompleteWidget.Autocomplete.KeyEnterAsWritten` (out-of-range states exhibited by `AutocompleteScenarios.StaleIndexScenario` and `AutocompleteScenarios.ClearedIndexScenario`) | `AutocompleteWidget.Autocomplete.KeyEnter` |
