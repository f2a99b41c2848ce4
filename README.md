# ng-gplaces-autocomplete in Dafny

This project models the decision logic of `ng-gplaces-autocomplete`. That is an AngularJS attribute directive (`g-places-autocomplete`). It turns a text input into a Google Places autocomplete with a drawer of predictions. The model covers four parts:

- **The custom-place matcher** (`getCustomPlaceMatches`).
  - It splits a custom place's `formatted_address` on commas and trims each fragment.
  - It walks the fragments while consuming a copy of the typed query.
  - It records `matched_substrings` (`{length, offset: fragment number}`) and one `terms` entry per fragment (`{value, offset: indexOf(value)}`).
- **The prediction builder and merge** (`getCustomPlacePredictions` and the predictions callback of `parse`).
  - Matching custom places become predictions marked custom.
  - The list is the custom predictions, then the remote ones when the status is OK, cut down to five.
- **The selection state machine** (`onKeydown`, `onBlur`, `select`, `clearPredictions`, the drawer's `isOpen`/`isActive`/`selectActive`/`selectPrediction`, and the ngModel formatter `format`).
  - The scope fields `query`, `predictions`, `active`, `selected`, `model`, `forceSelection` and `customPlaces` form the value `Widget.ScopeState`.
  - Each handler is a pure transition on that value.
  - Each handler is also a method of the class `Widget.Autocomplete`. That class holds the same fields and updates them in place, as the directive's scope does. Each method is proved to follow its transition.
- **The display filters of the bundle**: `highlightMatched`, `unmatchedTermsOnly` and `trailingComma`.

The JavaScript built-ins the directive uses are modelled with their JavaScript semantics (module `JsString`):
- `trim` and its whitespace set.
- `split` on one character, which always yields at least one piece.
- `indexOf`, which returns the first occurrence.
- `lastIndexOf` with a start position.
- `replace` with a string pattern, which replaces only the first, case-sensitive occurrence.
- `substr`, which clamps its arguments.
- `toLowerCase`, restricted to ASCII.

Key `%` is JavaScript's remainder (`Widget.JsRem`), whose sign follows the dividend. The falsy-zero test in the Up handler is kept as written: Up with nothing active (-1) gives -2. Repeated Up keeps lowering it: -3, -4, and so on. With n >= 2 predictions, Down from any index from -n to -2 moves up by one, so Down from -2 gives -1 (`Widget.DownFromNegative`). With one prediction Down from -2 gives 0, because JavaScript's `-1 % 1` is -0 (`Widget.DownSingleFromNegative`). From -n-1 the remainder likewise reaches -0, so Down gives 0 (`Widget.DownFromMinusLengthMinusOne`).

Files:
- `wrappers.dfy`: `Option`.
- `places.dfy`: places, predictions, matched substrings, terms and the model value.
- `js_string.dfy`: the JavaScript string built-ins.
- `seqs.dfy`: order-preserving filtering.
- `custom_match.dfy`: the matcher and the custom predictions.
- `widget.dfy`: the scope, its transitions and the `Autocomplete` class.
- `filters.dfy`: the display filters.

Where the two sources differ, both are modelled. `src/directives.js` defers the clearing on blur to a 200 ms timer. The bundle clears immediately. `Widget.BlurDeferredThenClear` proves that the two agree once the timer has run.

## Behaviour kept as written

The matcher tests prefixes case-insensitively but cuts the matched fragment from the query with a case-sensitive `replace`, which removes the first literal occurrence wherever it is. Two consequences follow:
- A fragment may start the query only up to case and occur nowhere in it literally. It is then recorded as a match, yet the query is only trimmed, not shortened. The next fragment is tested against the whole query again, and usually the matching stops. `CustomMatch.CaseMismatchKeepsQuery` states this.
- If such a fragment does occur literally later in the query, that later copy is cut instead. For example, the query `aA` with the fragment `A` leaves `a` (`CustomMatch.LiteralCopyCutLater`).

No fragment contains a comma. A comma the user typed therefore stays at the front of the query once the preceding fragment has been cut away, and it ends the matching. `CustomMatch.FragmentsCommaFree` and `CustomMatch.CommaEndsMatching` state this. The model keeps both behaviours instead of correcting them.

Because Up from nothing active goes below -1, a forced commit can commit a negative index. Under `forceSelection`, Enter or Tab from -2 or below sets `selected` to that index and keeps the list. The `select` that follows finds no prediction there and changes nothing (`Widget.ForcedCommitFromBelow`). `Widget.ForcedCommitNeverClears` covers only indexes from -1 up.

## Model

| member | source | states |
|---|---|---|
| JsString.Trim | src/directives.js:233 | `trim` never lengthens its input; `TrimWithin` and `TrimEnds` say which run it keeps |
| JsString.TrimWithin | src/directives.js:233 | `trim` keeps one contiguous run of the piece and removes only whitespace before and after it |
| JsString.TrimEnds | src/directives.js:233 | what `trim` returns is empty, or starts and ends with a non-whitespace character |
| JsString.IndexOf | src/directives.js:253 | `indexOf` returns -1 or a position at which the searched string fits inside the subject |
| JsString.IndexOfFromFirst | src/directives.js:253 | the search from a start position returns the first occurrence at or after it, and -1 only when there is none |
| JsString.IndexOfFirst | src/directives.js:253 | `indexOf` returns the first occurrence, and -1 exactly when the string does not occur |
| JsString.LastIndexOf | src/directives.js:275 | `lastIndexOf(x, position)` with the position clamped to the string; `LastIndexOfLast` states what it returns |
| JsString.LastIndexOfAtLast | src/directives.js:275 | the backward search from a position finds the last occurrence at or before it, and -1 only when there is none |
| JsString.LastIndexOfLast | src/directives.js:275 | `lastIndexOf(x, position)` returns the last occurrence no later than the clamped position, and -1 only when there is none |
| JsString.ReplaceFirst | src/directives.js:244 | `replace` with a string pattern and a replacement without `$` patterns (the directive passes `''`) replaces the first occurrence `indexOf` finds and nothing else; `ReplaceFirstFacts` states its cases |
| JsString.ReplaceFirstFacts | src/directives.js:244 | `replace` changes nothing when the pattern does not occur; it removes the leading copy when the subject starts with the pattern; otherwise it changes the length by the difference of the two strings |
| JsString.Split | src/directives.js:231 | `split` yields at least one piece |
| JsString.SplitPiecesFree | src/directives.js:231 | no piece of a split contains the separator |
| JsString.JoinSplit | src/directives.js:231 | joining the pieces with the separator gives back the address |
| JsString.SplitJoin | src/directives.js:231 | splitting a join of separator-free pieces gives back the pieces |
| JsString.SplitPieceAt | src/directives.js:231 | every piece occurs in the address, and the first piece occurs at position 0 |
| JsString.Substr | dist/ng-gplaces-autocomplete-0.2.4.js:411-412 | `substr` is at most as long as the string; it is empty from a start at or past the end; without a length it is the suffix from the start; with a non-negative start and length it is the first `min(length, available)` characters of that suffix |
| JsString.SubstrSplit | dist/ng-gplaces-autocomplete-0.2.4.js:411-412 | `substr(o, l)` followed by `substr(o + l)` is `substr(o)` |
| JsString.LowerCase | src/directives.js:279 | lower-casing keeps the length |
| Seqs.Filter | src/directives.js:202-218 | an order-preserving selection is no longer than its input |
| Seqs.FilterIndices | src/directives.js:202-218 | the selection keeps, at strictly increasing positions and in order, exactly the elements satisfying the condition |
| Seqs.FilterIndicesStep | src/directives.js:202-218 | appending one element extends the kept positions by that element's position exactly when it satisfies the condition |
| CustomMatch.ToLower | src/directives.js:278-280 | `toLower` of null is `""`; of a string it has the string's length |
| CustomMatch.StartsWith | src/directives.js:274-276 | `startsWith` as `toLower(a).lastIndexOf(toLower(b), 0) === 0`; `StartsWithIsPrefix` states its meaning |
| CustomMatch.StartsWithIsPrefix | src/directives.js:274-276 | `startsWith(a, b)` holds exactly when lower-cased `b` is a prefix of lower-cased `a`, and always when `b` is empty |
| CustomMatch.MatchStep | src/directives.js:235-248 | one pass of the loop body only ever appends to the matches, at most one match per fragment |
| CustomMatch.Consume | src/directives.js:244 | what is left of the query after a matched fragment is cut, `q.replace(fragment, '').trim()`, is never longer than before; `ConsumeLiteralPrefix` and `CaseMismatchKeepsQuery` state the case-sensitive cut, and `LiteralCopyCutLater` shows a cut away from the front |
| CustomMatch.Fragments | src/directives.js:231-233 | the fragments are the trimmed comma-separated pieces of the address, at least one; `FragmentAt` and `FragmentsCommaFree` state what each holds |
| CustomMatch.MatchState | src/directives.js:232-249 | the matcher's state after the first `i` fragments; `GetCustomPlaceMatches` proves the loop equal to it, and `MatchesContiguous`, `MatchingStopsForGood`, `LongBranchIsLast` and `MatchLengthsWhole` state its shape |
| CustomMatch.TermsOf | src/directives.js:251-254 | one term per fragment; `TermsOnePerPiece` states each term's value and offset |
| CustomMatch.CustomPlaceMatches | src/directives.js:223-261 | what `getCustomPlaceMatches` returns: the matches of the fold over the fragments and the terms of the address; `MatchedSubstringsShape` and `TermsOnePerPiece` state their shape |
| CustomMatch.MatchFragment | src/directives.js:235-248 | one pass of the loop body advances the matcher from its state after `i` fragments to its state after `i + 1` |
| CustomMatch.FragmentAt | src/directives.js:231-254 | there are as many fragments and terms as split pieces; fragment `i` is the trimmed piece `i`; term `i` pairs it with its first position in the address |
| CustomMatch.GetCustomPlaceMatches | src/directives.js:223-261 | the loop returns the matches and terms of the fold over the fragments |
| CustomMatch.TermsOnePerPiece | src/directives.js:231-254 | one term per comma-separated piece, in order; its value is the trimmed piece; its offset is non-negative and is the first position at which that value occurs in the address |
| CustomMatch.EmptyQueryState | src/directives.js:235 | with an empty query no fragment changes the matcher's state |
| CustomMatch.EmptyQueryMatchesNothing | src/directives.js:224-249 | an empty query yields no matched substrings |
| CustomMatch.MatchesContiguous | src/directives.js:235-248 | the match offsets are exactly 0, 1, ..., k-1 with k at most the number of fragments visited; once a fragment went unmatched the query is spent |
| CustomMatch.MatchesGrow | src/directives.js:238-243 | matches are only ever appended |
| CustomMatch.MatchingStopsForGood | src/directives.js:240-246 | after the first fragment that fails, no later fragment adds a match |
| CustomMatch.MatchLengthsFit | src/directives.js:236-243 | every match is at most as long as the fragment at its offset |
| CustomMatch.LongBranchIsLast | src/directives.js:236-240 | a match taken because the fragment was at least as long as the rest of the query is the last one: the query is spent and no later fragment changes the state |
| CustomMatch.MatchLengthsWhole | src/directives.js:236-243 | every match but the last covers its whole fragment; while query text remains, so does the last one |
| CustomMatch.MatchedSubstringsShape | src/directives.js:223-261 | for the directive's own string operations: at most one match per fragment, offsets 0..k-1, lengths within their fragments, all but the last whole |
| CustomMatch.ConsumeLiteralPrefix | src/directives.js:244 | a fragment that literally starts the query is cut from its front, and the rest is trimmed |
| CustomMatch.CaseMismatchKeepsQuery | src/directives.js:242-244 | a shorter fragment that starts the query only up to case and occurs nowhere in it literally is recorded as a match, yet the query is only trimmed, not shortened |
| CustomMatch.LiteralCopyCutLater | src/directives.js:242-244 | with the query `aA`, the fragment `A` is matched and `replace` cuts the later literal `A`, leaving `a` |
| CustomMatch.FragmentsCommaFree | src/directives.js:231-233 | no fragment contains a comma |
| CustomMatch.CommaEndsMatching | src/directives.js:235-248 | with a comma at the front of the query, the next non-empty fragment records no match and ends the matching |
| CustomMatch.FirstMatchIsQueryPrefix | src/directives.js:236-243 | the first match is at fragment 0; its length is the shorter of the query's and the first fragment's lengths; the two agree on it once lower-cased |
| CustomMatch.HasMatchIff | src/directives.js:234-243 | a place matches exactly when the query is non-empty and, up to case, the query starts the first fragment (when the fragment is at least as long) or the first fragment starts the query (otherwise) |
| CustomMatch.LabelOf | src/directives.js:211 | the label is the place's own label when that is present and non-empty, and `(Custom Non-Google Result)` when it is absent or empty |
| CustomMatch.HasMatch | src/directives.js:206 | a place yields a prediction when its matched substrings are non-empty; `HasMatchIff` states when that happens in terms of the query and the first fragment |
| CustomMatch.PredictionFor | src/directives.js:207-216 | the prediction record pushed for a matching place; `CustomPredictionsExact` states each of its fields |
| CustomMatch.CustomPredictions | src/directives.js:198-221 | what `getCustomPlacePredictions` returns, never more predictions than places; `CustomPredictionsExact` states which |
| CustomMatch.CustomPredictionsSnoc | src/directives.js:202-218 | one more custom place adds its prediction at the end exactly when it matches |
| CustomMatch.PushIfMatches | src/directives.js:203-217 | one pass of the loop body extends the custom predictions of the first `i` places to those of the first `i + 1` |
| CustomMatch.GetCustomPlacePredictions | src/directives.js:198-221 | the loop returns the custom predictions of the places |
| CustomMatch.CustomPredictionsExact | src/directives.js:198-220 | in custom-place order, one prediction for each place with non-empty matches and none for the others; each is custom, describes its place by its address, carries its label and that place's matched substrings and terms |
| Widget.ArrayIndexOf | src/directives.js:263-272 | -1 exactly when the array is null or lacks the item; otherwise the first position holding it |
| Widget.JsRem | src/directives.js:70 | JavaScript remainder: below the divisor in absolute value, with the dividend's sign, and dividend = truncated quotient × divisor + remainder |
| Widget.Cleared | src/directives.js:192-196 | nothing active, nothing selected, no predictions; everything else unchanged |
| Widget.Keydown | src/directives.js:64-92 | key handling changes only `active`, `selected` and `predictions` |
| Widget.Blur | dist/ng-gplaces-autocomplete-0.2.4.js:101-128 | the bundle's blur never changes the query, `forceSelection` or the custom places |
| Widget.BlurDeferred | src/directives.js:94-122 | the deferred blur leaves the query, the list and `active` as they were |
| Widget.SelectStep | src/directives.js:124-144 | `select` never changes the query, `forceSelection` or the custom places |
| Widget.Truncate | src/directives.js:166-168 | truncation keeps the first `min(n, length)` entries |
| Widget.MergePredictions | src/directives.js:161-169 | the merged list holds at most five predictions; `MergeOrder` states its order |
| Widget.PredictionsArrived | src/directives.js:153-170 | after the callback the list is the merge of the query's custom predictions and the remote ones; nothing is active or selected; the query, model, `forceSelection` and custom places are unchanged |
| Widget.CustomFor | src/directives.js:158-161 | without custom places no custom prediction is added, and with them there are never more than places; `PredictionsArrived` and `MergeOrder` state where they go in the list |
| Widget.Format | src/directives.js:176-186 | `format` returns a string model unchanged, an object's `formatted_address`, and `""` for anything else |
| Widget.KeydownIgnored | src/directives.js:64-66 | a keydown is a no-op with an empty list or a key that is not tab, enter, esc, up or down |
| Widget.DownWraps | src/directives.js:70-71 | Down from -1..n-2 goes to the next index, from n-1 to 0, and stays in range |
| Widget.DownFromNegative | src/directives.js:70-71 | with n >= 2 predictions, Down from any index from -n to -2 goes to `active + 1`, because the remainder keeps the dividend's sign |
| Widget.DownFromMinusLengthMinusOne | src/directives.js:70-71 | Down from -n-1, which repeated Up can reach, wraps to 0, because `-n % n` is -0 |
| Widget.DownSingleFromNegative | src/directives.js:70-71 | with one prediction, Down from -2 gives 0 |
| Widget.UpSteps | src/directives.js:73-74 | Up goes to the previous index, and from 0 to n-1 |
| Widget.UpFromNothingActive | src/directives.js:73-74 | Up with nothing active (-1) gives -2 |
| Widget.EscapeClears | src/directives.js:87-90 | Escape leaves nothing active, nothing selected and no predictions |
| Widget.CommitSelects | dist/ng-gplaces-autocomplete-0.2.4.js:83-93 | Enter/Tab: with `forceSelection` an inactive list commits 0; `selected := active`; a commit of -1 clears the list and any other commit keeps it |
| Widget.ForcedCommitNeverClears | dist/ng-gplaces-autocomplete-0.2.4.js:83-93 | with `forceSelection` and `active >= -1`, Enter/Tab always selects something and keeps the list |
| Widget.BlurEmptyList | dist/ng-gplaces-autocomplete-0.2.4.js:102-116 | with an empty list, blur only sets the model to `''`, and only under `forceSelection` |
| Widget.BlurWithList | dist/ng-gplaces-autocomplete-0.2.4.js:118-127 | with a list, `forceSelection` turns `selected = -1` into 0; a remaining -1 clears the list; the model is not touched |
| Widget.BlurDeferredThenClear | src/directives.js:113-120 | the deferred blur followed by its timer's clear ends where the bundle's immediate blur does |
| Widget.BlurWatcherSelects | src/directives.js:109-120 | under `forceSelection`, the blur's digest runs `select` on the first prediction before the `-1` test; `select` clears the list, so the test sees -1 and schedules the clear |
| Widget.ForcedCommitFromBelow | dist/ng-gplaces-autocomplete-0.2.4.js:83-93 | with `forceSelection` and an active index below -1, Enter/Tab commits that index, keeps the list, and the following `select` does nothing |
| Widget.SelectNothing | dist/ng-gplaces-autocomplete-0.2.4.js:133-134 | when `predictions[selected]` does not exist (including -1), `select` changes nothing |
| Widget.SelectExisting | dist/ng-gplaces-autocomplete-0.2.4.js:130-150 | a custom prediction becomes the model and is emitted; a remote one requests details and leaves the model; both end with a cleared list |
| Widget.SelectedCustomShowsDescription | src/directives.js:127-130 | once a selected custom prediction becomes the model, `format` shows that prediction's description |
| Widget.CommitThenSelect | src/directives.js:76-86 | Enter/Tab on an active prediction followed by the triggered `select` clears the list; a custom prediction becomes the model |
| Widget.MergeOrder | src/directives.js:161-169 | the list is the custom predictions, then the remote ones only when the status is OK, cut to the first five |
| Widget.ArrivalForgetsOldList | src/directives.js:163 | the list, `active` and `selected` from before the callback do not affect its result |
| Widget.TransitionsKeepBound | src/directives.js:166-168 | every transition keeps the list at most five long |
| Widget.Autocomplete.constructor | src/directives.js:24-33 | the scope starts with an empty query and list, nothing active and nothing selected |
| Widget.Autocomplete.ClearPredictions | src/directives.js:192-196 | `clearPredictions` updates the scope as `Cleared` says |
| Widget.Autocomplete.OnKeydown | src/directives.js:64-92 | `onKeydown` updates the scope as `Keydown` says |
| Widget.Autocomplete.OnBlur | dist/ng-gplaces-autocomplete-0.2.4.js:101-128 | the bundle's `onBlur` updates the scope as `Blur` says |
| Widget.Autocomplete.OnBlurDeferred | src/directives.js:94-122 | the sources' `onBlur` updates the scope, and reports the scheduled clear, as `BlurDeferred` says |
| Widget.Autocomplete.Select | src/directives.js:124-144 | `select` updates the scope, and reports its effect, as `SelectStep` says |
| Widget.Autocomplete.OnDetails | src/directives.js:134-141 | with an OK status the fetched place becomes the model and is emitted; otherwise nothing changes |
| Widget.Autocomplete.Parse | src/directives.js:146-174 | a non-empty string becomes the query and is requested; any other value changes nothing; the view value is passed on |
| Widget.Autocomplete.OnPredictions | src/directives.js:153-170 | the callback updates the scope as `PredictionsArrived` says |
| Widget.Autocomplete.IsOpen | src/directives.js:313-315 | the drawer is open exactly when the list is non-empty |
| Widget.Autocomplete.IsActive | src/directives.js:317-319 | `isActive(i)` holds exactly when `active == i` |
| Widget.Autocomplete.SelectActive | src/directives.js:321-323 | sets `active` only |
| Widget.Autocomplete.SelectPrediction | src/directives.js:325-327 | sets `selected` only |
| Filters.HighlightPortions | dist/ng-gplaces-autocomplete-0.2.4.js:405-413 | both portions are `''` without matches or terms; otherwise they concatenate to `terms[0].value.substr(offset)`, and the matched one is its first `min(length, available)` characters |
| Filters.HighlightMatched | dist/ng-gplaces-autocomplete-0.2.4.js:404-416 | the output starts with the opening span and is the two portions plus the span's markup; `HighlightMatchedReadsTerm` states where the span closes |
| Filters.HighlightMatchedReadsTerm | dist/ng-gplaces-autocomplete-0.2.4.js:409-416 | the output opens with the span and closes it after `min(length, available)` characters; with the markup removed it reads `terms[0].value.substr(offset)`; it is the empty span without matches or terms |
| Filters.CustomHighlightIsQueryPrefix | dist/ng-gplaces-autocomplete-0.2.4.js:410-411 | for a custom prediction the highlight is exactly the first match's length and equals the query's start once lower-cased |
| Filters.UnmatchedTerms | dist/ng-gplaces-autocomplete-0.2.4.js:426-437 | what `unmatchedTermsOnly` returns, never more terms than given; `UnmatchedTermsExact` states which |
| Filters.Unmatched | dist/ng-gplaces-autocomplete-0.2.4.js:432 | the test `matched_substrings.length > 0 && term.offset > matched_substrings[0].length`; `UnmatchedTermsExact` states that exactly the terms passing it are kept |
| Filters.UnmatchedTermsOnly | dist/ng-gplaces-autocomplete-0.2.4.js:426-437 | the loop returns the terms the filter keeps |
| Filters.UnmatchedTermsExact | dist/ng-gplaces-autocomplete-0.2.4.js:428-435 | an order-preserving subsequence of the terms: exactly those with `offset > matched_substrings[0].length` |
| Filters.UnmatchedTermsWithoutMatches | dist/ng-gplaces-autocomplete-0.2.4.js:432 | without matched substrings the filter keeps nothing |
| Filters.TrailingComma | dist/ng-gplaces-autocomplete-0.2.4.js:445-447 | the input followed by one comma when the condition holds, and the input unchanged otherwise |

## Left out

- Google Maps services:
  - `AutocompleteService.getPlacePredictions` is a foreign, asynchronous call. Its callback is `Autocomplete.OnPredictions`, which receives the remote list and whether the status was OK. `Autocomplete.Parse` returns the query it would request.
  - The request's merge with `options` is not modelled.
  - `PlacesService.getDetails` is opaque. Its callback is `Autocomplete.OnDetails`.
- Angular machinery is not modelled: `$compile`, `$digest`/`$apply`/`$$phase`, `$sce.trustAsHtml` (the filters return plain strings), and the ngModel `$parsers`/`$formatters`/`render` registration. These are framework lifecycle, not logic.
- Angular wiring between handlers is not modelled:
  - `$watch('selected', select)` is not wired. `select` is its own method, and `Widget.CommitThenSelect` composes the two.
  - `$emit` is returned as a `SelectEffect` or an emitted place.
  - The `$timeout` delay becomes the flag returned by `Autocomplete.OnBlurDeferred`.
  - In both blur versions, the handler's own `$digest` runs the `selected` watcher, and so `select`, before the `selected === -1` test. `Blur`, `BlurDeferred` and their methods do not include that nested `select`. After a forced selection the real handler therefore ends with a cleared list, and in the sources it also schedules the timer. `Widget.BlurWatcherSelects` states this composition.
- The interleaving of asynchronous callbacks with other events is not modelled. Each callback runs as one atomic step.
- `getDrawerPosition` is not modelled. It is DOM geometry over floating-point rectangles and scroll offsets.
- DOM plumbing is not modelled: `preventDefault`/`stopPropagation`, the `mousedown` binding, the `blur`/`submit` bindings, the HTML templates and `$scope.input`.
- The `googlePlacesAPI` factory (dist/ng-gplaces-autocomplete-0.2.4.js:459-464) is not modelled. It only checks for a global.
- lodash `_.values`/`_.isString`/`_.isObject` and the bundle's `isString`/`isObject` become the tagged union `ModelValue`:
  - a string model is `Text`;
  - an object model is `PlaceObject`;
  - anything else is `OtherValue`.
- Format: an object model is always a place with a `formatted_address`. The case of an object without one, where `format` returns `undefined`, is not modelled.
- `active` and `selected` are undefined until the first `clearPredictions`. The model starts them at -1. Every handler returns early while the list is empty, and the list stays empty until a callback has cleared it, so nothing observable differs.
- JsString.LowerCase: lower-cases ASCII letters only; full Unicode `toLowerCase` is not modelled.
- Strings count characters rather than UTF-16 code units, so lengths and offsets match JavaScript's only for text in the Basic Multilingual Plane.
- `trailingComma` takes a boolean condition. JavaScript truthiness of other values is not modelled.
- JavaScript truthiness of `customPlaces` becomes an `Option`: any array, even an empty one, counts as present. Its entries are places, each with a string `formatted_address`.
