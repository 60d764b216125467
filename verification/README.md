# F1 driver highlighter content script, in Dafny

This project models the content script `src/content.ts` of a browser extension. The script finds Formula 1 driver names in the text of a web page. It wraps each name in a highlight span and shows a tooltip with the driver's stats when the mouse enters a span.

The model covers five parts of the script.

- **The matcher.** `processTextNode` takes the names in their registration order. For each name it does a case-insensitive `indexOf` scan from a cursor that all names share. A candidate is kept only when neither neighbouring character is a word character. A rejected candidate restarts the search one character later. The text node is replaced by plain-text runs and highlight spans only when something matched.
  - Modules: `Text` (lower-casing, `\W`, `trim`, `indexOf`) and `Matcher`.
  - The imperative form is `Matcher.ProcessTextNode`, with the loops of the source. It is proved equal to the recursive specification `Matcher.Process`.
  - `MatcherProperties` proves the properties of that specification.
  - `Scenarios` works through concrete text nodes.
- **The collector.** `scanAndHighlight` walks the text nodes of `document.body` in document order. It rejects those under a `script`, `style`, `textarea`, `input` or highlight element, and those whose text is only white space. It collects all accepted nodes first and rewrites them afterwards.
  - Modules: `Page` (the DOM tree, the walk, the filter and the replacement of text nodes) and `Scan` (the result of one scan).
- **The binder.** `attachEventListeners` removes and then re-adds the two tooltip handlers on every highlight element.
  - Module: `Listeners`. The per-element registrations are ordered lists. Adding a registration that is already present does nothing.
- **The tooltip placement** arithmetic of `showTooltip`. Module: `Placement`.
- **The script's state.** This covers the loaded data (module `FactStore`), the page, and the tooltip singleton with `createTooltip`, `showTooltip` and `hideTooltip`. Module: `ContentScript`, as the class `Script`.

## Model

| member | source | states |
|---|---|---|
| Text.Lower | src/content.ts:85-86 | `toLowerCase` on one character maps each capital `A`–`Z` to its own lower-case letter (code point + 32) and leaves every other character alone |
| Text.LowerSame | src/content.ts:85-86 | two characters lower-case alike exactly when they are equal or the same ASCII letter in its two cases |
| Text.LowerStrSame | src/content.ts:85-86 | two strings lower-case to the same string exactly when they have equal length and differ at most in the ASCII case of each character, which is what the case-insensitive comparison of `nameLower` with the lower-cased text accepts |
| Text.OccursAtSlice | src/content.ts:86 | an occurrence at `i` means the substring from `i` of the needle's length equals the needle |
| Text.SearchFrom | src/content.ts:86 | the search result is -1 or an occurrence at or after the start |
| Text.SearchFromLeftmost | src/content.ts:86 | no occurrence lies between the start and the result, or after the start when the result is -1 |
| Text.Clamp | src/content.ts:86 | the start position of `indexOf` is clamped to the string's length |
| Text.IndexOf | src/content.ts:86 | `indexOf(needle, position)` returns -1 or an occurrence at or after the clamped position |
| Text.IndexOfLeftmost | src/content.ts:86 | `indexOf` returns the leftmost occurrence at or after the position |
| Matcher.NextBounded | src/content.ts:86-113 | the next accepted candidate, if any, is at or after the cursor, matches case-insensitively and has a non-word character (or the text's edge) on each side |
| Matcher.NextBoundedLeftmost | src/content.ts:88-113 | no accepted candidate lies between the cursor and the next one found |
| Matcher.NextBoundedSkip | src/content.ts:107-110 | skipping a stretch without accepted candidates does not change the next one found |
| Matcher.OrderedEnd | src/content.ts:106 | the cursor after the matches is at or after the start cursor and within the text |
| Matcher.KeyMatches | src/content.ts:86-114 | the matches of one name are in bounds, increasing and non-overlapping, and start at or after the cursor |
| Matcher.AllMatches | src/content.ts:84-115 | the matches of all names, with the cursor shared across names, are in bounds, increasing and non-overlapping |
| Matcher.KeyMatchesStep | src/content.ts:106-113 | after an accepted match, the scan of the same name goes on from the match's end |
| Matcher.FragmentSnoc | src/content.ts:94-104 | appending a match appends the text before it, if any, and its span to the fragment |
| Matcher.AllMatchesSnoc | src/content.ts:84 | handling one more name appends that name's matches from the current cursor |
| Matcher.CandidateSearch | src/content.ts:86-113 | when `indexOf` returns -1 no accepted candidate remains; otherwise the candidate is at or after the cursor and no accepted candidate lies before it (the candidate itself may still be rejected by the boundary test) |
| Matcher.AcceptStep | src/content.ts:93-113 | accepting a candidate extends the greedy scan by exactly that match |
| Matcher.RejectStep | src/content.ts:107-110 | after a rejected candidate, the search from one character later finds the same next accepted candidate |
| Matcher.AppendMatch | src/content.ts:94-104 | the fragment gains the plain text before the match (only if non-empty) and a span for it |
| Matcher.AcceptCandidate | src/content.ts:93-106 | the accept branch moves `lastIndex` to the match's end and keeps the loop invariants |
| Matcher.ScanStep | src/content.ts:88-113 | one pass of the inner `while` keeps the loop invariants and moves `matchIndex` strictly forward |
| Matcher.ScanName | src/content.ts:85-114 | the inner loop for one name appends exactly the greedy leftmost accepted matches from the shared cursor |
| Matcher.ProcessTextNode | src/content.ts:75-126 | with no data the node is untouched; otherwise the replacement equals the specification `Process` |
| MatcherProperties.ConcatAppend | src/content.ts:118-124 | the text of concatenated runs is the concatenation of their texts |
| MatcherProperties.OrderedIsDisjoint | src/content.ts:106-113 | the matches are ordered exactly when they are pairwise non-overlapping and strictly increasing |
| MatcherProperties.EndAfterAll | src/content.ts:106 | every match ends at or before the final cursor |
| MatcherProperties.FragmentText | src/content.ts:94-106 | the fragment spells exactly the text from the cursor to the end of the last match |
| MatcherProperties.ProcessReconstructs | src/content.ts:94-124 | the runs that replace a node spell exactly its original text |
| MatcherProperties.KeyMatchesSound | src/content.ts:88-113 | every match of a name records that name and is an accepted candidate |
| MatcherProperties.AllMatchesSound | src/content.ts:84-115 | every match records a registered name and is an accepted candidate for it |
| MatcherProperties.FragmentNoEmptyRun | src/content.ts:95-97 | the fragment holds no empty plain run and no empty span |
| MatcherProperties.ProcessNoEmptyRun | src/content.ts:95-122 | a replacement holds no empty run, so a match at offset 0 has no leading `""` |
| MatcherProperties.FragmentSpansShowKeys | src/content.ts:99-103 | each span of the fragment records a registered name and shows text equal to that name up to case |
| MatcherProperties.ProcessSpansShowKeys | src/content.ts:90-103 | every span of the replacement records a registered name and shows text equal to that name up to case |
| MatcherProperties.FragmentSpans | src/content.ts:99-104 | the spans of the fragment are the spans of the matches, in order |
| MatcherProperties.MatchSpansAt | src/content.ts:99-104 | the i-th span shows the i-th match's substring and records its name |
| MatcherProperties.ProcessSpans | src/content.ts:99-124 | the replacement has one span per match, in match order; the i-th shows the original-case text at the i-th match and records its name, a registered name with a word-bounded case-insensitive occurrence at that position |
| MatcherProperties.KeyMatchesCover | src/content.ts:107-113 | every accepted candidate at or after the cursor is a match of the name or lies inside one |
| MatcherProperties.CoveredCons | src/content.ts:106 | an occurrence covered by the later matches stays covered after one more match in front |
| MatcherProperties.KeyMatchesLeftmost | src/content.ts:86-113 | no accepted candidate starts in a gap between the cursor and a match, or between two matches |
| MatcherProperties.KeyMatchesExhaustive | src/content.ts:88-114 | no accepted candidate of the name starts after the end of its last match |
| MatcherProperties.AllMatchesSplit | src/content.ts:84-86 | the names from position `i` on are scanned from where the earlier names left the cursor |
| MatcherProperties.LaterNamesAfterEarlier | src/content.ts:84-106 | every match of a later name starts at or after the end of every match of an earlier name |
| MatcherProperties.ShadowOrCover | src/content.ts:84-113 | an accepted occurrence of a name is highlighted, or lies inside a match of that name, or is shadowed by the earlier names' cursor |
| MatcherProperties.NextBoundedNone | src/content.ts:88 | the search finds nothing exactly when no accepted candidate is at or after the cursor |
| MatcherProperties.AllMatchesEmpty | src/content.ts:84-115 | there are no matches exactly when every name finds nothing from the cursor |
| MatcherProperties.ProcessUntouched | src/content.ts:117-125 | a node is left untouched exactly when no registered name has an accepted candidate in it |
| Scenarios.MismatchAt | src/content.ts:86-88 | a candidate with a differing character, up to case, is no occurrence |
| Scenarios.WordCharAfter | src/content.ts:91-93 | a candidate followed by a word character is rejected |
| Scenarios.CaselessBoundedAt | src/content.ts:86-93 | a name in any case, with non-word characters on both sides, is accepted |
| Scenarios.SingleKeyMatch | src/content.ts:88-114 | one accepted candidate, with none after it, is the only match |
| Scenarios.OnlyFirstMatches | src/content.ts:84-86 | a first name matching once, with nothing for the later names, gives that one match |
| Scenarios.OnlySecondMatches | src/content.ts:84-86 | when the first name finds nothing, the cursor stays at 0 for the second |
| Scenarios.OneMatch | src/content.ts:94-124 | a single match gives the text before it, its span and the text after it |
| Scenarios.SurnameScan | src/content.ts:86-114 | `"Verstappen"` matches once, at 4, in `"Max Verstappen won"` |
| Scenarios.FullNameAfterSurname | src/content.ts:113 | `"Max Verstappen"` finds nothing after the cursor at 14 |
| Scenarios.ShorterNameFirst | src/content.ts:84-124 | keys `["Verstappen", "Max Verstappen"]` on `"Max Verstappen won"` give `"Max "`, the span `"Verstappen"` and `" won"` |
| Scenarios.MaxRejectsHead | src/content.ts:90-110 | in `"Maximum MAX"` the candidate at 0 is rejected (a word character follows it) and 1–3 are no candidates |
| Scenarios.MaxRejects | src/content.ts:88-110 | no accepted candidate for `"Max"` lies in `"Maximum "` |
| Scenarios.MaxScan | src/content.ts:86-114 | `"Max"` matches only at 8 in `"Maximum MAX"` |
| Scenarios.BoundaryAndCase | src/content.ts:84-124 | key `"Max"` on `"Maximum MAX"` gives `"Maximum "` and a span showing `"MAX"` that records `"Max"` |
| Scenarios.NoVInHami | src/content.ts:86 | `"Verstappen"` cannot start in `"Hami"` |
| Scenarios.NoVInHamilton | src/content.ts:86 | `"Verstappen"` cannot start in `"Hamilton"` |
| Scenarios.NoVInAn | src/content.ts:86 | `"Verstappen"` cannot start in `" an"` |
| Scenarios.NoVInAnd | src/content.ts:86 | `"Verstappen"` cannot start in `" and "` |
| Scenarios.VerstappenAfterHamilton | src/content.ts:86-114 | `"Verstappen"` matches once, at 13, in `"Hamilton and Verstappen"` |
| Scenarios.NothingAfterEnd | src/content.ts:86 | with the cursor at the end of the text, `"Hamilton"` finds nothing |
| Scenarios.EarlierTextLaterNameMatches | src/content.ts:84-115 | with keys `["Verstappen", "Hamilton"]` the only match is Verstappen's |
| Scenarios.HamiltonAndRuns | src/content.ts:96-121 | the runs around that match are `"Hamilton and "` and nothing after it |
| Scenarios.EarlierTextLaterName | src/content.ts:84-124 | keys `["Verstappen", "Hamilton"]` on `"Hamilton and Verstappen"` highlight only Verstappen |
| Scenarios.HamiltonScan | src/content.ts:86-114 | `"Hamilton"` matches at 0 in `"Hamilton and "` |
| Scenarios.NoVerstappenInShortText | src/content.ts:86-88 | `"Verstappen"` does not occur in `"Hamilton and "` |
| Scenarios.RescanHighlightsMore | src/content.ts:30-126 | a second scan rewrites the plain run `"Hamilton and "` left by the first, so scanning is not idempotent |
| Page.LeavesCount | src/content.ts:40-63 | the walk visits one entry per text node, however it is shielded |
| Page.ContentsAppend | src/content.ts:40-63 | the texts of two walks joined are the texts of the joined walk |
| Page.TextOfLeaves | src/content.ts:40-63 | a node's `textContent` is the texts of the text nodes the walker visits, in document order |
| Page.CollectTextNodes | src/content.ts:40-63 | the collected nodes are in strictly increasing document order, each one accepted by the filter, and every accepted node is collected |
| Page.RunNodes | src/content.ts:94-122 | the fragment becomes one DOM node per run |
| Page.RunNodesText | src/content.ts:94-122 | the nodes built from the runs spell the runs' text |
| Page.KeepsSplit | src/content.ts:65-66 | keeping every text node, split at a child boundary, keeps the text nodes on both sides |
| Page.SpellsSplit | src/content.ts:65-66 | text-preserving replacements, split at a child boundary, stay text-preserving on both sides |
| Page.ReplaceKeeps | src/content.ts:65-66 | replacing every text node by itself leaves the tree unchanged |
| Page.ReplaceAllKeeps | src/content.ts:65-66 | the same holds for a list of sibling nodes |
| Page.ReplaceSpells | src/content.ts:65-124 | replacements that spell their text node's text keep the tree's text |
| Page.ReplaceAllSpells | src/content.ts:65-124 | the same holds for a list of sibling nodes |
| Page.TextOfAllAppend | src/content.ts:65-66 | the text of joined sibling lists is the two texts joined |
| Scan.ReplacementText | src/content.ts:44-124 | whether the walker accepts a text node or not, the nodes that take its place spell its text |
| Scan.RewrittenText | src/content.ts:94-124 | the nodes `processTextNode` puts in place of a text node spell the text it removed |
| Scan.HighlightedText | src/content.ts:30-73 | a scan never changes the page's `textContent` |
| Scan.HighlightedUnchanged | src/content.ts:44-125 | with no accepted occurrence in any accepted text node, a scan leaves the page exactly as it was |
| Scan.RunNodesLeaves | src/content.ts:47-104 | a plain run becomes an unshielded text node and a span's text lies under the highlight class, so a later scan skips it |
| Scan.ProcessCollected | src/content.ts:65-66 | processing the collected nodes gives every text node its specified replacement, computed from the text collected before any rewrite |
| Listeners.RemoveListener | src/content.ts:204-205 | `removeEventListener` drops that registration and keeps exactly the others |
| Listeners.AddListener | src/content.ts:207-208 | `addEventListener` adds the registration once; one already present is not duplicated |
| Listeners.RemoveAbsent | src/content.ts:204-205 | removing an absent registration changes nothing |
| Listeners.RemoveAppend | src/content.ts:204-205 | removal distributes over concatenation |
| Listeners.RebindShape | src/content.ts:202-209 | after remove-then-add, the element's other registrations come first, followed by the enter and leave handlers |
| Listeners.RebindOnce | src/content.ts:202-209 | each element gets exactly one `mouseenter` show handler and one `mouseleave` hide handler |
| Listeners.RebindKeepsOthers | src/content.ts:202-209 | the page's own registrations are neither dropped nor reordered |
| Listeners.RebindIdempotent | src/content.ts:202-209 | binding an element twice equals binding it once |
| Listeners.BindAll | src/content.ts:199-210 | binding keeps the number of sibling nodes |
| Listeners.BindBound | src/content.ts:199-210 | after binding, every highlight element in a node has one handler of each kind |
| Listeners.BindAllBound | src/content.ts:199-210 | after `attachEventListeners`, every highlight element has one handler of each kind |
| Listeners.BindIdempotent | src/content.ts:199-210 | binding a node twice equals binding it once |
| Listeners.BindAllIdempotent | src/content.ts:199-210 | a second `attachEventListeners` changes nothing |
| Listeners.BindTimesOnce | src/content.ts:199-210 | after any k ≥ 1 calls, each highlight element has exactly the handlers one call gives it |
| Listeners.BindLeaves | src/content.ts:199-210 | binding a node keeps its text nodes and their shielding |
| Listeners.BindAllLeaves | src/content.ts:199-210 | binding changes no text node, text or shielding, so a later scan sees the same text |
| Placement.Max0 | src/content.ts:187-188 | `Math.max(0, x)` is non-negative, at least `x`, and equals `x` or 0 |
| Placement.Place | src/content.ts:171-188 | both final coordinates are non-negative |
| Placement.HorizontalFlip | src/content.ts:172-181 | the tooltip moves left of the mouse exactly when, placed right of it, it would pass the body's right edge; it stays at `clientX+scrollX+10` exactly otherwise |
| Placement.VerticalFlip | src/content.ts:171-184 | the tooltip moves above the mouse exactly when, placed below it, it would pass the viewport's bottom; it stays at `clientY+scrollY+15` exactly otherwise |
| Placement.HorizontalSide | src/content.ts:180-182 | placed right, the tooltip ends within the body's right edge; placed left, it ends 10 px before the mouse |
| Placement.VerticalSide | src/content.ts:183-185 | placed below, the tooltip ends within the viewport's bottom; placed above, it ends 15 px above the mouse |
| Placement.ScrollShift | src/content.ts:169-185 | scrolling shifts the unclamped position by the scroll distance, and the flip decisions do not depend on the scroll |
| Placement.AxesIndependent | src/content.ts:171-188 | the horizontal coordinate depends only on horizontal inputs, and the vertical one only on vertical inputs |
| Placement.WideTooltipOverflows | src/content.ts:180-187 | a tooltip wider than the page up to the body's right edge still passes that edge: no upper bound is enforced |
| Placement.TallTooltipOverflows | src/content.ts:183-188 | a tooltip taller than the page down to the viewport's bottom still passes it |
| ContentScript.Script.constructor | src/content.ts:5-6 | the script starts with no data and no tooltip of its own, on the page as it stands |
| ContentScript.Script.CreateTooltip | src/content.ts:132-149 | with an element already holding the tooltip id nothing changes; otherwise a hidden, empty tooltip is added |
| ContentScript.Script.ShowTooltip | src/content.ts:151-189 | the tooltip shows the target driver's stats at the placed position, visible, exactly when the tooltip exists, the data has loaded and the name is a loaded driver; otherwise nothing changes |
| ContentScript.Script.HideTooltip | src/content.ts:191-195 | the tooltip, if any, is hidden and keeps its content |
| ContentScript.Script.AttachEventListeners | src/content.ts:199-210 | every highlight element of the page is rebound; nothing else changes |
| ContentScript.Script.ScanAndHighlight | src/content.ts:30-73 | with no data or no names the page is untouched; otherwise every accepted text node is rewritten from the page as it was, then the listeners are bound |
| ContentScript.Script.LoadDriverData | src/content.ts:8-22 | a failed load changes nothing; a successful one stores the data and scans the page |
| ContentScript.Script.Start | src/content.ts:214-215 | the tooltip is created (if its id is free) before the data is loaded and the page scanned |

## Left out

- Data loading is an input. The `chrome.runtime.getURL` URL, `fetch`, the HTTP status test and JSON parsing (src/content.ts:8-22) are I/O. `LoadDriverData` takes their outcome as a parameter: the parsed store, or `None` for any failure. A body that parses to `null` also counts as a failure, since `Object.keys(null)` throws and the data stays unloaded.
- The store must have non-empty, distinct names, all of them data keys (`FactStore.Valid`). The script itself does not demand this. With the name `""` the loop at src/content.ts:88-114 never ends. `indexOf("", p)` returns `p` clamped to the text's length. An accepted candidate leaves `lastIndex` where it was, so the same position is found and accepted again. Rejected candidates move the search one position on until it reaches the end of the text, where `indexOf` clamps back to the same position. If that last candidate is rejected too, the search repeats forever. So the model cannot run on that input.
- Names are kept in one given order. `Object.keys` order is the store's `names` sequence as it arrives.
- Property lookup on prototypes is not modelled. `driverData[driverName]` could also find an inherited property such as `constructor`; the model looks up own keys only.
- Console logging and `performance.now()` timing (src/content.ts:17, 20, 32, 36-37, 68-69) have no effect on the state.
- Styling is reduced to the tooltip's content. The tooltip's style and its `innerHTML` template (src/content.ts:137-147, 160-166) are left out. The tooltip keeps whether it is displayed, plus a card with the driver's name, stats and position.
- Layout values are parameters. `window.scrollX`/`scrollY`, `innerHeight` and the two `getBoundingClientRect` results are inputs. They are Dafny reals, not IEEE doubles, so rounding is not modelled.
- Unicode case and word classes are not modelled. Lower-casing is ASCII-only. That matches `toLowerCase` on ASCII names, but full Unicode lower-casing can change the length of a string. The word class is `[A-Za-z0-9_]`, which is what `\W` means without the `u` flag.
- `trim` is modelled through its white-space and line-terminator characters.
- The DOM is an abstract tree of elements and text nodes. The `TreeWalker` is the pre-order list of text nodes. `closest` is the "shielded by an ancestor" flag, computed on the way down. Other node kinds (comments, CDATA) are not modelled.
- The tooltip `div` is appended to `document.body` but is not part of the modelled page. It holds no text until the mouse first enters a span, which is after the only scan.
- The text nodes are replaced together, after all of them are processed, not one `replaceChild` at a time. The two agree, because the list is collected before the first rewrite and each rewrite touches only its own node.
- `attachEventListeners` walks the tree recursively (`Listeners.BindAll`) instead of looping over a `querySelectorAll` list. A tree of values has no element identity to hold such a list.
- The MutationObserver re-scan (src/content.ts:217-225) is commented out in the source. The model only shows that scanning twice is not the same as scanning once (`Scenarios.RescanHighlightsMore`).
- Scan.HighlightedUnchanged states one direction only: no occurrence leaves the page as it was. The converse holds for each text node (`MatcherProperties.ProcessUntouched`) but is not lifted to the whole tree.
- Placement.Place states only non-negativity. The side each axis takes is stated on the unclamped coordinates, by `Placement.HorizontalFlip` and `Placement.VerticalFlip`.
- The tooltip is not kept inside the viewport. A reading of the placement code as "keep the tooltip on screen" does not hold: only the lower bound 0 is enforced, and `Placement.WideTooltipOverflows` and `Placement.TallTooltipOverflows` show inputs where the tooltip passes the right or bottom edge.
