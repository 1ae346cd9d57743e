# Phone-number extraction from a chat page

This project models the pipeline that the WhatsApp Web content script
(`content.js`) uses to collect phone numbers from the page. It then proves
what that pipeline promises.

1. **Candidate scanner** (`extractNumbersFromText`). Four fixed global
   regular expressions run over a text, and their matches are concatenated
   pattern after pattern:
   - Malaysian `+60…`;
   - international `+…`;
   - Malaysian `60…` without the plus;
   - local `0…`.

   Module `Regex` models this pattern fragment:
   - literals;
   - the optional separator `[\s\-]?`;
   - `\d{lo,hi}`;
   - the anchors `^` and `$`.

   `Regex.MatchFrom` follows the JavaScript engine's backtracking order:
   greedy, longest first, giving back one digit at a time. A relational
   definition, `Regex.Fits`, says which cuts of the text the pattern allows.
   The engine's match is proved to be such a cut, and to exist whenever one
   does. It is also proved to be the greatest cut from its start in the
   engine's preference order (`Regex.LexAtLeast`), which fixes where each
   match ends. `Regex.ScanFrom` is the global scan:
   - take the leftmost match;
   - resume after it, or one position on after an empty match;
   - stop past the end.
2. **Formatter** (`formatPhoneNumber`), module `Normalizer`:
   - strip whitespace and `-`;
   - force a leading `+`;
   - regroup `+60` and 9 or 10 digits as `+60 XX-XXX(X) XXXX`, and `+60` and
     11 digits as `+60 XX-XXXX XXXXX`.
3. **Validator** (`isValidPhoneNumber`), module `Validation`: the anchored
   international shape. Its match-or-null result is a boolean.
4. **Harvesters**, module `Harvest`:
   - chat list, all text, `title` attributes, and `aria-label` /
     `data-pre-plain-text` attributes;
   - `getElementText`.

   They run over an abstract read-only document: a sequence of elements
   with optional text sources, the elements each chat selector selects, and
   an optional body.
5. **Aggregator** (`extractPhoneNumbers`), module `Aggregator`:
   - run the four strategies, each inside `try`/`catch`;
   - union their candidates in insertion order;
   - format, validate, sort, and drop repeats.

   Module `StringOrder` holds the default order of `Array.prototype.sort()`
   and `[...new Set(…)]`.

Where the code works step by step, the model does too. The loops that push
into arrays or add to a `Set` are methods with loop invariants:
- `Aggregator.ExtractPhoneNumbers` and `Aggregator.AddAll`;
- `Harvest.ExtractFromChatList`, `Harvest.HarvestElements`,
  `Harvest.ExtractFromAttributes` and `Harvest.ExtractFromAriaLabels`;
- `Scanner.ExtractNumbersFromText`, `Scanner.MatchAll` and
  `Scanner.GlobalMatch`.

Each of them is proved equal to a specification function. The lemmas about
those functions state what the source promises.

For a number with a leading `0`, the formatter (content.js:137-138) puts
`+6` in front and keeps the `0`. So `0123456789` becomes `+60123456789`. A
local match with 9 or 10 digits after the `0` is then regrouped as a
Malaysian number. One with 8 digits after the `0` becomes `+60` and 8
digits, is not regrouped, and still passes validation.

## Model

| member | source | states |
|---|---|---|
| Regex.MatchFrom | content.js:115-118 | the boundaries the engine reports, in its backtracking order, are a fit of the pattern starting where the match was tried |
| Regex.TryDigits | content.js:115-118 | a greedy `\d{lo,hi}` that gives back one digit at a time only reports fits of the pattern |
| Regex.MatchFromComplete | content.js:115-118 | whenever some fit of the pattern starts at a position, the engine finds a match there, and that match is at least the fit in the engine's preference order: longer digit groups and taken separators first |
| Regex.TryDigitsComplete | content.js:115-118 | giving back digits from `k` downwards finds a match whenever some fit has a digit group at most `k` long, and that match is at least the fit in the engine's preference order |
| Regex.MatchStep | content.js:115-118 | a fitting item other than a digit group is matched by the engine once the rest matches, and the result is at least the fit in the preference order |
| Regex.LexAntisymmetric | content.js:115-118 | the preference order between cuts is antisymmetric, so the preferred cut from a position is unique |
| Regex.PreferredEnd | content.js:123 | two preferred matches from the same start end at the same place: the engine's preference fixes the end of each reported match |
| Regex.MatchFromExact | content.js:115-118 | the engine matches at `j` exactly when some fit of the pattern starts at `j` |
| Regex.MatchGreedy | content.js:115-118 | a digit group keeps as many digits as it may take from the run of digits at its position whenever the rest of the pattern matches after them |
| Regex.FitsAscending | content.js:115-118 | the boundaries of a fit never go backwards nor past the end of the subject |
| Regex.FitsItems | content.js:115-118 | a fit is exactly one boundary per item with each item matching between its two boundaries |
| Regex.DigitRun | content.js:115-118 | the length of the run of digits from a position: all digits, and followed by a non-digit or the end |
| Regex.Search | content.js:146 | `exec` finds the leftmost position where the pattern matches, and no match starts earlier; `None` means no position matches |
| Regex.SearchFinds | content.js:146 | a fit starting at or after `from` means the search succeeds |
| Regex.ScanFrom | content.js:123 | every span of the global scan lies inside the text, after the start point, and is an occurrence of the pattern |
| Regex.ScanFromLeftmost | content.js:123 | each reported span starts at the first match after the point where the previous one let the search resume, and ends where the engine's preferred fit from that start ends; no match starts in between or after the last span |
| Regex.FitsCountDigits | content.js:115-118 | a match holds at least as many digits as the pattern's digit groups demand together |
| Regex.FitsNumberChars | content.js:115-118 | a match of a pattern whose literals are `+` or digits holds only `+`, digits, whitespace and `-` |
| Regex.FitsShift | content.js:115-118 | an unanchored fit is still a fit inside any stretch of the text that contains it |
| Regex.OccursWord | content.js:123 | the text of a reported span is a whole word of the pattern |
| Regex.AnchoredExact | content.js:155 | the pattern between `^` and `$` matches a string exactly when the whole string is a word of the pattern |
| Scanner.GlobalMatch | content.js:123 | `text.match(p)` for a global `p` returns the texts of the spans of the global scan, in order |
| Scanner.ExtractNumbersFromText | content.js:111-130 | nothing for an empty text; otherwise the matches of the four patterns, pattern after pattern |
| Scanner.MatchAll | content.js:121-127 | the matches of each pattern appended pattern after pattern |
| Scanner.CandidatesOrder | content.js:114-129 | the candidates are the `+60` matches, then the international ones, then `60` without plus, then local; each pattern's matches are leftmost and non-overlapping, and each ends where the engine's preferred fit from its start ends |
| Scanner.PatternsShape | content.js:115-118 | each of the four patterns demands at least nine digits, uses only number characters (`+`, digits, `\s` and `-`) as literals, and has no anchors |
| Scanner.MatchFacts | content.js:123 | every match of such a pattern is a substring of the text, made of number characters, with at least the pattern's digits, and a whole word of the pattern |
| Scanner.CandidateFacts | content.js:111-130 | every candidate is a substring of the text, holds only `+`, digits, whitespace and `-`, has at least nine digits, and is a whole word of one of the four patterns |
| Scanner.FewDigitsNoCandidates | content.js:112-118 | a text with fewer than nine digits yields no candidate |
| Normalizer.Strip | content.js:134 | removing separators leaves no separator and never lengthens the string |
| Normalizer.StripMember | content.js:134 | a character is in the stripped string exactly when it is in the input and is not a separator |
| Normalizer.StripAppend | content.js:134 | stripping distributes over concatenation |
| Normalizer.StripChar | content.js:134 | a separator is removed and any other character kept, so with `StripAppend` stripping keeps the non-separators in order |
| Normalizer.StripKeeps | content.js:134 | a string without separators is unchanged by stripping |
| Normalizer.PrefixCases | content.js:137-143 | the prefixed number starts with `+`: `+6` is put before a leading `0`, a leading `+` is kept, and `+` is put before anything else |
| Normalizer.MalaysianFormExact | content.js:146 | `/^\+60\d{9,11}$/` accepts exactly `+60` followed by 9 to 11 digits |
| Normalizer.RegroupMatch | content.js:147 | the regrouping pattern matches a Malaysian number from its start, taking two digits, then three digits (four when more than nine follow), then four digits |
| Normalizer.RegroupTrace | content.js:147 | the leftmost match of the regrouping pattern on a Malaysian number starts at position 0, with those group boundaries |
| Normalizer.RegroupMalaysian | content.js:147 | a Malaysian number becomes `+60 ` + two digits + `-` + three or four digits + ` ` + the remaining digits |
| Normalizer.RegroupStrip | content.js:147 | regrouping only inserts separators: stripping its result gives the stripped input |
| Normalizer.FormatStrip | content.js:132-151 | stripping the formatted number gives the prefixed, stripped input |
| Normalizer.FormatShape | content.js:132-151 | the formatted number is the regrouped form when the prefixed, stripped input is `+60` and 9 to 11 digits, and that input otherwise |
| Normalizer.FormatIdempotent | content.js:132-151 | the formatted number starts with `+`, and formatting it again changes nothing |
| Normalizer.FormatLocal | content.js:137-147 | a local number `0XX-XXX XXXX` is formatted as `+60 XX-XXX XXXX` |
| Validation.ValidatorExact | content.js:155 | the validator accepts exactly the whole-string words of the international pattern |
| Validation.CompactExact | content.js:155 | without separators, a valid number is exactly `+` followed by 9 to 16 digits |
| Validation.InternationalTail | content.js:155 | a valid number ends in four digits that follow either a separator or three more digits |
| Validation.GroupedWord | content.js:146-155 | `+60 XX-XXX(X) XXXX` is valid |
| Validation.LongGroupedNotWord | content.js:146-155 | `+60 XX-XXXX XXXXX` (a five-digit last group) is not valid |
| Validation.RegroupedValid | content.js:146-155 | a regrouped Malaysian number is valid exactly when it has at most 10 digits after `+60` |
| Validation.FormatValid | content.js:132-155 | a formatted number passes validation exactly when its prefixed, stripped form is a Malaysian number with at most 10 digits after `+60`, or is `+` and 9 to 16 digits otherwise |
| StringOrder.BelowTotal | content.js:43 | two different strings are ordered one way or the other |
| StringOrder.BelowTransitive | content.js:43 | the default sort order is transitive |
| StringOrder.BelowIrreflexive | content.js:43 | no string sorts before itself |
| StringOrder.Sort | content.js:43 | the sorted result is sorted and a permutation of its input |
| StringOrder.InsertSorted | content.js:43 | inserting into a sorted sequence keeps it sorted |
| StringOrder.SortedUnique | content.js:43 | two sorted permutations of the same strings are equal, so any correct sort algorithm gives the same result |
| StringOrder.Distinct | content.js:45 | `[...new Set(s)]` holds the same strings as `s` and has no duplicates |
| StringOrder.DistinctSorted | content.js:43-45 | dropping repeats from a sorted sequence leaves a strictly sorted one whose last element is the input's last |
| StringOrder.StrictlySortedNoDuplicates | content.js:43-45 | a strictly sorted sequence repeats nothing |
| Harvest.FirstTruthy | content.js:107-108 | an or-chain of optional strings ending in the empty string gives `''` exactly when every value is missing or empty, and otherwise the first non-empty one |
| Harvest.GetElementTextCases | content.js:106-109 | an element's text is the first non-empty of `textContent`, `innerText`, `title`, `aria-label` and `data-pre-plain-text`, and empty when all are empty |
| Harvest.GatherMember | content.js:61-66 | a string is gathered exactly when it is a candidate of one of the texts |
| Harvest.GatherAppend | content.js:61-66 | gathering candidates distributes over concatenation of the texts |
| Harvest.HarvestElements | content.js:62-66 | the inner loop yields the candidates of each element's text, element after element |
| Harvest.ExtractFromChatList | content.js:48-70 | for every chat selector and every element it selects, the candidates of the element's text |
| Harvest.SelectorTextsHas | content.js:61-63 | the texts read are exactly the texts of elements some chat selector selects |
| Harvest.ChatListMember | content.js:48-70 | a string is a chat-list candidate exactly when it is a candidate of the text of an element some chat selector selects |
| Harvest.Where | content.js:95 | the selection keeps exactly the elements that satisfy the attribute test |
| Harvest.ExtractFromAttributes | content.js:78-91 | the candidates of the `title` of every element whose title contains `+` |
| Harvest.AttributeMember | content.js:78-91 | a string is an attribute candidate exactly when it is a candidate of the title of an element whose title contains `+` |
| Harvest.AriaTextCases | content.js:98 | the label read is `aria-label` when non-empty, else `data-pre-plain-text` when non-empty, else empty |
| Harvest.ExtractFromAriaLabels | content.js:93-104 | the candidates of the label of every element whose `aria-label` or `data-pre-plain-text` contains `+` |
| Harvest.AriaMember | content.js:93-104 | a string is an aria candidate exactly when it is a candidate of the label of such an element |
| Harvest.AllTextOutcome | content.js:72-76 | the all-text strategy throws exactly when there is no body; otherwise it returns the candidates of `innerText`, or of `textContent` when `innerText` is empty, and each of them is a substring of that text with at least nine digits |
| Aggregator.RunStrategy | content.js:30-36 | running strategy `k` gives its outcome, in the order chat list, all text, attributes, aria labels |
| Aggregator.HarvestedAppend | content.js:30-37 | the candidates of a run of strategies are those of its first part followed by those of the rest |
| Aggregator.FaultIsolation | content.js:30-37 | a strategy that throws contributes nothing and does not stop the others: the harvest is the one without it |
| Aggregator.HarvestedMember | content.js:30-37 | a string is harvested exactly when some strategy returned it |
| Aggregator.AddAll | content.js:33 | adding the numbers of one strategy one by one to the set gives the first copies of the harvest so far followed by them |
| Aggregator.SortFilterMapMember | content.js:40-43 | a string survives map, filter and sort exactly when it passes the filter and is the image of an input |
| Aggregator.ExtractPhoneNumbers | content.js:19-46 | the result is the formatted, validated, sorted, repeat-free form of the first copies of all candidates the strategies returned |
| Aggregator.ResultExact | content.js:39-45 | a string is in the result exactly when it is valid and is the formatted form of a harvested candidate |
| Aggregator.ResultFromStrategies | content.js:19-46 | a string is in the result exactly when it is valid and is the formatted form of a candidate found by one of the four strategies on the page |
| Aggregator.HarvestedOnPage | content.js:23-37 | a string is harvested exactly when one of the four strategies found it on the page |
| Aggregator.ResultOrdered | content.js:43-45 | the result is strictly sorted and has no duplicates |
| Aggregator.ResultFormatted | content.js:40-45 | every result starts with `+`, passes the validator, and is unchanged by formatting again |
| Aggregator.NoBody | content.js:30-37 | without a body the all-text strategy throws and the result is that of the other three strategies |

## Left out

- The message listener (content.js:7-17) and its `{success, numbers}` / `{success: false, error}` reply are not modelled: they are the extension's message wiring, not logic.
- `console.log` on a failing strategy (content.js:35) is left out, because it is output only. A failing strategy is modelled as contributing nothing.
- `addExtractorIndicator` (content.js:159-191) is left out, because it is DOM mutation and a timer.
- popup.js and background.js are not part of this model: they are UI and extension-lifecycle glue.
- The DOM and the CSS selector engine are abstract inputs:
  - the elements each chat selector selects are given per selector (`Harvest.QuerySelectorAll`);
  - `[title*="+"]`, `[aria-label*="+"]` and `[data-pre-plain-text*="+"]` are modelled as "the attribute is present and contains `+`";
  - the document order of the union selector in content.js:95 is taken to be the order of the document's element sequence.
- Exceptions: the model has one strategy that throws, the all-text strategy when there is no `document.body` to dereference. `Aggregator.FaultIsolation` states, for any strategy that throws, that the others proceed unaffected.
- Aggregator.Strategy: the chat-list, attribute and aria strategies are modelled as never throwing. In the engine they can throw a `RangeError` when a spread `push(...)` (content.js:65, 86, 100 and 125) receives more arguments than the engine accepts. Other DOM failures are outside the model too.
- The `title` property: `getElementText` (content.js:107) reads the `title` property, and the model takes it to be the `title` attribute. That holds for HTML elements. For other elements, such as SVG ones, the property is undefined while the attribute can still be set and selected by `[title*="+"]`.
- The `if (title)` test (content.js:84) is kept in the model, although after the `[title*="+"]` selection it always succeeds.
- JavaScript's `\s` is modelled as the fixed list of WhiteSpace and LineTerminator code points. Strings are sequences of code points, not UTF-16 code units. Surrogate pairs, which can be neither digits nor separators, are treated as single characters.
- `StringOrder.Sort` is insertion sort, not the engine's own algorithm. `StringOrder.SortedUnique` shows that every correct sort gives the same sequence. Comparing by code point agrees with the engine's UTF-16 order for the strings the validator accepts. Those strings hold only `+`, ASCII digits and `\s` or `-` separators, all of which lie in the Basic Multilingual Plane.
- The general regular-expression engine is not modelled. Only the constructs used by the seven patterns (the four candidate patterns, the formatter's two and the validator's) are modelled: literals, `[\s\-]?`, `\d{lo,hi}`, `^` and `$`.
- Capture groups are not modelled. The replacement `'$1 $2-$3 $4'` (content.js:147) is written out with the group boundaries of the match.
