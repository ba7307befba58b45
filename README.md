# Dictation check: grouping of grammar faults

This project models the one data transformation of a single-page React demo
(`src/App.jsx`): after a French dictation has been sent to the LanguageTool
grammar-check service, the page groups the returned matches by issue type
(`categoriserFautes`) and derives its result panel from the same response:
the number of faults, a red/green verdict, which block is shown below it,
the plural "faute"/"fautes" in each group header and the comma-joined list
of suggested replacements. It also models the page state the grouping reads
and the one-shot consumption of the PWA install prompt (`installPWA`).

Modules:

- `Wrappers` — `Option`, standing for a JavaScript value that may be
  `undefined` or `null`.
- `Faults` — the response (`CheckResult`, `Match`, `Rule`, `Replacement`),
  the effective issue type (`match.rule.issueType || 'Autre'`), the reference
  definition `Grouping` (one group per distinct effective type in order of
  first appearance, holding the matches of that type in response order), the
  per-match filing step `File` the page's loop performs, and the lemmas that
  the loop builds `Grouping` and that `Grouping` is an ordered partition.
  The grouping result is an ordered association list
  `seq<(string, seq<Match>)>`, so that key order can be stated.
- `Display` — fault count, verdict colour, result panel, plural suffix, the
  suggestion line, and their relation to the grouping. For every list of
  values the joined line holds each value at its offset, separated by
  `", "`; when the values contain no comma, splitting the line again gives
  them back.
- `App` — class `Page` with the two state cells the core reads and writes
  (`checkResult`, `installPrompt`); `CategorizeFaults` is the imperative
  grouping loop, proved to compute `Faults.Grouping`, with `FindGroup` as the
  dictionary lookup `categories[type]`.

The fallback label is the literal `'Autre'`, as in `src/App.jsx:116`.

## Model

| member | source | states |
|---|---|---|
| Faults.MatchesOf | src/App.jsx:112 | with no result, or a result without a `matches` field, there is nothing to group; otherwise the response's matches |
| Faults.EffectiveType | src/App.jsx:116 | the key of a match is never empty; it is `'Autre'` exactly when the issue type is missing, empty or itself `'Autre'`, and otherwise the issue type itself |
| Faults.Grouping | src/App.jsx:111-123 | the grouping's keys are the distinct effective types in first-appearance order and each group is the selection of the matches of its key |
| Faults.FileStep | src/App.jsx:115-121 | filing one more match into the grouping of a prefix of the response gives the grouping of the longer prefix |
| Faults.FileAt | src/App.jsx:117-120 | with distinct keys, filing a match appends it to the group of its own type and changes no other group |
| Faults.File | src/App.jsx:116-120 | one loop step keeps the keys when the match's type already has a group and otherwise adds that type as a new last key holding just the match; the match is appended to the group of its type and every other group is unchanged |
| Faults.EmptyGrouping | src/App.jsx:112 | for every result: an absent result, absent `matches` or an empty list give the empty grouping |
| Faults.GroupingKeysDistinct | src/App.jsx:117-118 | no issue type is the key of two groups |
| Faults.GroupingKeyOrder | src/App.jsx:117-118 | for keys at positions i < j, the first match of key i comes before the first match of key j in the response |
| Faults.GroupingCoversTypes | src/App.jsx:115-118 | the keys are exactly the effective types that occur among the matches |
| Faults.GroupingMembers | src/App.jsx:115-121 | a match is in a group exactly when it belongs to the response and its effective type is that group's key; every match has a group |
| Faults.GroupingNonEmpty | src/App.jsx:117-120 | no group is empty |
| Faults.GroupingTotalSize | src/App.jsx:115-121 | the group sizes add up to the number of matches (partition) |
| Faults.FileTotalSize | src/App.jsx:120 | each filing step adds exactly one match to the total |
| Faults.SelectAppend | src/App.jsx:115-120 | the group of a type for a response cut in two is the group from the first part followed by the group from the second: relative order is kept |
| Faults.SelectMembers | src/App.jsx:117-120 | a group holds the matches of its type and no other |
| Faults.SelectEmpty | src/App.jsx:117-120 | the selection of a type is empty exactly when that type does not occur |
| Faults.GroupingUniform | src/App.jsx:115-121 | when every match has the same effective type t the result is the single group (t, all matches in order) |
| Faults.DedupFirstAppearance | src/App.jsx:117-118 | the distinct-in-order list of types is ordered by first occurrence |
| Display.Verdict | src/App.jsx:183 | red exactly when `matches` is present and non-empty; a missing list is green |
| Display.FaultCount | src/App.jsx:184 | the displayed count is the number of matches, 0 when `matches` is missing |
| Display.FaultCountIsGroupedTotal | src/App.jsx:184 | the displayed count (0 without `matches`) equals the number of matches over all groups, and is 0 exactly when there are no groups |
| Display.ResultPanel | src/App.jsx:188-220 | no block below the summary exactly when `matches` is missing |
| Display.PanelAgreesWithVerdict | src/App.jsx:183-220 | the per-type details are shown exactly when the verdict is red; the "perfect" notice only with green and a count of 0 |
| Display.PluralSuffix | src/App.jsx:199 | the suffix is `'s'` exactly when the count exceeds one, and empty otherwise |
| Display.SelectAtLeastTwo | src/App.jsx:199 | a group has more than one match exactly when its type occurs at two positions of the response |
| Display.GroupHeaderPlural | src/App.jsx:199 | a group header says "fautes" exactly when its type occurs at least twice in the response |
| Display.Suggestions | src/App.jsx:210-211 | the suggestion line exists exactly when the replacements are present and non-empty |
| Display.Values | src/App.jsx:211 | `replacements.map(r => r.value)`: one value per replacement, in order |
| Display.Join | src/App.jsx:211 | `join`: the empty list gives the empty string; otherwise the length is the sum of the value lengths plus one separator between each two values |
| Display.JoinAt | src/App.jsx:211 | for all values and separators, value i appears in the joined line at the offset after all earlier values and their separators |
| Display.JoinSeparatorAfter | src/App.jsx:211 | every value but the last is followed by the separator |
| Display.JoinEndsWithLast | src/App.jsx:211 | the joined line ends right after the last value |
| Display.SplitJoin | src/App.jsx:211 | for comma-free values, splitting a `", "`-joined line at commas gives the first value and each later value behind one space |
| Display.UnjoinJoin | src/App.jsx:211 | comma-free values joined by `", "` are recovered in order by splitting the line again |
| Display.SuggestionsRoundTrip | src/App.jsx:210-211 | when the replacement values are comma-free, the suggestion line of a match gives them back in order |
| App.FindGroup | src/App.jsx:117 | the lookup `categories[type]` finds the first group with that key, or reports that there is none exactly when no group has it |
| App.Page.constructor | src/App.jsx:10-12 | the page starts with no check result and no pending install prompt |
| App.Page.ReceiveCheckResult | src/App.jsx:103-108 | a decoded response replaces the last result; a failed request leaves it unchanged |
| App.Page.CategorizeFaults | src/App.jsx:111-123 | the in-place loop returns `Grouping` of the last result's matches: empty when there is none, distinct keys, sizes adding up to the match count |
| App.Page.OnBeforeInstallPrompt | src/App.jsx:33-36 | the deferred install event is kept as the pending prompt |
| App.Page.InstallPwa | src/App.jsx:45-55 | the prompt is shown exactly when one is pending, an installation is reported exactly when it was shown and accepted, and no prompt is pending afterwards |

## Left out

- Network I/O of `verifierDictee` (`src/App.jsx:100-109`): the request to the grammar-check service, `encodeURIComponent`, `response.json()` and the console logging. The decoded body, or its failure, enters the model as the parameter of `App.Page.ReceiveCheckResult`.
- The content of the matches: it is decided by the remote service. Message, context text and replacements are carried as opaque payload.
- Several checks in flight at once, where the last response to arrive wins: an asynchronous race, not sequential logic.
- Audio playback and the Cache Storage use of `downloadPiano`, `playPianoLocal` and the mount effect (`src/App.jsx:18-30`, `57-98`): browser APIs with no logic of their own.
- Registration and removal of the `beforeinstallprompt` listener (`src/App.jsx:38-42`) and the browser's own `prompt()`/`userChoice`: the user's answer is the parameter `choice` of `App.Page.InstallPwa`; `preventDefault` is not modelled.
- Plain-object quirks of the JavaScript dictionary `categories`: keys such as `"__proto__"` or `"constructor"` that collide with the prototype, and `Object.entries` listing integer-like keys first. The model is the intended insertion-ordered map.
- A match without a `rule` object: the code throws at `src/App.jsx:116`; `Faults.Rule` is always present in the model.
- The counter button, the JSX layout and styling, the decimal rendering of numbers in the text, `alert`, and the expected phrase (`src/App.jsx:14`), which is displayed but never compared.
- Display.SplitJoin: stated for comma-free values only, since a comma inside a value cannot be told apart from the separator in the joined line; `Display.JoinAt` locates every value for all inputs.
- Display.SuggestionsRoundTrip: stated for comma-free replacement values only, for the same reason; `Display.JoinAt` covers every suggestion line.
- Display.UnjoinJoin: the round trip is stated for replacement values without commas, since a comma inside a value cannot be told apart from the separator in the joined line.
