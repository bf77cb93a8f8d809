# DropDownList: person labels, demo decoration and last-name order

The dropdown component of this repository fetches a list of people and shows
one label per person. Three pieces of `src/Modules/DropDownList.tsx` decide what
the list contains, and this project models and proves them.

- **`formatUserLabel`** (module `Label`, with the string operations it uses in module
  `Text`). It trims the name and splits it on runs of whitespace. It keeps the
  first and the last token and blanks each one that is an honorific. Then it
  assembles `"<last><suffix>, <first><title>"`. There is no comma when only one
  part survives, and the label is `"Unknown Name"` plus the title part when
  none does.
  - `FormatUserLabel` is the formatter.
  - `CaseLabel` is an independent case-by-case definition. `FormatCases` proves
    the two agree on every person.
- **The demo decoration** (module `Decoration`). The person at position `i` gets the
  suffix `"Jr."` when `i` is even. The title is `"Mr."` when `i % 3 == 0`, else
  `"Mrs."` when `i % 5 == 0`.
- **The in-place sort** (module `LastNameSort`). The decorated array is sorted by
  the last piece of `name.split(" ")`. The pieces are compared with a comparator
  parameter that stands for `localeCompare`. `SortByLastName` is an insertion
  sort on an `array<User>`, proved to permute the array and to leave
  neighbours in key order.

Module `Users` holds the person record. Only `name`, `suffix` and `title` are
read; the address, company and contact fields are carried along unchanged.

Whitespace is one predicate, `Text.IsWhitespace`: the ECMAScript WhiteSpace and
LineTerminator code points. `String.prototype.trim` strips exactly these, and
the regular-expression class `\s` matches exactly these. An absent `suffix` or
`title` is `None`. A string is truthy exactly when it is not empty (`TextOf`).

Behaviour of the code that the model follows and the proofs pin down:

- A one-word name is both the first and the last token. So `"Cher"` becomes
  `"Cher, Cher"` (`LabelExamples.CherExample`, from `PlainNameLabel`).
- With only the first part left, the suffix comes first: `"Jr. Jane"`
  (`FirstOnlyWithSuffix`).
- With only the last part left and a title, two spaces stand before the
  parenthesis: `"Doe Jr.  (Mr.)"` (`LastOnlyLabel`).
- The `replace(/,\s+$/, ",")` never changes the label, because the trim after
  it removes the same whitespace (`CommaCleanupIsNoOp`). It can still match:
  for `"Dr. Smith,"` the template is `"Smith, "`.
- The label can end in a comma. For `"Dr. Smith,"` it is `"Smith,"`
  (`LabelExamples.DrSmithCommaExample`, which also shows the template
  `"Smith, "` and the match of the replacement).
  `LabelEndsWithComma` states exactly when this happens. The comma the
  formatter inserts between the parts is never the last character.
- The sort key is not the formatter's last token. A trailing space gives the
  empty key (`TrailingSpaceKeyIsNotLastWord`).

## Model

| member | source | states |
|---|---|---|
| Text.IsWhitespace | src/Modules/DropDownList.tsx:31 | the ECMAScript WhiteSpace and LineTerminator code points that `trim` strips and `\s` matches; a predicate with no contract of its own, pinned down through `TrimBlank`, `TrimUnique` and `SplitInterleave` |
| Text.TrimStart | src/Modules/DropDownList.tsx:31 | the result is a suffix of the input, everything removed is whitespace, and the result does not begin with whitespace |
| Text.TrimEnd | src/Modules/DropDownList.tsx:31 | the result is a prefix of the input, everything removed is whitespace, and the result does not end with whitespace |
| Text.Trim | src/Modules/DropDownList.tsx:31 | `trim` never lengthens a string and leaves no whitespace at either end |
| Text.TrimBlank | src/Modules/DropDownList.tsx:31 | `trim` gives the empty string exactly for whitespace-only input |
| Text.TrimUnique | src/Modules/DropDownList.tsx:31 | a trimmed string padded with whitespace on both sides trims back to itself |
| Text.SplitWhitespace | src/Modules/DropDownList.tsx:31-33 | `split(/\s+/)` never returns an empty list, so the first and last token always exist |
| Text.SplitInterleave | src/Modules/DropDownList.tsx:31 | words joined by whitespace gaps form a trimmed string, and splitting it returns exactly those words |
| Text.TrimmedInterleave | src/Modules/DropDownList.tsx:31 | every trimmed, non-blank string is its split words joined by its whitespace gaps, the converse of `SplitInterleave` |
| Text.LayoutOf | src/Modules/DropDownList.tsx:31 | every name that is not blank has a layout: leading whitespace, words joined by gaps, trailing whitespace |
| Text.LayoutWordsUnique | src/Modules/DropDownList.tsx:31 | all layouts of one name have the same words |
| Text.SplitTrimmedIntoWords | src/Modules/DropDownList.tsx:31-33 | every token of a trimmed, non-blank name is a non-empty run without whitespace |
| Text.TrimSplitLayout | src/Modules/DropDownList.tsx:31 | trimming and splitting any padded name returns its words |
| Text.CollapseTrailingComma | src/Modules/DropDownList.tsx:52 | the replacement either leaves the string alone or cuts it to a shorter prefix that ends in a comma |
| Text.CollapseIsRegexReplace | src/Modules/DropDownList.tsx:52 | the collapse is `replace(/,\s+$/, ",")`: a match keeps the text up to the comma, and no match changes nothing |
| Text.TrimAbsorbsCommaCollapse | src/Modules/DropDownList.tsx:52-53 | the trim after the replacement returns what a trim alone would |
| Label.HonorificsAreWords | src/Modules/DropDownList.tsx:16-28 | every honorific is a single word, so each can be a first or last token, and the empty string is none of them |
| Label.IsHonorific | src/Modules/DropDownList.tsx:16-28 | exact membership in the honorific set, case and punctuation included; a predicate with no contract of its own, pinned down through `HonorificsAreWords` and `HonorificNameLabel` |
| Label.StripHonorific | src/Modules/DropDownList.tsx:36-42 | a token is kept or blanked, blanked exactly when it is empty or an honorific, and what is kept is never an honorific |
| Label.ResolveName | src/Modules/DropDownList.tsx:31-42 | the first and last tokens after honorific stripping; no contract of its own, pinned down by `ResolveLayout`, `ResolvedPartsAreWords` and `BlankNameResolves` |
| Label.SuffixPart | src/Modules/DropDownList.tsx:44 | empty exactly for an absent or empty suffix, otherwise one space and the suffix |
| Label.TitlePart | src/Modules/DropDownList.tsx:45 | empty exactly for an absent or empty title, otherwise the title in parentheses after one space |
| Label.RawLabel | src/Modules/DropDownList.tsx:47-51 | the template string; no contract of its own, pinned down case by case by `RawBoth`, `RawFirstOnly` and `RawLastOnly` through `LabelOfCases` |
| Label.LabelOf | src/Modules/DropDownList.tsx:47-56 | the label from the resolved parts; no contract of its own, pinned down by `LabelOfCases` against the independent `CaseLabel` |
| Label.FormatUserLabel | src/Modules/DropDownList.tsx:15-57 | the formatter; no contract of its own, pinned down by `FormatCases`, `LabelShape`, `TitleEndsLabel` and `LabelEndsWithComma` |
| Label.ResolvedPartsAreWords | src/Modules/DropDownList.tsx:31-42 | both resolved parts are blank or one word that is no honorific; indexing the first and last token is always in bounds |
| Label.ResolveLayout | src/Modules/DropDownList.tsx:31-42 | a padded name resolves to its first and last words, each stripped of honorifics independently |
| Label.BlankNameResolves | src/Modules/DropDownList.tsx:31-42 | an empty or whitespace-only name leaves neither part |
| Label.MiddleWordsIrrelevant | src/Modules/DropDownList.tsx:31-33 | names with the same first and last words resolve alike, whatever words, gaps and padding lie around and between them |
| Label.CommaCleanupIsNoOp | src/Modules/DropDownList.tsx:50-53 | when a part survives, the label is the trimmed template; the replacement has no effect |
| Label.BothPartsLabel | src/Modules/DropDownList.tsx:44-53 | with both parts the label is `last + suffixPart + ", " + first + titlePart`, untouched by the replacement and the trim |
| Label.FirstOnlyLabel | src/Modules/DropDownList.tsx:48-53 | with only the first part there is no comma, and only the leading space of `suffixPart + " "` can be trimmed |
| Label.LastOnlyLabel | src/Modules/DropDownList.tsx:48-53 | with only the last part there is no comma; with a title the label is `last + suffixPart + " " + titlePart`, and without one it is `last + suffixPart` with its trailing whitespace removed |
| Label.NoPartLabel | src/Modules/DropDownList.tsx:54-55 | with neither part the label is `"Unknown Name" + titlePart` |
| Label.LabelOfCases | src/Modules/DropDownList.tsx:44-56 | for resolved parts, the formatter's template, replacement and trim give the case-by-case label |
| Label.FirstOnlyNoSuffix | src/Modules/DropDownList.tsx:51-53 | with only the first part and no suffix, the label is `first + titlePart` |
| Label.FirstOnlyWithSuffix | src/Modules/DropDownList.tsx:51-53 | with only the first part and a suffix that begins with a non-whitespace character, the label is `suffix + " " + first + titlePart` |
| Label.TitleEndsCaseLabel | src/Modules/DropDownList.tsx:45-55 | a non-empty title ends the case-by-case label as `" (" + title + ")"` |
| Label.CaseLabelShape | src/Modules/DropDownList.tsx:50-55 | the case-by-case label is never empty and never begins or ends with whitespace |
| Label.CaseLabelEndsWithComma | src/Modules/DropDownList.tsx:48-53 | the label ends in a comma if and only if there is no title and the surviving first name ends in one, or, with no first name, the last name and suffix end in one after trailing whitespace is removed |
| Label.FormatCases | src/Modules/DropDownList.tsx:15-57 | `formatUserLabel` of every person equals the case-by-case label of the resolved name |
| Label.BlankNameLabel | src/Modules/DropDownList.tsx:31-55 | an empty or whitespace-only name gives `"Unknown Name"` and the title part |
| Label.HonorificNameLabel | src/Modules/DropDownList.tsx:16-55 | a name whose first and last words are honorifics gives `"Unknown Name"` and the title part, whatever stands between them |
| Label.PlainNameLabel | src/Modules/DropDownList.tsx:31-53 | a name whose first and last words are no honorifics gives `last + suffixPart + ", " + first + titlePart`, so a one-word name repeats |
| Label.TitleEndsLabel | src/Modules/DropDownList.tsx:45-55 | a non-empty title always ends the label as `" (" + title + ")"` |
| Label.LabelShape | src/Modules/DropDownList.tsx:50-55 | the label is never empty and has no leading or trailing whitespace |
| Label.LabelEndsWithComma | src/Modules/DropDownList.tsx:48-53 | the exact condition under which the label ends in a comma; the inserted comma never ends it |
| Label.EmptyLikeAbsent | src/Modules/DropDownList.tsx:44-45 | an empty suffix or title gives the same label as an absent one |
| LabelExamples.CherExample | src/Modules/DropDownList.tsx:31-53 | `"Cher"` with no suffix and no title is labelled `"Cher, Cher"` |
| LabelExamples.DrSmithCommaExample | src/Modules/DropDownList.tsx:31-53 | `"Dr. Smith,"` resolves to the last name `"Smith,"` alone, the template is `"Smith, "`, the replacement matches at the comma, and the label is `"Smith,"` |
| Decoration.DemoSuffix | src/Modules/DropDownList.tsx:72 | the suffix is `"Jr."` exactly at even positions and absent at odd ones |
| Decoration.DemoTitle | src/Modules/DropDownList.tsx:73 | the title is `"Mr."` exactly at multiples of 3, `"Mrs."` exactly at the other multiples of 5, and absent otherwise |
| Decoration.Decorate | src/Modules/DropDownList.tsx:70-74 | the map keeps the length, the order and every field except suffix and title, and sets those by position |
| Decoration.MrWinsOverMrs | src/Modules/DropDownList.tsx:73 | positions 0 and 15 get `"Mr."`, positions 5 and 10 get `"Mrs."`, and positions 1 and 7 get no title |
| Decoration.DecoratedTitleEndsLabel | src/Modules/DropDownList.tsx:70-74 | a decorated person with a title has a label ending in `" (Mr.)"` or `" (Mrs.)"`, as the position decides |
| Decoration.DecoratedPlainLabel | src/Modules/DropDownList.tsx:70-74 | a decorated person with a plain name is labelled `"<last> Jr., <first>"` at even positions and `"<last>, <first>"` at odd ones, followed by the position's title part |
| LastNameSort.SplitOnSpace | src/Modules/DropDownList.tsx:77-78 | `split(" ")` returns at least one piece, and no piece contains a space |
| LastNameSort.JoinSplit | src/Modules/DropDownList.tsx:77 | joining the pieces with single spaces gives back the name |
| LastNameSort.SplitJoin | src/Modules/DropDownList.tsx:77 | splitting space-free pieces joined with single spaces gives back the pieces |
| LastNameSort.SplitSpaceFree | src/Modules/DropDownList.tsx:77 | a name without a space is a single piece |
| LastNameSort.SplitAtSpace | src/Modules/DropDownList.tsx:77 | splitting at a space splits the text on each side independently |
| LastNameSort.DoubleSpaceGivesEmptyPiece | src/Modules/DropDownList.tsx:77 | two spaces in a row give an empty piece |
| LastNameSort.SortKey | src/Modules/DropDownList.tsx:77-78 | the key contains no space and is either the whole name or the end of the name after a space, that is, the text after the last space |
| LastNameSort.KeyLe | src/Modules/DropDownList.tsx:76-79 | the comparator places the first person's key no later than the second's; a predicate with no contract of its own, used by `AdjacentSorted` and the sort's contracts |
| LastNameSort.KeyOfSpaceFree | src/Modules/DropDownList.tsx:77-78 | a name without a space is its own sort key |
| LastNameSort.KeyAfterLastSpace | src/Modules/DropDownList.tsx:77-78 | the sort key is the text after the last space |
| LastNameSort.TrailingSpaceKey | src/Modules/DropDownList.tsx:77-78 | a name ending in a space has the empty key |
| LastNameSort.TrailingSpaceKeyIsNotLastWord | src/Modules/DropDownList.tsx:77-78 | for a name with a trailing space, the sort key is empty although the formatter's last word is not |
| LastNameSort.AdjacentSortedIsSorted | src/Modules/DropDownList.tsx:76-80 | with a transitive comparator, neighbours in key order put every pair in key order |
| LastNameSort.InsertingSwap | src/Modules/DropDownList.tsx:79 | exchanging a pair the comparator orders the other way keeps the sorted prefix intact, except at the pair that moves down |
| LastNameSort.Insert | src/Modules/DropDownList.tsx:76-80 | one insertion step permutes `a[..i + 1]`, leaves `a[i + 1..]` as it was, and leaves `a[..i + 1]` in key order |
| LastNameSort.SiftDown | src/Modules/DropDownList.tsx:76-80 | moving `a[i]` down past the neighbours the comparator places after it permutes the array, leaves `a[i + 1..]` as it was, and puts `a[..i + 1]` in key order |
| LastNameSort.PrefixPermutes | src/Modules/DropDownList.tsx:76-80 | a permutation that keeps everything from position `n` on permutes the first `n` elements |
| LastNameSort.SortByLastName | src/Modules/DropDownList.tsx:76-80 | the in-place sort permutes the array and leaves every pair of neighbours in key order; only a total comparator is required |
| LastNameSort.PrepareOptions | src/Modules/DropDownList.tsx:70-80 | the options are a fresh array holding a permutation of the decorated list, with neighbours in key order |

## Left out

- The `fetch` call, the JSON decoding and the `.catch` handler
  (`src/Modules/DropDownList.tsx:65-88`). They are network I/O and promise
  plumbing. `PrepareOptions` takes the fetched list as a parameter and returns
  what `setUsers` receives.
- The React state and effects: `users`, `loading`, `selectedUser` and the
  effect hook. This state is managed by the framework. The loading flag left
  `true` after a failed fetch belongs to this part.
- The MUI `Autocomplete`, `TextField` and `Typography` rendering, the address
  panel, and the one-line `isOptionEqualToValue` id comparison. They are
  rendering delegated to an external library.
- The collation of `String.prototype.localeCompare`. It is a locale-dependent
  foreign call, so it is the parameter `cmp`. The sort requires only that `cmp`
  accepts at least one order of every pair. Transitivity is assumed only
  where `AdjacentSortedIsSorted` needs it.
- The particular algorithm of `Array.prototype.sort`, which the language
  leaves to the engine. The model sorts by insertion and proves a permutation
  with neighbours in key order.
- LastNameSort.SortByLastName: does not prove stability. Since ECMAScript 2019
  `Array.prototype.sort` must be stable, so two people with equal keys keep
  their decorated order. The model's insertion sort only swaps pairs the
  comparator orders strictly the other way, but no contract states which of
  two equal-key people comes first.
- UTF-16 code units. Strings are sequences of code points. Every whitespace
  code point lies in the Basic Multilingual Plane, so trimming and splitting
  are unaffected.
- The honorific set is rebuilt on every call in the source. Here it is one
  constant.
- `src/Modules/interfaces/UserInterface.ts` is not part of this model beyond
  the record shape in module `Users`.
