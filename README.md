# Species autocomplete: matcher and input handlers

This project models the species-name autocomplete panel of the genome
search front end (`Ensembl.Panel.SpeciesFilterAutocomplete`). It covers two
parts:

- **`filterArray`**, the matcher. It normalises the query by dropping every
  character outside `[A-Za-z0-9 ]` and upper-casing the rest. It keeps the
  candidates whose own stripped text contains the normalised query, letter
  case ignored. It then sorts the kept candidates. Candidates whose
  upper-cased *unstripped* text begins with the query come first. Within
  each group the order is JavaScript's string `<`.
- **The handlers `init` attaches to the text input.** These are focus,
  blur, keyup and submit. They update the input's text, its `inactive` and
  `invalid` CSS classes, and the searches they ask the widget for.

Modules:

- `Text` (`text.dfy`): stripping, ASCII upper-casing, the normalised form,
  and the case-insensitive literal substring test. That test is what the
  escaped pattern with the `i` flag performs.
- `Ranking` (`ranking.dfy`): JavaScript string `<` (`LexLess`), the begins
  test, and the comparator, with the proof that the comparator is a total
  order.
- `Sorting` (`sorting.dfy`): sorting by a comparator, as in
  `Array.prototype.sort(comparefn)`. It includes the proof that, for a total
  order, the sorted permutation is unique.
- `Matcher` (`matcher.dfy`): `$.grep` with the match condition,
  `FilterArray`, and the properties of its result.
- `Autocomplete` (`autocomplete.dfy`): the class `SpeciesInput`, with one
  method per event handler.

Points about the code that the model keeps:

- The filter tests the stripped candidate, but the begins test looks at the
  unstripped, upper-cased candidate. `BeginsImpliesMatches` shows that a
  candidate which begins with the query always passes the filter.
  `DottedNameDoesNotBegin` shows that the converse fails: the candidate
  `"A.B"` matches the query `"A.B"` but is ranked in the second group.
- Punctuation is dropped from the query and from the candidates, but
  spaces are kept in both. So a query that joins two words with
  punctuation does not match a candidate that separates them with a
  space: `HyphenDoesNotMatchSpace` shows that the query `"A-B"` becomes
  `"AB"` and finds nothing in the list `["A B"]`.
- Duplicates are not removed. Each matching candidate appears in the
  result exactly as often as in the list.
- The comparator puts a total order on strings, with ties only between
  equal strings. So the result does not depend on the engine's sorting
  algorithm (`SortedUnique`, `FilterArrayUnique`). The model sorts by
  insertion.
- Keyup checks the text only when it has at least 3 characters. It sets
  `invalid` exactly when `filterArray` returns nothing. Shorter text
  always clears `invalid`.
- The widget's `source` callback passes `filterArray(speciesList, term)`
  through unchanged, so `FilterArray` models it too.

Inputs that the model takes as parameters:

- the species list, which the page embeds as a JSON-like payload;
- the input's title attribute;
- the input's starting text and classes;
- the text the browser has put in the field when a key is released.

## Model

| member | source | states |
|---|---|---|
| Text.IsKept | htdocs/components/EGS_10_SpeciesFilterAutocomplete.js:54-57 | the character class `[a-zA-Z0-9 ]` of the characters that survive stripping; every such character lies between the space and `z` |
| Text.UpperChar | htdocs/components/EGS_10_SpeciesFilterAutocomplete.js:54 | upper-casing one character: never gives a lower-case letter; keeps whether the character is in `[A-Za-z0-9 ]`; changes exactly the lower-case letters, each to its capital |
| Text.Upper | htdocs/components/EGS_10_SpeciesFilterAutocomplete.js:54 | `toUpperCase` keeps the length and upper-cases each character in place |
| Text.Strip | htdocs/components/EGS_10_SpeciesFilterAutocomplete.js:54 | the `[^a-zA-Z0-9 ]` removal never lengthens the text and leaves only `[A-Za-z0-9 ]` characters |
| Text.StripCount | htdocs/components/EGS_10_SpeciesFilterAutocomplete.js:57 | stripping keeps every occurrence of a kept character and drops every occurrence of any other |
| Text.StripConcat | htdocs/components/EGS_10_SpeciesFilterAutocomplete.js:57 | stripping works character by character: the stripped form of a concatenation is the concatenation of the stripped forms |
| Text.StripOfKept | htdocs/components/EGS_10_SpeciesFilterAutocomplete.js:54 | text made only of `[A-Za-z0-9 ]` characters is unchanged by stripping |
| Text.UpperOfNoLower | htdocs/components/EGS_10_SpeciesFilterAutocomplete.js:54 | text without lower-case letters is unchanged by upper-casing |
| Text.UpperStripCommute | htdocs/components/EGS_10_SpeciesFilterAutocomplete.js:54 | stripping then upper-casing gives the same text as upper-casing then stripping |
| Text.Normalize | htdocs/components/EGS_10_SpeciesFilterAutocomplete.js:54 | the normalised term is no longer than the term and holds only capitals, digits and spaces |
| Text.NormalizeIdempotent | htdocs/components/EGS_10_SpeciesFilterAutocomplete.js:54 | normalising twice gives the same as normalising once |
| Text.NormalizeIgnoresCase | htdocs/components/EGS_10_SpeciesFilterAutocomplete.js:54 | two terms that differ only in letter case have the same normalised form |
| Text.ContainsIgnoringCase | htdocs/components/EGS_10_SpeciesFilterAutocomplete.js:55-57 | the test of the escaped pattern with flag `i` is true iff the pattern occurs at some offset of the text, letter case ignored |
| Text.ContainsFrom | htdocs/components/EGS_10_SpeciesFilterAutocomplete.js:55-57 | scanning from offset k finds exactly the case-insensitive occurrences at offsets at least k |
| Ranking.LexLess | htdocs/components/EGS_10_SpeciesFilterAutocomplete.js:65 | JavaScript's string `a < b`: a proper prefix is smaller than the longer string, and no string is smaller than an equal one |
| Ranking.LexLessToIndex | htdocs/components/EGS_10_SpeciesFilterAutocomplete.js:65 | when a `<` b, a is a proper prefix of b or has the smaller character at the first difference |
| Ranking.IndexToLexLess | htdocs/components/EGS_10_SpeciesFilterAutocomplete.js:65 | when a is a proper prefix of b or has the smaller character at the first difference, a `<` b |
| Ranking.LexLessMeaning | htdocs/components/EGS_10_SpeciesFilterAutocomplete.js:65 | string `<` holds iff a is a proper prefix of b, or a has the smaller character at the first index where they differ |
| Ranking.LexLessIrreflexive | htdocs/components/EGS_10_SpeciesFilterAutocomplete.js:65 | no string is `<` itself |
| Ranking.LexLessTransitive | htdocs/components/EGS_10_SpeciesFilterAutocomplete.js:65 | string `<` is transitive |
| Ranking.LexLessTrichotomy | htdocs/components/EGS_10_SpeciesFilterAutocomplete.js:64-65 | of two different strings exactly one is `<` the other |
| Ranking.Take | htdocs/components/EGS_10_SpeciesFilterAutocomplete.js:61-62 | `substr(0, n)` is a prefix of length n, or the whole string when it is shorter |
| Ranking.Begins | htdocs/components/EGS_10_SpeciesFilterAutocomplete.js:61-62 | `a.toUpperCase().substr(0, term.length) == term` holds iff the term is a prefix of the upper-cased, unstripped candidate |
| Ranking.Compare | htdocs/components/EGS_10_SpeciesFilterAutocomplete.js:59-68 | the comparator returns -1, 0 or 1; 0 exactly for equal strings; -1 when only a begins with the term and 1 when only b does; within one group, -1 exactly when a `<` b |
| Ranking.Comparator | htdocs/components/EGS_10_SpeciesFilterAutocomplete.js:59-68 | the function handed to `matches.sort` returns -1, 0 or 1, and 0 exactly for equal strings |
| Ranking.CompareAntisymmetric | htdocs/components/EGS_10_SpeciesFilterAutocomplete.js:59-68 | swapping the arguments negates the comparison |
| Ranking.PrecedesTransitive | htdocs/components/EGS_10_SpeciesFilterAutocomplete.js:59-68 | "compares at most 0" is transitive, so the comparator is consistent |
| Ranking.PrecedesAntisymmetric | htdocs/components/EGS_10_SpeciesFilterAutocomplete.js:63-64 | two strings that compare at most 0 both ways are equal |
| Ranking.PrecedesTotal | htdocs/components/EGS_10_SpeciesFilterAutocomplete.js:59-68 | of any two strings one compares at most 0 with the other |
| Ranking.CompareIsTotalOrder | htdocs/components/EGS_10_SpeciesFilterAutocomplete.js:59-68 | the comparator handed to `sort` is transitive and total, and ties only equal strings |
| Sorting.Insert | htdocs/components/EGS_10_SpeciesFilterAutocomplete.js:59 | inserting lengthens the sequence by one |
| Sorting.Sort | htdocs/components/EGS_10_SpeciesFilterAutocomplete.js:59 | sorting keeps the length |
| Sorting.InsertCount | htdocs/components/EGS_10_SpeciesFilterAutocomplete.js:59 | inserting adds exactly one copy of the element |
| Sorting.SortPermutation | htdocs/components/EGS_10_SpeciesFilterAutocomplete.js:59 | sorting keeps the multiset of elements |
| Sorting.InsertBounded | htdocs/components/EGS_10_SpeciesFilterAutocomplete.js:59 | a lower bound of a sequence and of the inserted element is a lower bound of the result of the insertion |
| Sorting.ConsSorted | htdocs/components/EGS_10_SpeciesFilterAutocomplete.js:59 | adding a lower bound in front of a sorted sequence keeps it sorted |
| Sorting.InsertSorted | htdocs/components/EGS_10_SpeciesFilterAutocomplete.js:59 | for a transitive and total comparator, inserting into a sorted sequence keeps it sorted |
| Sorting.SortSorted | htdocs/components/EGS_10_SpeciesFilterAutocomplete.js:59 | for a transitive and total comparator, the sort result is sorted |
| Sorting.SortedHeadPrecedes | htdocs/components/EGS_10_SpeciesFilterAutocomplete.js:59 | the first element of a sorted sequence compares at most 0 with each of its elements |
| Sorting.SortedHeadsEqual | htdocs/components/EGS_10_SpeciesFilterAutocomplete.js:59 | two sorted sequences with the same elements have the same first element |
| Sorting.SortedUnique | htdocs/components/EGS_10_SpeciesFilterAutocomplete.js:59 | for a total order, two sorted sequences with the same elements are equal, so every correct sort gives one result |
| Matcher.Matches | htdocs/components/EGS_10_SpeciesFilterAutocomplete.js:55-57 | the `$.grep` callback holds iff the term occurs, letter case ignored, at some offset of the stripped candidate; a term that matches is no longer than the candidate; the empty term matches every candidate |
| Matcher.Grep | htdocs/components/EGS_10_SpeciesFilterAutocomplete.js:56-58 | the grep result is no longer than the list |
| Matcher.GrepCount | htdocs/components/EGS_10_SpeciesFilterAutocomplete.js:56-58 | grep keeps every copy of each matching candidate and no copy of any other |
| Matcher.FilterArray | htdocs/components/EGS_10_SpeciesFilterAutocomplete.js:53-70 | the result is no longer than the candidate list |
| Matcher.FilterArrayCount | htdocs/components/EGS_10_SpeciesFilterAutocomplete.js:56-59 | each candidate appears in the result as often as in the list if it matches, and not at all otherwise: a permutation of the filtered candidates, duplicates kept |
| Matcher.FilterArrayMembership | htdocs/components/EGS_10_SpeciesFilterAutocomplete.js:55-58 | a string is in the result iff it is in the list and its stripped form contains the normalised term, letter case ignored |
| Matcher.FilterArraySorted | htdocs/components/EGS_10_SpeciesFilterAutocomplete.js:59-68 | the result is ordered by the comparator |
| Matcher.FilterArrayBeginsFirst | htdocs/components/EGS_10_SpeciesFilterAutocomplete.js:61-67 | every result that begins with the term comes before every result that does not |
| Matcher.FilterArrayGroupOrder | htdocs/components/EGS_10_SpeciesFilterAutocomplete.js:63-65 | in one begins-group, a result is equal to or `<` any later result |
| Matcher.FilterArrayUnique | htdocs/components/EGS_10_SpeciesFilterAutocomplete.js:56-68 | every sequence that holds the matching candidates with their multiplicities and is sorted by the comparator is the result |
| Matcher.FilterArrayIgnoresCase | htdocs/components/EGS_10_SpeciesFilterAutocomplete.js:54-55 | terms that differ only in letter case give the same result |
| Matcher.FilterArrayEmptyTerm | htdocs/components/EGS_10_SpeciesFilterAutocomplete.js:54-65 | a term that normalises to nothing returns every candidate with its multiplicity, in ascending string order |
| Matcher.FilterArrayEmpty | htdocs/components/EGS_10_SpeciesFilterAutocomplete.js:55-58 | the result is empty iff no candidate in the list matches |
| Matcher.BeginsHeadKept | htdocs/components/EGS_10_SpeciesFilterAutocomplete.js:61 | for a term of kept characters, a candidate that begins with it is at least as long and its first characters are kept characters that upper-case to the term |
| Matcher.BeginsImpliesMatches | htdocs/components/EGS_10_SpeciesFilterAutocomplete.js:57-61 | a candidate that begins with the normalised term passes the filter |
| Matcher.DottedNameDoesNotBegin | htdocs/components/EGS_10_SpeciesFilterAutocomplete.js:54-61 | the candidate `"A.B"` matches the term `"A.B"` (normalised `"AB"`) but does not begin with it |
| Matcher.HyphenDoesNotMatchSpace | htdocs/components/EGS_10_SpeciesFilterAutocomplete.js:54-57 | the term `"A-B"` normalises to `"AB"`, which the candidate `"A B"` (stripped, still `"A B"`) does not contain, so `filterArray(["A B"], "A-B")` is empty |
| Autocomplete.SpeciesInput.constructor | htdocs/components/EGS_10_SpeciesFilterAutocomplete.js:7-8 | the input starts with the title, the species list, its text and classes as given, and no searches yet |
| Autocomplete.SpeciesInput.Focus | htdocs/components/EGS_10_SpeciesFilterAutocomplete.js:17-24 | when the text equals the title, the text becomes empty and `inactive` is cleared; other non-empty text is searched again and left unchanged; `invalid` is untouched |
| Autocomplete.SpeciesInput.Blur | htdocs/components/EGS_10_SpeciesFilterAutocomplete.js:25-29 | `invalid` is cleared, `inactive` is set and the text is reset to the title, whatever the state before |
| Autocomplete.SpeciesInput.Keyup | htdocs/components/EGS_10_SpeciesFilterAutocomplete.js:30-41 | with at least `MinLength` (the constant 3 of line 32) characters, `invalid` is set iff `filterArray` returns nothing, that is iff no species matches; with fewer, `invalid` is cleared; text and `inactive` are as typed and as before |
| Autocomplete.SpeciesInput.Submit | htdocs/components/EGS_10_SpeciesFilterAutocomplete.js:14-16 | a search for the current text is requested, nothing else changes, and false is returned, which cancels the submit event the handler receives |
| Autocomplete.BlurThenFocus | htdocs/components/EGS_10_SpeciesFilterAutocomplete.js:17-29 | after a blur and then a focus, the input is empty, active and not invalid, whatever it held before, for an input that carries a title |

## Left out

- `htdocs/components/10_SpeciesFilterDropdown.js` is not part of this model. It only passes the selected option to page navigation.
- The `select` callback (line 12) is left out, because `Ensembl.redirect` and the URL it builds are page navigation, an external side effect.
- The `eval` of the embedded species payload (line 8) is left out. The species list is a constructor parameter.
- The `_renderItem` highlighting (lines 42-47) is left out. It relies on a regular expression with lookahead guards and on building DOM elements, and modelling it would need a regex engine.
- The widget's own behaviour is left out: `minLength: 3` (line 11), what `search` does, and popup rendering. A search the handlers ask for is recorded in `searches` and nothing more.
- The `unload` binding (line 49) is left out, because it has no effect on the modelled state.
- DOM classes are modelled as the booleans `inactive` and `invalid`.
- Submit: the handler is bound to the text input (line 14), not to its form. A form submission fires `submit` at the form, and the event bubbles outwards to the form's ancestors, so it never reaches this handler. The returned false cancels only a `submit` event fired at the input itself. Whether pressing Enter submits the form is page behaviour, not part of this model.
- SpeciesInput.title: the input is assumed to carry a `title` attribute, so `title` is a string. Without one, `attr('title')` is `undefined`. Blur then empties the field (line 29), and the next focus does nothing (lines 19 and 22 compare `''` with `undefined` and with `''`), so `inactive` stays set. No string title reproduces this, and for such an input `Focus` and `BlurThenFocus` do not describe the source.
- Text is ASCII: `UpperChar` upper-cases only `a`-`z`. Case-insensitive matching compares ASCII upper case. `LexLess`, the length test of keyup (`|text| >= MinLength`, line 32) and `Take` in the begins test (`substr(0, term.length)`, line 61) count Dafny characters, whereas JavaScript compares and counts UTF-16 code units. For non-ASCII text, JavaScript's full Unicode upper-casing, regex case folding and code-unit order can differ from the model.
- The engine's sorting algorithm is not modelled; the model sorts by insertion. SortedUnique shows that any correct sort gives the same result.
- The order in which the browser fires events is left out: each handler may be called in any state.
