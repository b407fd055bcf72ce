# Study search front end: query and result handling

This project models the string and sequence logic of `app.js`, the browser
front end of the study search page, and proves properties of it. It covers
these parts of the page:

- **The query box.** `isRunnableQuery` decides whether a boolean query is
  complete enough to send. `normalizeBooleanQuery` rewrites it with three
  global regular-expression replacements before it goes out.
  `insertSymbol` inserts an operator from the logic toolbar.
  `appendTermToQuery` appends a related term that the user clicked.
- **Related terms.** `normalizeRelated` turns the many shapes of a
  related-terms response into a ranked list of terms.
- **Studies.** `getField` and `toStudiesArray` read study records. The
  filter and sort of `applyStudyFiltersAndRender` select studies by
  publication year and order them by year.
- **Escaping.** `escapeHtml` protects every value that is pasted into HTML.

Each module follows one part of the source:

| module | models |
|---|---|
| `Text` | the JavaScript whitespace class, `trim`, ASCII case folding, character counts, code-point order |
| `Numbers` | `String(n)` for integers, `parseInt(s, 10)` and `Math.trunc` |
| `Json` | JSON values, property reads and `Object.entries` |
| `Escape` | `escapeHtml` |
| `Query` | `isRunnableQuery` |
| `Rewrite` | `normalizeBooleanQuery` and a generic `replace(/…/g)` scan |
| `Sorting` | `Array.prototype.sort` with a comparator (in place on an array) and `map` |
| `Related` | `normalizeRelated` |
| `Studies` | `getField`, `toStudiesArray` and the year filter and sort |
| `Editing` | `insertSymbol`, `appendTermToQuery` and the query box as an object with a value and a selection |

The source changes state in four places, and the model keeps the same
form there:

- the parenthesis counter of `isRunnableQuery` and the key loop of
  `getField` are methods with loops;
- the three sorts (`Related.RankItems`, `Related.RankEntries` and
  `Studies.SortByYear`) copy into an `array` and sort it in place;
- `input.value` and the selection are fields of the class
  `Editing.QueryInput`.

The rest is functions and lemmas.

## Model

| member | source | states |
|---|---|---|
| Escape.EscapeHtml | app.js:34-41 | Definition without a contract: the five replacements of `Escape.EscapeRules` applied in turn. The lemmas below state its properties |
| Escape.EscapeHtmlOneChar | app.js:34-41 | Escaping one character gives `&amp;`, `&lt;`, `&gt;`, `&quot;` or `&#39;` for the five special characters, and the character itself otherwise |
| Escape.EscapeHtmlConcat | app.js:34-41 | Escaping the concatenation of two strings equals concatenating their escapes |
| Escape.EscapeHtmlIsPerCharacter | app.js:34-41 | The five chained global replacements, in the source's order (`&` first), equal escaping each character on its own, so `&` is never escaped twice |
| Escape.EscapeHtmlSafe | app.js:34-41 | The output has no raw `<`, `>`, `"` or `'`, and every `&` in it starts one of the five entities |
| Escape.UnescapeEscapeHtml | app.js:34-41 | Decoding the five entities gives back the original string, so escaping loses nothing |
| Escape.UnescapeRule | app.js:36-40 | Each of the five entities decodes to the character its replacement removed |
| Query.RunnableQuery | app.js:346-362 | Definition without a contract: the source's four tests as whole-string conditions on the trimmed query. The lemmas below state its properties |
| Query.IsRunnableQuery | app.js:346-362 | The verdict holds exactly when the trimmed query is nonempty, does not end in `AND`/`OR`/`NOT`, has no surplus of `(` and has an even number of `"` |
| Query.ParenBalance | app.js:352-356 | The counter loop ends at the number of `(` minus the number of `)` |
| Query.EndsWithWordIsSplit | app.js:350 | The trailing-word test holds exactly when `(?:^\|\s)w\s*$` (case-insensitive) matches at some position |
| Query.TrailingOperatorNotRunnable | app.js:348-350 | A query whose last word is `AND`, `OR` or `NOT` in any case, followed only by whitespace, is not runnable |
| Query.UnclosedParenNotRunnable | app.js:352-357 | More `(` than `)` anywhere in the query makes it not runnable; trimming never removes a parenthesis |
| Query.OddQuotesNotRunnable | app.js:359-360 | An odd number of `"` makes the query not runnable |
| Query.ExtraCloseParenRunnable | app.js:352-357 | `a)` is runnable: a surplus of `)` is allowed |
| Query.MisorderedParensRunnable | app.js:352-357 | `)a(` is runnable: only the counts are compared, not the order |
| Query.BlankNotRunnable | app.js:347-348 | A whitespace-only query is not runnable |
| Query.LowercaseTrailingOperator | app.js:350 | `pain and ` is not runnable: the operator test ignores case and trailing whitespace |
| Query.WordEndingInAndRunnable | app.js:350 | `brand` is runnable: a word that merely ends in `and` is not an operator |
| Query.PlainQueryRunnable | app.js:346-362 | `a AND b` is runnable |
| Query.UnclosedParenExample | app.js:357 | `(a` is not runnable |
| Query.OpenQuoteNotRunnable | app.js:359-360 | `"pain` is not runnable |
| Rewrite.NormalizeBooleanQuery | app.js:365-379 | Definition without a contract: trim, then the whitespace, binary and `NOT` replacements in turn. The lemmas below state its properties |
| Rewrite.NormalizeWellSpaced | app.js:365-369 | The output is trimmed, single-spaced with plain spaces, and empty exactly when the query is blank |
| Rewrite.NormalizeSimpleBinary | app.js:371-373 | `a OR b` (the operator in any case) becomes `(a) OR (b)` with the operator upper-cased |
| Rewrite.NormalizeSimpleNot | app.js:375-377 | `NOT a` (in any case) becomes `NOT (a)` |
| Rewrite.NormalizeOperatorThenNot | app.js:371-377 | `x AND NOT y` becomes `(x) AND (NOT) y`: the binary pattern takes `NOT` as its right term |
| Rewrite.NormalizeBinaryChain | app.js:371-373 | `a OR b OR c` becomes `(a) OR (b) OR c`: the matches of the binary pattern do not overlap, so `b` is taken by the first one and `c` is left bare |
| Rewrite.NormalizeKeepsNormalBinary | app.js:371-377 | `(a) OR (b)` is left unchanged |
| Rewrite.NormalizeSimpleBinaryIdempotent | app.js:365-379 | Normalising a simple binary query a second time changes nothing |
| Rewrite.NormalizeKeepsSkeleton | app.js:365-379 | Normalisation changes only whitespace, parentheses and the case of letters: the rest of the query and its order are kept |
| Rewrite.NormalizeKeepsDepth | app.js:365-379 | Normalisation keeps the count of `(` minus `)`, so a query that passed the runnable check stays balanced |
| Rewrite.NormalizeKeepsQuotes | app.js:365-379 | Normalisation keeps every `"` |
| Rewrite.CollapseIdempotent | app.js:369 | Collapsing whitespace runs a second time changes nothing |
| Rewrite.ParseBinaryComplete | app.js:371 | The binary-operator pattern, tried at a position, finds exactly the groups of a well-formed match there |
| Sorting.SortInPlace | app.js:90-97 | Sorting an array in place by a total preorder leaves it ordered by the comparator and a permutation of the original |
| Sorting.MapPermutation | app.js:98 | Mapping two permutations of each other gives two permutations of each other |
| Json.Lookup | app.js:120-123 | A key's value is found exactly when the key is present, and it is that key's value |
| Json.Entries | app.js:102 | `Object.entries` gives an object's own pairs, and gives an array's elements under their decimal indices |
| Related.Pick | app.js:80-81 | The unwrapped payload is the value under the first of `related`, `related_terms`, `associations`, `terms`, `data` that is present and not `null`, and the input itself when there is none |
| Related.TermOf | app.js:98 | An item's term is the value under the first of `term`, `name`, `id` that is present and not `null`, and `""` when there is none |
| Related.Score | app.js:91-92 | Definition without a contract: a number is its own score, a string is read by `parseFloat`, anything else is `NaN` |
| Related.EntryScore | app.js:104-107 | Definition without a contract: the score of an object-like value is that of its `jaccard` property, and other values are scored themselves |
| Related.LocaleCompare | app.js:108 | The key comparison is at most zero exactly when the keys are in code-point order |
| Related.CompareScoresScored | app.js:91-96 | When either side has a score, the comparator puts the higher score first and an unscored item after a scored one |
| Related.ItemLePreorder | app.js:90-97 | The item comparator is total and transitive, so sorting by it is well defined |
| Related.EntryLePreorder | app.js:103-112 | The entry comparator is total and transitive |
| Related.RankItems | app.js:89-97 | The ranked copy is a permutation of the items, ordered by the comparator |
| Related.RankEntries | app.js:102-112 | The ranked entries are a permutation of the entries, ordered by the comparator |
| Related.NormalizeRelated | app.js:78-117 | An empty or string-first list comes back unchanged. An object list gives its items ranked by score and their terms. A map, or another array, gives its keys ordered by score. Anything else gives `[]` |
| Related.RankedItemsOrder | app.js:90-97 | In the ranked list scores never increase and unscored items come after every scored one |
| Related.RankedEntriesOrder | app.js:103-112 | In the ranked entries scores never increase, and unscored keys come last in ascending key order |
| Studies.FieldOf | app.js:121-123 | A key's value is found exactly when the record has the key or its upper-case form, with the key as given tried first |
| Studies.GetField | app.js:119-126 | The loop returns the value under the first key found, as given or upper-cased, and `""` when none is found |
| Studies.FieldLookupFirst | app.js:120-124 | The result is the value of the first key that is present |
| Studies.FieldLookupMissing | app.js:125 | With no key present the result is `""` |
| Studies.ToStudiesArray | app.js:129-134 | The studies are the input if it is an array, else its `results` array, else its `studies` array, else `[]` |
| Studies.ToStudiesArrayIdempotent | app.js:129-134 | Extracting the studies from an extracted list changes nothing |
| Studies.YearOfValue | app.js:481-482 | Definition without a contract: `Number.parseInt(String(v), 10)` for each kind of JSON value. The three lemmas below state its properties |
| Studies.YearOfInteger | app.js:482 | A year stored as an integer number, or as that number's decimal text, is read as that year |
| Studies.YearOfText | app.js:482 | Year text followed by a non-digit (`2020-05-01`, `2020 AD`) is read as the year |
| Studies.YearOfNonNumeric | app.js:482 | Booleans, `null` and objects have no year |
| Numbers.ParseInt | app.js:482 | Definition without a contract: leading whitespace skipped, an optional sign, then the longest digit run, with no digit read as `NaN`. The three lemmas below state its properties |
| Numbers.ParseIntIntToString | app.js:482 | `parseInt(String(k), 10) == k` for every integer |
| Numbers.ParseIntSkipsSpace | app.js:476-477 | Leading whitespace does not change what `parseInt` reads |
| Numbers.ParseIntNoDigits | app.js:476-477 | Text with no digit after its optional sign is `NaN` |
| Studies.Bound | app.js:476-477 | Definition without a contract: an empty box is no bound (`NaN`), and any other text is read by `parseInt` |
| Studies.Kept | app.js:480-490 | Definition without a contract: the three tests of the filter callback. `Studies.KeptIff` states what they select |
| Studies.KeptIff | app.js:480-490 | With no bound every study is kept. With a bound, exactly the studies with a valid year within every bound given are kept |
| Studies.Filter | app.js:480-490 | The kept list holds every passing study as often as the input does, and nothing else |
| Studies.YearLePreorder | app.js:493-502 | The year comparator is total and transitive |
| Studies.SortByYear | app.js:493-502 | The sorted list is a permutation of the filtered list, ordered by the year comparator |
| Studies.ApplyStudyFilters | app.js:467-505 | The shown list is a permutation of the filtered studies and a sub-multiset of the raw list. Every shown study passes the bounds, and the list is ordered by the year comparator |
| Studies.SortedYears | app.js:493-502 | In the shown list a study without a year is followed only by studies without a year. Two valid years are ascending or descending as chosen |
| Studies.AscendingExamples | app.js:475 | The sort is ascending for `asc` in any case and descending when nothing or `desc` is selected |
| Editing.InsertedText | app.js:311-324 | Definition without a contract: an operator word is upper-cased and padded with the spaces it lacks, and other text is inserted as it is. The lemmas below state its properties |
| Editing.OperatorUpper | app.js:311-312 | An operator symbol in any case is inserted as `AND`, `OR` or `NOT` |
| Editing.OperatorStandsAlone | app.js:311-324 | An inserted operator reads `a + OP + b`. `a` is empty or ends in whitespace or `(`, and `b` starts with whitespace or `)` |
| Editing.OperatorAtEndNotRunnable | app.js:311-327 | An operator inserted at the end of the query, not right after `(`, leaves a query the runnable check refuses |
| Editing.QueryInput.SetValue | app.js:327 | Setting a new value stores it. When the value changes and the input has a selection, the caret moves to the end |
| Editing.QueryInput.InsertSymbol | app.js:298-335 | The new value is `before + text + after` around the old selection. The caret is at `\|before + text\|` when the input has a selection, and nothing else changes otherwise |
| Editing.AppendedAsWritten | app.js:439-440 | Definition without a contract: the source's `needsAnd` test and join, operator test included. The lemmas below state where it goes wrong |
| Editing.AsWrittenDoublesOperator | app.js:439-440 | As written, a query ending in `AND` with nothing after it gets a second `AND` before the term |
| Editing.OperatorTestIsDead | app.js:439 | The `/(AND\|OR)\s+$/i` test only matches queries that the `/[\s(]$/` test before it already excludes |
| Editing.AsWrittenExample | app.js:439-440 | As written, appending `fever` to `pain AND` gives `pain AND AND fever` |
| Editing.JoinerCases | app.js:439-440 | The separator is ` AND ` exactly when the query ends in neither whitespace, `(` nor a binary operator. Otherwise it is empty when the query ends in a space, and ` ` when it does not |
| Editing.Appended | app.js:435-443 | A blank query is replaced by the term. Otherwise the term follows the query after ` AND `, ` ` or nothing |
| Editing.AppendedAfterOperator | app.js:439-440 | After a trailing `AND` or `OR` the term follows with at most one space |
| Editing.AppendedAfterWord | app.js:439-440 | After a word, a quote or `)` the term is joined by ` AND ` |
| Editing.AppendedAgreesElsewhere | app.js:439-440 | The corrected join differs from the source's only after a trailing `AND` or `OR` with nothing after it |
| Editing.AppendedExample | app.js:439-440 | Appending `fever` to `pain AND` gives `pain AND fever` |
| Editing.AppendedRunnable | app.js:435-443 | Appending a plain word to a query with no surplus `(` and even quotes gives a query the runnable check accepts |
| Editing.QueryInput.AppendTerm | app.js:435-443 | The new value is `Appended` of the old one; the selection follows the value setter |

## Left out

- The DOM is not modelled: rendering, `innerHTML`, `focus`, `dispatchEvent`, the click delegation, and the `!queryInput` early returns. Only the value and selection of the query box are modelled.
- `fetch`, the network, debounce timers and live search are not modelled: they are I/O and time.
- `parseFloat` is a parameter (`string -> Option<real>`, where `None` is `NaN`). Floating-point arithmetic is replaced by `real`, so `bv - av` is exact.
- `localeCompare` is replaced by code-point order (`Text.LexLe`), because locale collation depends on the browser.
- `Object.entries` order is the order of the pairs in the object value. Integer-like keys are not moved to the front. Duplicate keys are not ruled out, and `Json.Lookup` takes the first one.
- `String(x)` of a number, as the year reading uses it, is modelled as truncation toward zero. Exponent forms such as `1e21` are not modelled, and an array value is read as no year.
- A `null` element in a related-terms list makes JavaScript throw, in the comparator's `a.jaccard` or in the map's `o.term`. The model reads it as having no property, so it is ranked as unscored and its term is `""`. A `null` study needs no such reading: `getField` tests `obj &&` first and returns `""`, and the model does the same, so a `null` study has no year.
- JavaScript's `typeof null === 'object'` is treated the same way: `Json.IsObjectLike` accepts `Null`, as the source's test does.
- `getField` for `length` or index keys on arrays and strings is not modelled. Only object records are looked into.
- Case mapping is ASCII only, and string lengths count code points rather than UTF-16 units.
- `symbol` and the values of the inputs are taken to be strings already, so the `String(...)` coercions are not modelled.
- Related.Score: an array-valued `jaccard` is read as `NaN`, but `parseFloat(String([0.9]))` is `0.9`, because `String` of an array joins its elements. The model does not perform that conversion.
- Numbers.ParseInt: the result is an exact integer. `Number.parseInt` returns a double, so in the source year texts above 2^53 lose precision and may compare equal, and texts beyond the double range read as `Infinity`.
- Sorting.SortInPlace: stability is not stated. JavaScript's sort is stable, and the model proves only ordered-and-permutation.
- Editing.QueryInput.AppendTerm: it uses the corrected join (`Editing.Appended`), not the source's dead operator test. See Findings.
- Editing.Appended: its operator test reads a trailing `AND`/`OR` as a whole word (`EndsWithWord`), so `brand` does not count as ending in `AND`.

## Findings

| source | as written | input that shows it | evidently intended | confidence | as-written member | corrected member |
|---|---|---|---|---|---|---|
| app.js:439 | `needsAnd` also requires `!/(AND\|OR)\s+$/i.test(current)`, but that test can only match text ending in whitespace, which `!/[\s(]$/.test(current)` has already excluded, so it never changes the result | `current = "pain AND"`, `term = "fever"` gives `pain AND AND fever` | no `AND` is added after a trailing `AND` or `OR`, so the result is `pain AND fever` | not executed | Editing.AsWrittenExample | Editing.AppendedExample |
