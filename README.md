# Contact lookup engine — Dafny model

The Defesa Civil contact-lookup page (`Contatos/script-contatos.js`) loads two
CSV exports of a spreadsheet. One holds municipal civil-defence contacts
(COMPDEC) and the other holds regional offices (REPDEC). The page parses them
with a small hand-written CSV reader, drops empty rows, and stores the result
in four module-level variables. It derives two selector lists from the stored
rows and answers two searches:

- a coordinator-name / municipality search;
- a regional search that joins a regional office with its municipalities.

This project models that core and proves what it promises.

- `Text` holds the JavaScript string operations the page relies on:
  - `trim`, with the full ECMAScript whitespace and line-terminator set;
  - `split` on one character;
  - the quote-stripping `replace(/^"|"$/g, '')`;
  - `includes`.
- `Normalization` models `normalizeString`: lower-casing, NFD decomposition and
  the removal of the combining marks U+0300..U+036F. Case mapping is a table
  over the ASCII and Latin-1 upper-case letters. Decomposition is a table over
  the accented lower-case Latin-1 letters. Lower-casing runs first, so no
  upper-case accented letter reaches decomposition.
- `Csv` models `parseCsv`:
  - lines are split on LF and trimmed;
  - the header line is split on every comma;
  - a data line is split on the commas that have an even number of `"` after
    them on the line, which is exactly what the lookahead of line 48 accepts;
  - every field is trimmed and loses at most one leading and at most one
    trailing quote, each only when present;
  - the record-building `forEach` is an imperative loop over a `map`.

  `Parse` is the specification that the methods `ParseCsv`, `BuildRecords` and
  `BuildRecord` are proved against.
- `Seqs` holds `Array.filter` and the `[...new Set(xs)].sort(...)` idiom.
  Sorting uses code-point lexicographic order in place of `localeCompare`.
- `Store` holds the page state:
  - the class `ContactStore` with the four variables `compdecData`,
    `repdecData`, `compdecHeaders` and `repdecHeaders`;
  - the row filters of `fetchAndParseData`;
  - the two option lists.
- `Query` holds `performSearch`, `performRegionalSearch` and the regional
  lookup drawn on every contact card. The stored row lists are passed to them
  as parameters.

A property read `record.Name` is an `Option<string>`, where `None` stands for
`undefined`. JavaScript truthiness of such a value is `Truthy`: present and
non-empty.

The source does not guard an empty text. `parseCsv("")` gives one empty header
name and no records (`Csv.ParseEmpty`), and the model follows the code in this.
A parser that guarded empty input would return no header names.

The contact search refuses when the *normalised* trimmed name and the city
are both empty (line 138). A name made only of combining marks therefore
counts as no name, and the model follows the code here too.

## Model

| member | source | states |
|---|---|---|
| Text.IsWhitespace | Contatos/script-contatos.js:43 | defines the code points `trim` removes (also at lines 44, 51 and 132): ECMAScript WhiteSpace and LineTerminator |
| Text.TrimStartSpec | Contatos/script-contatos.js:43 | the leading part `trim` drops is all whitespace, and what remains is a suffix that does not start with whitespace |
| Text.TrimEndSpec | Contatos/script-contatos.js:43 | the trailing part `trim` drops is all whitespace, and what remains is a prefix that does not end with whitespace |
| Text.Trim | Contatos/script-contatos.js:43 | `trim` never lengthens its input, and its result neither starts nor ends with whitespace |
| Text.TrimSpec | Contatos/script-contatos.js:43 | `trim` gives a slice of its input with only whitespace around it and no whitespace at either end |
| Text.StripQuotes | Contatos/script-contatos.js:44 | removing `^"` and `"$` gives exactly the text between a leading quote and a trailing quote, each taken off only when present: `"a"` gives `a`, `"a` gives `a`, `a"` gives `a`, unquoted text is kept, and the lone `"` gives `""` |
| Text.StripQuotesOfQuoted | Contatos/script-contatos.js:51 | stripping a quoted text gives the text back, whatever quotes it contains |
| Text.IndexOf | Contatos/script-contatos.js:43 | the position found holds the separator and no earlier position does |
| Text.Split | Contatos/script-contatos.js:43 | `split` always gives at least one piece |
| Text.SplitSpec | Contatos/script-contatos.js:43 | no piece of `split(sep)` holds the separator, and joining the pieces with it gives the text back |
| Text.SplitUnique | Contatos/script-contatos.js:44 | the pieces are the only separator-free list whose join is the text |
| Text.Contains | Contatos/script-contatos.js:147 | `includes` holds for the empty query and never for a query longer than the name |
| Text.ContainsFindsOccurrence | Contatos/script-contatos.js:147 | when `includes` holds, the query occurs at some position of the name |
| Text.OccurrenceIsContained | Contatos/script-contatos.js:147 | `includes` finds every occurrence |
| Text.ContainsAt | Contatos/script-contatos.js:147 | `includes` holds exactly when the query occurs at some position |
| Normalization.IsCombiningMark | Contatos/script-contatos.js:34 | defines the character class `[\u0300-\u036f]` that `normalizeString` deletes |
| Normalization.LowerChar | Contatos/script-contatos.js:34 | defines the case table of `toLowerCase`: ASCII and Latin-1 upper-case letters map to their lower-case letters, and every other code point to itself |
| Normalization.Decompose | Contatos/script-contatos.js:34 | defines the NFD table: each of the 27 accented lower-case Latin-1 letters maps to its base letter followed by its combining mark, and every other code point to itself. Upper-case accented letters are not in the table, because lower-casing runs first on line 34 |
| Normalization.LowerAll | Contatos/script-contatos.js:34 | `toLowerCase` keeps the length, and at every position the result is the input's code point up to case, is lower case, and equals the input's code point when that already was lower case |
| Normalization.DecomposeAll | Contatos/script-contatos.js:34 | NFD of the lower-cased text makes the string no shorter and at most twice as long, and its result is fully decomposed: no code point of it decomposes further |
| Normalization.DecomposeAllSingle | Contatos/script-contatos.js:34 | NFD of a single code point is its entry in the decomposition table |
| Normalization.DecomposeAllAppend | Contatos/script-contatos.js:34 | NFD of a concatenation is the concatenation of the parts' NFD, so NFD works code point by code point |
| Normalization.StripMarks | Contatos/script-contatos.js:34 | the result has no mark of U+0300..U+036F, and it holds exactly the non-mark code points of its input |
| Normalization.StripMarksIsFilter | Contatos/script-contatos.js:34 | deleting the marks is `filter` over the code points, so the other code points keep their order and their number of occurrences |
| Normalization.StripMarksAppend | Contatos/script-contatos.js:34 | deleting the marks of a concatenation deletes them in each part |
| Normalization.Normalize | Contatos/script-contatos.js:32-35 | the empty string normalises to the empty string, and no result holds a combining mark |
| Normalization.NormalizeField | Contatos/script-contatos.js:33 | a missing property normalises to the empty string, and a present one to its normal form |
| Normalization.DecomposedLowerIsNormal | Contatos/script-contatos.js:34 | every non-mark code point produced by lower-casing and decomposing is left alone by a second normalisation |
| Normalization.DecomposeAllIsNormal | Contatos/script-contatos.js:34 | the same, for a whole string |
| Normalization.NormalCharsFixed | Contatos/script-contatos.js:34 | a non-empty string of such code points is its own normal form |
| Normalization.NormalizeIdempotent | Contatos/script-contatos.js:32-35 | normalising twice is normalising once |
| Normalization.NormalCharCount | Contatos/script-contatos.js:34 | lowering, decomposing and stripping one code point leaves nothing of a combining mark and exactly one code point of anything else |
| Normalization.PipelineIgnoresMarks | Contatos/script-contatos.js:34 | lowering, decomposing and stripping gives the same result whether or not the input's marks are deleted first, with one output code point per non-mark input code point |
| Normalization.NormalizeIgnoresMarks | Contatos/script-contatos.js:32-35 | for every input, the combining marks do not change the normal form, and the normal form has exactly one code point per other code point of the input |
| Normalization.NormalizeIgnoresAccent | Contatos/script-contatos.js:34 | "São" and "Sao" have the same normal form, "sao" |
| Csv.Truthy | Contatos/script-contatos.js:79 | defines JavaScript truthiness of a property value (also used at lines 84, 100 and 118): present and not the empty string |
| Csv.Get | Contatos/script-contatos.js:79 | a property read gives a value exactly when the record has that key, and gives the stored value |
| Csv.IsSeparator | Contatos/script-contatos.js:48 | defines the lookahead `,(?=(?:(?:[^"]*"){2})*[^"]*$)`: a comma with an even number of quotes after it on the line |
| Csv.NextSeparator | Contatos/script-contatos.js:48 | the split point found is the first comma, from the given position on, that is followed by an even number of quotes |
| Csv.SplitRow | Contatos/script-contatos.js:48 | a row always splits into at least one field |
| Csv.SplitRowJoin | Contatos/script-contatos.js:48 | joining a row's fields with commas gives the trimmed row back |
| Csv.SplitRowSeparators | Contatos/script-contatos.js:48 | the commas between the fields are exactly the commas followed by an even number of quotes |
| Csv.SeparatorsAfterFirst | Contatos/script-contatos.js:48 | the split points of a row are its first split point followed by those of the rest of the line |
| Csv.SplitRowQuotedComma | Contatos/script-contatos.js:47-48 | the comma inside `"x,y"` does not split `1,"x,y",2` |
| Csv.Clean | Contatos/script-contatos.js:44 | the clean-up takes off the surrounding whitespace and then at most two more characters |
| Csv.CleanOccurs | Contatos/script-contatos.js:51 | the cleaned value is a piece of the raw field: it occurs in it at some position |
| Csv.ValueAt | Contatos/script-contatos.js:51 | a position past the end of the row reads as `""`, and a present field is trimmed and stripped of its quotes |
| Csv.ColumnNamesSpec | Contatos/script-contatos.js:50 | the names visited so far are the first header names |
| Csv.RecordUpTo | Contatos/script-contatos.js:50-53 | defines the record after the first `n` visits of the `forEach`: each visit sets the header name to the value at its index |
| Csv.RecordUpToKeys | Contatos/script-contatos.js:50-53 | the keys after visiting `n` headers are the first `n` header names |
| Csv.RecordUpToValues | Contatos/script-contatos.js:50-53 | after visiting `n` headers, a repeated name holds the value of its last column so far |
| Csv.RecordOf | Contatos/script-contatos.js:49-54 | a record's keys are the set of names in the header list |
| Csv.RecordOfFields | Contatos/script-contatos.js:49-54 | a record's keys are exactly the header names, and a name holds the value of its last column |
| Csv.BuildRecord | Contatos/script-contatos.js:49-53 | the `forEach` loop builds the record `RecordOf` describes |
| Csv.TrimAll | Contatos/script-contatos.js:43 | every line is trimmed, and the count is kept |
| Csv.CleanAll | Contatos/script-contatos.js:44 | every header name is trimmed and stripped of its quotes, and the count is kept |
| Csv.RecordsOf | Contatos/script-contatos.js:46-55 | there is one record per data line, built from that line's fields |
| Csv.RecordsOfAppend | Contatos/script-contatos.js:46 | one more line appends its record at the end |
| Csv.Lines | Contatos/script-contatos.js:43 | every text has a first line, so `rows[0]` exists |
| Csv.HeaderNames | Contatos/script-contatos.js:44 | there is always at least one header name |
| Csv.BuildRecords | Contatos/script-contatos.js:46-55 | the loop over the data lines builds exactly `RecordsOf` |
| Csv.Parse | Contatos/script-contatos.js:42-58 | there is at least one header name, and one record per line after the first |
| Csv.ParseCsv | Contatos/script-contatos.js:42-58 | the method returns what `Parse` specifies |
| Csv.ParseShape | Contatos/script-contatos.js:43-55 | there is one record per line after the first, in line order, and each record's keys are exactly the header names |
| Csv.ParseFieldValue | Contatos/script-contatos.js:50-53 | the value under a header name is the cleaned field of its last column, or `""` past the end of the row |
| Csv.ParseEmpty | Contatos/script-contatos.js:43-44 | the empty text gives one empty header name and no records |
| Csv.ParseSingleLine | Contatos/script-contatos.js:43-46 | a text without a line feed gives the header names of the trimmed text and no records |
| Csv.CleanUnchanged | Contatos/script-contatos.js:51 | a field with no whitespace or quote at its ends is kept as it is |
| Seqs.Filter | Contatos/script-contatos.js:143-151 | `filter` never lengthens its input, and every element it keeps passes the test |
| Seqs.FilterSpec | Contatos/script-contatos.js:143-151 | `filter` gives the ordered subsequence that holds every element passing the test, as often as it occurs, and nothing else |
| Seqs.Less | Contatos/script-contatos.js:101 | defines the code-point lexicographic order that stands in for the comparator `(a, b) => a.localeCompare(b)` (also at line 119) |
| Seqs.LessIrreflexive | Contatos/script-contatos.js:101 | no string sorts before itself |
| Seqs.LessTransitive | Contatos/script-contatos.js:101 | the sort order is transitive |
| Seqs.LessTotal | Contatos/script-contatos.js:101 | two different strings are always ordered |
| Seqs.LessAsymmetric | Contatos/script-contatos.js:101 | two strings are never ordered both ways |
| Seqs.StrictlySortedDistinct | Contatos/script-contatos.js:97-101 | a strictly sorted list has no duplicates |
| Seqs.InsertSpec | Contatos/script-contatos.js:97-101 | inserting into a strictly sorted list keeps it strictly sorted and adds exactly the new value |
| Seqs.DistinctSorted | Contatos/script-contatos.js:97-101 | `[...new Set(xs)].sort()` is never longer than `xs`, and is empty exactly when `xs` is |
| Seqs.DistinctSortedSpec | Contatos/script-contatos.js:97-101 | `[...new Set(xs)].sort()` is strictly sorted and holds exactly the values of `xs` |
| Seqs.StrictlySortedUnique | Contatos/script-contatos.js:97-101 | only one strictly sorted list holds a given set of values |
| Store.KeepContact | Contatos/script-contatos.js:79 | defines the contact filter of line 79: a present, non-empty `Coordenador` or a present, non-empty `Municipio` |
| Store.KeepRegional | Contatos/script-contatos.js:84 | defines the regional filter `r => r.REPDEC` |
| Store.PresentValues | Contatos/script-contatos.js:98-100 | `map(field).filter(Boolean)` holds exactly the non-empty values of the field |
| Store.Options | Contatos/script-contatos.js:97-101 | an option list is strictly sorted and holds exactly the non-empty values of the field |
| Store.KeepRows | Contatos/script-contatos.js:79-84 | the sheet's row filter never adds rows, and keeps every row when every row qualifies |
| Store.KeepRowsIsFilter | Contatos/script-contatos.js:79 | the sheet's row filter is `Array.filter` with its predicate |
| Store.KeepRowsSpec | Contatos/script-contatos.js:79-84 | the kept rows are the ordered subsequence of the parsed rows that holds every qualifying row, as often as it occurs, and no other |
| Store.KeepRowsPass | Contatos/script-contatos.js:79-84 | every kept contact has a non-empty `Coordenador` or `Municipio`, and every kept regional a non-empty `REPDEC` |
| Store.KeptDataset | Contatos/script-contatos.js:77-84 | defines one sheet after loading: the parsed header names and the parsed rows that pass the sheet's filter |
| Store.KeptDatasetSpec | Contatos/script-contatos.js:77-84 | a loaded sheet keeps the parsed header names, and its rows are the ordered subsequence of the parsed rows that pass the filter |
| Store.ParseAndKeep | Contatos/script-contatos.js:77-84 | parsing and filtering one sheet gives the dataset that `KeptDataset` specifies, and every row in it passes the filter |
| Store.ContactStore.constructor | Contatos/script-contatos.js:22-25 | the four variables start out empty |
| Store.ContactStore.Replace | Contatos/script-contatos.js:78-84 | given rows that passed their sheet's filter, the assignments store both sheets' header names and kept rows, and the store invariant holds afterwards |
| Store.ContactStore.Load | Contatos/script-contatos.js:69-84 | the load succeeds exactly when both responses are OK; a failed load leaves the state unchanged; a successful one stores both filtered datasets and establishes that every stored row passes its filter |
| Store.ContactStore.CityOptions | Contatos/script-contatos.js:96-101 | the city list is strictly sorted and holds exactly the non-empty `Municipio` values of the stored contacts |
| Store.ContactStore.RegionalOptions | Contatos/script-contatos.js:114-119 | the regional list is strictly sorted and holds exactly the non-empty `REPDEC` values of the stored regionals |
| Query.NameQuery | Contatos/script-contatos.js:132 | a name input of only whitespace gives the empty query, and no query holds a combining mark |
| Query.ContactMatches | Contatos/script-contatos.js:143-151 | with no name and no city every contact matches, and a contact that matches a city has that `Municipio` |
| Query.SearchContacts | Contatos/script-contatos.js:131-154 | it refuses exactly when the normalised name and the city are both empty. Otherwise it gives, in stored order and with their multiplicity, exactly the contacts whose normalised `Coordenador` contains the name (when one is given) and whose `Municipio` is the city (when one is given) |
| Query.FindRegional | Contatos/script-contatos.js:170 | `find` gives nothing exactly when no regional has the key, and otherwise gives a stored regional with that key |
| Query.FindRegionalFirst | Contatos/script-contatos.js:170 | the regional `find` returns is the first one with the key |
| Query.SearchRegional | Contatos/script-contatos.js:156-173 | it refuses exactly when no regional is selected. Otherwise the regional info is the first regional with that `REPDEC`, and the contacts are, in stored order and with their multiplicity, exactly those whose `REPDEC` is the selection |
| Query.RegionalOf | Contatos/script-contatos.js:259 | a card shows no regional exactly when no stored regional has the contact's `REPDEC`, and otherwise a stored regional with that `REPDEC` |
| Query.RegionalJoinAgrees | Contatos/script-contatos.js:259 | every contact listed by a regional search shows, on its card, the regional the search found |
| Query.NoRegionalWithoutKey | Contatos/script-contatos.js:259 | when every stored regional has a non-empty `REPDEC`, a contact without one has no regional on its card |
| Query.StoredContactWithoutRegional | Contatos/script-contatos.js:259 | on a store whose rows passed their filters, a stored contact without a non-empty `REPDEC` has no regional on its card |

## Left out

- `fetch`, `Promise.all`, `async`/`await` and the HTTP status check (lines 60-75). They are network I/O. `Load` receives each response's `ok` flag and body text instead.
- The DOM: element lookups, the selectors' `<option>` elements, the result cards and their HTML, `displayResults`, `displayRegionalResults`, `switchTab` and the event listeners. These are presentation. The searches return their outcome as a value, and the "no criteria" case is a distinct result (`NoCriteria`, `NoRegional`) where the page would show a message.
- User-facing messages and `console.error`. They are presentation and logging.
- Normalization.Normalize: full Unicode `toLowerCase` and NFD are library behaviour that is not visible. The model lower-cases the ASCII and Latin-1 upper-case letters and decomposes the accented lower-case Latin-1 letters, each with an explicit table; every other code point is treated as already lower case and not decomposable. `Normalization.Decompose` alone therefore differs from NFD on upper-case accented letters (`À` stays `À`), which never reach it.
- Store.Options: `localeCompare` collation is replaced by code-point lexicographic order, a strict total order. Strictness holds only for this stand-in order. `localeCompare` returns 0 for distinct but canonically equivalent spellings (precomposed `São` and `Sa` followed by U+0303 and `o`), so the page's list is sorted but not strictly sorted. The list has no duplicates and holds exactly the present values under either order; the absence of duplicates comes from the `Set`.
- Csv.RecordOf, Csv.RecordOfFields, Csv.ParseShape: a record is a map from header name to value, not a JavaScript object. Assigning a string to `record["__proto__"]` creates no own property, so for a header named `__proto__` the page's record lacks a key the model has. The fields the page reads (`Coordenador`, `Municipio`, `REPDEC`) are unaffected. Inherited names such as `constructor` are unaffected too, because assignment creates an own property for them.
- Text.Contains, Text.Trim, Text.Split, Csv.SplitRow: strings are sequences of Unicode code points rather than UTF-16 code units. Searching, trimming and splitting therefore never see surrogate halves.
