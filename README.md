# superwpp reseller dashboard — a Dafny model

superwpp is a single-page dashboard. It loads a spreadsheet of resellers (`.xlsx`, `.xls` or
`.csv`), recognises its columns under many spellings, and turns every row into a `Reseller`
record. It then shows the records through a search box and three drop-down filters, together
with a few key figures.

This project models the logic behind that dashboard and proves what it promises:

- **`normalize.dfy`** (module `Normalize`) covers the four helpers of `src/utils/normalize.ts`:
  - Brazilian phone formatting.
  - The "active status" test.
  - Accent- and case-insensitive normalisation for search.
  - CPF/CNPJ formatting.
- **`parse_file.dfy`** (module `ParseFile`) covers `src/utils/parseFile.ts`:
  - The table of accepted column spellings.
  - Header detection (`findColumnName`, `mapHeaders`), written as methods with loops.
  - The required-column check (`validateRequiredColumns`).
  - The row coercion (`processData`).
  - What `parseCSV` and `parseXLSX` do once the file is decoded.
  - The dispatch of `parseFile` on the file's extension.
- **`app.dfy`** (module `App`) covers the dashboard logic of `src/App.tsx`:
  - The city and structure drop-down lists.
  - The filter.
  - The key figures, including the three most frequent cities.
  - A `Dashboard` class that holds the component's state. Its `HandleDataLoaded` replaces the
    records and resets the filters. Its `Stats` counts cities in a dictionary, one increment per
    record, the way the component does.
- **`strings.dfy`** (module `Strings`) holds the JavaScript string operations the code relies on:
  - `trim` with ECMAScript's whitespace set.
  - `toLowerCase`, limited to ASCII and Latin-1.
  - Removing non-digits (`\D`).
  - `includes`.
  - `join`.
  - The default `sort` order.
- **`types.dfy`** holds the records of `src/types.ts`. **`wrappers.dfy`** holds `Option`.

A decoded table is a sequence of rows. Each row is a sequence of (header, cell) pairs in the
decoder's key order, because `Object.keys` of the first row decides which headers are seen.

An unmapped column is read under the key `"undefined"`, which is what JavaScript does with
`row[undefined]`. The `if (found)` and `!headerMapping[field]` tests are modelled with
JavaScript's truthiness, so an empty string counts as missing.

## Model

| member | source | states |
|---|---|---|
| Strings.Digits | src/utils/normalize.ts:4 | removing non-digits leaves only digits and never lengthens the text |
| Strings.DigitsOfDigits | src/utils/normalize.ts:40 | text made only of digits is left unchanged |
| Strings.DigitsAppend | src/utils/normalize.ts:4 | removing non-digits from a concatenation removes them from each part, so the digits keep their order |
| Strings.Trim | src/utils/normalize.ts:20 | the result neither begins nor ends with whitespace, it is the input read from just after its leading whitespace, and it is empty iff the input is all whitespace |
| Strings.TrimRemovesOnlyWhitespace | src/utils/normalize.ts:20 | the input is its leading whitespace, then its trim, then only whitespace |
| Strings.TrimKeeps | src/utils/normalize.ts:34 | a character that is not whitespace is never trimmed away |
| Strings.TrimOfTrimmed | src/utils/normalize.ts:20 | text that neither begins nor ends with whitespace is its own trim |
| Strings.TrimPadded | src/utils/normalize.ts:20 | one space on each side of trimmed text is removed |
| Strings.TrimIdempotent | src/utils/normalize.ts:34 | trimming twice is trimming once |
| Strings.TrimLowerCommute | src/utils/parseFile.ts:20 | lower-casing then trimming equals trimming then lower-casing |
| Strings.Lower | src/utils/normalize.ts:33 | the same length, each character lower-cased on its own, with no capital left |
| Strings.LowerIdempotent | src/utils/normalize.ts:33 | lower-casing twice is lower-casing once |
| Strings.LowerOfNoUpper | src/utils/normalize.ts:20 | text without capitals is its own lower case |
| Strings.Contains | src/App.tsx:63 | true iff the searched text occurs at some position of the field |
| Strings.Join | src/utils/parseFile.ts:123 | no parts give "", one part gives itself, and otherwise the text begins with the first part |
| Strings.JoinContainsParts | src/utils/parseFile.ts:123 | every part occurs in the joined text |
| Strings.Less | src/App.tsx:25 | a proper prefix sorts before the longer text, and no text sorts before itself or before its own prefix |
| Strings.LessTotal | src/App.tsx:25 | the default sort order compares any two different strings |
| Strings.LessTransitive | src/App.tsx:25 | the default sort order is transitive |
| Strings.InsertSorted | src/App.tsx:25 | inserting into a strictly ascending list keeps it strictly ascending and adds exactly the new value |
| Strings.SortedDistinct | src/App.tsx:25 | `Array.from(new Set(xs)).sort()` is strictly ascending and holds exactly the values of `xs` |
| Normalize.NormalizePhone | src/utils/normalize.ts:2-14 | empty input gives ""; 10 or 11 digits give a text four characters longer than the digit count; any other count gives the digits alone |
| Normalize.NormalizePhoneKeepsDigits | src/utils/normalize.ts:2-14 | formatting never adds, drops or reorders a digit of the phone number |
| Normalize.PhoneLayoutShape | src/utils/normalize.ts:7-11 | the layout has `(`, the area code, `) `, the number split by `-` before its last four digits (the layout is `PhoneLayout`) |
| Normalize.NormalizePhoneLayout | src/utils/normalize.ts:7-11 | 11 digits read `(DD) DDDDD-DDDD` and 10 digits read `(DD) DDDD-DDDD`, with the input's digits in order |
| Normalize.NormalizePhoneIdempotent | src/utils/normalize.ts:2-14 | formatting an already formatted phone number changes nothing |
| Normalize.IsActiveStatus | src/utils/normalize.ts:17-24 | a status is active iff, trimmed and lower-cased, it is one of ativo, ativa, active, 1, sim, yes, true; the empty-input guard agrees with that rule |
| Normalize.IsActiveStatusIgnoresCase | src/utils/normalize.ts:20 | the test does not depend on letter case |
| Normalize.IsActiveStatusIgnoresPadding | src/utils/normalize.ts:20 | the test does not depend on surrounding whitespace |
| Normalize.IsActiveStatusOfPadded | src/utils/normalize.ts:20-23 | a status with one space on each side is active iff its lower-cased core is an accepted spelling |
| Normalize.IsActiveStatusAcceptsPaddedUpperCase | src/utils/normalize.ts:20-23 | " ATIVA " is active |
| Normalize.IsActiveStatusRejectsInactive | src/utils/normalize.ts:21-23 | "Inativo" and "0" are not active |
| Normalize.IsActiveStatusOfTrimmed | src/utils/normalize.ts:20-23 | a status without surrounding whitespace is active iff its lower case is an accepted spelling |
| Normalize.Decompose | src/utils/normalize.ts:31 | a Latin-1 letter with a diacritic splits into a base letter and a combining mark; other characters stay |
| Normalize.Nfd | src/utils/normalize.ts:31 | no Latin-1 letter with a diacritic is left in precomposed form |
| Normalize.NfdAppend | src/utils/normalize.ts:31 | decomposing a concatenation decomposes each part |
| Normalize.NfdKeeps | src/utils/normalize.ts:31 | a character that does not decompose survives decomposition of the text around it |
| Normalize.StripMarks | src/utils/normalize.ts:32 | no combining mark in U+0300..U+036F survives, and nothing new is introduced |
| Normalize.StripMarksKeeps | src/utils/normalize.ts:32 | every character of the input that is not a combining mark survives |
| Normalize.StripMarksAppend | src/utils/normalize.ts:32 | removing marks from a concatenation removes them from each part, so the kept characters keep their order |
| Normalize.NormalizeString | src/utils/normalize.ts:27-35 | the result has no upper-case letter, no combining mark and no accented letter, and it neither begins nor ends with whitespace |
| Normalize.NormalizeStringOfNormal | src/utils/normalize.ts:27-35 | trimmed text of lower-case, unaccented characters is its own normal form |
| Normalize.PlainSurvives | src/utils/normalize.ts:27-35 | every lower-case, unaccented, non-whitespace character of any input is in its normal form, so only case, accents and surrounding whitespace are dropped |
| Normalize.NormalizeStringIgnoresCase | src/utils/normalize.ts:27-35 | lower-casing the input first changes nothing, accented capitals included |
| Normalize.NormalizeStringExample | src/utils/normalize.ts:27-35 | "Café" normalises to "cafe" |
| Normalize.NormalizeStringIdempotent | src/utils/normalize.ts:27-35 | normalising twice is normalising once, so normalised search terms and fields compare consistently |
| Normalize.FormatCpfCnpj | src/utils/normalize.ts:38-51 | empty input gives ""; any input with 11 digits is laid out as a CPF of those digits and any input with 14 digits as a CNPJ; any other digit count returns the input unchanged |
| Normalize.FormatCpfCnpjKeepsDigits | src/utils/normalize.ts:38-51 | formatting keeps the document's digits, leading zeros included |
| Normalize.CpfLayoutShape | src/utils/normalize.ts:44 | a CPF reads `DDD.DDD.DDD-DD` (the layout is `CpfLayout`) |
| Normalize.CnpjLayoutShape | src/utils/normalize.ts:47 | a CNPJ reads `DD.DDD.DDD/DDDD-DD` (the layout is `CnpjLayout`) |
| Normalize.FormatCpfCnpjIdempotent | src/utils/normalize.ts:38-51 | formatting an already formatted document changes nothing |
| Normalize.FormatCpfCnpjOfBareCpf | src/utils/normalize.ts:42-44 | eleven bare digits are laid out as a CPF |
| Normalize.FormatCpfCnpjOfBareCnpj | src/utils/normalize.ts:45-47 | fourteen bare digits are laid out as a CNPJ |
| Normalize.FormatCpfExample | src/utils/normalize.ts:42-44 | "12345678901" becomes "123.456.789-01" |
| Normalize.FormatCnpjExample | src/utils/normalize.ts:45-47 | "12345678000199" becomes "12.345.678/0001-99" |
| Normalize.FormatCpfCnpjNineDigitsExample | src/utils/normalize.ts:50 | nine digits are returned as given |
| Normalize.FormatCpfCnpjOfOtherDigits | src/utils/normalize.ts:50 | bare digits of any count other than 11 or 14 are returned as given |
| ParseFile.Aliases | src/utils/parseFile.ts:7-16 | every accepted spelling of every column is non-empty |
| ParseFile.Headers | src/utils/parseFile.ts:115 | the headers are the first row's keys, in order |
| ParseFile.IndexOf | src/utils/parseFile.ts:23 | -1 iff the value is absent; otherwise the position of its first occurrence |
| ParseFile.ColumnName | src/utils/parseFile.ts:19-30 | a header found is one of the file's headers, and lower-cased and trimmed it is one of the variations (the normalisation `toLowerCase().trim()` is `NormHeader`) |
| ParseFile.FindColumnName | src/utils/parseFile.ts:19-30 | the loop over the variations returns what `ColumnName` specifies |
| ParseFile.ColumnNameFirstMatch | src/utils/parseFile.ts:19-30 | nothing is found iff no variation is a normalised header; otherwise the first variation that occurs wins, taken at its first header position |
| ParseFile.HeaderMapping | src/utils/parseFile.ts:33-50 | every mapped column is mapped to a non-empty header of the file that, normalised, is one of its spellings (a column is kept when `Found` holds: a header was found and it is not "") |
| ParseFile.MapHeaders | src/utils/parseFile.ts:33-50 | the loop over the columns builds exactly `HeaderMapping(headers)` |
| ParseFile.RestrictSnoc | src/utils/parseFile.ts:39-47 | looking at one more column adds its entry to the mapping built so far, when it has one, and changes nothing else |
| ParseFile.FieldMappingMeaning | src/utils/parseFile.ts:39-47 | one column is mapped iff some header spells it; it is then mapped to a non-empty header of the file that spells it |
| ParseFile.HeaderMappingMeaning | src/utils/parseFile.ts:33-50 | the mapping holds exactly the columns some header spells, each mapped to such a header as written in the file |
| ParseFile.NomeSpelling | src/utils/parseFile.ts:33-50 | a lone header that is `nome` up to case and surrounding whitespace maps `Nome` to itself |
| ParseFile.NomeSpellings | src/utils/parseFile.ts:20 | "NOME", "nome" and " Nome " all normalise to "nome" |
| ParseFile.MissingAmong | src/utils/parseFile.ts:79-86 | the columns reported are exactly those listed that are unmapped or mapped to "" (the per-column test is `Unmapped`) |
| ParseFile.ValidateRequiredColumns | src/utils/parseFile.ts:72-89 | the loop over the required columns returns what `MissingAmong` specifies |
| ParseFile.MissingAmongInOrder | src/utils/parseFile.ts:79-86 | the missing columns keep the order in which they are checked |
| ParseFile.MissingColumnsMeaning | src/utils/parseFile.ts:72-89 | at most three columns are reported, in the order Nome, CodigoEstrutura, Situacao; none iff all three are mapped |
| ParseFile.Get | src/utils/parseFile.ts:56 | a row lookup finds nothing iff no key matches; otherwise it finds a cell stored under that key |
| ParseFile.CellFor | src/utils/parseFile.ts:56-64 | the cell under the column's key when the row has that key; "" when it has not (the key is `LookupKey`, `"undefined"` for an unmapped column) |
| ParseFile.Coerce | src/utils/parseFile.ts:54-68 | a record's `isActive` agrees with its own `Situacao`, and its CPF/CNPJ keeps the digits of the cell |
| ParseFile.ProcessData | src/utils/parseFile.ts:53-69 | one record per row, in row order, each coerced from its own row |
| ParseFile.Ingest | src/utils/parseFile.ts:96-190 | records and errors are never both present, exactly one of the two is, and at most one error is reported |
| ParseFile.CompleteIngestion | src/utils/parseFile.ts:154-178 | the steps after decoding, run with the header and validation loops, give what `Ingest` specifies |
| ParseFile.IngestRows | src/utils/parseFile.ts:114-131 | a table succeeds iff headers spell Nome, CodigoEstrutura and Situacao; otherwise no records and one message naming exactly the missing columns in order; on success one record per row in order, each status from its own cell |
| ParseFile.IngestMissingColumns | src/utils/parseFile.ts:114-126 | the columns reported missing are exactly the required ones no header spells, in check order; the table fails iff there is one, with no records and one message |
| ParseFile.IngestRecords | src/utils/parseFile.ts:128-131 | a table that succeeds gives one record per row, in row order, each coerced from its own row |
| ParseFile.EmptyFileError | src/utils/parseFile.ts:109-112 | the empty-file message (also at line 157) is never empty and differs from the unsupported-format message |
| ParseFile.ReadError | src/utils/parseFile.ts:140-142 | a read failure gives a non-empty message; on the CSV path (line 187) it ends with the reader's own message |
| ParseFile.DecodeError | src/utils/parseFile.ts:132-136 | a decoding failure's message (also at line 182) ends with the decoder's own message |
| ParseFile.MissingColumnsError | src/utils/parseFile.ts:120-124 | the message names every missing column (also at line 170) |
| ParseFile.IngestEmptyTable | src/utils/parseFile.ts:109-112 | a table without rows gives no records and the "empty file" message |
| ParseFile.LastSegment | src/utils/parseFile.ts:195 | the extension is the text after the last dot (the whole name when there is none) and contains no dot |
| ParseFile.LastSegmentWithoutDot | src/utils/parseFile.ts:195 | a name without a dot is its own extension |
| ParseFile.Extension | src/utils/parseFile.ts:195 | the extension has no dot and no capital, and is no longer than the name |
| ParseFile.ParseFile | src/utils/parseFile.ts:194-204 | records and errors are never both present; an extension other than csv, xlsx or xls (in any case) gives only the unsupported-format message |
| ParseFile.ParseFileDispatch | src/utils/parseFile.ts:197-200 | extension `csv` runs the CSV steps; `xlsx` and `xls` run the spreadsheet steps |
| ParseFile.ExtensionOfBareName | src/utils/parseFile.ts:195 | a name with no dot and no capitals is its own extension |
| ParseFile.ParseFileUpperCaseExtension | src/utils/parseFile.ts:195-198 | "revendas.CSV" is read as CSV |
| ParseFile.ParseFileLastDot | src/utils/parseFile.ts:195-203 | "revendas.csv.txt" is rejected, since only the last extension counts |
| ParseFile.ParseFileNoDot | src/utils/parseFile.ts:195-200 | a file named just "xls" is read as a spreadsheet |
| App.IsBlankMeansTrimmedEmpty | src/App.tsx:24 | a value is blank iff trimming it leaves nothing |
| App.NonBlank | src/App.tsx:24 | exactly the non-blank values are kept |
| App.CityColumn | src/App.tsx:23 | the column holds exactly the records' cities |
| App.StructureColumn | src/App.tsx:29-30 | the column holds exactly the records' structure codes |
| App.UniqueCities | src/App.tsx:21-26 | strictly ascending and without repetition, it holds exactly the non-blank cities of the records |
| App.UniqueStructures | src/App.tsx:28-33 | strictly ascending and without repetition, it holds exactly the non-blank structure codes of the records |
| App.MatchesSearch | src/App.tsx:49-66 | a search term that normalises to nothing matches every record (the fields searched are `SearchableFields`, the seven of App.tsx:52-60) |
| App.MatchesSearchIgnoresCase | src/App.tsx:50-63 | letter case in the search term does not change which records match |
| App.Keeps | src/App.tsx:37-69 | with every filter at its reset value every record passes; a record that passes has the chosen city and structure |
| App.FilteredResellers | src/App.tsx:36-71 | each record is shown as many times as it was loaded if it passes the status, city, structure and search steps, and not at all otherwise |
| App.FilteredSnoc | src/App.tsx:37 | filtering one more record appends it exactly when it passes |
| App.FilteredPreservesOrder | src/App.tsx:37 | the records shown keep their loaded order |
| App.FilteredWithoutFilters | src/App.tsx:36-71 | with all filters at their reset values every loaded record is shown |
| App.FilteredGuarantees | src/App.tsx:38-67 | the shown records are active (or inactive) as the status filter asks; they have exactly the chosen city and structure; and they match the search term in some searchable field after normalisation |
| App.CountActive | src/App.tsx:76 | the active count never exceeds the total |
| App.ActivePlusInactive | src/App.tsx:75-77 | active and not-active records add up to the total |
| App.StatsOf | src/App.tsx:74-92 | total is the record count, active counts the active records and inactive counts exactly the others (the others are counted by `CountInactive`) |
| App.CityCountPositive | src/App.tsx:81-85 | a city that occurs has a positive count |
| App.CityCountZero | src/App.tsx:81-85 | a city that never occurs has count zero |
| App.Cities | src/App.tsx:80-85 | the dictionary's keys: each non-blank city once, nothing else (one increment of the dictionary is `Tally`) |
| App.TallyKeys | src/App.tsx:81-85 | counting one more record keeps the keys equal to the cities seen so far |
| App.TallyCounts | src/App.tsx:81-85 | counting one more record keeps every count exact |
| App.CountedStep | src/App.tsx:81-85 | counting one more record keeps the dictionary's keys and counts exact for the records seen so far |
| App.CityEntriesDistinct | src/App.tsx:80-88 | the dictionary has one entry per city |
| App.InsertByCount | src/App.tsx:89 | inserting into a ranking keeps counts non-increasing and adds exactly that entry |
| App.SortByCount | src/App.tsx:89 | the ranking is a permutation of the entries with non-increasing counts |
| App.TopThree | src/App.tsx:90 | a prefix of the ranking, three long or the whole ranking if shorter |
| App.TopCities | src/App.tsx:87-90 | at most three entries, each an entry of the city dictionary (the dictionary's entries in key order are `CityEntries`) |
| App.TopCitiesDistinct | src/App.tsx:80-90 | no city is listed twice among the top cities |
| App.TopCitiesCounts | src/App.tsx:80-90 | min(3, number of cities) entries, each a different non-blank city with its exact, positive record count |
| App.TopCitiesLead | src/App.tsx:87-90 | no non-blank city left out of the top three has more records than a listed one |
| App.TopCitiesMeaning | src/App.tsx:79-90 | the top cities are at most three (fewer only when there are fewer cities), no city twice, in non-increasing order of count, each with its exact count, and no city left out outranks a listed one |
| App.Dashboard.constructor | src/App.tsx:12-18 | the dashboard starts with no records and every filter at its reset value |
| App.Dashboard.HandleDataLoaded | src/App.tsx:95-102 | the loaded records replace the old ones, every filter is reset, and so exactly the loaded records are shown |
| App.Dashboard.Stats | src/App.tsx:74-93 | counting cities in a dictionary one record at a time yields the figures `StatsOf` specifies |

## Left out

- Reading the file (`FileReader`, `readAsBinaryString`) and the decoders themselves (the `xlsx` workbook reader with `defval: ''` and `raw: false` on the first sheet, and `papaparse` with `header: true` and `skipEmptyLines`) are external libraries. The model takes their outcome as input: the rows, a read failure or a decoding failure with its message. For `parseFile` the decoder is a parameter.
- The exception message rule (`error.message`, or "Erro desconhecido" for a non-`Error` throw) is folded into the failure message the decoder outcome carries.
- Every cell is taken to be a string, as `raw: false` and CSV header mode deliver. Numeric or missing cell values other than the "undefined" key are not modelled.
- `console.log` calls, the Promise/async plumbing and React's `useMemo` caching are not modelled. Each memo is modelled as a function of the state it depends on.
- `exportToExcel` / `handleExport`, the rendered components and the filter setters called from the JSX are not part of this model. Those setters only assign one state field each.
- Strings.Lower: `toLowerCase` is modelled for ASCII and Latin-1 capitals only. `normalize('NFD')` (Normalize.Nfd) decomposes only the Latin-1 accented letters. Characters beyond Latin-1 pass through unchanged in the model.
- Strings.Less: the model's `sort()` order compares code points; JavaScript compares UTF-16 code units. The two differ only for characters outside the Basic Multilingual Plane.
- `Object.keys` and `Object.entries` list integer-like keys (such as a header or city named "2024") first, in numeric order. The model keeps insertion order for the header list and the city dictionary.
- A city named like an `Object.prototype` property (such as "constructor" or "__proto__") behaves differently in the real dictionary. The model treats every city name as an ordinary key.
- Ties in the top-cities ranking: the ranking is a stable sort by count, as ECMAScript 2019 requires of `Array.prototype.sort`. Among equally counted cities, which ones make the top three therefore follows first-occurrence order. The model reproduces that order but states no other tie rule.
