# handelsregister result extraction, modelled in Dafny

`handelsregister.py` is a command-line client for the German joint company
register portal. It fills the portal's advanced-search form, fetches the
result page (or reads it from a cache file), and turns the rows of the
results grid into company records. This project models the part of it with
real logic:

* `parse_result` — one row of `<td>` texts becomes a record. The texts are
  trimmed. Cells 1 to 5 give court, name, city, the active flag and the
  documents. From cell 8 on, in steps of three, a name cell and a city cell
  that both start with the label `"<n>.) "` make up history entry n. The
  loop stops at the first pair that is missing or unlabelled
  (`ResultParser`).
* `extract_companies_in_search_results` — the grid's rows that carry a
  `data-ri` attribute are parsed in document order; other rows are skipped
  (`Extraction`).
* `search_query_identifier` — the cache file name built from the search
  parameters, and the `schlagwortOptionen` table of keyword-mode codes
  (`SearchQuery`).
* The Python `str` operations these rely on — `startswith`,
  `replace(label, "")`, `strip`, `lower` and `str(n)` — are modelled in
  `Text`. `Text.Join` (the parts with a separator between neighbours) is not
  a source operation: the source accumulates `key:value_` with `+=` and
  chops the last character, and `Join` is the reference formulation that
  loop is proved against. `Outcomes` holds `Option` and `Result`, and `Records`
  holds the data model.

The HTML is abstracted. A page is `Option<seq<Row>>`: `None` when it has no
`table` with `role="grid"`. A `Row` is its optional `data-ri` value plus the
text of each of its cells.

Each loop of the source is a method proved against a specification function:

* `ResultParser.TrimCells` and `ResultParser.ReadHistory` are the two loops
  of `parse_result`. `ResultParser.ParseResult` calls them and is proved
  equal to `ParseRow`.
* `Extraction.ExtractCompanies` is proved equal to `Extract`.
* `SearchQuery.SearchQueryIdentifier` is proved equal to `QueryKey`, which is
  defined with a join rather than the accumulate-then-chop loop.

The history has an independent description. `PairMatches(cells, j)` says
that cells 8+3j and 9+3j both exist and carry label j+1. `EntryAt(cells, j)`
is the entry that pair j yields. The lemmas show that the history is exactly
`EntryAt` over the leading run of matching pairs.

Three behaviours of the code are worth stating outright, since the model
keeps them as written:

* **Active flag.** `("aktuell" or "currently registered")` at
  handelsregister.py:137 evaluates to `"aktuell"`, so only a status of
  exactly `"aktuell"` is active; "currently registered" is not
  (`ResultParser.ActiveOnlyForAktuell`).
* **Short rows.** `cells[1]`..`cells[5]` are indexed unguarded, so a data
  row with fewer than six cells raises `IndexError`, which aborts the whole
  page; no row is skipped. The model returns `Err(CellIndexOutOfRange(i))`,
  where i is the first index the dictionary literal fails on.
* **No grid.** On a page without a results grid, `None.find_all` raises
  `AttributeError`. The model returns `Err(NoResultsGrid)`, never an empty
  list.

## Model

| member | source | states |
|---|---|---|
| `Text.StartsWith` | handelsregister.py:146-150 | `str.startswith`: the definition, a prefix comparison |
| `Text.RemoveAll` | handelsregister.py:152-153 | `str.replace(label, "")`, scanning left to right; its own contract says only that the text never grows, and the lemmas below say what it removes |
| `Text.RemoveAllAtStart` | handelsregister.py:152-153 | where the label stands at the front, it is deleted and the scan resumes right after it |
| `Text.RemoveAllSkip` | handelsregister.py:152-153 | where the label does not stand at the front, the first character is kept and the scan moves on by one |
| `Text.RemoveAllFirst` | handelsregister.py:152-153 | the leftmost occurrence is found first: the text before it is kept, the occurrence is deleted, and the scan resumes right after it |
| `Text.RemoveAllUnchanged` | handelsregister.py:152-153 | a text that does not contain the label is returned unchanged |
| `Text.RemoveAllShrinks` | handelsregister.py:152-153 | a text that contains the label loses at least one copy of it, so `replace` is neither the identity nor a strip of a leading label only |
| `Text.RemoveAllOfLeadingOnly` | handelsregister.py:152-153 | when the label occurs only at the front, removing every occurrence equals stripping the prefix |
| `Text.NoOccurrenceWithoutFirstChar` | handelsregister.py:152-153 | a text lacking the label's first character does not contain the label |
| `Text.IsSpace` | handelsregister.py:130 | the characters `str.strip()` removes: the definition, Python's `isspace` set |
| `Text.StripStart` | handelsregister.py:130 | `strip` starts at the first character that is not Python whitespace, and everything before it is whitespace |
| `Text.StripEnd` | handelsregister.py:130 | `strip` ends after the last character that is not whitespace, and everything after it is whitespace |
| `Text.StripSlice` | handelsregister.py:130 | `strip` yields a slice of the cell text that neither starts nor ends with whitespace, and only whitespace lies outside it |
| `Text.StripTrimmed` | handelsregister.py:130 | an already trimmed cell text is left unchanged |
| `Text.StripIdempotent` | handelsregister.py:130 | stripping twice equals stripping once |
| `Text.Strip` | handelsregister.py:130 | `str.strip()`: the result is no longer than the cell text and neither starts nor ends with whitespace |
| `Text.Lower` | handelsregister.py:71 | `str.lower()`: the length is kept, and a character changes exactly when it is a capital |
| `Text.LowerAppend` | handelsregister.py:71 | `lower` distributes over concatenation |
| `Text.LowerNormalises` | handelsregister.py:71 | the lowered key holds no capital letter, and lowering it again changes nothing |
| `Text.DigitChar` | handelsregister.py:145 | each digit renders as a decimal digit character |
| `Text.NatToString` | handelsregister.py:145 | `str(history_index)` is never empty |
| `Text.NatToStringRoundTrip` | handelsregister.py:145 | `str(n)` consists of decimal digits and reads back as n |
| `Text.NatToStringNoLeadingZero` | handelsregister.py:145 | `str(n)` has no leading zero: only the rendering of 0 starts with '0' |
| `Text.NatToStringInjective` | handelsregister.py:145 | distinct positions render differently |
| `Text.LowerJoin` | handelsregister.py:67-71 | parts that agree up to case give joined strings that agree up to case |
| `ResultParser.Label` | handelsregister.py:145 | the history label is the decimal digits of the position followed by ".) " |
| `ResultParser.LabelDigits` | handelsregister.py:145 | the label's digits read back as n and carry no leading zero, so position 10 is labelled "10.) " |
| `ResultParser.LabelInjective` | handelsregister.py:145 | the label `"<n>.) "` determines n |
| `ResultParser.StripCells` | handelsregister.py:129-130 | the definition: the `cells` list, the trimmed text of every cell, in order |
| `ResultParser.HistoryFrom` | handelsregister.py:144-156 | the definition: the loop run from cell i with running position n, with its three breaks, advancing i by 3 and n by 1 after each appended entry |
| `ResultParser.PairMatches` | handelsregister.py:146-151 | the definition: pair j passes all three break tests, i.e. cells 8+3j and 9+3j both exist and both start with the label of position j+1 |
| `ResultParser.EntryAt` | handelsregister.py:152-154 | the definition: the entry pair j yields, position j+1 and both cells with every occurrence of the label removed |
| `ResultParser.History` | handelsregister.py:141-156 | the history sub-list of a row of trimmed cells: the definition, the loop's body read as a recursive function from cell 8 and position 1 |
| `ResultParser.HistoryFromStep` | handelsregister.py:144-156 | one loop turn: from pair m on, the history is empty unless pair m matches, and otherwise is pair m's entry followed by the rest |
| `ResultParser.HistoryFromEntry` | handelsregister.py:144-156 | entry j of the history read from pair m comes from matching pair m+j |
| `ResultParser.HistoryFromEnd` | handelsregister.py:144-151 | the pair right after the last entry read does not match |
| `ResultParser.HistoryCharacterization` | handelsregister.py:141-156 | history entry j is exactly `EntryAt(cells, j)` of matching pair j, and pair `|history|` does not match |
| `ResultParser.HistoryPositions` | handelsregister.py:143-156 | positions are contiguous from 1: `history[j].position == j + 1` |
| `ResultParser.HistoryLength` | handelsregister.py:141-150 | k > 0 entries need 3k + 7 cells, and a row of at most 9 cells has no history |
| `ResultParser.HistoryStopsAtFirstMismatch` | handelsregister.py:144-151 | `|history| == k` iff pairs 0..k-1 match and pair k does not (both directions) |
| `ResultParser.HistoryNeverSkips` | handelsregister.py:145-151 | a non-matching pair j bounds the history to j entries, whatever later cells carry |
| `ResultParser.HistoryReadsOnlyPairCells` | handelsregister.py:144-153 | rows of equal length that agree on the name and city cells of every pair have the same history, so cells 10+3j are never read |
| `ResultParser.MissingIndex` | handelsregister.py:134-138 | the definition: the index whose `IndexError` escapes the dictionary literal in a row of fewer than 6 cells, 1 for an empty row and otherwise the cell count |
| `ResultParser.ParseRow` | handelsregister.py:126-157 | `parse_result` on a row's cell texts: the definition, the error `CellIndexOutOfRange` for a row of fewer than 6 cells and otherwise the record |
| `ResultParser.ParseRowFields` | handelsregister.py:134-140 | a row parses iff it has at least 6 cells; a shorter row fails at index max(1, count); court, name, city and documents are trimmed cells 1, 2, 3 and 5; active iff cell 4 is "aktuell" |
| `ResultParser.RecordHistoryPositions` | handelsregister.py:143-156 | a parsed record's history is numbered 1, 2, 3, ... |
| `ResultParser.ActiveOnlyForAktuell` | handelsregister.py:137 | status "aktuell" is active; "currently registered" and "inaktiv" are not |
| `ResultParser.ParseRowReadsOnly` | handelsregister.py:134-153 | cells 0, 6, 7 and 10+3j do not influence the record |
| `ResultParser.LabelRemovedEverywhere` | handelsregister.py:152-153 | every occurrence of the label is removed: "1.) A 1.) B" becomes "A B" |
| `ResultParser.OneEntryHistory` | handelsregister.py:141-156 | cells 8 and 9 "1.) OldName" and "1.) OldCity" give the single history entry (1, OldName, OldCity) |
| `ResultParser.OneEntryRow` | handelsregister.py:126-157 | that row parses into the record (CourtA, Name1, CityX, active, docs, [(1, OldName, OldCity)]) |
| `ResultParser.UnlabelledCityHistory` | handelsregister.py:150-151 | the same row with city cell "OldCity" (no label) has an empty history |
| `ResultParser.UnlabelledCityRow` | handelsregister.py:126-157 | that row parses into the same record with an empty history |
| `ResultParser.TrimCells` | handelsregister.py:129-130 | the cell loop yields the trimmed text of every cell, in order |
| `ResultParser.ReadHistory` | handelsregister.py:141-156 | the `range(8, len, 3)` loop with its three `break`s yields exactly `History(cells)` |
| `ResultParser.ParseResult` | handelsregister.py:126-157 | `parse_result` returns `ParseRow(raw)`, so it inherits the record and history properties above |
| `Extraction.IsDataRow` | handelsregister.py:178-179 | the definition: `a is not None`, the row carries a `data-ri` attribute (an empty value counts) |
| `Extraction.ParseEach` | handelsregister.py:183 | the definition: `parse_result` applied to each selected row, in order |
| `Extraction.DataRows` | handelsregister.py:177-179 | the rows with a `data-ri` attribute, in document order: the definition |
| `Extraction.Extract` | handelsregister.py:171-185 | extraction from a page: the definition, `NoResultsGrid` without a grid, otherwise the first failure among the marked rows or all their records |
| `Extraction.Collect` | handelsregister.py:176-185 | the definition: the first exception from `parse_result` propagates and ends the loop; otherwise every record, in order |
| `Extraction.DataRowsAppend` | handelsregister.py:177-179 | row selection distributes over concatenation, so document order is kept |
| `Extraction.DataRowsMembers` | handelsregister.py:177-179 | the selected rows are exactly the rows with a `data-ri` attribute |
| `Extraction.UnmarkedRowIgnored` | handelsregister.py:178-179 | a row without `data-ri` contributes nothing, wherever it stands |
| `Extraction.CollectAppend` | handelsregister.py:176-185 | the first failure in the earlier rows wins; otherwise the records of both parts are concatenated |
| `Extraction.CollectSnoc` | handelsregister.py:183-184 | one more parsed row appends its record or ends with its failure |
| `Extraction.CollectSpec` | handelsregister.py:176-185 | collecting succeeds iff no row failed, and then keeps every record in order |
| `Extraction.ParseEachAppend` | handelsregister.py:183 | parsing rows distributes over concatenation |
| `Extraction.ParseEachOk` | handelsregister.py:183 | each marked row parses iff it has at least 6 cells |
| `Extraction.NoGridIsFailure` | handelsregister.py:173-177 | a page without a grid fails with `NoResultsGrid`; an empty grid gives no records |
| `Extraction.ExtractSucceeds` | handelsregister.py:171-185 | extraction from a grid succeeds iff every marked row has at least 6 cells |
| `Extraction.ExtractRecords` | handelsregister.py:176-185 | one record per marked row, in document order, each `parse_result` of that row |
| `Extraction.ExtractedHistoriesContiguous` | handelsregister.py:176-185 | every extracted record's history is numbered 1, 2, 3, ... |
| `Extraction.ExtractStep` | handelsregister.py:177-184 | one loop turn: an unmarked row changes nothing; a marked row appends its record or fails |
| `Extraction.ExtractAbort` | handelsregister.py:183 | once a row fails, the rows after it do not change the result |
| `Extraction.ExtractCompanies` | handelsregister.py:171-185 | `extract_companies_in_search_results` returns `Extract(grid)` |
| `SearchQuery.ValueText` | handelsregister.py:68 | the definition: `str(value)`, "None" for an option that was not given |
| `SearchQuery.Field` | handelsregister.py:68 | the definition: `key + ":" + str(value)` for one parameter |
| `SearchQuery.Fields` | handelsregister.py:67-68 | the definition: the `key:value` field of each parameter, in definition order |
| `SearchQuery.QueryKey` | handelsregister.py:63-73 | the cache key: the definition, the lower-cased `"_"`-join of the `key:value` fields followed by ".html" |
| `SearchQuery.DropLast` | handelsregister.py:70 | `s[:-1]` removes the last character and leaves the empty string empty |
| `SearchQuery.SearchQueryIdentifier` | handelsregister.py:63-73 | the loop's key equals the lower-cased `"_"`-join of the `key:value` fields, followed by ".html" |
| `SearchQuery.QueryKeyShape` | handelsregister.py:70-71 | every key ends in ".html"; no parameters give exactly ".html" |
| `SearchQuery.QueryKeyIgnoresCase` | handelsregister.py:71 | queries that agree up to letter case share a key |
| `SearchQuery.QueryKeyCollisions` | handelsregister.py:65-71 | the key is not injective: a case difference, a value holding `_` and `:`, and a missing value against "none" all collide |
| `SearchQuery.SchlagwortOptionId` | handelsregister.py:15-19 | exactly "all", "min" and "exact" have a code |
| `SearchQuery.SchlagwortFormValue` | handelsregister.py:95-96 | the form field's value `str(so_id)`: the definition, "None" for an unknown option |
| `SearchQuery.SchlagwortOptionCodes` | handelsregister.py:95-96 | all→1, min→2, exact→3; any other option gets no code, and the form value is "None" |
| `SearchQuery.SchlagwortOptionIdInjective` | handelsregister.py:15-19 | different accepted options get different codes |

## Left out

- Browser session (handelsregister.py:23-58, 75-115): headers, the start page, following links, filling and submitting the form. This is network I/O through mechanize.
- Cache handling (handelsregister.py:54-55, 60-61, 79-82, 116-118): the directory, reads and writes. This is filesystem I/O; only the key string is modelled.
- HTML parsing with BeautifulSoup (handelsregister.py:129, 172-178): `find('table', role='grid')`, `find_all('tr')`, `find_all('td')` and `cell.text`. These are a foreign library. The page is given as its rows, and each row as its `data-ri` value and cell texts.
- `print_company_info` (handelsregister.py:160-168), which is output only.
- The debug branch of the extraction loop (handelsregister.py:180-182). Besides printing, it converts the `data-ri` value with `int(a)`, which raises `ValueError` on a non-numeric value and would abort the page. The model takes debug mode as off, which is how the driver sets it (handelsregister.py:256), so that branch never runs.
- Argument parsing, logging setup and the `__main__` driver (handelsregister.py:188-264). The parameters reach `SearchQueryIdentifier` as a sequence of name/value pairs in definition order. A value is a string or `None`, since no option declares a `type`.
- `GermanTradeRegister` is not a class here. Its fields are never updated after construction, and `search_query_identifier` only reads `search_args`, which is passed in as a parameter.
- Text.Lower: lowers only A–Z and the Latin-1 capitals (À–Þ except ×); other scripts and multi-character lowerings of Python's `str.lower` are not modelled.
- Text.IsSpace: follows Python's `str.isspace` list as of Unicode 15; later Unicode versions are not tracked.
