# Florida health-facility license reconciliation, modelled in Dafny

This project models the logic at the centre of a scraper for Florida
health-facility data (AHCA). It has three parts.

1. **License reconciliation (`DataMatcher`, matcher.dfy).** The matcher
   takes a facility table and a provider table. It checks that both are
   given, are not empty and hold the required columns. It builds a
   comparison key for each row:
   - the *name key* is stripped, upper-cased and has every whitespace run
     collapsed to one space;
   - the *license key* is stripped and upper-cased.

   It also reads each row's expiration date, then computes three results:
   - `update_licenses`: an inner join on both keys, kept where both dates
     are present and the facility date is strictly later;
   - `new_licenses`: facility rows whose name key is known to the providers
     but whose license key is not;
   - `expired_licenses`: provider rows that no facility row matches, whose
     date is present and on or before today.

   Each non-empty result loses its working columns and gains a timestamp
   and a criteria tag. When the run saves its output, the expiration
   columns of the returned tables are rewritten as MM/DD/YYYY text. Any
   failure gives three empty tables.
2. **Table-row extraction (`Scraper`, scraper.py).** This part covers how
   `parse_table` picks the address column, skips the header row, filters
   rows by the searched name and builds one record per matching row. It
   also models `extract_beds`, `extract_license_id` and the fallback
   record.
3. **ID extraction (`FacilityIds`, facility_ids.dfy).** This part covers
   `extract_ids_filtered`, the comma-joined export form fields, and the
   rule that skips the export when no ID was found.

Two modules hold shared definitions:
- **`Tables`** (tables.dfy): cells, rows keyed by column name, tables, and
  the few pandas operations the matcher uses.
- **`Text`** (text.dfy): the Python string operations involved, such as
  `strip`, `upper`, `lower`, `\s+` collapsing, `in` and `isdigit`.

`Wrappers` holds `Option` and `Result`.

Three functions of the source work step by step and are modelled as
imperative Dafny:
- `_format_expiration_dates` rewrites a frame's columns in place. It is the
  method `Frame.FormatExpirationDates` of a class whose fields are the
  column list and the rows.
- `parse_table` and `extract_beds` are loops. They become `while` loops.

`_finalize_results` reassigns its three tables, so it is a method too.
Each of these methods is proved equal to a function, and the properties
are proved about that function. The rest is pure and is written as
functions and lemmas.

The exception handlers are modelled as error values. Each stage that can
raise returns a `Result`, and an error gives the three empty tables, as
the handler in `match_provider_facility_data` does. A stage raises in the
original program in these cases:
- a `KeyError` when an input already uses a working column name, so the
  merge renames it by a suffix;
- a pandas `MergeError` when suffixing would give two columns one name;
- a clash with the merge indicator: pandas refuses `indicator=True` when
  either table has a column named `_left_indicator`, `_right_indicator`
  or `_merge`.

Likewise, `extract_ids_filtered` raises on a record that is not an object
or on a truthy ID that is not text. That gives an `IdError`, and the
handler of `get_facility_ids` turns it into two empty lists.

Saving formats the very tables the run returns, because
`_save_results_to_excel` formats the frames held in the results
dictionary in place. The model captures this with `Frame` objects:
`RunStages` wraps each result in a frame and calls `SaveResults` on them
when the run saves.

## Model

| member | source | states |
|---|---|---|
| Text.Strip | data_matcher.py:42 | the result has no leading or trailing whitespace, and a text that has none is left as it is |
| Text.StripEmpty | complete.py:78 | a text strips to the empty text exactly when every character is whitespace |
| Text.CollapseSpaces | data_matcher.py:44 | the result is no longer than the input, is empty exactly when the input is, and starts with the input's first character, with whitespace turned into a space |
| Text.WrittenPositions | data_matcher.py:44 | the positions that survive `\s+` → " ": exactly the non-whitespace characters and the last character of each whitespace run, in increasing order |
| Text.CollapseWritten | data_matcher.py:44 | the collapsed text is, in order, the characters at the surviving positions, each whitespace written as one space, so every maximal whitespace run becomes exactly one space |
| Text.CollapseKeepsNonSpace | data_matcher.py:44 | collapsing keeps every non-whitespace character, in order, and adds none |
| Text.CollapseNoDoubleSpace | data_matcher.py:44 | after collapsing, no two adjacent characters are both spaces |
| Text.NameKeyNormalized | data_matcher.py:39-45 | a name key has no leading or trailing blank, no double space, no whitespace other than single spaces, and no lower-case letter |
| Text.NameKeyIdempotent | data_matcher.py:39-45 | normalizing a name key again gives the same key |
| Text.LicenseKeyNormalized | data_matcher.py:48-50 | a license key has no leading or trailing blank and no lower-case letter |
| Text.LicenseKeyIdempotent | data_matcher.py:48-50 | normalizing a license key again gives the same key |
| Text.ContainsAt | scraper.py:80 | `needle in hay` holds exactly when `needle` occurs at some position of `hay` |
| Text.FindFirst | scraper.py:114 | the position of the first occurrence of the needle, and none exactly when it does not occur |
| Tables.BeforeIsStrictTotalOrder | data_matcher.py:154-157 | date order is irreflexive, transitive, total and asymmetric, so the date filters are well defined |
| Tables.UsDateRoundTrip | data_matcher.py:277 | an MM/DD/YYYY text reads back as the date it was made from |
| Tables.AddColumn | data_matcher.py:239-242 | assigning a column keeps the row count, sets the value in every row, adds the name last when it is new, and keeps the table rectangular |
| Tables.DropColumns | data_matcher.py:234-238 | dropping columns keeps the other column names in their order and removes exactly the dropped names from every row, keeping every other cell; distinct names stay distinct |
| Tables.Positions | data_matcher.py:175 | the positions of the elements a mask keeps: exactly those, in increasing order |
| Tables.FilterAtPositions | data_matcher.py:175 | a boolean-mask selection is the elements at the kept positions, in order, each once |
| DataMatcher.MissingColumns | data_matcher.py:69-78 | the absent required columns, in configuration order (name, license, expiration), each once; the list is empty exactly when all are present |
| DataMatcher.ValidateInput | data_matcher.py:54-88 | validation passes exactly when both tables are given, neither is empty, and each holds its three required columns |
| DataMatcher.GetMatchingSummary | data_matcher.py:387-445 | the record counts (0 for a missing table) and the expected columns; readiness is reported exactly when both tables are given, each side is ready exactly when its required columns are all present, and a missing-column list appears exactly when its side is not ready and lists the absent required columns; the column lists are those of the given tables, empty for a missing one |
| DataMatcher.ValidationAgreesWithSummary | data_matcher.py:54-88 | validation passes exactly when the summary reports readiness and both record counts are positive |
| DataMatcher.CleanForMatching | data_matcher.py:35-52 | cleaning keeps the row count and every source column and cell, adds the two key columns, and keeps the table rectangular |
| DataMatcher.CleanAddsKeys | data_matcher.py:35-52 | each cleaned row keeps its original cells and holds the normalized name key and license key of its text, built with `astype(str)` |
| DataMatcher.ParsedDate | data_matcher.py:104-109 | a parsed expiration is a date cell or missing, and a date cell parses as itself |
| DataMatcher.PrepareSide | data_matcher.py:90-121 | a prepared side keeps its row count and stays rectangular; each row is the cleaned row plus its parsed date, and the `dropna` on the keys drops no row |
| DataMatcher.PreparedRowContents | data_matcher.py:90-121 | a prepared row keeps every source cell, has the normalized key pair and the parsed date, and its keys have the normalized shape |
| DataMatcher.PreparedRowHasKeys | data_matcher.py:111-115 | no prepared row lacks a key, so the `dropna` removes nothing |
| DataMatcher.MergedColumns | data_matcher.py:125-132 | a merge has one column per left column and one per right non-key column |
| DataMatcher.MergedKeys | data_matcher.py:125-132 | a merged row carries the key pair of its left row |
| DataMatcher.InnerPairs | data_matcher.py:125-132 | the inner join pairs every left row with every right row of equal key pair, and no others, in left-then-right order, so duplicate keys fan out |
| DataMatcher.FindUpdateLicenses | data_matcher.py:123-162 | every update row has both dates present and a facility date strictly later than the provider date; a non-empty result has the merged columns |
| DataMatcher.UpdatePairs | data_matcher.py:143-157 | the kept pairs are exactly those with equal keys, both dates present and the facility date strictly later, in join order |
| DataMatcher.UpdateLicensesExact | data_matcher.py:123-162 | with a non-empty join, the update result is exactly one merged row per kept pair, in join order |
| DataMatcher.UpdateRowSource | data_matcher.py:125-157 | every update row is the merge of one joined pair and carries that pair's key |
| DataMatcher.SupersedesMerged | data_matcher.py:143-157 | the date test on a merged row is the date test on the pair it came from |
| DataMatcher.ProviderNames | data_matcher.py:168 | the set of provider name keys |
| DataMatcher.ProviderLicenses | data_matcher.py:167 | the set of provider license keys |
| DataMatcher.NewPositions | data_matcher.py:170-175 | the positions of the facility rows whose name key some provider has and whose license key no provider has, in increasing order |
| DataMatcher.NewLicensesExact | data_matcher.py:164-180 | the new-license table has the facility columns and is, in facility order and each once, the facility rows at the new-license positions |
| DataMatcher.FindNewLicenses | data_matcher.py:164-180 | the new rows are exactly the facility rows whose name key some provider has and whose license key no provider has, with the facility columns |
| DataMatcher.NewLicensesNotUpdated | data_matcher.py:125-132 | no new-license row shares its key pair with an update row |
| DataMatcher.MatchesFrom | data_matcher.py:125-132 | the positions of rows with a given key pair, increasing |
| DataMatcher.UnmatchedFrom | data_matcher.py:184-194 | the positions of provider rows that no facility row matches, increasing |
| DataMatcher.FindExpiredLicenses | data_matcher.py:182-220 | the indicator error is raised exactly when either table has a column named `_left_indicator`, `_right_indicator` or `_merge`; every expired row has a provider date that is present and on or before today; a non-empty result has the merged columns without those ending in `_facility` |
| DataMatcher.ExpiredRows | data_matcher.py:194-215 | the kept provider rows are exactly those with no facility match and a present date on or before today, in order |
| DataMatcher.ExpiredLicensesExact | data_matcher.py:182-220 | with an unmatched provider row, the expired result is exactly the left-only rows of the kept providers, in order, without the facility columns |
| DataMatcher.NoMatchRowCells | data_matcher.py:184-200 | a left-only row keeps the provider's key pair and date, and the date column survives the drop |
| DataMatcher.ExpiredRowSource | data_matcher.py:184-215 | every expired row comes from a provider row that no facility row matches, and carries its key pair |
| DataMatcher.ExpiredNotUpdated | data_matcher.py:184-194 | no expired row shares its key pair with an update row |
| DataMatcher.ExpiredNotNew | data_matcher.py:164-194 | no expired row shares its key pair with a new-license row |
| DataMatcher.NewLicensesValid | data_matcher.py:175 | the new-license result is a rectangular table |
| DataMatcher.UpdateLicensesValid | data_matcher.py:148-157 | the update result is a rectangular table |
| DataMatcher.ExpiredLicensesValid | data_matcher.py:194-215 | the expired result is a rectangular table |
| DataMatcher.PresentWorkingColumns | data_matcher.py:236 | exactly the working columns the table has |
| DataMatcher.FinalizeTable | data_matcher.py:233-260 | an empty table is left as it is |
| DataMatcher.FinalizeTableColumns | data_matcher.py:233-242 | a finalized non-empty table's columns are its non-working columns in their order, then the stamp column and then the criteria column when the table did not already have them |
| DataMatcher.FinalizeTableContents | data_matcher.py:226-261 | a finalized non-empty table has its columns minus the working columns, plus the stamp and criteria columns; every row carries the stamp and the criteria tag and keeps every other cell; the table stays rectangular |
| DataMatcher.FinalizeResults | data_matcher.py:222-266 | each of the three tables is finalized with its own criteria tag and stamp |
| DataMatcher.FormatDatesCells | data_matcher.py:268-279 | formatting keeps the columns, the rows and every cell outside date-holding expiration columns, and a formatted date reads back as itself |
| DataMatcher.FormatDatesIdempotent | data_matcher.py:268-279 | formatting twice is formatting once |
| DataMatcher.FormatColumn | data_matcher.py:277 | every row has its cell in the column replaced by the formatted cell |
| DataMatcher.Frame.FormatExpirationDates | data_matcher.py:268-279 | the frame's new contents are the formatted old contents |
| DataMatcher.SheetContents | data_matcher.py:222-326 | a returned result: an empty stage result is unchanged; a non-empty one keeps its rows and the non-working cells, carries stamp and criteria, and saving changes only expiration dates, into text that reads back as the same date |
| DataMatcher.RunOutcome | data_matcher.py:349-385 | a stage that raises gives three empty tables; otherwise each result is its stage's table finalized, and formatted when saved |
| DataMatcher.MatchOutcome | data_matcher.py:328-385 | failed validation gives three empty tables; otherwise the prepared tables are rectangular and the run proceeds on them |
| DataMatcher.SavingOnlyFormatsDates | data_matcher.py:367-369 | a saved run returns the same tables as an unsaved one, except that cells of expiration columns may be formatted dates |
| DataMatcher.SavedViewSameButDates | data_matcher.py:290-313 | formatting a result for saving changes only expiration cells, each into its formatted value |
| DataMatcher.SaveResults | data_matcher.py:281-326 | each of the three frames is formatted in place when it is not empty and left as it is otherwise |
| DataMatcher.RunStages | data_matcher.py:349-374 | the stages, finalizing and saving give exactly the specified run outcome |
| DataMatcher.MatchProviderFacilityData | data_matcher.py:328-385 | the run returns exactly the specified outcome of validation, preparation and the stages |
| Scraper.Headers | scraper.py:68 | the header texts lower-cased, one per header |
| Scraper.IndexOf | scraper.py:70 | the first position of the header, and none exactly when it is absent |
| Scraper.AddressIndex | scraper.py:70 | the first position of "street address", or 3 when the headers lack it |
| Scraper.DataRows | scraper.py:73 | the first row is skipped exactly when the table has headers |
| Scraper.FirstBedCount | scraper.py:105-109 | empty exactly when no text is a bed count; otherwise the first text that is all digits with a value between 1 and 9999 |
| Scraper.ExtractBeds | scraper.py:105-109 | the loop with early return gives the first bed count, or the empty text |
| Scraper.FirstBedCountAt | scraper.py:105-109 | a bed count with none before it is the result |
| Scraper.CutAt | scraper.py:114 | `split(sep)[0]`: a prefix of the text holding no separator, ending at the text's end or at a separator |
| Scraper.IdFromHref | scraper.py:114 | the text after the first "LID=", ending at the end, an '&' or the next "LID=", and holding neither |
| Scraper.ExtractLicenseId | scraper.py:111-115 | no link, no href or no "LID=" gives the empty text; otherwise the text after the first "LID=" up to the next '&' or "LID="; never holds '&' or "LID=" |
| Scraper.RowRecord | scraper.py:82-93 | the fields of a record: AHCA number, name and type from cells 0 to 2 with their defaults, the injected phone, the first bed count, the license id of cell 1, address, city and zip from the address index on or empty, state "FL" |
| Scraper.ParseRow | scraper.py:76-94 | a row gives a record exactly when it has two cells and some text mentions the name, case-insensitively, and the record is the row's record |
| Scraper.AnyMentions | scraper.py:80 | true exactly when some text contains the lowered name |
| Scraper.ParseRows | scraper.py:75-94 | the row loop gives the records of the matching rows in row order |
| Scraper.ParseTable | scraper.py:63-95 | the nested loops give the records of the matching data rows, table by table and row by row |
| Scraper.RecordsCount | scraper.py:65-95 | there are at most as many records as data rows |
| Scraper.RecordSource | scraper.py:65-95 | every record is the record of a matching data row of some table |
| Scraper.RowsRecordsComplete | scraper.py:75-94 | every matching data row gives its record |
| Scraper.RecordsComplete | scraper.py:65-95 | every matching data row of every table gives its record, with that table's address column |
| Scraper.CreateFallbackResult | scraper.py:117-130 | one record, named after the searched facility, with no beds, license id or zip, in state "FL" |
| Scraper.FallbackOnlyNameVaries | scraper.py:117-130 | fallback records differ only in their name |
| FacilityIds.Scanned | complete.py:73 | the records scanned are the first element when it is a list, else the whole array |
| FacilityIds.KeepId | complete.py:75-84 | a record that is not an object raises; a text under the key that does not strip to empty is kept, unstripped, and every kept value is such a text; a truthy value that is not text raises exactly then; the value is skipped exactly when the key is missing, the value is falsy or it is blank text |
| FacilityIds.PickIds | complete.py:75-84 | the pick succeeds exactly when no record raises, an error is that of the first record that raises, and a pick is no longer than the records |
| FacilityIds.PickIdsAreKeptValues | get_table_data.py:123-132 | the picked IDs are, in order, the unstripped texts of the records that keep a value, one per such record |
| FacilityIds.PickIdsEmpty | complete.py:75-84 | a pick is empty exactly when no record keeps a value |
| FacilityIds.PickedIdsNotBlank | complete.py:75-84 | every picked ID has a character that is not whitespace |
| FacilityIds.ExtractIdsFiltered | complete.py:60-86 | empty data gives two empty lists; otherwise both lists are picked from the scanned records with their own keys, and each is no longer than the records |
| FacilityIds.ListsIndependent | get_table_data.py:123-132 | a record with a license ID and no link ID gives lists of different lengths |
| FacilityIds.ListingIds | complete.py:37-57 | an extraction that raises gives two empty lists; otherwise its lists |
| FacilityIds.SplitJoin | complete.py:137-138 | splitting a comma-join of parts that hold no comma gives the parts back |
| FacilityIds.NonEmpty | complete.py:137-138 | the non-empty IDs, exactly, in order |
| FacilityIds.JoinIdsRoundTrip | complete.py:137-138 | a form field splits back into the non-empty IDs in order, and holds nothing when there are none |
| FacilityIds.ExportPlan | complete.py:184-186 | no export exactly when both lists are empty; otherwise the form carries both comma-joined lists |
| FacilityIds.NoExportIff | complete.py:184-186 | no export is attempted exactly when extraction raised, the array was empty, or no scanned record keeps a license or link ID |
| FacilityIds.ExportSendsEveryId | complete.py:137-186 | when no ID holds a comma, each non-empty list is carried whole by its form field |

## Left out

- Network and browser I/O are not modelled. This covers `search_facilities` (HTTP requests, retries, sleeps), the `requests` and Selenium calls of complete.py and get_table_data.py, and `main`.
- Excel output is not modelled: the workbook writing of `_save_results_to_excel`, its output path, and all logging. Only the date formatting it applies to the result frames is modelled.
- The failure of a save is not modelled. The earlier stages' errors are.
- HTML parsing is not modelled. A table is given as its header texts plus rows of cells, and each cell carries its text and an optional link with an optional href. `get_text(strip=True)` is assumed already applied to every text.
- `extract_phone` is an injected function of the row texts, because its result depends on regex-engine matching.
- Two regular-expression steps are not modelled, because they are library behaviour: the search for the JavaScript `data` array and `json.loads`. The decoded array is the model's input.
- The export request, its verification token and the export response are not modelled.
- `pd.to_datetime` parsing is not modelled. An expiration cell that already holds a date is that date. Every other cell counts as missing, including a text and a timestamp with a time of day.
- Numeric cells are assumed to be integers in a column with no missing values. pandas stores a numeric column with gaps as float64, so `astype(str)` would turn 12345 into "12345.0" and change the license key. No float cell is modelled.
- Timestamps drop microseconds, and dates are limited to the years 1000 to 9999.
- The clock is injected. `pd.Timestamp.now()` and `pd.to_datetime("today").normalize()` become the fields of `Clock`.
- Unicode case rules and `str.isdigit` beyond ASCII are not modelled. Upper and lower case are ASCII and digits are '0' to '9'. Whitespace is the full set that Python's `isspace` and the `\s` of `re` accept.
- The merge of the expired stage is modelled directly from its `left_only` rows. The `_merge` indicator column is never built, and a table that already has one gives an error.
- The merge behaviour assumed is that of pandas 2.2 or later. An inner merge lists its rows in the order of the left rows. Column names that coincide after suffixing are rejected with a `MergeError`, including a clash across the two sides. Older pandas versions may order the rows differently or accept such a clash.
- The two masks of `_find_update_licenses` are applied as one filter on the joined pairs. This is the same rows in the same order.
- DataMatcher.FindUpdateLicenses: its own ensures state only the date test and the columns. The full result is in UpdateLicensesExact, under the preconditions of a merge that does not raise.
- DataMatcher.FormatDatesCells: a column counts as a date column when its cells in the result hold only dates, timestamps or missing values, with at least one date. pandas instead tests the column's dtype, which comes from the input table; no dtype is modelled. Take an input expiration column that mixes a date with a text such as "N/A". It has object dtype, so the source leaves the date of a selected row as it is. The model formats that date as MM/DD/YYYY text. Saved runs can therefore differ in RunOutcome, SaveResults, RunStages and MatchProviderFacilityData.
- DataMatcher.Frame.FormatExpirationDates: it formats by FormatDates, whose IsDateColumn test judges the column from its cells, as described for FormatDatesCells.
- DataMatcher.FindExpiredLicenses: its own ensures state only the date test and the columns. The full result is in ExpiredLicensesExact, under the same kind of preconditions.
- Scraper.CreateFallbackResult: the ensures name only the fields that are not fixed placeholders, together with the state. The placeholder texts are stated once, in the body.
- The bed-count comparison and any secondary matching are not modelled, because no core file implements them.
- The other files of the repository are not part of this model: production_downloader.py, downloader.py, facility_licenses.py, web_scraping.py, pipeline.py and providers.py.
