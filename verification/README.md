# TikTok video analyzer and report store, modelled in Dafny

The system reads a Google Sheet of TikTok video metrics and cleans the
table. It computes five engagement-ratio columns and builds one prompt per
selected row. It asks a language model for an analysis report and writes
the reports back into the sheet. Separately, it keeps saved reports in a
Firebase "reports" node (through Pyrebase or the REST API) and falls back
to a local JSON file.

This project models that core as pure functions over immutable data.

Values:
- A sheet cell is a `Values.Value`: a real number, +inf, -inf, NaN, a
  string, or Python's None.
- Division follows IEEE 754 for the special values.
- Rounding to two decimals is exact round-half-even on reals.

The analyzer:
- A table is a `Frame.Table`: an ordered column list and one map per row.
- The spreadsheet is a list of `Sheets.Worksheet`s.
- The language model is the parameter `complete`.
- The text Python prints for a finite number is the parameter `showNum`.
- Writes into the sheet are returned as a list of `Sheets.CellWrite`s.
  `Sheets.Apply` gives their effect on a cell map.

The report store:
- A Python dict is `Store.Entries`: an insertion-ordered list of key/value
  pairs whose meaning is `Store.AsMap`.
- The remote node is a `Firebase.Tree`. The local file is a
  `Firebase.LocalFile`.
- The following are parameters:
  - the outcome of each remote step (`Attempt`, `Fetch`, `pyUp`);
  - whether the file can be written (`writable`);
  - the generated uuid (`docId`);
  - the clock (`now`).
- Listings use `Sorting.SortDesc`. It is a stable descending sort, as
  Python's `sort(reverse=True)` is.

Behaviour of the code worth noting:
- A remote delete of an id that does not exist reports success. Only the
  local-file delete reports failure for a missing id.
- Reports live as children of a Realtime Database "reports" node, read and
  written through Pyrebase or the REST API. They are not documents of a
  query-able collection. Listing sorts on the client.
- In `get_all_reports`, an empty Pyrebase node is treated as a failure and
  the REST request is tried next. A REST answer with status 200 and no
  data gives an empty list. Only a REST status other than 200, or a failed
  request, falls back to the local file.
- An empty, non-None selection analyses every row and writes nothing back.

## Model

| member | source | states |
|---|---|---|
| Values.ToNumeric | analyzer.py:113-115 | coercion never yields a string or None; numbers pass through unchanged; a string becomes a number exactly when it parses; None becomes NaN |
| Values.CoerceCount | analyzer.py:209-211 | `to_numeric(...).fillna(0)` always yields a count (never NaN or None); missing and unparsable cells become 0; numbers and infinities are kept |
| Values.DivCases | analyzer.py:214-218 | IEEE division: the result is finite exactly when the numerator is finite and the denominator is infinite or non-zero, and then it is the true quotient; NaN exactly for NaN operands, inf/inf or 0/0; the sign rules for infinite results |
| Values.Round2 | analyzer.py:214 | `.round(2)` lands within 0.005 of its argument, on a whole number of hundredths |
| Values.Round2Idempotent | analyzer.py:214-218 | rounding an already rounded ratio changes nothing |
| Values.RoundValue | analyzer.py:214 | rounding keeps infinities and NaN and rounds finite numbers |
| Values.Scale100 | analyzer.py:214 | multiplying by 100 keeps infinities and NaN and scales finite numbers |
| Values.ZeroInfNaN | analyzer.py:217-218 | `.replace([inf, nan], 0)` leaves neither +inf nor NaN, maps exactly those two to 0, and keeps -inf and every other value |
| Values.PercentFinite | analyzer.py:214-218 | with a finite non-zero denominator a ratio is the rounded percentage a/b*100 |
| Values.PercentZeroDenominator | analyzer.py:214-216 | a zero view count gives +inf, -inf or NaN according to the sign of the numerator |
| Frame.WithColumns | analyzer.py:214-218 | assigning new columns keeps the existing ones in order, appends the new ones, keeps names distinct, and changes nothing when all already exist |
| Frame.WithColumnsKeys | analyzer.py:214-218 | a row's keys after the assignments are the new column list |
| Analyzer.PreprocessRow | analyzer.py:110-125 | a row keeps its keys; count columns become coerced counts; text columns lose their missing markers to ""; every other cell is untouched |
| Analyzer.Preprocess | analyzer.py:105-127 | the cleaned table has the same columns and rows, each row cleaned cell by cell, and stays well formed |
| Analyzer.PreprocessRowIdempotent | analyzer.py:110-125 | cleaning a cleaned row changes nothing |
| Analyzer.PreprocessIdempotent | analyzer.py:105-127 | cleaning a cleaned table changes nothing |
| Analyzer.ViewColumn | analyzer.py:202 | the views column is "Views (24h)" exactly when the table has it, otherwise "Views" |
| Analyzer.RatioRow | analyzer.py:209-218 | a row gains exactly the four counts and the five ratio columns; the counts are coerced; every other cell is kept |
| Analyzer.RatioRowViewsRatios | analyzer.py:214-216 | the three views-based ratios are likes, comments and saves over the coerced views, as rounded percentages |
| Analyzer.RatioRowLikesRatios | analyzer.py:217-218 | the two likes-based ratios are comments and saves over likes, with +inf and NaN replaced by 0 |
| Analyzer.CalculateMissingRatios | analyzer.py:198-220 | a table missing a count column is returned unchanged; otherwise the columns grow by exactly the ratio columns and every row becomes its ratio row |
| Analyzer.RatioRowKeysMatchColumns | analyzer.py:209-218 | a row holding exactly the table's columns ends up holding exactly the extended column list |
| Analyzer.CalculateMissingRatiosWellFormed | analyzer.py:198-220 | the ratio computation keeps the table well formed |
| Analyzer.RatioRowIdempotent | analyzer.py:209-218 | recomputing the ratios of a ratio row changes nothing |
| Analyzer.RatioColumnsStable | analyzer.py:202-218 | after the ratios are added, the same views column is chosen, the count columns are still present, and adding the ratio columns again changes no column |
| Analyzer.CalculateMissingRatiosIdempotent | analyzer.py:198-220 | computing the ratios twice gives the same table as computing them once |
| Analyzer.PrepareVideoData | analyzer.py:142-166 | the dictionary holds exactly the nine prompt fields plus those ratio columns the row has, copied unchanged |
| Analyzer.VideoDataTitle | analyzer.py:140-145 | title and hook are both the row's "Title/Hook", "" when absent |
| Analyzer.VideoDataViewsLikes | analyzer.py:148-149 | views come from "Views (24h)" and likes from "Likes", 0 when absent |
| Analyzer.VideoDataCommentsSaves | analyzer.py:150-151 | comments and saves come from their columns, 0 when absent |
| Analyzer.ProcessedRowShowsRatios | analyzer.py:164-166 | a row after the ratio computation hands all five ratios to the prompt |
| Analyzer.FilterIndices | analyzer.py:64 | the kept indices are all in range, in their original order, each in-range index kept as often as it was selected |
| Analyzer.SelectRows | analyzer.py:62-70 | no selection or an empty one means every row in order; a non-empty selection keeps its in-range indices and is refused when none is in range |
| Analyzer.Reports | analyzer.py:72-78 | one report per selected row, in selection order, each generated from that row's dictionary |
| Analyzer.WriteBack | analyzer.py:84-92 | as written: report `i` goes to the sheet row of the `i`-th selected index, for as many pairs as both lists have |
| Analyzer.AnalyzeProcessed | analyzer.py:58-101 | as written: a refused selection fails with its message; otherwise every selected row is reported; with a selection and an analysis column the writes are the as-written write-back; without a selection the whole-column update is used and its failure changes the message |
| Analyzer.AnalyzeWorksheet | analyzer.py:42-56 | an empty table fails first, then missing required columns are named in required order; a table that passes is cleaned, extended with ratios and analysed |
| Analyzer.AnalyzeVideos | analyzer.py:30-101 | failures to open the sheet or the worksheet come first; a failed run reports nothing and writes nothing; every write is in the analysis column |
| Analyzer.SelectionOutcomes | analyzer.py:62-78 | a selection with no index in range is refused whatever else holds; an absent or empty selection reports every row in order |
| Analyzer.EmptySelectionWritesNothing | analyzer.py:62-92 | an empty selection analyses every row yet writes no cell, even with an analysis column |
| Analyzer.WriteBackMisplacesReport | analyzer.py:84-92 | as written, with one row, the selection [5, 0] writes the only report to sheet row 7 instead of row 2, and the selection [-1, 0] writes it over the header in row 1 |
| Analyzer.AnalyzeProcessedWritesSelectedRows | analyzer.py:62-92 | as written: with a non-empty selection there are as many writes as analysed rows, and report `i` goes to the sheet row of the `i`-th selected index, whether or not that index was in range |
| Analyzer.CorrectedWriteBackLandsOnSourceRow | analyzer.py:64-92 | corrected: report `i` is written to the sheet row of the `i`-th analysed row, inside the table |
| Analyzer.AnalyzeProcessedFixed | analyzer.py:58-101 | corrected: the same reports and message as the analysis as written; only the write-back after a selection differs |
| Analyzer.AnalyzeProcessedFixedWritesOwnRows | analyzer.py:62-92 | corrected: with a non-empty selection, every report is written to the sheet row of the table row it was generated from, inside the table |
| Analyzer.WriteBackAgreesWhenAllInRange | analyzer.py:64-92 | when every selected index is in range, the corrected write-back equals the code as written |
| Utils.MissingColumns | utils.py:31 | a column is reported exactly when it is required and absent, in required order, as often as it is required |
| Utils.ValidateColumnNames | utils.py:20-33 | validation passes exactly when no required column is missing, and returns the missing ones |
| Utils.ValidateGoogleSheetUrlCorrect | utils.py:17-18 | the scanner accepts a URL exactly when it starts with the spreadsheet prefix and a non-empty id run is followed by "/edit" or "/view" |
| Utils.RejectsEmptyId | utils.py:17-18 | a URL with no id before "/edit" is rejected |
| Utils.RejectsHttp | utils.py:17-18 | a plain-http URL is rejected |
| Utils.RewriteSectionGrowsIff | utils.py:56-59 | a section rewrite never shortens the text and changes it exactly when the heading starts a line |
| Utils.BoldLabelGrowsIff | utils.py:61-64 | bolding a label never shortens the text and changes it exactly when "label:" occurs |
| Utils.RewriteSectionsGrowsIff | utils.py:46-59 | the section rewrites change the text exactly when some heading starts a line |
| Utils.BoldLabelsGrowsIff | utils.py:61-64 | the label pass changes the text exactly when some "label:" occurs |
| Utils.FormatReportGrowsIff | utils.py:35-66 | formatting never shortens a report and leaves it unchanged exactly when no heading starts a line and no label occurs |
| Utils.BoldLabelCounts | utils.py:62-64 | bolding adds exactly four characters per occurrence of "label:" |
| Utils.RewriteSectionCounts | utils.py:56-59 | a section rewrite adds four characters for a heading at the very start and three for each heading after a newline |
| Utils.RewriteSectionLine | utils.py:56-59 | a single line, alone or after a newline, becomes a markdown heading line exactly when it starts with the section name; a line that only contains the name is kept |
| Utils.RewriteSectionSplitsAtNewline | utils.py:56-59 | the rewrite works line by line: text split just before a newline is rewritten piece by piece |
| Utils.SectionMidLineKept | utils.py:56-59 | a section name in the middle of a line is left as it is, and the following lines are rewritten on their own |
| Utils.SectionKeepsColon | utils.py:58-59 | a heading followed by a colon becomes a markdown heading that still carries the colon |
| Sheets.FindWorksheet | sheets_api.py:52-58 | the first worksheet with the title, or none exactly when no title matches |
| Sheets.GetWorksheetByName | sheets_api.py:45-61 | the result carries the requested title and is the first such worksheet; None exactly when no title matches |
| Sheets.AnalysisWrites | sheets_api.py:113-117 | analysis `i` goes to row `i + 2` of the analysis column |
| Sheets.UpdateAnalysisColumn | sheets_api.py:98-122 | fails with no writes on an empty sheet; otherwise writes the header first exactly when the column is new, then every analysis, all in the analysis column |
| Sheets.AnalysisWritesEffect | sheets_api.py:113-117 | after the writes each analysis sits in its row of the analysis column |
| Sheets.UpdateAnalysisColumnEffect | sheets_api.py:98-119 | after the update each analysis and, for a new column, the header are in place; every cell outside the analysis column is unchanged |
| Prompt.Field | openai_api.py:80-94 | a field shows its value exactly when the dictionary has it, otherwise "N/A" |
| Prompt.RatioField | openai_api.py:66-70 | a ratio shows the current name's value, else the legacy name's, and "N/A" exactly when neither is present |
| Prompt.PromptFields | openai_api.py:80-104 | thirteen labelled fields: the eight raw fields in order, then the five ratios with their legacy fallbacks |
| Prompt.PromptLayout | openai_api.py:72-104 | each field's "Label: value" line appears in the prompt, and the lines appear in the fixed order |
| Prompt.PromptDependsOnlyOnItsKeys | openai_api.py:63-104 | two dictionaries that agree on the keys the prompt reads give the same prompt |
| Prompt.GenerateAnalysis | openai_api.py:42-61 | never fails: a reply is returned as is, and a raised error comes back as text starting with "Error generating analysis: " |
| Prompt.GenerateAnalysisErrorIff | openai_api.py:42-61 | when the model's reply does not itself start with the error prefix, the result starts with "Error generating analysis: " exactly when the call raised, followed by the error's message |
| Sorting.SortDescCorrect | firebase_api.py:562 | sorting gives a non-increasing order of the same elements, and elements with equal keys keep their order |
| Sorting.SortDescOfSorted | firebase_api.py:562 | an already ordered list is returned unchanged |
| Sorting.PrefixOfSorted | firebase_api.py:562-565 | a prefix of an ordered list is ordered and no element left out has a larger key than one kept |
| Store.Find | firebase_api.py:433-439 | a lookup finds nothing exactly when the key is absent, and otherwise a stored pair |
| Store.FindAgrees | firebase_api.py:433-439 | a lookup returns what the dict maps the key to |
| Store.PutAsMap | firebase_api.py:326 | assigning a key gives the dict updated at that key and keeps keys distinct |
| Store.RemoveAsMap | firebase_api.py:643 | deleting a key gives the dict without it and keeps keys distinct |
| Reports.WithIds | firebase_api.py:555-557 | each stored record is listed, in dict order, with its key as id |
| Reports.ListingCorrect | firebase_api.py:562-565 | a listing holds min(limit, n) records drawn from the stored ones, newest first, and none left out is newer than one kept |
| Reports.ListingStable | firebase_api.py:562-565 | records with the same creation time keep their dict order: those listed are a prefix of them in dict order, and all of them when the limit is not reached |
| Reports.RemoteRecordsMembers | firebase_api.py:479-484 | a record is listed exactly when a child other than "initialized" holds a dict under the key it now carries as id |
| Firebase.LoadLocal | firebase_api.py:168-175 | a missing or unreadable file reads as no reports; a parsed file gives its "reports" entry |
| Firebase.GetReportLocal | firebase_api.py:426-443 | a report is found exactly when the file has it, and it is the stored record |
| Firebase.GetReportLocalAgrees | firebase_api.py:426-443 | a local lookup returns what the file's dict maps the id to |
| Firebase.GetAllReportsLocal | firebase_api.py:547-569 | the local listing is the stored records with their keys as ids, sorted newest first and cut at the limit |
| Firebase.DeleteReportLocal | firebase_api.py:631-653 | a local delete reports success exactly when the id is stored, and only then rewrites the file, without that id |
| Firebase.DeleteThenGet | firebase_api.py:631-653 | after a written delete the id is gone, every other id finds what it found before, and the file keeps distinct keys |
| Firebase.SaveLocal | firebase_api.py:306-352 | the local fallback returns the id exactly when the file can be written, and leaves an unwritable file as it was |
| Firebase.SaveThenGet | firebase_api.py:306-348 | after a local save the id finds the new record and every other id finds what it found before |
| Firebase.NewRecord | firebase_api.py:203-212 | the saved record carries the generated id and the creation time |
| Firebase.SaveReport | firebase_api.py:189-352 | as written: a returned id is the generated one; without a database handle nothing is saved remotely and None is returned |
| Firebase.PyrebaseWriteOnlyWrites | firebase_api.py:220-240 | a Pyrebase attempt touches only the marker and the new record's key |
| Firebase.RestWriteOnlyWrites | firebase_api.py:243-279 | a REST attempt touches only the marker and the new record's key |
| Firebase.SaveReportOneId | firebase_api.py:203-326 | every backend a save reaches uses the same id: the remote writes touch only the marker and that id, and the file changes only at that id |
| Firebase.SaveReportLosesLocalFallback | firebase_api.py:195-203 | as written, without a database handle the save returns None and the file does not gain the report, though it is writable |
| Firebase.SaveReportFixed | firebase_api.py:189-352 | corrected: a returned id is the generated one |
| Firebase.SaveReportFixedStores | firebase_api.py:189-352 | corrected: a save returns its id exactly when the file is writable or a remote attempt was confirmed, and the report can then be found remotely or locally |
| Firebase.SaveReportFixedAgrees | firebase_api.py:193-212 | with a database handle the corrected save is the save as written |
| Firebase.GetReport | firebase_api.py:354-424 | not connected gives None; any answer is truthy and is either the remote child or the local record |
| Firebase.GetAllReports | firebase_api.py:445-545 | not connected gives an empty list |
| Firebase.DeleteReport | firebase_api.py:571-629 | not connected reports failure and changes nothing |
| Firebase.LocalModeUsesFile | firebase_api.py:368-371 | in local-storage mode a get, a listing and a delete give the file's answers, whatever the remote would do |
| Firebase.RemoteListing | firebase_api.py:467-528 | a listing answered remotely is the remote node's records, other than "initialized", each with its key as id, sorted newest first and cut at the limit; an empty node answered with status 200 gives an empty list |
| Firebase.RemoteGet | firebase_api.py:376-409 | a truthy child returned by Pyrebase is the answer; a REST answer with status 200 is final, the child when truthy and None otherwise, without reading the file |
| Firebase.RemoteGetFallsBack | firebase_api.py:410-417 | a get answered by neither Pyrebase nor REST status 200 gives the file's answer |
| Firebase.RemoteListingFallsBack | firebase_api.py:532-539 | a listing answered by neither a non-empty Pyrebase node nor REST status 200 is the file's listing |
| Firebase.RemoteDeleteFallsBack | firebase_api.py:615-622 | a delete that Pyrebase did not carry out and that REST did not confirm with status 200 is the file's delete |
| Firebase.RemoteDelete | firebase_api.py:593-614 | a remote delete that goes through reports success, removes exactly that id and leaves the file alone |

## Left out

- Network, Google and Firebase client calls are parameters. They are the
  opened spreadsheet, the worksheets' grids and records, each remote
  attempt's outcome, and the completion service.
- The uuid and the clock are parameters (`docId`, `now`).
- The language model's output is whatever `complete` returns; its
  nondeterminism is not modelled.
- Prompt.Instructions: only the heading of the fixed instruction text is
  kept. The prompt's properties concern where the data fields sit, which
  the rest of the text does not affect.
- Prompt.ShowValue: Python's text for a finite float is the parameter
  `showNum`. Infinity, NaN and None are written out.
- Values.Round2: binary floating point, its representation error and
  signed zero are not modelled. Rounding is exact round-half-even on reals.
- Values.ToNumeric: only unsigned digit strings parse. pandas also
  accepts signs, decimals, exponents and surrounding blanks.
- The outer `except` of `analyze_videos` (analyzer.py:102-103) is not
  modelled, and neither is the `except` of `_calculate_missing_ratios`
  (analyzer.py:221-223). No modelled step raises.
- Failures of single `update_cell` calls are not modelled. The writes are
  returned as a list.
- `analyze_single_video`, `open_sheet_by_url` and `get_data_as_dataframe`
  are not part of this model. Neither are the Streamlit app, the
  authentication helpers or the stand-alone save scripts.
- Firebase initialisation (`__init__`) is not modelled. Its outcome is the
  `connected`, `usingLocal` and `dbReady` flags.
- The `limit` of a listing is a `nat`. Python's negative slicing is not
  modelled.
- The local JSON file holds only its "reports" key. Other top-level keys
  are not modelled.
- A record's "created_at" is a number or absent. A record whose
  "created_at" is null or not a number is not modelled.
- Non-dict entries in the local file's "reports" are not modelled.
- Not modelled in `save_report`:
  - the test-file probe (firebase_api.py:295-304);
  - the read-back verification of the local save (firebase_api.py:336-346);
  - the debug printing.
- Firebase.DeleteReportLocal: a failure to write the file back is caught
  and printed by `_save_local_data` (firebase_api.py:177-183), so the
  delete still returns True. The model gives this as `writable = false`:
  True is returned and the file is left as it was.
- Firebase.GetAllReports: its contract states only the disconnected case.
  The other cases are stated by Firebase.RemoteListing,
  Firebase.RemoteListingFallsBack and Firebase.LocalModeUsesFile.
- Firebase.DeleteReport: its contract states only the disconnected case.
  The other cases are stated by Firebase.RemoteDelete,
  Firebase.RemoteDeleteFallsBack and Firebase.LocalModeUsesFile.
- Firebase.GetReport: its contract states the disconnected case and where
  an answer comes from. The other cases are stated by Firebase.RemoteGet,
  Firebase.RemoteGetFallsBack and Firebase.LocalModeUsesFile.

## Findings

| source | as written | input that shows it | evidently intended | confidence | as-written member | corrected member |
|---|---|---|---|---|---|---|
| analyzer.py:84-92 | the write-back pairs report `i` with the `i`-th entry of `selected_indices`, although the reports were generated only for the in-range indices | a sheet with one data row and `selected_indices = [5, 0]`: the report for row 0 is written to sheet row 7; with `[-1, 0]` it overwrites the header in row 1 | report `i` goes to the sheet row of the `i`-th analysed (in-range) index | not executed | Analyzer.WriteBackMisplacesReport | Analyzer.AnalyzeProcessedFixedWritesOwnRows |
| firebase_api.py:195-203 | when no database handle exists, the exception is raised before `doc_id` is assigned, so the local fallback's `data['reports'][doc_id]` (line 326) fails on the unbound name and the save returns None | `self.db` is None and re-creating it fails, with a writable local file: the report is not saved anywhere | `doc_id` is assigned before the first attempt, so the report is saved to the local file and its id returned | not executed | Firebase.SaveReportLosesLocalFallback | Firebase.SaveReportFixedStores |

The analysis pipeline (`Analyzer.AnalyzeProcessed`,
`Analyzer.AnalyzeWorksheet`, `Analyzer.AnalyzeVideos`) follows the code as
written, with `Analyzer.WriteBack`. `Analyzer.AnalyzeProcessedFixed` is the
corrected analysis; it writes back with `Analyzer.CorrectedWriteBack`. The report store's save has both versions:
`Firebase.SaveReport` (as written) and `Firebase.SaveReportFixed`
(corrected).
