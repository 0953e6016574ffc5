# Newsletter report generator: KPI derivation and drive-link rewriting

This project models the two pieces of logic in a browser-based newsletter
generator. The generator pulls a spreadsheet from a shared cloud-drive link
and turns its last two rows into a one-page report.

- **Report generation** (`ExcelProcessor`, `excel_processor.dfy`). The input
  is an ordered list of rows, and each row is an ordered list of fields
  (`key`, `cell`). A cell is `Num(r)` or `Other`. The last row is compared
  with the one before it. Every numeric field of the last row becomes a KPI
  with a name, a display value, a percentage change rounded to hundredths,
  and a trend. The top mover is the KPI with the largest absolute change. It
  is named in a templated analysis text, and at most four KPIs are kept.
  `GenerateReportData` follows the generator's steps, and `EmitKpis` is the
  loop over the last row's columns that builds the KPI list. `EmitKpis` is
  proved equal to the function `Emitted`, and `GenerateReportData` to the
  function `ReportOf`; the lemmas are stated about these functions.
  A decoded row is an object, so its keys are distinct (`DistinctKeys`). The
  operations accept any sequence of fields and read the first field of a key
  (`Lookup`); with distinct keys, that is the only field of the key
  (`LookupDistinct`).
- **Drive links** (`DriveService`, `drive_service.dfy`). A sharing link is
  rewritten into a direct download link. A scanner replaces the regular
  expression `/d/([a-zA-Z0-9-_]+)`. `GetImageUrl` builds the download link
  for a file id.
- **Number text** (`Decimal`, `decimal.dfy`). This is the text a
  whole-hundredths number becomes when the analysis template interpolates
  it, with a parser that reads it back.
- `Types` (`types.dfy`) holds the KPI, trend, generated-fields and failure
  records. `Wrappers` (`wrappers.dfy`) holds `Option` and `Result`.
  `ReportExamples` (`report_examples.dfy`) evaluates reports of small
  concrete spreadsheets.

The model follows the code. Where the code does something other than what
one might expect, the code wins:
- The top mover is chosen from the full KPI list, before it is cut to four.
  It can therefore be a KPI the report does not show.
- The fold keeps the previous candidate only when its absolute change is
  strictly larger, so on a tie the later KPI wins.
- The trend comes from the unrounded change and the stored change is
  rounded. A change of 0.001% is therefore stored as 0 with trend up.
- Rows can be non-empty while no cell of the last row is a number. Then the
  top mover is undefined and reading its trend throws. The model returns
  `Err(TopKpiUndefined)`, not an empty report.
- Against a negative previous value, a rise gives a negative change and a
  down trend.

The KPI field `label` is called `name` here, because `label` is a Dafny
keyword. Two things are parameters of `GenerateReportData` and `ReportOf`
rather than being modelled:
- `format`, the locale-dependent `toLocaleString` rendering of the last value.
- The order of a row's fields, which is the order in which its keys are
  enumerated.

## Model

| member | source | states |
|---|---|---|
| ExcelProcessor.GenerateReportData | src/services/excelProcessor.ts:18-58 | the result is `ReportOf(rows, format)`; it is the empty record exactly when there are no rows; a filled result has at most four KPIs and the fixed summary and conclusion |
| ExcelProcessor.Lookup | src/services/excelProcessor.ts:31-32 | the result is the cell of the first field with that key; a numeric result is the cell of a field with that key; a key the row lacks reads as not a number |
| ExcelProcessor.LookupDistinct | src/services/excelProcessor.ts:31-32 | in a row with distinct keys, every field's key reads back that field's own cell |
| ExcelProcessor.RawChange | src/services/excelProcessor.ts:30-34 | the unrounded change is 0 without a previous row, with a non-numeric previous value, or with a zero previous value (the non-zero case is stated in `ChangeAgainstPrevious`) |
| ExcelProcessor.NoChangeIffEqual | src/services/excelProcessor.ts:33 | against a non-zero previous value, the percentage change is 0 exactly when the last value equals it |
| ExcelProcessor.Hundredths | src/services/excelProcessor.ts:39 | `toFixed(2)` as an integer count of hundredths: the nearest one, a half rounded away from zero |
| ExcelProcessor.ToFixed2 | src/services/excelProcessor.ts:39 | the rounded change is within 0.005 of the exact one; it is positive or negative only if the exact one is; it is zero exactly when the exact one lies strictly between -0.005 and 0.005; it is a whole number of hundredths |
| ExcelProcessor.TrendOf | src/services/excelProcessor.ts:40 | the trend is up exactly when the change is positive, down exactly when it is negative, neutral exactly when it is 0 |
| ExcelProcessor.KpiFor | src/services/excelProcessor.ts:36-38 | a KPI's name is its column key and its value is the formatted last-row number |
| ExcelProcessor.Emitted | src/services/excelProcessor.ts:27-43 | at most one KPI per column of the last row (the full statement, one per numeric column in column order, is `EmittedPerNumericColumn`) |
| ExcelProcessor.EmitKpis | src/services/excelProcessor.ts:25-43 | the loop over the last row's columns builds exactly the KPI list `Emitted` |
| ExcelProcessor.NumericPositionsExact | src/services/excelProcessor.ts:27-29 | the positions considered are exactly the numeric cells of the last row, strictly increasing |
| ExcelProcessor.EmittedPerNumericColumn | src/services/excelProcessor.ts:27-43 | one KPI per numeric column of the last row, in column order: the i-th KPI is the KPI of the i-th numeric column; keys found only in the previous row yield nothing |
| ExcelProcessor.NoKpiIffNoNumber | src/services/excelProcessor.ts:27-43 | the KPI list is empty exactly when no cell of the last row is a number |
| ExcelProcessor.ChangeAgainstPrevious | src/services/excelProcessor.ts:30-40 | change 0 and trend neutral without a previous row, with a non-numeric previous value, or with a zero previous value; otherwise the change is (last - prev) / prev * 100 rounded, trend up or down by the sign of the unrounded change, neutral exactly when the values are equal |
| ExcelProcessor.TrendAgreesWithChange | src/services/excelProcessor.ts:39-40 | a positive stored change means trend up and a negative one trend down; trend up means a change of at least 0, down at most 0, neutral exactly 0 |
| ExcelProcessor.Reduce | src/services/excelProcessor.ts:46 | the fold returns the seed or a KPI of the list, with an absolute change at least that of the seed and of every KPI of the list (which maximum it picks is `ReduceFindsLastMaximum`) |
| ExcelProcessor.ReduceFindsLastMaximum | src/services/excelProcessor.ts:46 | the fold seeded with the first KPI returns a KPI of the list with maximal absolute change, after which every KPI has a strictly smaller one (the latest maximum) |
| ExcelProcessor.ReduceIsLastMaximum | src/services/excelProcessor.ts:46 | any position holding the latest maximum of a non-empty KPI list is the KPI the fold returns |
| ExcelProcessor.ReportOf | src/services/excelProcessor.ts:18-58 | no rows give the empty record and only no rows do; a filled report has between one and four KPIs and the fixed summary and conclusion |
| ExcelProcessor.ReportShape | src/services/excelProcessor.ts:46-57 | for non-empty rows whose KPI list has its latest maximum at t, the report is the first min(4, n) KPIs, the analysis of KPI t, and the fixed summary and conclusion |
| ExcelProcessor.ReportFailsIffNoNumber | src/services/excelProcessor.ts:46-48 | generation fails exactly when there are rows and no cell of the last one is a number |
| ExcelProcessor.ReportKpis | src/services/excelProcessor.ts:53 | the report's KPIs are the first min(4, n) of the n KPIs of the numeric columns, in column order |
| ExcelProcessor.SingleRowIsNeutral | src/services/excelProcessor.ts:23-34 | with a single row every KPI has change 0 and trend neutral |
| ExcelProcessor.Wording | src/services/excelProcessor.ts:48 | the trend reads as "positiva" exactly when it is up; neutral and down both read as "a la baja" |
| ExcelProcessor.Fill | src/services/excelProcessor.ts:48 | the analysis template: it opens with the fixed opening, the trend's wording and " liderada por ", then the KPI's name, then ", que registró una variación del ", and it ends with the change text followed by "%."; nothing else is in it |
| ExcelProcessor.AnalysisNamesTopMover | src/services/excelProcessor.ts:46-48 | the analysis (`Analysis`, the template `Fill` applied to the top mover) is that of the latest KPI of maximal absolute change in the full, uncut list |
| ExcelProcessor.SingleRowNamesLastColumn | src/services/excelProcessor.ts:46-48 | with a single row all changes tie at 0, so the analysis names the last numeric column |
| ExcelProcessor.ChangeTextExact | src/services/excelProcessor.ts:48 | the change text interpolated into the analysis (`ChangeText`) reads back as exactly the stored change |
| Decimal.Unsigned | src/services/excelProcessor.ts:48 | the text of m hundredths (m >= 0) starts with a digit, is in canonical form, and is "0" exactly when m is 0 |
| Decimal.Text | src/services/excelProcessor.ts:48 | the interpolated text of a number of hundredths is non-empty, in the canonical form JavaScript writes a number in (no leading zeros, a fraction of one or two digits without a trailing zero, no "-0"), and starts with '-' exactly when the number is negative |
| Decimal.ParseText | src/services/excelProcessor.ts:48 | the text of h hundredths parses back to exactly h / 100 |
| ReportExamples.MixedColumns | src/services/excelProcessor.ts:27-41 | previous {A: 100, B: text}, last {A: 150, B: text, C: 50}: A gets change 50 and trend up, B yields no KPI, C gets change 0 and trend neutral, and A is the top mover |
| ReportExamples.ZeroPreviousValue | src/services/excelProcessor.ts:33 | a previous value of 0 gives change 0 and trend neutral |
| ReportExamples.TinyChangeKeepsTrend | src/services/excelProcessor.ts:39-40 | a 0.001% rise is stored as change 0 with trend up |
| ReportExamples.NegativeBaseInvertsTrend | src/services/excelProcessor.ts:33 | a rise from -100 to -50 gives change -50 and trend down |
| ReportExamples.TieGoesToLaterKpi | src/services/excelProcessor.ts:46 | changes +10 and -10 tie, and the analysis names the later KPI |
| ReportExamples.TopMoverOutsideShownKpis | src/services/excelProcessor.ts:46-53 | with five numeric columns, the report is exactly the first four KPIs with the analysis of the fifth, which is not among them |
| DriveService.IdEnd | src/services/driveService.ts:10 | the id run is made of id characters and is maximal: it ends at the end of the link or before a character outside the class |
| DriveService.FirstMatch | src/services/driveService.ts:10 | the match found is a `/d/` followed by an id character, with no such match further left; none found means none anywhere |
| DriveService.ConvertToDownloadUrl | src/services/driveService.ts:8-15 | the empty link converts to the empty string |
| DriveService.GetImageUrl | src/services/driveService.ts:34-36 | the image link is the download prefix followed by the id, and nothing else |
| DriveService.ConvertFound | src/services/driveService.ts:10-12 | when the scanner finds a match at p, the run after `/d/` is non-empty, made of id characters, and the result is its download link |
| DriveService.ConvertMatched | src/services/driveService.ts:10-12 | when the leftmost match is at p, the result is the download link for the maximal non-empty run of id characters after that `/d/` |
| DriveService.ConvertUnmatched | src/services/driveService.ts:14 | a link without a match is returned unchanged |
| DriveService.ConvertChangedOnlyOnMatch | src/services/driveService.ts:10-14 | a link that changes had a match and became the download link of a non-empty id |
| DriveService.DownloadUrlHasNoMatch | src/services/driveService.ts:12 | the download link of an id made of id characters contains no `/d/` followed by an id character |
| DriveService.ConvertIdempotent | src/services/driveService.ts:8-15 | converting a converted link changes nothing |
| DriveService.ImageUrlIsConverted | src/services/driveService.ts:34-36 | the image link of an id made of id characters converts to itself |
| DriveService.SharingLinkConverts | src/services/driveService.ts:10-12 | `https://drive.google.com/file/d/<id>` followed by anything that does not continue the id converts to the image link of that id |

## Left out

- Spreadsheet decoding (`parseExcel`, src/services/excelProcessor.ts:8-13) is not modelled: it belongs to an external workbook library. Rows enter the model already decoded.
- Fetching through a CORS proxy (`fetchWithCORS`, src/services/driveService.ts:20-29) is network I/O and is not modelled.
- PDF export (src/services/exportService.ts), the page component (src/App.tsx) and the report view (src/components/Newsletter.tsx) are DOM, React state and third-party rendering, and are not part of this model. Neither is the page's merge of the generated fields into its own state.
- Numbers are exact reals, not binary doubles. `toFixed(2)` rounds the exact value, so a double such as 1.005, stored just below 1.005, would round the other way. NaN, infinities and negative zero are not modelled.
- `toLocaleString` is the `format` parameter, since its output depends on the locale.
- Decimal.Text: it gives the plain decimal form only. JavaScript writes a number of absolute value 1e21 or more in exponent form, and the model does not.
- The enumeration order of a row's keys is taken as given. JavaScript lists integer-like keys first, in ascending order, and the model does not reorder them.
