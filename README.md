# ExcelValidator validation core in Dafny

ExcelValidator reads a spreadsheet, checks every row against a per-sheet rule
set, and stores the rows that pass. It also offers a stricter, hard-coded
checker for uploaded JSON rows, a batched import, and a paginated listing.
This project models the logic behind those features and proves properties
about it:

- **The rule registry** (`ValidationConfig`). It holds the `default` and
  `specialSheet` rule sets as constant values, lists their columns in
  declaration order, and defines the two date-window predicates and the
  "yes" transform. The current date is a parameter.
- **The rule-driven engine** (`FileValidationService`):
  - `validateSheet`, `validateRow` and `transformRow` are loop methods. Each is
    proved equal to a recursive specification function (`SheetReportOf`,
    `RowErrors`, `Transformed`).
  - `validateValue` is a function.
  - Lemmas over the specifications prove:
    - each row lands on exactly one side: it either yields errors or one
      transformed record (the partition);
    - errors appear in row order, then in column order (`SheetErrorsInOrder`);
    - the key set of a transformed record;
    - the exact conditions under which each check throws.
- **The route handlers** (`FileRoutes`):
  - `/validate`: the hard-coded checker, with the date pattern's round trip,
    the calendar check and the January 2025 window.
  - `/import`: the loop that sends batches of 100 records.
  - `/records`: the page, offset and page-count arithmetic.

Cells are strings, numbers (`real`) or booleans. A row maps column headers to
cells, and a header without a key stands for `undefined`.

The host's coercions do not have a model of their own; they are function
fields of a `Host` value:

- `Number(s)` on a string;
- `parseFloat(s)`;
- `new Date(value)`.

The repository's own code decides everything else, including three
exceptions:

- A boolean rule calls `value.toLowerCase()` on a number.
- The yes-transform is applied to a non-string.
- A sheet named after an `Object.prototype` member, such as `constructor`,
  makes `rules.columns` undefined, so `Object.entries` throws when the sheet
  has a row. With no rows the report is valid and empty.

The engine returns each of these as an `Err(Fault)`.

JavaScript's `new Date(year, monthIndex, day)` normalises out-of-range
months and days. The model reproduces that on calendar dates (`Calendar.NewDate`):

- `/validate`'s round-trip check rejects 31.02.25 because its date rolls
  over into March.
- `new Date(y, m + 1, 0)` is the last day of month `m`.
- `setMonth(month - 1)` on the 31st of a month after a 30-day month lands
  in the current month.

Where the code and its own fixture disagree, the model follows the code.
backend/createTestFile.js:39 labels an amount of 0 "must be greater than
zero", but the handler reports it as "Amount is required"
(`FileRoutes.AmountOutcomes`).

## Model

| member | source | states |
|---|---|---|
| Text.NatToString | backend/routes/fileRoutes.js:142 | `${rowNum}` for a row number: a non-empty digit string with no leading zero except for 0; read back by NatToStringRoundTrip |
| Text.IntToString | backend/services/fileValidationService.js:79 | `${rule.min}`: a leading '-' exactly for a negative integer, digits otherwise; its value is stated by IntToStringValue |
| Text.IntToStringValue | backend/services/fileValidationService.js:79 | the numeral of `${rule.min}` reads back as the magnitude of min, after a '-' exactly when min is negative |
| Text.NatToStringInjective | backend/routes/fileRoutes.js:142 | two row numbers share a numeral only when they are equal |
| Text.ToLower | backend/services/fileValidationService.js:90 | `toLowerCase()`: the same length; its yes and no outcomes are stated by LowerIsYes and LowerIsNo (also used at backend/config/validationConfig.js:32) |
| Text.Join | backend/routes/fileRoutes.js:125 | `Array.prototype.join` over strings: "" for none, the element itself for one, otherwise the separator between consecutive elements; used in the reply that MissingColumnsShortCircuit states |
| Text.NatToStringRoundTrip | backend/routes/fileRoutes.js:138-142 | reading back the decimal numeral of a row number gives the number |
| Text.LowerIsYes | backend/config/validationConfig.js:32 | `toLowerCase() === 'yes'` holds for exactly the eight case spellings of yes |
| Text.LowerIsNo | backend/services/fileValidationService.js:90 | lower-casing gives `no` for exactly the four case spellings of no |
| Calendar.DayStepsInverse | backend/routes/fileRoutes.js:167 | the next-day and previous-day steps that normalise an out-of-range day number undo each other |
| Calendar.NextDayIsSuccessor | backend/routes/fileRoutes.js:167 | the next-day step skips no calendar day, so counting days from the first of a month reaches every date |
| Calendar.NewDate | backend/routes/fileRoutes.js:167 | `new Date(y, mi, d)` on calendar days; stated by Calendar.NewDateRoundTrip and Calendar.NewDateDayZero |
| Calendar.NewDateRoundTrip | backend/routes/fileRoutes.js:167-173 | `new Date(y, m - 1, d)` has day d, month m and year y exactly when (y, m, d) is a calendar date |
| Calendar.NewDateDayZero | backend/routes/fileRoutes.js:134 | day 0 of the following month is the last day of month m |
| ValidationConfig.DefaultRuleSet | backend/config/validationConfig.js:2-36 | `default` is registered with columns Name, Amount, Date, Verified in that order; the first three are required; fields name/amount/date/verified; Amount has min 0; Date's message |
| ValidationConfig.SpecialSheetRuleSet | backend/config/validationConfig.js:38-75 | `specialSheet` column order; Invoice Date feeds `date` and is required; Receipt Date feeds `receiptDate`, is optional and has no predicate; Verified is the same rule as in default |
| ValidationConfig.RegistryWellFormed | backend/config/validationConfig.js:1-76 | every registered rule set has distinct column names and distinct output fields |
| ValidationConfig.RegistryOwnNames | backend/services/fileValidationService.js:23 | no registered sheet name is an inherited `Object.prototype` member |
| ValidationConfig.PrecedingMonth | backend/config/validationConfig.js:57 | the month before (y, m) is a month whose following month is (y, m) |
| ValidationConfig.LastMonth | backend/config/validationConfig.js:57 | `new Date(now.setMonth(now.getMonth() - 1))`; stated by LastMonthSameDay, LastMonthOverflow and LastMonthBeforeNow |
| ValidationConfig.Accepts | backend/config/validationConfig.js:18-59 | the two date predicates; stated by SameMonthWindow and NotBeforeLastMonthBoundary |
| ValidationConfig.LastMonthSameDay | backend/config/validationConfig.js:57 | when the day exists one month back, `setMonth(getMonth() - 1)` lands on it |
| ValidationConfig.LastMonthOverflow | backend/config/validationConfig.js:57 | when it does not, the surplus days carry into the current month |
| ValidationConfig.LastMonthBeforeNow | backend/config/validationConfig.js:57-58 | the shifted date is always strictly before now |
| ValidationConfig.SameMonthWindow | backend/config/validationConfig.js:18-25 | the default Date predicate holds exactly from the first to the last day of now's month |
| ValidationConfig.NotBeforeLastMonthBoundary | backend/config/validationConfig.js:54-59 | the Invoice Date predicate accepts now and the shifted date, and rejects the day before the shifted date |
| ValidationConfig.ApplyTransform | backend/config/validationConfig.js:32 | the transform succeeds exactly on strings; `value?.toLowerCase()` throws on a number or boolean |
| ValidationConfig.YesToTrueMeaning | backend/config/validationConfig.js:32 | the transform yields true exactly for yes in any case; both rule sets use it for Verified (line 71) |
| FileValidationService.ResolveColumns | backend/services/fileValidationService.js:23 | a registered name gets its own columns; an inherited member name gets none; any other name gets `default`'s columns |
| FileValidationService.ValidateValue | backend/services/fileValidationService.js:74-96 | the check throws exactly when a boolean rule meets a number |
| FileValidationService.ColumnError | backend/services/fileValidationService.js:48-68 | one column's outcome: "is required", the type check of a present value, or nothing; its cases are stated by MissingColumn, NumberRule, DateRule, BooleanRule and UncheckedKinds |
| FileValidationService.FailureMessage | backend/services/fileValidationService.js:86 | `errorMessage` when it is set and non-empty, else "`<col>` validation failed"; stated by DateRule |
| FileValidationService.RowErrors | backend/services/fileValidationService.js:44-72 | at most as many errors as columns, each carrying the row number and a column of the rule set |
| FileValidationService.RowErrorsMessages | backend/services/fileValidationService.js:47-69 | every column whose check yields a message contributes that message, and every error is the message its column's check yields |
| FileValidationService.RowErrorMessage | backend/services/fileValidationService.js:47-69 | with distinct column names, (row, column j, m) is an error of the row exactly when column j's check yields m |
| FileValidationService.RowErrorsEmpty | backend/services/fileValidationService.js:44-72 | a row has no errors exactly when every column passes its rule |
| FileValidationService.RowErrorsFault | backend/services/fileValidationService.js:47-68 | a row's check throws exactly when some column's check throws |
| FileValidationService.RowErrorsInColumnOrder | backend/services/fileValidationService.js:47-69 | a row's errors follow the rule-declaration order of their columns, with no column twice |
| FileValidationService.ValidateRow | backend/services/fileValidationService.js:44-72 | the `for…of` loop with `continue` computes exactly RowErrors, including its exception |
| FileValidationService.FieldValue | backend/services/fileValidationService.js:104-108 | a present column's value, transformed when the rule has a transform; stated by TransformedValues |
| FileValidationService.Transformed | backend/services/fileValidationService.js:98-113 | the record `transformRow` builds; stated by TransformedKeys, TransformedValues and TransformedFault |
| FileValidationService.TransformedKeys | backend/services/fileValidationService.js:98-113 | the record's keys are exactly the fields of the present columns |
| FileValidationService.TransformedValues | backend/services/fileValidationService.js:101-109 | with distinct fields, each present column's field holds its transformed or raw value |
| FileValidationService.TransformedFault | backend/services/fileValidationService.js:101-110 | transforming throws exactly when some present column's transform throws |
| FileValidationService.TransformRow | backend/services/fileValidationService.js:98-113 | the key-assigning loop computes exactly Transformed |
| FileValidationService.Collect | backend/services/fileValidationService.js:27-34 | the errors and records the `forEach` accumulates; stated by the Collect lemmas below |
| FileValidationService.CollectRow | backend/services/fileValidationService.js:28-33 | one callback: a row with errors appends them, one without appends its record; stated by CollectPrefix and the Collect lemmas below |
| FileValidationService.SheetReportOf | backend/services/fileValidationService.js:22-42 | `valid` holds exactly when `errors` is empty; `totalRows` is the number of rows; no rows give a valid empty report |
| FileValidationService.ValidateSheet | backend/services/fileValidationService.js:22-42 | the `forEach` computes exactly SheetReportOf, including its exceptions |
| FileValidationService.CollectPartition | backend/services/fileValidationService.js:27-34 | valid records plus failing rows equal all rows; the valid records are the passing rows' records, in input order |
| FileValidationService.CollectErrorLines | backend/services/fileValidationService.js:28-30 | every error's row is an index + 2 of a row with a failing column |
| FileValidationService.CollectErrorOrder | backend/services/fileValidationService.js:27-34 | error row numbers never decrease |
| FileValidationService.CollectSheetOrder | backend/services/fileValidationService.js:27-34 | with distinct column names, errors are ordered by row and, within a row, by the declaration position of their column |
| FileValidationService.SheetErrorsInOrder | backend/services/fileValidationService.js:22-42 | the report's errors are in row order, then in the column order of the sheet's rule set |
| FileValidationService.CollectReportsFailingRows | backend/services/fileValidationService.js:28-30 | every row with a failing column has an error in the report |
| FileValidationService.CollectIncludesRow | backend/services/fileValidationService.js:27-30 | every error of every row is in the report |
| FileValidationService.CollectErrorOrigin | backend/services/fileValidationService.js:27-30 | every error of the report is an error of the row on its line |
| FileValidationService.CollectColumnError | backend/services/fileValidationService.js:27-68 | a column whose check yields m puts (index + 2, column, m) in the report |
| FileValidationService.CollectErrorCause | backend/services/fileValidationService.js:27-68 | every error of the report is the message of some column of the row on its line |
| FileValidationService.CollectMissingRequired | backend/services/fileValidationService.js:28-57 | a row lacking a required column gets "`<col>` is required" on its line and is not among the passing rows |
| FileValidationService.CollectFault | backend/services/fileValidationService.js:27-34 | the sheet's check throws exactly when some row's check throws, or an error-free row's transform throws |
| FileValidationService.MissingColumn | backend/services/fileValidationService.js:50-61 | an absent or empty required column gets exactly "`<col>` is required" with no type check; an absent optional column gets nothing |
| FileValidationService.NumberRule | backend/services/fileValidationService.js:76-81 | a non-number gives "must be a number"; with a min, a value passes exactly when it is at least min, and fails below with "must be greater than `<min>`" |
| FileValidationService.UncheckedKinds | backend/services/fileValidationService.js:75-95 | string rules and types without a case accept every present value |
| FileValidationService.BooleanRule | backend/services/fileValidationService.js:89-93 | a boolean passes; a string passes exactly when it is yes or no in any case, otherwise "must be Yes or No"; a number throws |
| FileValidationService.DateRule | backend/services/fileValidationService.js:82-88 | an unparseable value gives "must be a valid date"; a failing predicate gives the rule's message or "validation failed" |
| FileValidationService.ZeroAmountPasses | backend/services/fileValidationService.js:76-81 | with the registry's `min: 0`, 0 passes and -0.5 fails with "must be greater than 0" |
| FileValidationService.UnknownSheetUsesDefault | backend/services/fileValidationService.js:23 | a sheet name neither registered nor inherited is checked exactly as `default` |
| FileRoutes.MissingColumns | backend/routes/fileRoutes.js:116-120 | the missing columns are exactly the required ones absent from the first row, in the fixed order |
| FileRoutes.StartOfMonth | backend/routes/fileRoutes.js:133 | `new Date(currentYear, currentMonth, 1)`; stated by MonthWindow |
| FileRoutes.EndOfMonth | backend/routes/fileRoutes.js:134 | `new Date(currentYear, currentMonth + 1, 0)`; stated by MonthWindow |
| FileRoutes.MonthWindow | backend/routes/fileRoutes.js:130-134 | the window runs from 1 January 2025 to 31 January 2025 |
| FileRoutes.NameMessage | backend/routes/fileRoutes.js:141-143 | the Name check; stated by ValidateSuccess and CleanRow |
| FileRoutes.AmountMessage | backend/routes/fileRoutes.js:146-152 | the Amount chain; stated by AmountOutcomes |
| FileRoutes.MatchDate | backend/routes/fileRoutes.js:159-160 | the DD.MM.YY pattern with its groups read as numbers; stated by FormatThenMatch and MatchThenFormat |
| FileRoutes.MatchDateCell | backend/routes/fileRoutes.js:158-160 | the pattern applied to `toString()` of a cell; stated by DateAccepted and DateFormatExamples |
| FileRoutes.FormatThenMatch | backend/routes/fileRoutes.js:158-165 | the DD.MM.YY pattern matches every two-digit formatted triple and reads back its day, month and year |
| FileRoutes.MatchThenFormat | backend/routes/fileRoutes.js:158-165 | a string the pattern matches is the format of the triple it reads |
| FileRoutes.TripleMessage | backend/routes/fileRoutes.js:165-179 | the round trip and window checks of a matched triple; stated by TripleRoundTrip, TripleOutsideWindow and TripleAccepted |
| FileRoutes.DateMessage | backend/routes/fileRoutes.js:155-181 | the Date checks; stated by DateOutcomes, DateAccepted and the date examples below |
| FileRoutes.DateOutcomes | backend/routes/fileRoutes.js:155-181 | a falsy Date gets "Date is required"; any truthy value the pattern does not match gets the DD.MM.YY format message; a matched value gets its triple's message |
| FileRoutes.TripleOutsideWindow | backend/routes/fileRoutes.js:165-179 | a matched triple gets the window message exactly when it is a calendar day outside January 2025 |
| FileRoutes.VerifiedMessage | backend/routes/fileRoutes.js:184-186 | the Verified check; stated by VerifiedCaseSensitive |
| FileRoutes.RowMessages | backend/routes/fileRoutes.js:137-187 | one row's messages in check order; stated by RowMessagesNumbered, CheckRow and CleanRow |
| FileRoutes.AllMessages | backend/routes/fileRoutes.js:137-187 | all rows' messages; stated by AllMessagesOfRows, MessageRowNumbers and AllMessagesEmpty |
| FileRoutes.TripleRoundTrip | backend/routes/fileRoutes.js:166-175 | a matched triple gets "Invalid date value" exactly when it is not a calendar date |
| FileRoutes.TripleAccepted | backend/routes/fileRoutes.js:166-179 | a matched triple passes exactly when it is a day of January 2025 |
| FileRoutes.ValidateReplyOf | backend/routes/fileRoutes.js:107-127 | no data gives the 400 reply, and only then; `success` holds exactly when `errors` is empty (lines 189-200) |
| FileRoutes.CheckRow | backend/routes/fileRoutes.js:137-187 | one `forEach` iteration appends exactly the row's messages |
| FileRoutes.ValidateData | backend/routes/fileRoutes.js:103-200 | the handler body computes exactly ValidateReplyOf |
| FileRoutes.MissingColumnsShortCircuit | backend/routes/fileRoutes.js:118-127 | missing columns give one error listing them in fixed order; no row is checked, so the reply depends on the first row alone |
| FileRoutes.ColumnsCheckedOnFirstRowOnly | backend/routes/fileRoutes.js:119-120 | once the first row has the four keys, later rows are checked row by row, whatever keys they have |
| FileRoutes.RowPrefix | backend/routes/fileRoutes.js:142-185 | the `Row ${rowNum}: ` prefix; stated by RowPrefixRoundTrip |
| FileRoutes.RowPrefixRoundTrip | backend/routes/fileRoutes.js:138-142 | the row number can be read back from every message |
| FileRoutes.RowMessagesNumbered | backend/routes/fileRoutes.js:137-186 | a row yields at most four messages, each carrying its row number |
| FileRoutes.MessageRowNumbers | backend/routes/fileRoutes.js:137-187 | every message carries a row number from 1 to the number of rows, in nondecreasing order |
| FileRoutes.ValidateSuccess | backend/routes/fileRoutes.js:115-200 | `success` holds exactly when there is data, the first row has the four columns, and every row passes all four checks |
| FileRoutes.AllMessagesEmpty | backend/routes/fileRoutes.js:137-189 | no messages exactly when every row passes all four checks |
| Cells.Get | backend/routes/fileRoutes.js:141-184 | `row[column]`, `undefined` when the key is absent (also backend/services/fileValidationService.js:48 and 102); stated through MissingColumn and CleanRow |
| Cells.Present | backend/services/fileValidationService.js:50-59 | `value !== undefined && value !== ''` (also line 103); stated by MissingColumn and TransformedKeys |
| Cells.Truthy | backend/routes/fileRoutes.js:141-186 | JavaScript truthiness of a cell; stated through AmountOutcomes, VerifiedCaseSensitive and ValidateSuccess |
| Cells.NumberOf | backend/routes/fileRoutes.js:148 | `Number(value)` as `isNaN` uses it; stated through AmountOutcomes |
| Cells.ParseFloat | backend/routes/fileRoutes.js:150 | `parseFloat(value)`; stated through AmountOutcomes |
| FileRoutes.AmountOutcomes | backend/routes/fileRoutes.js:145-152 | absent, '', 0 or `false` gives "required"; a negative number "greater than zero"; a positive number nothing; a string `Number` cannot read "must be a number"; a string it can read gets "greater than zero" when `parseFloat` gives at most 0, and nothing when `parseFloat` gives a positive value or NaN; `true` nothing (parseFloat is NaN) |
| FileRoutes.DateAccepted | backend/routes/fileRoutes.js:154-181 | a Date string passes exactly when it is DD.01.25 with DD from 01 to 31 |
| FileRoutes.LastDayOfJanuaryAccepted | backend/routes/fileRoutes.js:177-179 | 31.01.25 passes: the last day is inside the window |
| FileRoutes.FirstOfFebruaryOutsideWindow | backend/routes/fileRoutes.js:177-179 | 01.02.25 gives the window message |
| FileRoutes.ThirtyFirstOfFebruaryInvalid | backend/routes/fileRoutes.js:167-175 | 31.02.25 gives "Invalid date value" |
| FileRoutes.DateFormatExamples | backend/routes/fileRoutes.js:158-163 | an ISO date string and a number give the format message |
| FileRoutes.VerifiedCaseSensitive | backend/routes/fileRoutes.js:184-186 | Verified passes exactly when falsy or exactly "Yes" or "No"; "yes" fails |
| FileRoutes.CleanRow | backend/routes/fileRoutes.js:137-187 | a row with a truthy name, a positive amount, a January 2025 date written DD.01.25 and Verified Yes or No yields no message |
| FileRoutes.AllMessagesOfRows | backend/routes/fileRoutes.js:137-187 | the messages are the rows' own messages concatenated in row order |
| FileRoutes.WithSheetName | backend/routes/fileRoutes.js:224-227 | one record per input record, holding its fields plus `sheetName` set to the given value |
| FileRoutes.Batches | backend/routes/fileRoutes.js:233-234 | every batch holds 1 to `size` records |
| FileRoutes.BatchesCover | backend/routes/fileRoutes.js:233-234 | the batches concatenate back to the records, in order |
| FileRoutes.BatchesAreSlices | backend/routes/fileRoutes.js:233-234 | batch k is the slice from k × size, and every batch but the last is full |
| FileRoutes.BatchesCount | backend/routes/fileRoutes.js:230-234 | there are ⌈n / size⌉ batches |
| FileRoutes.ImportRecords | backend/routes/fileRoutes.js:212-246 | no records give the 400 reply; otherwise `bulkCreate` receives exactly Batches of the tagged records, `imported` counts its results and `total` the records |
| FileRoutes.ImportedIsSum | backend/routes/fileRoutes.js:235-243 | `imported` is the sum of the batch results' sizes |
| FileRoutes.ImportedAll | backend/routes/fileRoutes.js:233-244 | when `bulkCreate` stores every record it is given, `imported` equals `total` |
| FileRoutes.CeilDiv | backend/routes/fileRoutes.js:302 | `Math.ceil(a / b)` is the q with (q − 1)·b < a ≤ q·b, or the mirrored bound for negative b |
| FileRoutes.IntOr | backend/routes/fileRoutes.js:286-287 | `parseInt(x) \|\| d`: a non-zero parsed value is used as given; NaN or 0 gives the default |
| FileRoutes.PagingOf | backend/routes/fileRoutes.js:286-288 | page and limit are never 0; a non-zero parameter is used as given, an absent (NaN) or 0 one gives 1 and 10; the offset is (page − 1) · limit |
| FileRoutes.PageInfoOf | backend/routes/fileRoutes.js:300-304 | the `pagination` object; its page count is stated by TotalPagesCover |
| FileRoutes.WindowOfIndex | backend/routes/fileRoutes.js:288 | the offset is non-negative, and index j lies in page p's window exactly when j / limit = p − 1 |
| FileRoutes.PageWindow | backend/routes/fileRoutes.js:286-294 | for positive page and limit, consecutive pages tile the record order |
| FileRoutes.TotalPagesCover | backend/routes/fileRoutes.js:302 | `totalPages` is the fewest pages holding all records, and it is 0 exactly when there are none |
| FileRoutes.PagingDefaults | backend/routes/fileRoutes.js:286-288 | no parameters, or zeros, give page 1 of 10 at offset 0; page 3 starts at offset 20 |

## Left out

- HTTP plumbing: Express routing, status codes, the `auth` middleware, multer uploads and the JSON `message`/`sheetName` fields. `sheetName` comes from the global `app.locals.excelData`, which is not modelled.
- Reading and writing workbooks with xlsx (`validateFile`, exports), the React front end, authentication and server bootstrap: these are foreign libraries and I/O.
- Sequelize: `bulkCreate` is a total function parameter that cannot fail, and the model says nothing about what `findAndCountAll` does with a negative limit or offset. A failing `bulkCreate` (the 400 reply) is not modelled.
- JavaScript's `Number`, `parseFloat` and `new Date(value)` on strings are host functions passed in as parameters. Their parsing is not reproduced.
- The ambient clock of the registry's predicates is the parameter `now`.
- ValidationConfig.Accepts: compares calendar days, not instants. The source compares `inputDate >= lastMonth`, which includes now's time of day, so a date on the shifted day itself can fail there when it is earlier in the day. Time-zone and daylight-saving effects are also left out.
- FileValidationService.ValidateValue: `rule.min` is an integer; the registry only uses 0. A fractional `min` and its numeral are not modelled.
- Text.LowerChar: lower-cases only A to Z; non-ASCII case mappings are not modelled.
- Cells carry only strings, numbers and booleans. JSON `null`, arrays and objects as cell values, and non-object rows (where `row[...]` or `in` would throw), are not modelled.
- FileRoutes.DateMessage: the `isNaN(date.getTime())` test is omitted, because a date built from three two-digit integers is never invalid.
- FileRoutes.ImportRecords: `sheetName` is one cell value. A request without it would store `undefined`, which is not modelled.
- Floating point: amounts are exact reals. `page`, `limit` and `offset` are exact integers: JavaScript computes `(page - 1) * limit` in doubles, which round once the product exceeds 2^53, and `parseInt` of a numeral longer than 15 or 16 digits already rounds. `Math.ceil(count / limit)` is exact integer ceiling division (it can differ only for counts beyond 2^53). FileRoutes.PagingOf, FileRoutes.WindowOfIndex and FileRoutes.PageWindow state the exact products.
