# Issue log store of the Testing Issue Tracker

The Testing Issue Tracker is a single-page form for logging issues found
during user-acceptance testing. Its data is one table held in the session,
the issue log. Each row has the columns Delete, Status, Time Found, Issue
Description, Category, Severity and Time Resolved. This project models that
table and every operation that changes or reads it:

- a new session starts with an empty table;
- "Submit Issue" appends one open row, but only when the description is not empty;
- the four summary cards count Total, Pending (Total minus Resolved), Resolved and Critical / High;
- committing the table editor's result drops the rows flagged Delete, then
  reconciles Time Resolved with Status row by row. A closed row without a
  time gets the clock reading, and an open row with a time loses it;
- an uploaded sheet is refused with "Invalid file format." unless it has all
  six data columns. A sheet that has them and already has a Delete column
  fails silently, because adding the Delete flag column raises an error that
  is swallowed. Otherwise Status "Closed" becomes true and anything else
  false, every row gets Delete = false, and a missing Time Resolved becomes
  "". The rows replace the table only when "Load Data" is pressed;
- export drops Delete, writes Status as "Closed"/"Open", and names the file
  `UAT_Log_<time>.xlsx` with ':' turned into '-' and ' ' into '_'. It is
  offered only while the table is not empty.

Files: `wrappers.dfy` (Option, Result), `issues.dfy` (the row, the delete
filter, the reconciliation), `metrics.dfy` (the counts), `spreadsheet.dfy`
(the import and export mappings and the file name) and `store.dfy` (the
`IssueLog` class, whose `rows` field is the session table).

The clock (`get_wib_time`, app.py:34-36) is a parameter `now`. Where it
matters, `now` must be non-empty, which the real clock's
"YYYY-MM-DD HH:MM" format guarantees. A spreadsheet is its header plus rows
of cells, and a missing cell is `None`. Issue Description, Category and
Severity stay possibly-missing cells in the stored row, because import
leaves them as missing values. Time Found is turned into text on import, so
a missing one reads as "nan". Time Resolved is filled with "".

Three points of the code's behaviour that are easy to get wrong:
- The commit reconciles every surviving row, not only rows whose Status was
  toggled (app.py:237-241). So an imported row that is closed without a
  time, or open with one, is repaired at the next commit.
- "Time Resolved is non-empty iff closed" holds after a commit (`Reconcile`
  ensures it) and for submitted rows, not necessarily for imported rows.
- Category and Severity are free text: the table keeps whatever the form or
  the sheet supplies.

## Model

| member | source | states |
|---|---|---|
| `IssueStore.IssueLog.constructor` | app.py:102-105 | a new session's table is empty |
| `IssueStore.IssueLog.Submit` | app.py:166-173 | appends exactly one row, at the end, iff the description is non-empty; the row has Delete=false, Status=false, Time Found=now, Time Resolved="", the given description, category and severity; earlier rows untouched; an empty description leaves the table unchanged |
| `Metrics.CountClosed` | app.py:181 | the number of closed rows is at most the number of rows |
| `Metrics.CountOpen` | app.py:182 | the number of open rows is at most the number of rows |
| `Metrics.CountHighOrCritical` | app.py:183 | the number of High/Critical rows is at most the number of rows |
| `Metrics.Summarize` | app.py:180-183 | Total is the row count, Pending + Resolved = Total, Resolved <= Total and Critical/High <= Total |
| `Metrics.PendingCountsOpen` | app.py:182 | Pending, computed as Total minus Resolved, equals the number of open rows |
| `Metrics.SummarizeAppend` | app.py:180-183 | appending a row adds one to Total, one to Pending or Resolved by its Status, and one to Critical/High iff its severity is High or Critical |
| `Metrics.ReconcileKeepsSummary` | app.py:180-183 | reconciling resolution times changes none of the four counts |
| `Issues.KeepUndeleted` | app.py:236 | the kept rows are no more than the input and none is flagged Delete |
| `Issues.KeepUndeletedExact` | app.py:236 | the filter is exact and keeps order: the k-th kept row is the input row at the k-th surviving position, positions strictly increase, and a position survives iff its row is not flagged |
| `Issues.KeepUndeletedUnflagged` | app.py:236 | with no row flagged the filter returns the table unchanged |
| `Issues.ReconcileRow` | app.py:237-241 | the reconciled row is consistent (closed iff Time Resolved non-empty), differs from the input only in Time Resolved, keeps an existing time of a closed row, and stamps `now` on a closed row without one |
| `Issues.Reconcile` | app.py:237-241 | same length as the input and every row consistent |
| `Issues.ReconcileRowwise` | app.py:237-241 | row i of the output is row i of the input reconciled |
| `Issues.ReconcileOnlyResolvedTime` | app.py:237-241 | every other column of every row is exactly as edited; only Time Resolved may change |
| `Issues.ReconcileConsistent` | app.py:237-241 | a table that is already consistent is left unchanged |
| `Issues.ReconcileIdempotent` | app.py:237-241 | reconciling the output again, at any clock reading, changes nothing |
| `IssueStore.IssueLog.CommitEdits` | app.py:235-242 | commits iff the edited table differs from the stored one; if not, the table is unchanged; if so, the table becomes the reconciled unflagged rows, computed by the in-place loop, and every row is consistent |
| `Spreadsheet.PrepareImport` | app.py:115-122 | refused with the format error iff some required column is missing; fails with the Delete-column clash iff all are present and the sheet already has a Delete column; otherwise one row per sheet row, none flagged, Status true iff the cell is "Closed", a missing Time Found becomes "nan", a missing Time Resolved becomes "", the other cells carried over |
| `IssueStore.IssueLog.Import` | app.py:112-126 | an unreadable file or a sheet that already has a Delete column fails silently, a missing column gives the format error, and both leave the table unchanged; a valid sheet replaces the table with the prepared rows only when Load is pressed |
| `Spreadsheet.ExportSheet` | app.py:268-269 | the exported header is exactly the six data columns in stored order without Delete, and there is one row per stored row, with Status "Closed" iff closed and "Open" iff open |
| `Spreadsheet.ExportImportRoundTrip` | app.py:119-121 | importing an exported table gives back every row, in order, with only Delete cleared |
| `Spreadsheet.ExportImportIdentity` | app.py:268-269 | a table with no flagged row survives export then import exactly |
| `IssueStore.IssueLog.Export` | app.py:265-272 | a download is offered iff the table is non-empty, holding the exported sheet under the exported file name |
| `Spreadsheet.ReplaceChar` | app.py:272 | same length, and each character equal to the input's except that `from` becomes `to` |
| `Spreadsheet.ExportFileName` | app.py:272 | the name is "UAT_Log_" + the clock text with ':' as '-' and ' ' as '_' + ".xlsx", and its middle part has no ':' or ' ' |

## Left out

- Page configuration, CSS, header and icon HTML, metric cards and layout (app.py:13-18, 41-97, 131-164, 185-201, 207-233, 249-264): rendering only.
- `get_base64_image` (app.py:23-29): reads SVG files for display.
- The clock and time zone (app.py:34-36): `now` is a parameter. The commit loop in the source reads the clock once per row it stamps, so rows stamped across a minute boundary could get different times. The model stamps all of them with one reading.
- The .xlsx encoding and decoding, the in-memory buffer, the sheet name "Logs", the column width and the download button: foreign library I/O. A sheet is modelled as its header and cell values. The bare `except` covers two failures here: a file that cannot be read, and a sheet that already has a Delete column. Both give the `Failed` outcome, which leaves the table unchanged.
- An empty text cell and a blank cell are not told apart. The spreadsheet writer stores "" as a blank cell. So an exported empty description would come back missing, and an empty Time Found would come back as "nan". The export and import round trip is stated over cell values, where "" stays "".
- Extra columns of an imported sheet, and the column order it brings, are not kept. The model's row has exactly the seven columns. Cells are text. A non-text cell, such as a spreadsheet date in Time Found, is not modelled with pandas' own text conversion.
- Session and rerun mechanics, and the table editor's widget constraints. Those are the fixed row count, the read-only Time Found and Time Resolved columns, the select options and the required description. `CommitEdits` accepts any edited table, which is more general than what the editor can produce.
- `edited_df.equals` compares column types as well as values. The model compares values only.
