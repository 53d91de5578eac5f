/**
 * The mapping between the stored rows and the rows of an .xlsx sheet:
 * import (app.py:114-124), export (app.py:268-269) and the name of the
 * exported file (app.py:272). The spreadsheet codec itself is not modelled:
 * a sheet is its header and its rows of cells.
 */
module Spreadsheet {
  import opened Wrappers
  import opened Issues

  /** One data row of a sheet, as the six named columns' cells. */
  datatype SheetRow = SheetRow(
    status: Cell,
    timeFound: Cell,
    description: Cell,
    category: Cell,
    severity: Cell,
    timeResolved: Cell)

  /** A sheet: its header (column names) and its data rows. */
  datatype Sheet = Sheet(columns: seq<string>, rows: seq<SheetRow>)

  /** The columns an imported sheet must have; also the exported header, in order. */
  const Columns: seq<string> :=
    ["Status", "Time Found", "Issue Description", "Category", "Severity", "Time Resolved"]

  const ClosedText := "Closed"
  const OpenText := "Open"

  /** The text a missing Time Found cell becomes when the column is turned into text. */
  const MissingText := "nan"

  /** The name of the flag column that import adds in front of the sheet's columns. */
  const DeleteColumn := "Delete"

  /** Why a sheet is not imported. */
  datatype ImportError =
    | InvalidFormat      // a required column is missing: "Invalid file format."
    | DeleteColumnClash  // the sheet already has a Delete column, so adding it fails

  predicate HasRequiredColumns(sheet: Sheet) {
    forall i :: 0 <= i < |Columns| ==> Columns[i] in sheet.columns
  }

  // ---------------------------------------------------------------------
  // Import
  // ---------------------------------------------------------------------

  /** Status "Closed" is a closed row; any other value, or none, is open. */
  function StatusFromCell(c: Cell): bool {
    c == Some(ClosedText)
  }

  /** A cell turned into text; a missing cell reads as "nan". */
  function TextOf(c: Cell): string {
    match c
    case Some(s) => s
    case None => MissingText
  }

  function ImportRow(cells: SheetRow): Row {
    Row(false, StatusFromCell(cells.status), TextOf(cells.timeFound),
        cells.description, cells.category, cells.severity, cells.timeResolved.GetOr(""))
  }

  /**
   * The rows an uploaded sheet would load: refused when a required column is
   * missing, failing when the sheet already has a Delete column (the column
   * check comes first), otherwise one unflagged row per sheet row with Status
   * mapped to a flag, a missing Time Found read as "nan" and a missing Time
   * Resolved read as "".
   */
  function PrepareImport(sheet: Sheet): (r: Result<seq<Row>, ImportError>)
    ensures r == Err(InvalidFormat) <==> exists c :: c in Columns && c !in sheet.columns
    ensures r == Err(DeleteColumnClash) <==> HasRequiredColumns(sheet) && DeleteColumn in sheet.columns
    ensures r.Ok? <==> HasRequiredColumns(sheet) && DeleteColumn !in sheet.columns
    ensures r.Ok? ==> |r.value| == |sheet.rows| && NoneFlagged(r.value)
    ensures r.Ok? ==> forall i :: 0 <= i < |sheet.rows| ==>
              var cells, row := sheet.rows[i], r.value[i];
              && (row.status <==> cells.status == Some(ClosedText))
              && (cells.timeFound.Some? ==> row.timeFound == cells.timeFound.value)
              && (cells.timeFound.None? ==> row.timeFound == MissingText)
              && row.description == cells.description
              && row.category == cells.category
              && row.severity == cells.severity
              && (cells.timeResolved.None? ==> row.timeResolved == "")
              && (cells.timeResolved.Some? ==> row.timeResolved == cells.timeResolved.value)
  {
    if !HasRequiredColumns(sheet) then
      Err(InvalidFormat)
    else if DeleteColumn in sheet.columns then
      Err(DeleteColumnClash)
    else
      Ok(seq(|sheet.rows|, i requires 0 <= i < |sheet.rows| => ImportRow(sheet.rows[i])))
  }

  // ---------------------------------------------------------------------
  // Export
  // ---------------------------------------------------------------------

  /** A closed row is written as "Closed", an open one as "Open". */
  function StatusText(closed: bool): string {
    if closed then ClosedText else OpenText
  }

  function ExportRow(r: Row): SheetRow {
    SheetRow(Some(StatusText(r.status)), Some(r.timeFound), r.description,
             r.category, r.severity, Some(r.timeResolved))
  }

  /**
   * The sheet written for a table: the Delete column dropped, the others in
   * order, and Status written as text.
   */
  function ExportSheet(rows: seq<Row>): (sheet: Sheet)
    ensures sheet.columns == Columns && HasRequiredColumns(sheet)
    ensures |sheet.rows| == |rows|
    ensures forall i :: 0 <= i < |rows| ==>
              (sheet.rows[i].status == Some(ClosedText) <==> rows[i].status) &&
              (sheet.rows[i].status == Some(OpenText) <==> !rows[i].status)
  {
    Sheet(Columns, seq(|rows|, i requires 0 <= i < |rows| => ExportRow(rows[i])))
  }

  /**
   * Exporting a table and importing the sheet back gives every row again,
   * with only its Delete flag cleared.
   */
  lemma ExportImportRoundTrip(rows: seq<Row>)
    ensures PrepareImport(ExportSheet(rows)).Ok?
    ensures |PrepareImport(ExportSheet(rows)).value| == |rows|
    ensures forall i :: 0 <= i < |rows| ==>
              PrepareImport(ExportSheet(rows)).value[i] == rows[i].(delete := false)
  {
  }

  /** A table with no flagged row comes back from an export and import exactly. */
  lemma ExportImportIdentity(rows: seq<Row>)
    requires NoneFlagged(rows)
    ensures PrepareImport(ExportSheet(rows)) == Ok(rows)
  {
    ExportImportRoundTrip(rows);
    assert PrepareImport(ExportSheet(rows)).value == rows;
  }

  // ---------------------------------------------------------------------
  // File name
  // ---------------------------------------------------------------------

  /** `s` with every occurrence of `from` replaced by `to`. */
  function ReplaceChar(s: string, from: char, to: char): (r: string)
    ensures |r| == |s|
    ensures forall i :: 0 <= i < |s| ==> r[i] == (if s[i] == from then to else s[i])
  {
    if s == [] then []
    else ReplaceChar(s[..|s| - 1], from, to) + [if s[|s| - 1] == from then to else s[|s| - 1]]
  }

  const FilePrefix := "UAT_Log_"
  const FileSuffix := ".xlsx"

  /**
   * The download's file name for clock reading `now`: "UAT_Log_", then the
   * reading with ':' turned into '-' and ' ' into '_', then ".xlsx". The
   * middle part holds no ':' and no ' '.
   */
  function ExportFileName(now: string): (name: string)
    ensures |name| == |FilePrefix| + |now| + |FileSuffix|
    ensures name[..|FilePrefix|] == FilePrefix
    ensures name[|FilePrefix| + |now|..] == FileSuffix
    ensures forall i :: |FilePrefix| <= i < |FilePrefix| + |now| ==> name[i] != ':' && name[i] != ' '
    ensures forall i :: 0 <= i < |now| ==>
              name[|FilePrefix| + i] == (if now[i] == ':' then '-' else if now[i] == ' ' then '_' else now[i])
  {
    FilePrefix + ReplaceChar(ReplaceChar(now, ':', '-'), ' ', '_') + FileSuffix
  }
}
