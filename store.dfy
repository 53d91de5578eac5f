/**
 * The session's issue log: the one table that the submit form, the table
 * editor and the sidebar import replace, and that the export reads
 * (app.py:102-105, 114-124, 166-173, 235-242, 265-272).
 */
module IssueStore {
  import opened Wrappers
  import opened Issues
  import opened Spreadsheet

  /** What an uploaded file led to. */
  datatype ImportOutcome =
    | Failed        // reading the file or adding the Delete column failed; nothing is shown
    | FormatError   // a required column is missing: "Invalid file format."
    | AwaitingLoad  // the sheet is valid and "Load Data" was not pressed
    | Loaded        // the sheet's rows replaced the table

  /** A file offered for download: its name and its single sheet. */
  datatype Download = Download(fileName: string, sheet: Sheet)

  class IssueLog {
    /** The table, in insertion order. */
    var rows: seq<Row>

    /** The stored table never holds a row flagged for deletion. */
    ghost predicate Valid()
      reads this
    {
      NoneFlagged(rows)
    }

    /** A new session starts with an empty table. */
    constructor ()
      ensures Valid()
      ensures rows == []
    {
      rows := [];
    }

    /**
     * "Submit Issue": with a non-empty description, one open row stamped
     * with the clock reading `now` is appended; otherwise nothing happens.
     */
    method Submit(description: string, category: string, severity: string, now: string)
      returns (added: bool)
      requires Valid()
      modifies this
      ensures Valid()
      ensures added <==> description != ""
      ensures !added ==> rows == old(rows)
      ensures added ==>
        rows == old(rows) + [Row(false, false, now, Some(description), Some(category), Some(severity), "")]
    {
      added := description != "";
      if added {
        var newRow := Row(false, false, now, Some(description), Some(category), Some(severity), "");
        rows := rows + [newRow];
      }
    }

    /**
     * The table editor's result: when it differs from the stored table, the
     * flagged rows are dropped, each remaining row's Time Resolved is
     * reconciled with its Status at clock reading `now`, and the result
     * replaces the table.
     */
    method CommitEdits(edited: seq<Row>, now: string) returns (committed: bool)
      requires Valid()
      requires now != ""
      modifies this
      ensures Valid()
      ensures committed <==> edited != old(rows)
      ensures !committed ==> rows == old(rows)
      ensures committed ==> rows == Reconcile(KeepUndeleted(edited), now)
      ensures committed ==> AllConsistent(rows)
    {
      committed := edited != rows;
      if committed {
        var active := KeepUndeleted(edited);
        ghost var survivors := active;
        var i := 0;
        while i < |active|
          invariant |active| == |survivors|
          invariant 0 <= i <= |active|
          invariant active[..i] == Reconcile(survivors[..i], now)
          invariant active[i..] == survivors[i..]
        {
          var row := active[i];
          if row.status && row.timeResolved == "" {
            active := active[i := row.(timeResolved := now)];
          } else if !row.status && row.timeResolved != "" {
            active := active[i := row.(timeResolved := "")];
          }
          assert active[i] == ReconcileRow(survivors[i], now);
          assert survivors[..i + 1][..i] == survivors[..i];
          assert active[..i + 1] == active[..i] + [active[i]];
          i := i + 1;
        }
        assert survivors[..|survivors|] == survivors;
        rows := active;
        ReconcileRowwise(survivors, now);
      }
    }

    /**
     * An uploaded file: when it reads as a sheet with every required column
     * and no Delete column, and "Load Data" is pressed, its rows replace the
     * table; in every other case the table is left as it is. A file that
     * cannot be read, or whose sheet already has a Delete column, fails
     * silently.
     */
    method Import(file: Option<Sheet>, loadPressed: bool) returns (outcome: ImportOutcome)
      requires Valid()
      modifies this
      ensures Valid()
      ensures file.None? ==> outcome == Failed
      ensures file.Some? && PrepareImport(file.value) == Err(InvalidFormat) ==> outcome == FormatError
      ensures file.Some? && PrepareImport(file.value) == Err(DeleteColumnClash) ==> outcome == Failed
      ensures file.Some? && PrepareImport(file.value).Ok? ==>
                outcome == (if loadPressed then Loaded else AwaitingLoad)
      ensures outcome == Loaded ==> rows == PrepareImport(file.value).value
      ensures outcome != Loaded ==> rows == old(rows)
    {
      if file.None? {
        return Failed;
      }
      var prepared := PrepareImport(file.value);
      if prepared.Err? {
        return if prepared.error == InvalidFormat then FormatError else Failed;
      }
      if !loadPressed {
        return AwaitingLoad;
      }
      rows := prepared.value;
      outcome := Loaded;
    }

    /**
     * "Download Excel": offered only while the table is not empty, as the
     * exported sheet under the file name built from clock reading `now`.
     */
    method Export(now: string) returns (download: Option<Download>)
      ensures download.None? <==> rows == []
      ensures download.Some? ==> download.value.sheet == ExportSheet(rows)
      ensures download.Some? ==> download.value.fileName == ExportFileName(now)
    {
      if rows == [] {
        return None;
      }
      download := Some(Download(ExportFileName(now), ExportSheet(rows)));
    }
  }
}
