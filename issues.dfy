/**
 * The rows of the issue log and the two row-level steps of an edit commit:
 * dropping the rows flagged for deletion, and reconciling "Time Resolved"
 * with "Status" (app.py:235-242).
 */
module Issues {
  import opened Wrappers

  /** A spreadsheet cell that may be empty (a missing value in the table). */
  type Cell = Option<string>

  /**
   * One row of the log, one field per column: Delete, Status (true means
   * closed, shown as "Done"), Time Found, Issue Description, Category,
   * Severity and Time Resolved ("" while unresolved).
   */
  datatype Row = Row(
    delete: bool,
    status: bool,
    timeFound: string,
    description: Cell,
    category: Cell,
    severity: Cell,
    timeResolved: string)

  /** A row's resolution time is set exactly when the row is closed. */
  predicate Consistent(r: Row) {
    r.status <==> r.timeResolved != ""
  }

  predicate AllConsistent(rows: seq<Row>) {
    forall i :: 0 <= i < |rows| ==> Consistent(rows[i])
  }

  /** No row carries the Delete flag. */
  predicate NoneFlagged(rows: seq<Row>) {
    forall i :: 0 <= i < |rows| ==> !rows[i].delete
  }

  // ---------------------------------------------------------------------
  // Dropping the rows flagged Delete
  // ---------------------------------------------------------------------

  /** The rows whose Delete flag is false, in their original order. */
  function KeepUndeleted(rows: seq<Row>): (kept: seq<Row>)
    ensures |kept| <= |rows|
    ensures NoneFlagged(kept)
  {
    if rows == [] then []
    else
      var last := rows[|rows| - 1];
      KeepUndeleted(rows[..|rows| - 1]) + (if last.delete then [] else [last])
  }

  /** The positions of the rows whose Delete flag is false, in increasing order. */
  function Survivors(rows: seq<Row>): seq<nat> {
    if rows == [] then []
    else
      Survivors(rows[..|rows| - 1]) + (if rows[|rows| - 1].delete then [] else [|rows| - 1])
  }

  /**
   * The filter is exact and keeps order: the k-th kept row is the row at the
   * k-th surviving position, the positions increase strictly, and a position
   * survives if and only if its row is not flagged.
   */
  lemma {:induction false} KeepUndeletedExact(rows: seq<Row>)
    ensures |Survivors(rows)| == |KeepUndeleted(rows)|
    ensures forall k :: 0 <= k < |Survivors(rows)| ==>
              Survivors(rows)[k] < |rows| && KeepUndeleted(rows)[k] == rows[Survivors(rows)[k]]
    ensures forall k, l :: 0 <= k < l < |Survivors(rows)| ==> Survivors(rows)[k] < Survivors(rows)[l]
    ensures forall i :: 0 <= i < |rows| ==> (i in Survivors(rows) <==> !rows[i].delete)
  {
    if rows != [] {
      var init := rows[..|rows| - 1];
      KeepUndeletedExact(init);
      assert forall i :: 0 <= i < |init| ==> init[i] == rows[i];
    }
  }

  /** When nothing is flagged, the filter returns the table unchanged. */
  lemma {:induction false} KeepUndeletedUnflagged(rows: seq<Row>)
    requires NoneFlagged(rows)
    ensures KeepUndeleted(rows) == rows
  {
    if rows != [] {
      var init := rows[..|rows| - 1];
      KeepUndeletedUnflagged(init);
      assert init + [rows[|rows| - 1]] == rows;
    }
  }

  // ---------------------------------------------------------------------
  // Reconciling Time Resolved with Status
  // ---------------------------------------------------------------------

  /**
   * One row after reconciliation at clock reading `now`: a closed row with
   * no resolution time gets `now`, an open row with one loses it, and every
   * other row is kept as it is.
   */
  function ReconcileRow(r: Row, now: string): (s: Row)
    requires now != ""
    ensures Consistent(s)
    ensures s == r.(timeResolved := s.timeResolved)
    ensures r.status && r.timeResolved != "" ==> s == r
    ensures r.status && r.timeResolved == "" ==> s.timeResolved == now
  {
    if r.status && r.timeResolved == "" then r.(timeResolved := now)
    else if !r.status && r.timeResolved != "" then r.(timeResolved := "")
    else r
  }

  /** Every row reconciled, in order. */
  function Reconcile(rows: seq<Row>, now: string): (out: seq<Row>)
    requires now != ""
    ensures |out| == |rows|
    ensures AllConsistent(out)
  {
    if rows == [] then []
    else Reconcile(rows[..|rows| - 1], now) + [ReconcileRow(rows[|rows| - 1], now)]
  }

  /** Reconciliation works row by row: row i of the output is row i reconciled. */
  lemma {:induction false} ReconcileRowwise(rows: seq<Row>, now: string)
    requires now != ""
    ensures forall i :: 0 <= i < |rows| ==> Reconcile(rows, now)[i] == ReconcileRow(rows[i], now)
  {
    if rows != [] {
      var init := rows[..|rows| - 1];
      ReconcileRowwise(init, now);
      assert forall i :: 0 <= i < |init| ==> init[i] == rows[i];
    }
  }

  /**
   * Reconciliation changes Time Resolved and nothing else: Delete, Status,
   * Time Found, Description, Category and Severity of every row are as given.
   */
  lemma ReconcileOnlyResolvedTime(rows: seq<Row>, now: string)
    requires now != ""
    ensures forall i :: 0 <= i < |rows| ==>
              Reconcile(rows, now)[i] == rows[i].(timeResolved := Reconcile(rows, now)[i].timeResolved)
  {
  }

  /** A table whose rows are already consistent is a fixed point of reconciliation. */
  lemma {:induction false} ReconcileConsistent(rows: seq<Row>, now: string)
    requires now != ""
    requires AllConsistent(rows)
    ensures Reconcile(rows, now) == rows
  {
    if rows != [] {
      var init := rows[..|rows| - 1];
      ReconcileConsistent(init, now);
      assert init + [rows[|rows| - 1]] == rows;
    }
  }

  /** Reconciling a second time, at any clock reading, changes nothing. */
  lemma ReconcileIdempotent(rows: seq<Row>, now: string, later: string)
    requires now != "" && later != ""
    ensures Reconcile(Reconcile(rows, now), later) == Reconcile(rows, now)
  {
  }
}
