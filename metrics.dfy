/** The four summary counts shown above the issue table (app.py:180-183). */
module Metrics {
  import opened Wrappers
  import opened Issues

  /** The severities counted on the "Critical / High" card. */
  predicate HighOrCritical(r: Row) {
    r.severity == Some("High") || r.severity == Some("Critical")
  }

  /** Number of rows whose Status is true (closed). */
  function CountClosed(rows: seq<Row>): (n: nat)
    ensures n <= |rows|
  {
    if rows == [] then 0
    else CountClosed(rows[..|rows| - 1]) + (if rows[|rows| - 1].status then 1 else 0)
  }

  /** Number of rows whose Status is false (open). */
  function CountOpen(rows: seq<Row>): (n: nat)
    ensures n <= |rows|
  {
    if rows == [] then 0
    else CountOpen(rows[..|rows| - 1]) + (if rows[|rows| - 1].status then 0 else 1)
  }

  /** Number of rows whose Severity is "High" or "Critical". */
  function CountHighOrCritical(rows: seq<Row>): (n: nat)
    ensures n <= |rows|
  {
    if rows == [] then 0
    else CountHighOrCritical(rows[..|rows| - 1]) + (if HighOrCritical(rows[|rows| - 1]) then 1 else 0)
  }

  /** The cards: Total Issues, Pending, Resolved, Critical / High. */
  datatype Summary = Summary(total: nat, pending: nat, resolved: nat, highOrCritical: nat)

  /** The counts over the table; Pending is derived as Total minus Resolved. */
  function Summarize(rows: seq<Row>): (m: Summary)
    ensures m.total == |rows|
    ensures m.pending + m.resolved == m.total
    ensures m.resolved <= m.total && m.highOrCritical <= m.total
  {
    var total := |rows|;
    var closed := CountClosed(rows);
    Summary(total, total - closed, closed, CountHighOrCritical(rows))
  }

  /** Pending, although computed by subtraction, is exactly the number of open rows. */
  lemma {:induction false} PendingCountsOpen(rows: seq<Row>)
    ensures Summarize(rows).pending == CountOpen(rows)
  {
    if rows != [] {
      PendingCountsOpen(rows[..|rows| - 1]);
    }
  }

  /**
   * Appending one row adds one to Total and one to Pending or Resolved
   * according to its Status, and one to Critical / High when its severity is one of them.
   */
  lemma SummarizeAppend(rows: seq<Row>, r: Row)
    ensures Summarize(rows + [r]) ==
      Summary(|rows| + 1,
              Summarize(rows).pending + (if r.status then 0 else 1),
              Summarize(rows).resolved + (if r.status then 1 else 0),
              Summarize(rows).highOrCritical + (if HighOrCritical(r) then 1 else 0))
  {
  }

  /** Reconciling resolution times leaves all four counts as they were. */
  lemma {:induction false} ReconcileKeepsSummary(rows: seq<Row>, now: string)
    requires now != ""
    ensures Summarize(Reconcile(rows, now)) == Summarize(rows)
  {
    if rows != [] {
      var init := rows[..|rows| - 1];
      ReconcileKeepsSummary(init, now);
      var out := Reconcile(rows, now);
      assert out[..|out| - 1] == Reconcile(init, now);
    }
  }
}
