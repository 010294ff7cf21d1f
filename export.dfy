/**
 * The spreadsheet side of index.js: `generateExcelFromDatabase` rewrites
 * the `Reports` sheet from the cache, and `appendToExcel` adds one
 * submission to it. Only the cell values are modelled: the sheet is a
 * sequence of rows, each a sequence of seven strings.
 */
module Export {
  import opened ReportTable
  import opened Store

  /** The seven column titles of the first row. */
  const Header: seq<string> := ["UID", "Name", "Team", "Report Date", "Activity", "Count/Hours", "Submitted At"]

  /** The sheet row of one activity of one report. */
  function ActivityRow(r: Report, a: Activity): (row: seq<string>)
    ensures |row| == |Header|
    ensures row[4] == a.name && row[5] == a.count
    ensures row[0] == r.uid && row[1] == r.name && row[2] == r.team && row[3] == r.reportDate && row[6] == r.submittedAt
  {
    [r.uid, r.name, r.team, r.reportDate, a.name, a.count, r.submittedAt]
  }

  /** The rows of one report: one per activity, in activity order. */
  function ReportRows(r: Report): (rows: seq<seq<string>>)
    ensures |rows| == |r.activities|
    ensures forall k :: 0 <= k < |rows| ==> rows[k] == ActivityRow(r, r.activities[k])
  {
    seq(|r.activities|, k requires 0 <= k < |r.activities| => ActivityRow(r, r.activities[k]))
  }

  /** The rows of the first `k + 1` activities extend those of the first `k` by one. */
  lemma ReportRowsStep(r: Report, k: nat)
    requires k < |r.activities|
    ensures ReportRows(r)[..k + 1] == ReportRows(r)[..k] + [ActivityRow(r, r.activities[k])]
  {
  }

  /** The number of activities over all reports. */
  function TotalActivities(reports: seq<Report>): nat {
    if reports == [] then 0
    else TotalActivities(reports[..|reports| - 1]) + |reports[|reports| - 1].activities|
  }

  /** The data rows for `reports`, report after report. */
  function DataRows(reports: seq<Report>): seq<seq<string>> {
    if reports == [] then []
    else DataRows(reports[..|reports| - 1]) + ReportRows(reports[|reports| - 1])
  }

  /** The whole sheet `generateExcelFromDatabase` writes. */
  function Sheet(reports: seq<Report>): seq<seq<string>> {
    [Header] + DataRows(reports)
  }

  /** The reports of a list of cache rows. */
  function ReportsOf(rows: seq<Row>): (rs: seq<Report>)
    ensures |rs| == |rows| && forall i :: 0 <= i < |rows| ==> rs[i] == rows[i].report
  {
    seq(|rows|, i requires 0 <= i < |rows| => rows[i].report)
  }

  lemma {:induction false} DataRowsCount(reports: seq<Report>)
    ensures |DataRows(reports)| == TotalActivities(reports)
  {
    if reports != [] {
      DataRowsCount(reports[..|reports| - 1]);
    }
  }

  /** The data rows of two lists of reports, one after the other. */
  lemma {:induction false} DataRowsConcat(a: seq<Report>, b: seq<Report>)
    ensures DataRows(a + b) == DataRows(a) + DataRows(b)
    ensures TotalActivities(a + b) == TotalActivities(a) + TotalActivities(b)
  {
    if b != [] {
      var n := |b| - 1;
      assert (a + b)[..|a + b| - 1] == a + b[..n];
      assert (a + b)[|a + b| - 1] == b[n];
      DataRowsConcat(a, b[..n]);
    } else {
      assert a + b == a;
    }
  }

  /** The sheet has one header row and one row per (report, activity). */
  lemma SheetCount(reports: seq<Report>)
    ensures |Sheet(reports)| == 1 + TotalActivities(reports)
    ensures Sheet(reports)[0] == Header
  {
    DataRowsCount(reports);
  }

  /** The data rows of one more report follow those of the reports before it. */
  lemma DataRowsSnoc(reports: seq<Report>, j: nat)
    requires j < |reports|
    ensures DataRows(reports[..j + 1]) == DataRows(reports[..j]) + ReportRows(reports[j])
  {
    assert reports[..j + 1][..j] == reports[..j];
  }

  /**
   * The row of activity `k` of report `j` sits right after the rows of
   * the reports before `j` and the activities before `k`: reports in
   * order, and activities in order within each report.
   */
  lemma {:induction false} DataRowAt(reports: seq<Report>, j: nat, k: nat)
    requires j < |reports| && k < |reports[j].activities|
    ensures TotalActivities(reports[..j]) + k < |DataRows(reports)|
    ensures DataRows(reports)[TotalActivities(reports[..j]) + k] == ActivityRow(reports[j], reports[j].activities[k])
  {
    var n := |reports| - 1;
    var init := reports[..n];
    assert DataRows(reports) == DataRows(init) + ReportRows(reports[n]);
    if j == n {
      DataRowsCount(init);
    } else {
      DataRowAt(init, j, k);
      assert init[..j] == reports[..j] && init[j] == reports[j];
    }
  }

  /** Appending a report to a regenerated sheet gives the sheet regenerated with that report last. */
  lemma AppendAfterGenerate(reports: seq<Report>, r: Report)
    ensures Sheet(reports) + ReportRows(r) == Sheet(reports + [r])
  {
    assert (reports + [r])[..|reports|] == reports;
  }

  /** The `Reports` sheet of `reports.xlsx`; empty while the file does not exist. */
  class Workbook {
    var rows: seq<seq<string>>

    constructor ()
      ensures rows == []
    {
      rows := [];
    }

    /**
     * `generateExcelFromDatabase`: a fresh sheet with the header, then one
     * row per activity of each cache report, the reports in the default
     * order; `listing` is the list `getAllReports()` returned.
     */
    method GenerateFromDatabase(db: DatabaseManager) returns (ghost listing: seq<Row>)
      requires db.Valid()
      modifies this
      ensures Ordered(listing)
      ensures forall x :: x in listing <==> x.id in db.cache.rows && x.report == db.cache.rows[x.id]
      ensures |listing| == |db.cache.rows|
      ensures rows == Sheet(ReportsOf(listing))
    {
      var reports := db.GetAllReports();
      listing := reports;
      WriteSheet(reports);
    }

    /** A fresh sheet: the header, then the rows of each listed report in turn. */
    method WriteSheet(reports: seq<Row>)
      modifies this
      ensures rows == Sheet(ReportsOf(reports))
    {
      ghost var rs := ReportsOf(reports);
      rows := [Header];
      for i := 0 to |reports|
        invariant rows == [Header] + DataRows(rs[..i])
      {
        AddActivityRows(reports[i].report);
        DataRowsSnoc(rs, i);
      }
      assert rs[..|reports|] == rs;
    }

    /**
     * `appendToExcel`: the header only when the sheet has no rows, then
     * one row per activity of the report after the rows already there.
     */
    method Append(r: Report)
      modifies this
      ensures rows == (if old(rows) == [] then [Header] else old(rows)) + ReportRows(r)
    {
      if |rows| == 0 {
        rows := rows + [Header];
      }
      AddActivityRows(r);
    }

    /** The loop both writers share: one `addRow` per activity of the report, in order. */
    method AddActivityRows(r: Report)
      modifies this
      ensures rows == old(rows) + ReportRows(r)
    {
      for k := 0 to |r.activities|
        invariant rows == old(rows) + ReportRows(r)[..k]
      {
        ReportRowsStep(r, k);
        rows := rows + [ActivityRow(r, r.activities[k])];
      }
      assert ReportRows(r)[..|r.activities|] == ReportRows(r);
    }
  }
}
