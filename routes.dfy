/**
 * The handlers of index.js that drive the store and the sheet, each run
 * to completion before the next request: `POST /submit`,
 * `GET /admin/edit/:id`, `POST /admin/edit/:id` and the report list of
 * `GET /admin`. Rendering and redirects are reduced to an outcome value.
 */
module Routes {
  import opened Wrappers
  import opened JsText
  import opened ReportTable
  import opened Store
  import opened Requests
  import opened Export

  /** What `POST /submit` renders. */
  datatype SubmitOutcome =
    | Submitted               // "Report submitted successfully"
    | Refused(message: string)
    | ServerError             // "Server error: " followed by the exception's message

  function DuplicateMessage(uid: string, reportDate: string): string {
    "You (" + uid + ") have already submitted a report for " + reportDate
    + ". Each user can only submit one report per day."
  }

  /** The report `POST /submit` stores for a form that passed every check. */
  function NewReport(form: Form, activities: seq<Activity>, submittedAt: string): Report {
    Report(form.uid, form.name, form.team, activities, form.reportDate, submittedAt)
  }

  /**
   * `POST /submit`: the field checks, the duplicate check on the cache,
   * activity normalisation, the insert into both stores, then the append
   * to the sheet. `now` is the IST time stamp of the request. Nothing is
   * stored or appended unless every check passes, and once they pass the
   * insert cannot fail, since the cache was just found free of the pair.
   */
  method Submit(db: DatabaseManager, book: Workbook, form: Form, now: string, primaryUp: bool) returns (out: SubmitOutcome)
    requires db.Valid()
    modifies db, book
    ensures db.Valid()
    ensures out != Submitted ==>
      db.cache == old(db.cache) && db.primary == old(db.primary) && book.rows == old(book.rows)
    ensures ValidateSubmit(form).Some? ==> out == Refused(RejectionMessage(ValidateSubmit(form).value))
    ensures ValidateSubmit(form).None? && PairIn(old(db.cache), NewReport(form, [], now)) ==>
      out == Refused(DuplicateMessage(form.uid, form.reportDate))
    ensures out == ServerError <==>
      && ValidateSubmit(form).None? && !PairIn(old(db.cache), NewReport(form, [], now))
      && NormalizeSubmit(form.activities, form.counts).Failure?
    ensures (&& ValidateSubmit(form).None? && !PairIn(old(db.cache), NewReport(form, [], now))
             && NormalizeSubmit(form.activities, form.counts).Success?) ==> out == Submitted
    ensures out == Submitted ==>
      && ValidateSubmit(form).None? && !PairIn(old(db.cache), NewReport(form, [], now))
      && NormalizeSubmit(form.activities, form.counts).Success?
      && var report := NewReport(form, NormalizeSubmit(form.activities, form.counts).value, now);
         && db.cache == Table(old(db.cache.rows)[old(db.cache.nextId) := report], old(db.cache.nextId) + 1)
         && db.primary == (if primaryUp && !PairIn(old(db.primary), report)
                           then Table(old(db.primary.rows)[old(db.primary.nextId) := report], old(db.primary.nextId) + 1)
                           else old(db.primary))
         && book.rows == (if old(book.rows) == [] then [Header] else old(book.rows)) + ReportRows(report)
  {
    var rejection := ValidateSubmit(form);
    if rejection.Some? {
      return Refused(RejectionMessage(rejection.value));
    }
    var existing := db.CheckDuplicate(form.uid, form.reportDate);
    if existing.Some? {
      return Refused(DuplicateMessage(form.uid, form.reportDate));
    }
    var formatted := NormalizeSubmit(form.activities, form.counts);
    if formatted.Failure? {
      return ServerError;
    }
    var report := NewReport(form, formatted.value, now);
    var inserted := db.InsertReport(report, primaryUp);
    assert inserted.Success?;
    book.Append(report);
    out := Submitted;
  }

  /** What `POST /admin/edit/:id` redirects with. */
  datatype EditOutcome =
    | Updated                       // "Report updated successfully"
    | EditRefused(message: string)
    | DatabaseError(error: StoreError)

  /** The fields `POST /admin/edit/:id` writes. */
  function EditFields(form: Form): Fields {
    Fields(form.uid, form.name, form.team, NormalizeEdit(form.activities, form.counts), form.reportDate)
  }

  /**
   * `POST /admin/edit/:id`: a blank uid is refused before any store is
   * touched; otherwise the report is updated in both stores and, when that
   * succeeds, the sheet is regenerated from the cache (`listing` is the
   * list it was generated from).
   */
  method Edit(db: DatabaseManager, book: Workbook, id: nat, form: Form, primaryUp: bool)
    returns (out: EditOutcome, ghost listing: seq<Row>)
    requires db.Valid()
    modifies db, book
    ensures db.Valid()
    ensures Blank(form.uid) ==>
      && out == EditRefused(RejectionMessage(BlankUid))
      && db.cache == old(db.cache) && db.primary == old(db.primary) && book.rows == old(book.rows)
    ensures !Blank(form.uid) ==>
      && (out == Updated <==>
            id in old(db.cache.rows) && IdsWithKey(old(db.cache), form.uid, form.reportDate) <= {id})
      && (id in old(db.cache.rows) ==>
            db.primary == if primaryUp then PrimaryAfterUpdate(old(db.primary), old(db.cache.rows[id]), EditFields(form))
                          else old(db.primary))
      && (id !in old(db.cache.rows) ==> out == DatabaseError(ReportNotFound) && db.primary == old(db.primary))
    ensures out.EditRefused? ==> Blank(form.uid)
    ensures !Blank(form.uid) && id in old(db.cache.rows) && out != Updated ==> out == DatabaseError(UniqueViolation)
    ensures out.DatabaseError? ==> db.cache == old(db.cache) && book.rows == old(book.rows)
    ensures out == Updated ==>
      && db.cache == Table(old(db.cache.rows)[id := WithFields(old(db.cache.rows[id]), EditFields(form))], old(db.cache.nextId))
      && Ordered(listing)
      && |listing| == |db.cache.rows|
      && (forall x :: x in listing <==> x.id in db.cache.rows && x.report == db.cache.rows[x.id])
      && book.rows == Sheet(ReportsOf(listing))
  {
    listing := [];
    var rejection := ValidateEdit(form.uid);
    if rejection.Some? {
      return EditRefused(RejectionMessage(rejection.value)), listing;
    }
    var result := db.UpdateReport(id, EditFields(form), primaryUp);
    if result.Failure? {
      return DatabaseError(result.error), listing;
    }
    listing := book.GenerateFromDatabase(db);
    out := Updated;
  }

  /**
   * `GET /admin/edit/:id`: the cache row with that id, shown with the
   * team-key to team-id mapping; None when there is no such row.
   */
  method ShowEditForm(db: DatabaseManager, id: nat, teamKeys: set<string>)
    returns (page: Option<(Row, map<string, string>)>)
    requires db.Valid()
    ensures page.Some? <==> id in db.cache.rows
    ensures page.Some? ==> page.value.0 == Row(id, db.cache.rows[id])
    ensures page.Some? ==> page.value.1.Keys == teamKeys
    ensures page.Some? ==> forall k :: k in teamKeys ==>
      page.value.1[k] == TeamId(k) && (forall i :: 0 <= i < |page.value.1[k]| ==> IsAsciiAlnum(page.value.1[k][i]))
  {
    var row := db.GetReportById(id);
    if row.None? {
      return None;
    }
    page := Some((row.value, TeamMapping(teamKeys)));
  }

  /**
   * The reports `GET /admin` lists: the statement the filter builder
   * produces, run on the cache. Each listed report is a cache row that
   * matches every supplied filter, each such row is listed, and the list
   * is in the default order. The statement is built as the handler builds
   * it but not executed: what it selects is computed by `FilterRows` on
   * the default listing, and `AdminReportsCorrect` gives its meaning.
   */
  method AdminReports(db: DatabaseManager, date: string, name: string, uid: string) returns (reports: seq<Row>)
    requires db.Valid()
    ensures Ordered(reports)
    ensures forall x :: x in reports <==>
      x.id in db.cache.rows && x.report == db.cache.rows[x.id] && MatchesFilters(x.report, date, name, uid)
    ensures forall i, j :: 0 <= i < j < |reports| ==> reports[i].id != reports[j].id
  {
    var query, params := BuildAdminQuery(date, name, uid);
    reports := FilterRows(AllReports(db.cache), date, name, uid);
    AdminReportsCorrect(db.cache, date, name, uid);
  }
}
