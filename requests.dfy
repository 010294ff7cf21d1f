/**
 * The request-side logic of index.js that does not touch a store: the
 * required-field checks of `POST /submit` and `POST /admin/edit/:id`, the
 * turning of the `activities` / `counts` form fields into a list of
 * activities, the filter builder of `GET /admin`, the team-id sanitiser and
 * the admin credential check.
 */
module Requests {
  import opened Wrappers
  import opened JsText
  import opened ReportTable

  // ---------------------------------------------------------------------
  // Form values and required fields
  // ---------------------------------------------------------------------

  /**
   * The `activities` field of a urlencoded body: missing, sent once (a
   * string) or repeated (an array of strings).
   */
  datatype FormValue = Absent | Scalar(text: string) | Many(items: seq<string>)

  /** JavaScript truthiness of a form value: a missing field and "" are falsy, any array is truthy. */
  predicate Truthy(v: FormValue) {
    match v
    case Absent => false
    case Scalar(s) => s != ""
    case Many(_) => true
  }

  /**
   * The fields of a report form. A text field that was not sent is "",
   * which JavaScript treats as falsy just like `undefined`; `counts` is None
   * when the body has no `counts` object.
   */
  datatype Form = Form(
    uid: string,
    name: string,
    team: string,
    reportDate: string,
    activities: FormValue,
    counts: Option<map<string, string>>)

  /** Why a form is refused before any store is consulted. */
  datatype Rejection = MissingFields | BlankUid

  function RejectionMessage(r: Rejection): string {
    match r
    case MissingFields => "Missing required fields"
    case BlankUid => "Faculty ID cannot be empty"
  }

  /** All of uid, name, team, report_date and activities are present and truthy. */
  predicate HasRequiredFields(f: Form) {
    f.uid != "" && f.name != "" && f.team != "" && f.reportDate != "" && Truthy(f.activities)
  }

  /**
   * The two checks at the top of `POST /submit`: a missing field first,
   * then a uid that trims to nothing.
   */
  function ValidateSubmit(f: Form): (r: Option<Rejection>)
    ensures r == Some(MissingFields) <==> !HasRequiredFields(f)
    ensures r == Some(BlankUid) <==> HasRequiredFields(f) && Blank(f.uid)
    ensures r == None <==> HasRequiredFields(f) && !Blank(f.uid)
  {
    TrimEmptyIffBlank(f.uid);
    if !HasRequiredFields(f) then Some(MissingFields)
    else if Trim(f.uid) == "" then Some(BlankUid)
    else None
  }

  /** The only check of `POST /admin/edit/:id`: a uid that is missing or blank. */
  function ValidateEdit(uid: string): (r: Option<Rejection>)
    ensures r.Some? <==> Blank(uid)
    ensures r.Some? ==> r.value == BlankUid
  {
    TrimEmptyIffBlank(uid);
    if uid == "" || Trim(uid) == "" then Some(BlankUid) else None
  }

  // ---------------------------------------------------------------------
  // Activity normalisation
  // ---------------------------------------------------------------------

  /** `counts[name] || ''`: the count sent for an activity, or "" when none was sent. */
  function CountFor(counts: map<string, string>, name: string): (c: string)
    ensures name in counts ==> c == counts[name]
    ensures name !in counts ==> c == ""
  {
    if name in counts && counts[name] != "" then counts[name] else ""
  }

  /** The activity names a form value carries, in order. */
  function NamesOf(v: FormValue): seq<string> {
    match v
    case Absent => []
    case Scalar(s) => [s]
    case Many(items) => items
  }

  /** One activity per name, each with the count sent for it. */
  function Pair(names: seq<string>, counts: map<string, string>): (acts: seq<Activity>)
    ensures |acts| == |names|
    ensures forall i :: 0 <= i < |names| ==> acts[i].name == names[i] && acts[i].count == CountFor(counts, names[i])
  {
    seq(|names|, i requires 0 <= i < |names| => Activity(names[i], CountFor(counts, names[i])))
  }

  /** The TypeError `counts[...]` raises when the body has no `counts` object. */
  datatype TypeError = CountsUndefined

  /**
   * Activity normalisation of `POST /submit`, reached only after the
   * required-field check: an array gives one activity per element, a
   * string gives one. Without a `counts` object the lookup throws, except
   * for an empty array, whose `map` never reads `counts`.
   */
  function NormalizeSubmit(activities: FormValue, counts: Option<map<string, string>>): (r: Result<seq<Activity>, TypeError>)
    requires Truthy(activities)
    ensures r.Failure? <==> counts.None? && activities != Many([])
    ensures r.Success? ==> |r.value| == |NamesOf(activities)|
    ensures r.Success? ==> forall i :: 0 <= i < |r.value| ==>
      && r.value[i].name == NamesOf(activities)[i]
      && (r.value[i].name in counts.value ==> r.value[i].count == counts.value[r.value[i].name])
      && (r.value[i].name !in counts.value ==> r.value[i].count == "")
  {
    match activities
    case Many(names) =>
      if names == [] then Success([])
      else if counts.None? then Failure(CountsUndefined)
      else Success(Pair(names, counts.value))
    case Scalar(name) =>
      if counts.None? then Failure(CountsUndefined)
      else Success(Pair([name], counts.value))
  }

  /**
   * Activity normalisation of `POST /admin/edit/:id`: as on submit, but a
   * missing `counts` object reads as `{}`, and a missing or empty
   * `activities` field gives no activities.
   */
  function NormalizeEdit(activities: FormValue, counts: Option<map<string, string>>): (acts: seq<Activity>)
    ensures |acts| == if Truthy(activities) then |NamesOf(activities)| else 0
    ensures forall i :: 0 <= i < |acts| ==> acts[i].name == NamesOf(activities)[i]
    ensures !Truthy(activities) ==> acts == []
    ensures counts.None? ==> forall i :: 0 <= i < |acts| ==> acts[i].count == ""
  {
    var c := if counts.Some? then counts.value else map[];
    match activities
    case Many(names) => Pair(names, c)
    case Scalar(name) => if name == "" then [] else Pair([name], c)
    case Absent => []
  }

  /**
   * The two normalisations agree whenever submit's does not throw, and the
   * edit form never throws.
   */
  lemma NormalizeEditAgreesWithSubmit(activities: FormValue, counts: Option<map<string, string>>)
    requires Truthy(activities)
    ensures NormalizeSubmit(activities, counts).Success? ==>
      NormalizeEdit(activities, counts) == NormalizeSubmit(activities, counts).value
  {
    var s := NormalizeSubmit(activities, counts);
    var e := NormalizeEdit(activities, counts);
    if s.Success? {
      assert |e| == |s.value|;
      forall i | 0 <= i < |e| ensures e[i] == s.value[i] {
        assert e[i].name == s.value[i].name;
      }
    }
  }

  // ---------------------------------------------------------------------
  // The filter builder of GET /admin
  // ---------------------------------------------------------------------

  const SelectAll: string := "SELECT * FROM reports"
  const DefaultOrder: string := " ORDER BY report_date DESC, submitted_at DESC"

  const DateCondition: string := "report_date = ?"
  const NameCondition: string := "name LIKE ?"
  const UidCondition: string := "uid LIKE ?"

  /** `xs.join(sep)`. */
  function Join(xs: seq<string>, sep: string): string {
    if |xs| == 0 then ""
    else if |xs| == 1 then xs[0]
    else xs[0] + sep + Join(xs[1..], sep)
  }

  /** `%x%`: the LIKE pattern for "contains x". */
  function LikePattern(x: string): string {
    "%" + x + "%"
  }

  /** The WHERE conditions, pushed for the supplied filters in the order date, name, uid. */
  function FilterConditions(date: string, name: string, uid: string): seq<string> {
    var afterDate := if date != "" then [DateCondition] else [];
    var afterName := if name != "" then afterDate + [NameCondition] else afterDate;
    if uid != "" then afterName + [UidCondition] else afterName
  }

  /** The parameters, pushed alongside the conditions. */
  function FilterParams(date: string, name: string, uid: string): seq<string> {
    var afterDate := if date != "" then [date] else [];
    var afterName := if name != "" then afterDate + [LikePattern(name)] else afterDate;
    if uid != "" then afterName + [LikePattern(uid)] else afterName
  }

  /** The statement the dashboard runs. */
  function AdminQuery(date: string, name: string, uid: string): string {
    var conditions := FilterConditions(date, name, uid);
    (if |conditions| > 0 then SelectAll + " WHERE " + Join(conditions, " AND ") else SelectAll) + DefaultOrder
  }

  /**
   * `GET /admin` builds its statement by pushing one condition and one
   * parameter per supplied filter and appending to `query`.
   */
  method BuildAdminQuery(date: string, name: string, uid: string) returns (query: string, params: seq<string>)
    ensures query == AdminQuery(date, name, uid)
    ensures params == FilterParams(date, name, uid)
  {
    query := SelectAll;
    params := [];
    var conditions: seq<string> := [];
    if date != "" {
      conditions := conditions + [DateCondition];
      params := params + [date];
      assert conditions == [DateCondition];
    }
    if name != "" {
      conditions := conditions + [NameCondition];
      params := params + [LikePattern(name)];
    }
    if uid != "" {
      conditions := conditions + [UidCondition];
      params := params + [LikePattern(uid)];
    }
    assert conditions == FilterConditions(date, name, uid);
    if |conditions| > 0 {
      query := query + " WHERE " + Join(conditions, " AND ");
    }
    query := query + DefaultOrder;
  }

  /**
   * Conditions and parameters stay in lockstep: one of each per supplied
   * filter, in the order date, name, uid, each parameter next to the
   * condition it binds, the LIKE ones wrapped in `%`.
   */
  lemma FilterLockstep(date: string, name: string, uid: string)
    ensures var n := (if date != "" then 1 else 0) + (if name != "" then 1 else 0) + (if uid != "" then 1 else 0);
      |FilterConditions(date, name, uid)| == n && |FilterParams(date, name, uid)| == n
    ensures forall i :: 0 <= i < |FilterParams(date, name, uid)| ==>
      || (FilterConditions(date, name, uid)[i] == DateCondition && FilterParams(date, name, uid)[i] == date)
      || (FilterConditions(date, name, uid)[i] == NameCondition && FilterParams(date, name, uid)[i] == LikePattern(name))
      || (FilterConditions(date, name, uid)[i] == UidCondition && FilterParams(date, name, uid)[i] == LikePattern(uid))
    ensures date != "" ==> FilterConditions(date, name, uid)[0] == DateCondition && FilterParams(date, name, uid)[0] == date
    ensures name != "" ==>
      var k := if date != "" then 1 else 0;
      FilterConditions(date, name, uid)[k] == NameCondition && FilterParams(date, name, uid)[k] == LikePattern(name)
    ensures uid != "" ==>
      var last := |FilterParams(date, name, uid)| - 1;
      FilterConditions(date, name, uid)[last] == UidCondition && FilterParams(date, name, uid)[last] == LikePattern(uid)
    ensures forall i :: 0 <= i < |FilterConditions(date, name, uid)| ==>
      && (FilterConditions(date, name, uid)[i] == DateCondition ==> date != "")
      && (FilterConditions(date, name, uid)[i] == NameCondition ==> name != "")
      && (FilterConditions(date, name, uid)[i] == UidCondition ==> uid != "")
  {
  }

  /**
   * The statement always ends with the default ordering, and it carries a
   * WHERE clause exactly when some filter was supplied.
   */
  lemma AdminQueryShape(date: string, name: string, uid: string)
    ensures var q := AdminQuery(date, name, uid);
      |q| >= |DefaultOrder| && q[|q| - |DefaultOrder|..] == DefaultOrder
    ensures AdminQuery(date, name, uid) == SelectAll + DefaultOrder <==> date == "" && name == "" && uid == ""
  {
    var conditions := FilterConditions(date, name, uid);
    var head := if |conditions| > 0 then SelectAll + " WHERE " + Join(conditions, " AND ") else SelectAll;
    SuffixOfConcat(head, DefaultOrder);
    if |conditions| > 0 {
      assert |head| > |SelectAll|;
    }
  }

  lemma SuffixOfConcat(a: string, b: string)
    ensures (a + b)[|a + b| - |b|..] == b
  {
  }

  /** `haystack` contains `needle` as a contiguous piece. */
  predicate Contains(haystack: string, needle: string) {
    exists i :: 0 <= i <= |haystack| - |needle| && OccursAt(haystack, needle, i)
  }

  predicate OccursAt(haystack: string, needle: string, i: int) {
    0 <= i <= |haystack| - |needle| && haystack[i..i + |needle|] == needle
  }

  /** A report the filters select, reading LIKE '%x%' as a substring test. */
  predicate MatchesFilters(r: Report, date: string, name: string, uid: string) {
    && (date == "" || r.reportDate == date)
    && (name == "" || Contains(r.name, name))
    && (uid == "" || Contains(r.uid, uid))
  }

  /** The rows of `rows` the filters select, in their order. */
  function FilterRows(rows: seq<Row>, date: string, name: string, uid: string): seq<Row> {
    if rows == [] then []
    else
      (if MatchesFilters(rows[0].report, date, name, uid) then [rows[0]] else [])
      + FilterRows(rows[1..], date, name, uid)
  }

  /** Filtering keeps exactly the matching rows and does not disturb the order. */
  lemma {:induction false} FilterRowsCorrect(rows: seq<Row>, date: string, name: string, uid: string)
    ensures forall x :: x in FilterRows(rows, date, name, uid) <==> x in rows && MatchesFilters(x.report, date, name, uid)
    ensures Ordered(rows) ==> Ordered(FilterRows(rows, date, name, uid))
  {
    if rows != [] {
      var rest := FilterRows(rows[1..], date, name, uid);
      FilterRowsCorrect(rows[1..], date, name, uid);
      assert forall x :: x in rows <==> x == rows[0] || x in rows[1..];
      if Ordered(rows) {
        assert Ordered(rows[1..]) by {
          forall i, j | 0 <= i < j < |rows[1..]| ensures Precedes(rows[1..][i], rows[1..][j]) {
            assert rows[1..][i] == rows[i + 1] && rows[1..][j] == rows[j + 1];
          }
        }
        if MatchesFilters(rows[0].report, date, name, uid) {
          var all := [rows[0]] + rest;
          forall i, j | 0 <= i < j < |all| ensures Precedes(all[i], all[j]) {
            if i == 0 {
              assert all[j] in rows[1..];
              var k :| 0 <= k < |rows[1..]| && rows[1..][k] == all[j];
              assert rows[k + 1] == all[j];
            } else {
              assert all[i] == rest[i - 1] && all[j] == rest[j - 1];
            }
          }
        }
      }
    }
  }

  /** Filtering drops rows but never adds or repeats one. */
  lemma {:induction false} FilterRowsSubMultiset(rows: seq<Row>, date: string, name: string, uid: string)
    ensures multiset(FilterRows(rows, date, name, uid)) <= multiset(rows)
  {
    if rows != [] {
      FilterRowsSubMultiset(rows[1..], date, name, uid);
      assert rows == [rows[0]] + rows[1..];
    }
  }

  /** Rows with pairwise different ids stay so after filtering. */
  lemma {:induction false} FilterRowsDistinctIds(rows: seq<Row>, date: string, name: string, uid: string)
    requires forall i, j :: 0 <= i < j < |rows| ==> rows[i].id != rows[j].id
    ensures forall i, j :: 0 <= i < j < |FilterRows(rows, date, name, uid)| ==>
      FilterRows(rows, date, name, uid)[i].id != FilterRows(rows, date, name, uid)[j].id
  {
    if rows != [] {
      var tail := rows[1..];
      assert forall i, j :: 0 <= i < j < |tail| ==> tail[i].id != tail[j].id by {
        forall i, j | 0 <= i < j < |tail| ensures tail[i].id != tail[j].id {
          assert tail[i] == rows[i + 1] && tail[j] == rows[j + 1];
        }
      }
      FilterRowsDistinctIds(tail, date, name, uid);
      if MatchesFilters(rows[0].report, date, name, uid) {
        var rest := FilterRows(tail, date, name, uid);
        FilterRowsSubMultiset(tail, date, name, uid);
        HeadIdFresh(rows, rest);
      }
    }
  }

  /** The head's id is not among the ids of rows drawn from the tail. */
  lemma HeadIdFresh(rows: seq<Row>, rest: seq<Row>)
    requires rows != [] && multiset(rest) <= multiset(rows[1..])
    requires forall i, j :: 0 <= i < j < |rows| ==> rows[i].id != rows[j].id
    requires forall i, j :: 0 <= i < j < |rest| ==> rest[i].id != rest[j].id
    ensures forall i, j :: 0 <= i < j < |[rows[0]] + rest| ==> ([rows[0]] + rest)[i].id != ([rows[0]] + rest)[j].id
  {
    var all := [rows[0]] + rest;
    forall i, j | 0 <= i < j < |all| ensures all[i].id != all[j].id {
      if i == 0 {
        assert all[j] == rest[j - 1];
        assert rest[j - 1] in multiset(rest);
        assert all[j] in rows[1..];
        var k :| 0 <= k < |rows[1..]| && rows[1..][k] == all[j];
        assert rows[k + 1] == all[j];
      } else {
        assert all[i] == rest[i - 1] && all[j] == rest[j - 1];
      }
    }
  }

  /**
   * The dashboard's rows: the cache, filtered, in the default order. Every
   * listed row is a cache row that matches, every matching cache row is
   * listed exactly once, and the order is report_date then submitted_at,
   * both descending.
   */
  lemma AdminReportsCorrect(t: Table, date: string, name: string, uid: string)
    requires t.Valid()
    ensures Ordered(FilterRows(AllReports(t), date, name, uid))
    ensures forall x :: x in FilterRows(AllReports(t), date, name, uid) <==>
      x.id in t.rows && x.report == t.rows[x.id] && MatchesFilters(x.report, date, name, uid)
    ensures forall i, j :: 0 <= i < j < |FilterRows(AllReports(t), date, name, uid)| ==>
      FilterRows(AllReports(t), date, name, uid)[i].id != FilterRows(AllReports(t), date, name, uid)[j].id
  {
    AllReportsCorrect(t);
    AllReportsOnce(t);
    FilterRowsCorrect(AllReports(t), date, name, uid);
    FilterRowsDistinctIds(AllReports(t), date, name, uid);
  }

  // ---------------------------------------------------------------------
  // Team ids
  // ---------------------------------------------------------------------

  predicate IsAsciiAlnum(c: char) {
    ('a' <= c <= 'z') || ('A' <= c <= 'Z') || ('0' <= c <= '9')
  }

  /** The characters of `s` that satisfy `keep`, in order. */
  function Keep(s: string, keep: char -> bool): (r: string)
    ensures |r| <= |s|
    ensures forall i :: 0 <= i < |r| ==> keep(r[i])
  {
    if s == [] then []
    else (if keep(s[0]) then [s[0]] else []) + Keep(s[1..], keep)
  }

  /** A character is kept exactly when it occurs in `s` and passes. */
  lemma {:induction false} KeepMembers(s: string, keep: char -> bool)
    ensures forall c :: c in Keep(s, keep) <==> c in s && keep(c)
  {
    if s != [] {
      KeepMembers(s[1..], keep);
      assert s == [s[0]] + s[1..];
    }
  }

  /**
   * Filtering works piece by piece: the kept characters of `a + b` are
   * those of `a` followed by those of `b`, so order and repetition are
   * kept as they were.
   */
  lemma {:induction false} KeepConcat(a: string, b: string, keep: char -> bool)
    ensures Keep(a + b, keep) == Keep(a, keep) + Keep(b, keep)
  {
    if a == [] {
      assert a + b == b;
    } else {
      var head := if keep(a[0]) then [a[0]] else [];
      assert (a + b)[0] == a[0] && (a + b)[1..] == a[1..] + b;
      assert Keep(a + b, keep) == head + Keep(a[1..] + b, keep);
      KeepConcat(a[1..], b, keep);
      assert Keep(a, keep) == head + Keep(a[1..], keep);
    }
  }

  /** A single character is kept exactly when it passes. */
  lemma KeepOne(c: char, keep: char -> bool)
    ensures Keep([c], keep) == if keep(c) then [c] else []
  {
  }

  predicate NotWhitespace(c: char) {
    !IsWhitespace(c)
  }

  /** Both filters pass. */
  function Both(p: char -> bool, q: char -> bool): char -> bool {
    c => p(c) && q(c)
  }

  /** `s.replace(/\s+/g, '')`. */
  function RemoveWhitespace(s: string): string {
    Keep(s, NotWhitespace)
  }

  /** `s.replace(/[^a-zA-Z0-9]/g, '')`. */
  function KeepAlnum(s: string): string {
    Keep(s, IsAsciiAlnum)
  }

  /** The team id `GET /admin/edit/:id` derives from a team key. */
  function TeamId(key: string): (id: string)
    ensures forall i :: 0 <= i < |id| ==> IsAsciiAlnum(id[i])
    ensures forall c :: c in id <==> c in key && IsAsciiAlnum(c)
  {
    KeepMembers(key, NotWhitespace);
    KeepMembers(RemoveWhitespace(key), IsAsciiAlnum);
    KeepAlnum(RemoveWhitespace(key))
  }

  /** Keeping characters that all pass already changes nothing. */
  lemma {:induction false} KeepAllKept(s: string, keep: char -> bool)
    requires forall i :: 0 <= i < |s| ==> keep(s[i])
    ensures Keep(s, keep) == s
  {
    if s != [] {
      KeepAllKept(s[1..], keep);
      assert [s[0]] + s[1..] == s;
    }
  }

  /** Two filters in a row are one filter by the conjunction. */
  lemma {:induction false} KeepKeep(s: string, p: char -> bool, q: char -> bool)
    ensures Keep(Keep(s, p), q) == Keep(s, Both(p, q))
  {
    if s != [] {
      KeepKeep(s[1..], p, q);
      var tail := Keep(s[1..], p);
      if p(s[0]) {
        assert Keep(s, p) == [s[0]] + tail;
        assert ([s[0]] + tail)[1..] == tail;
        assert Keep(Keep(s, p), q) == (if q(s[0]) then [s[0]] else []) + Keep(tail, q);
      } else {
        assert Keep(s, p) == tail;
      }
    }
  }

  /** The sanitiser is idempotent. */
  lemma TeamIdIdempotent(key: string)
    ensures TeamId(TeamId(key)) == TeamId(key)
  {
    var id := TeamId(key);
    forall i | 0 <= i < |id| ensures !IsWhitespace(id[i]) {
      assert IsAsciiAlnum(id[i]);
    }
    KeepAllKept(id, NotWhitespace);
    KeepAllKept(id, IsAsciiAlnum);
  }

  /** Removing white space first makes no difference: white space is not alphanumeric. */
  lemma TeamIdIsKeepAlnum(key: string)
    ensures TeamId(key) == KeepAlnum(key)
  {
    KeepKeep(key, NotWhitespace, IsAsciiAlnum);
    KeepSame(key, Both(NotWhitespace, IsAsciiAlnum), IsAsciiAlnum);
  }

  /** Filters that agree on every character agree. */
  lemma {:induction false} KeepSame(s: string, p: char -> bool, q: char -> bool)
    requires forall c :: p(c) == q(c)
    ensures Keep(s, p) == Keep(s, q)
  {
    if s != [] {
      KeepSame(s[1..], p, q);
    }
  }

  /** The team-key to team-id mapping handed to the edit form. */
  function TeamMapping(keys: set<string>): (m: map<string, string>)
    ensures m.Keys == keys
    ensures forall k :: k in keys ==> m[k] == TeamId(k)
  {
    map k | k in keys :: TeamId(k)
  }

  // ---------------------------------------------------------------------
  // Admin login
  // ---------------------------------------------------------------------

  /** The credentials used when the environment does not set them. */
  const DefaultAdminUsername: string := "admin"
  const DefaultAdminPassword: string := "admin123"

  /** `POST /admin/login`: the lowercased username and the exact password must match. */
  predicate LoginOk(username: string, password: string, adminUsername: string, adminPassword: string) {
    AsciiLower(username) == adminUsername && password == adminPassword
  }

  /** Usernames that differ only in letter case are treated alike. */
  lemma LoginIgnoresCase(u1: string, u2: string, password: string, adminUsername: string, adminPassword: string)
    requires |u1| == |u2| && forall i :: 0 <= i < |u1| ==> LowerChar(u1[i]) == LowerChar(u2[i])
    ensures LoginOk(u1, password, adminUsername, adminPassword) == LoginOk(u2, password, adminUsername, adminPassword)
  {
    assert AsciiLower(u1) == AsciiLower(u2);
  }

  /** An admin username with an upper-case letter can never be matched. */
  lemma UpperCaseAdminNeverMatches(username: string, password: string, adminUsername: string, adminPassword: string)
    requires exists i :: 0 <= i < |adminUsername| && IsAsciiUpper(adminUsername[i])
    ensures !LoginOk(username, password, adminUsername, adminPassword)
  {
  }

  /** With the default credentials, "ADMIN" / "admin123" is accepted and a wrong-case password is not. */
  lemma DefaultLoginExamples()
    ensures LoginOk("ADMIN", "admin123", DefaultAdminUsername, DefaultAdminPassword)
    ensures !LoginOk("admin", "ADMIN123", DefaultAdminUsername, DefaultAdminPassword)
  {
    assert AsciiLower("ADMIN") == "admin";
  }
}
