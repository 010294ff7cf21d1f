/**
 * The `reports` table both stores declare (dbManager.js, SQLite and
 * PostgreSQL schemas): an auto-increment id, six NOT NULL text columns and
 * UNIQUE(uid, report_date). A table is a value here; each SQL statement the
 * data-access layer issues is a function from the table before to the table
 * after (and the statement's error or row count). `activities` is kept as
 * the list of name/count pairs that the JSON text in the column encodes.
 */
module ReportTable {
  import opened Wrappers
  import opened JsText

  /** One `{name, count}` entry of a report. */
  datatype Activity = Activity(name: string, count: string)

  /** The columns of one row other than `id`. */
  datatype Report = Report(
    uid: string,
    name: string,
    team: string,
    activities: seq<Activity>,
    reportDate: string,
    submittedAt: string)

  /** The columns `UPDATE reports SET uid=?, name=?, team=?, activities=?, report_date=?` writes. */
  datatype Fields = Fields(
    uid: string,
    name: string,
    team: string,
    activities: seq<Activity>,
    reportDate: string)

  /** A row as `SELECT *` returns it. */
  datatype Row = Row(id: nat, report: Report)

  /** What a statement or the data-access layer can raise. */
  datatype StoreError =
    | UniqueViolation   // UNIQUE(uid, report_date) would be broken
    | ReportNotFound    // "Original report not found in SQLite"

  /** The rows by id, and the next value of the AUTOINCREMENT / SERIAL counter. */
  datatype Table = Table(rows: map<nat, Report>, nextId: nat) {
    /** Every id was handed out by the counter, and no two rows share (uid, report_date). */
    ghost predicate Valid() {
      && (forall id :: id in rows ==> id < nextId)
      && UniqueKeys(rows)
    }
  }

  predicate HasKey(r: Report, uid: string, reportDate: string) {
    r.uid == uid && r.reportDate == reportDate
  }

  predicate UniqueKeys(rows: map<nat, Report>) {
    forall i, j :: i in rows && j in rows && HasKey(rows[j], rows[i].uid, rows[i].reportDate) ==> i == j
  }

  function WithFields(r: Report, f: Fields): Report {
    r.(uid := f.uid, name := f.name, team := f.team, activities := f.activities, reportDate := f.reportDate)
  }

  /** The ids `WHERE uid = ? AND report_date = ?` selects. */
  function IdsWithKey(t: Table, uid: string, reportDate: string): set<nat> {
    set id | id in t.rows && HasKey(t.rows[id], uid, reportDate)
  }

  /** In a valid table a row is the only one with its (uid, report_date). */
  lemma OnlyRowWithPair(t: Table, id: nat)
    requires t.Valid() && id in t.rows
    ensures IdsWithKey(t, t.rows[id].uid, t.rows[id].reportDate) == {id}
  {
  }

  /** The ids `WHERE uid = ?` selects. */
  function IdsWithUid(t: Table, uid: string): set<nat> {
    set id | id in t.rows && t.rows[id].uid == uid
  }

  /**
   * `SELECT id FROM reports WHERE uid = ? AND report_date = ?`: the row
   * with that pair if there is one; on a valid table there is at most one.
   */
  function FindKey(t: Table, uid: string, reportDate: string): (r: Option<nat>)
    requires t.Valid()
    ensures r.Some? <==> exists id :: id in t.rows && HasKey(t.rows[id], uid, reportDate)
    ensures r.Some? ==> IdsWithKey(t, uid, reportDate) == {r.value}
  {
    if IdsWithKey(t, uid, reportDate) == {} then
      assert forall id :: id in t.rows && HasKey(t.rows[id], uid, reportDate) ==> id in IdsWithKey(t, uid, reportDate);
      None
    else
      var id :| id in IdsWithKey(t, uid, reportDate);
      Some(id)
  }

  /**
   * `INSERT INTO reports (...) VALUES (...)`: refused when the pair is
   * taken; otherwise the row gets the counter's value as its id.
   */
  function Insert(t: Table, r: Report): (res: Result<(Table, nat), StoreError>)
    ensures res.Failure? <==> exists id :: id in t.rows && HasKey(t.rows[id], r.uid, r.reportDate)
    ensures res.Failure? ==> res.error == UniqueViolation
    ensures res.Success? ==> res.value.1 == t.nextId && res.value.0.nextId == t.nextId + 1
    ensures t.Valid() && res.Success? ==>
      && res.value.0.Valid()
      && res.value.0.rows.Keys == t.rows.Keys + {res.value.1}
      && res.value.0.rows[res.value.1] == r
      && (forall id :: id in t.rows ==> res.value.0.rows[id] == t.rows[id])
  {
    if IdsWithKey(t, r.uid, r.reportDate) != {} then
      assert exists id :: id in IdsWithKey(t, r.uid, r.reportDate);
      Failure(UniqueViolation)
    else
      assert forall id :: id in t.rows && HasKey(t.rows[id], r.uid, r.reportDate) ==> id in IdsWithKey(t, r.uid, r.reportDate);
      Success((Table(t.rows[t.nextId := r], t.nextId + 1), t.nextId))
  }

  /**
   * SQLite's `INSERT OR REPLACE` without an id: the row holding the same
   * (uid, report_date), if any, is deleted, and the new row is inserted
   * under a NEW id from the counter.
   */
  function InsertOrReplace(t: Table, r: Report): (res: (Table, nat))
    ensures res.1 == t.nextId && res.0.nextId == t.nextId + 1
    ensures t.Valid() ==>
      && res.0.Valid()
      && res.0.rows.Keys == (t.rows.Keys - IdsWithKey(t, r.uid, r.reportDate)) + {res.1}
      && res.0.rows[res.1] == r
      && IdsWithKey(res.0, r.uid, r.reportDate) == {res.1}
      && (forall id :: id in t.rows && !HasKey(t.rows[id], r.uid, r.reportDate) ==>
            id in res.0.rows && res.0.rows[id] == t.rows[id])
  {
    var kept := t.rows - IdsWithKey(t, r.uid, r.reportDate);
    (Table(kept[t.nextId := r], t.nextId + 1), t.nextId)
  }

  /** The rows after `UPDATE ... SET uid, name, team, activities, report_date` on `ids`. */
  function SetFields(rows: map<nat, Report>, ids: set<nat>, f: Fields): map<nat, Report> {
    map id | id in rows :: if id in ids then WithFields(rows[id], f) else rows[id]
  }

  /**
   * `UPDATE reports SET uid=?, name=?, team=?, activities=?, report_date=? WHERE ...`
   * on the rows `ids` selects: the new table and the affected row count,
   * or a unique-constraint error, in which case nothing changes.
   */
  function Update(t: Table, ids: set<nat>, f: Fields): (res: Result<(Table, nat), StoreError>)
    ensures res.Success? ==> res.value.1 == |ids * t.rows.Keys|
    ensures res.Success? && t.Valid() ==> res.value.0.Valid()
    ensures res.Failure? ==> res.error == UniqueViolation
  {
    var after := SetFields(t.rows, ids, f);
    if UniqueKeys(after) then Success((Table(after, t.nextId), |ids * t.rows.Keys|))
    else Failure(UniqueViolation)
  }

  /**
   * When an UPDATE that sets every selected row to the same (uid,
   * report_date) succeeds: it fails exactly when it selects two rows or
   * more, or when it selects one row and another row already holds the
   * new pair.
   */
  lemma UpdateOutcome(t: Table, ids: set<nat>, f: Fields)
    requires t.Valid()
    ensures Update(t, ids, f).Success? <==>
      || ids * t.rows.Keys == {}
      || (|ids * t.rows.Keys| == 1 && IdsWithKey(t, f.uid, f.reportDate) <= ids)
  {
    var hit := ids * t.rows.Keys;
    if hit == {} {
      UpdateSelectsNone(t, ids, f);
    } else if |hit| == 1 {
      var k :| k in hit;
      assert |hit - {k}| == 0;
      assert hit == {k};
      UpdateSelectsOne(t, ids, f, k);
    } else {
      var a :| a in hit;
      assert |hit - {a}| == |hit| - 1;
      var b :| b in hit - {a};
      var after := SetFields(t.rows, ids, f);
      assert HasKey(after[b], after[a].uid, after[a].reportDate);
    }
  }

  /** An UPDATE that selects no row succeeds, affects 0 rows and changes nothing. */
  lemma UpdateNone(t: Table, ids: set<nat>, f: Fields)
    requires t.Valid() && ids * t.rows.Keys == {}
    ensures Update(t, ids, f) == Success((t, 0))
  {
    UpdateSelectsNone(t, ids, f);
  }

  /**
   * An UPDATE that selects exactly the row `k` succeeds unless another row
   * holds the new pair, and then rewrites `k` alone.
   */
  lemma UpdateOne(t: Table, ids: set<nat>, f: Fields, k: nat)
    requires t.Valid() && ids * t.rows.Keys == {k}
    ensures Update(t, ids, f).Success? <==> IdsWithKey(t, f.uid, f.reportDate) <= {k}
    ensures Update(t, ids, f).Success? ==>
      Update(t, ids, f).value == (Table(t.rows[k := WithFields(t.rows[k], f)], t.nextId), 1)
  {
    UpdateSelectsOne(t, ids, f, k);
    var after := SetFields(t.rows, ids, f);
    forall id | id in t.rows && id != k ensures after[id] == t.rows[id] {
      assert id !in ids * t.rows.Keys;
    }
    assert after == t.rows[k := WithFields(t.rows[k], f)];
    if IdsWithKey(t, f.uid, f.reportDate) <= ids {
      forall id | id in IdsWithKey(t, f.uid, f.reportDate) ensures id == k {
        assert id in ids * t.rows.Keys;
      }
    }
  }

  /** An UPDATE that selects two rows or more breaks UNIQUE(uid, report_date). */
  lemma UpdateMany(t: Table, ids: set<nat>, f: Fields)
    requires t.Valid() && |ids * t.rows.Keys| >= 2
    ensures Update(t, ids, f) == Failure(UniqueViolation)
  {
    UpdateOutcome(t, ids, f);
  }

  lemma UpdateSelectsNone(t: Table, ids: set<nat>, f: Fields)
    requires t.Valid() && ids * t.rows.Keys == {}
    ensures SetFields(t.rows, ids, f) == t.rows
  {
    forall id | id in t.rows ensures id !in ids {
      assert id !in ids * t.rows.Keys;
    }
  }

  lemma UpdateSelectsOne(t: Table, ids: set<nat>, f: Fields, k: nat)
    requires t.Valid() && ids * t.rows.Keys == {k}
    ensures UniqueKeys(SetFields(t.rows, ids, f)) <==> IdsWithKey(t, f.uid, f.reportDate) <= ids
  {
    var after := SetFields(t.rows, ids, f);
    forall id | id in t.rows && id != k ensures id !in ids && after[id] == t.rows[id] {
      assert id !in ids * t.rows.Keys;
    }
    assert after[k] == WithFields(t.rows[k], f);
    if IdsWithKey(t, f.uid, f.reportDate) <= ids {
      forall i, j | i in after && j in after && HasKey(after[j], after[i].uid, after[i].reportDate)
        ensures i == j
      {
        if i != k && j != k {
          assert HasKey(t.rows[j], t.rows[i].uid, t.rows[i].reportDate);
        }
      }
    } else {
      var o :| o in IdsWithKey(t, f.uid, f.reportDate) && o !in ids;
      assert HasKey(after[o], after[k].uid, after[k].reportDate);
    }
  }

  /** `UPDATE reports SET submitted_at = ? WHERE ...` on the rows `ids` selects. */
  function SetSubmittedAt(t: Table, ids: set<nat>, v: string): (res: Table)
    ensures res.rows.Keys == t.rows.Keys && res.nextId == t.nextId
    ensures forall id :: id in t.rows ==>
      res.rows[id] == if id in ids then t.rows[id].(submittedAt := v) else t.rows[id]
    ensures t.Valid() ==> res.Valid()
  {
    Table(map id | id in t.rows :: if id in ids then t.rows[id].(submittedAt := v) else t.rows[id], t.nextId)
  }

  /**
   * PostgreSQL's `INSERT ... ON CONFLICT (uid, report_date) DO UPDATE SET
   * name, team, activities`: a new row when the pair is free; otherwise the
   * row holding it takes the new name, team and activities and keeps its id
   * and submitted_at.
   */
  function Upsert(t: Table, r: Report): (res: Table)
    ensures t.Valid() ==> res.Valid()
    ensures IdsWithKey(t, r.uid, r.reportDate) == {} ==> res == Table(t.rows[t.nextId := r], t.nextId + 1)
    ensures IdsWithKey(t, r.uid, r.reportDate) != {} ==> res.rows.Keys == t.rows.Keys && res.nextId == t.nextId
    ensures forall id :: id in IdsWithKey(t, r.uid, r.reportDate) ==>
      id in res.rows && res.rows[id] == t.rows[id].(name := r.name, team := r.team, activities := r.activities)
    ensures t.Valid() ==> forall id :: id in t.rows && !HasKey(t.rows[id], r.uid, r.reportDate) ==>
      id in res.rows && res.rows[id] == t.rows[id]
  {
    var hits := IdsWithKey(t, r.uid, r.reportDate);
    if hits == {} then
      assert forall id :: id in t.rows && HasKey(t.rows[id], r.uid, r.reportDate) ==> id in hits;
      var res := Table(t.rows[t.nextId := r], t.nextId + 1);
      assert res.rows[t.nextId] == r;
      res
    else
      Table(map id | id in t.rows ::
              if id in hits then t.rows[id].(name := r.name, team := r.team, activities := r.activities)
              else t.rows[id],
            t.nextId)
  }

  /**
   * After the upsert some row holds the pair with the new name, team and
   * activities; a row that already held the pair keeps its id and
   * submitted_at.
   */
  lemma UpsertHoldsRow(t: Table, r: Report)
    requires t.Valid()
    ensures exists id :: (id in Upsert(t, r).rows && HasKey(Upsert(t, r).rows[id], r.uid, r.reportDate)
      && Upsert(t, r).rows[id].name == r.name && Upsert(t, r).rows[id].team == r.team
      && Upsert(t, r).rows[id].activities == r.activities)
    ensures forall id :: id in IdsWithKey(t, r.uid, r.reportDate) ==>
      id in Upsert(t, r).rows && Upsert(t, r).rows[id].submittedAt == t.rows[id].submittedAt
  {
    var u := Upsert(t, r);
    var hits := IdsWithKey(t, r.uid, r.reportDate);
    if hits == {} {
      assert u.rows[t.nextId] == r;
    } else {
      var h :| h in hits;
      assert HasKey(u.rows[h], r.uid, r.reportDate);
    }
  }

  /** The rows with ids in [lo, hi), in increasing id order. */
  function ScanFrom(rows: map<nat, Report>, lo: nat, hi: nat): seq<Row>
    decreases hi - lo
  {
    if lo >= hi then []
    else (if lo in rows then [Row(lo, rows[lo])] else []) + ScanFrom(rows, lo + 1, hi)
  }

  /** Every row the scan lists is a stored row with an id in [lo, hi), as stored. */
  lemma {:induction false} ScanFromRows(rows: map<nat, Report>, lo: nat, hi: nat)
    decreases hi - lo
    ensures forall k :: 0 <= k < |ScanFrom(rows, lo, hi)| ==>
      && lo <= ScanFrom(rows, lo, hi)[k].id < hi
      && ScanFrom(rows, lo, hi)[k].id in rows
      && ScanFrom(rows, lo, hi)[k].report == rows[ScanFrom(rows, lo, hi)[k].id]
  {
    if lo < hi {
      ScanFromRows(rows, lo + 1, hi);
      var head := if lo in rows then [Row(lo, rows[lo])] else [];
      var rest := ScanFrom(rows, lo + 1, hi);
      var s := head + rest;
      assert ScanFrom(rows, lo, hi) == s;
      forall k | 0 <= k < |s| ensures lo <= s[k].id < hi && s[k].id in rows && s[k].report == rows[s[k].id] {
        if k < |head| {
          assert s[k] == head[k];
        } else {
          assert s[k] == rest[k - |head|];
        }
      }
    }
  }

  /** The scan lists ids in strictly increasing order. */
  lemma {:induction false} ScanFromIncreasing(rows: map<nat, Report>, lo: nat, hi: nat)
    decreases hi - lo
    ensures forall k, l :: 0 <= k < l < |ScanFrom(rows, lo, hi)| ==> ScanFrom(rows, lo, hi)[k].id < ScanFrom(rows, lo, hi)[l].id
  {
    if lo < hi {
      ScanFromIncreasing(rows, lo + 1, hi);
      ScanFromRows(rows, lo + 1, hi);
      var head := if lo in rows then [Row(lo, rows[lo])] else [];
      var rest := ScanFrom(rows, lo + 1, hi);
      var s := head + rest;
      assert ScanFrom(rows, lo, hi) == s;
      forall k, l | 0 <= k < l < |s| ensures s[k].id < s[l].id {
        assert s[l] == rest[l - |head|];
        if k < |head| {
          assert s[k] == head[k];
        } else {
          assert s[k] == rest[k - |head|];
        }
      }
    }
  }

  /** Every stored row with an id in [lo, hi) is listed. */
  lemma {:induction false} ScanFromComplete(rows: map<nat, Report>, lo: nat, hi: nat)
    decreases hi - lo
    ensures forall id :: lo <= id < hi && id in rows ==> Row(id, rows[id]) in ScanFrom(rows, lo, hi)
  {
    if lo < hi {
      ScanFromComplete(rows, lo + 1, hi);
      var head := if lo in rows then [Row(lo, rows[lo])] else [];
      var rest := ScanFrom(rows, lo + 1, hi);
      var s := head + rest;
      assert ScanFrom(rows, lo, hi) == s;
      forall id | lo <= id < hi && id in rows ensures Row(id, rows[id]) in s {
        if id == lo {
          assert s[0] == Row(lo, rows[lo]);
        } else {
          assert Row(id, rows[id]) in rest;
        }
      }
    }
  }

  /** `SELECT * FROM reports ORDER BY id`. */
  function Scan(t: Table): seq<Row> {
    ScanFrom(t.rows, 0, t.nextId)
  }

  /** On a valid table the id scan lists every row exactly as stored, in increasing id order. */
  lemma ScanFacts(t: Table)
    requires t.Valid()
    ensures forall k :: 0 <= k < |Scan(t)| ==> Scan(t)[k].id in t.rows && Scan(t)[k].report == t.rows[Scan(t)[k].id]
    ensures forall k, l :: 0 <= k < l < |Scan(t)| ==> Scan(t)[k].id < Scan(t)[l].id
    ensures forall id :: id in t.rows ==> Row(id, t.rows[id]) in Scan(t)
  {
    ScanFromRows(t.rows, 0, t.nextId);
    ScanFromIncreasing(t.rows, 0, t.nextId);
    ScanFromComplete(t.rows, 0, t.nextId);
  }

  /** The rows of a valid table in id order have pairwise different (uid, report_date). */
  lemma ScanKeysDistinct(t: Table)
    requires t.Valid()
    ensures forall k, l :: 0 <= k < l < |Scan(t)| ==>
      !HasKey(Scan(t)[l].report, Scan(t)[k].report.uid, Scan(t)[k].report.reportDate)
  {
    ScanFacts(t);
  }

  /**
   * `a` may be listed before `b` under `ORDER BY report_date DESC,
   * submitted_at DESC`.
   */
  predicate Precedes(a: Row, b: Row) {
    if a.report.reportDate != b.report.reportDate then LexLeq(b.report.reportDate, a.report.reportDate)
    else LexLeq(b.report.submittedAt, a.report.submittedAt)
  }

  lemma PrecedesTotal(a: Row, b: Row)
    ensures Precedes(a, b) || Precedes(b, a)
  {
    LexLeqTotal(a.report.reportDate, b.report.reportDate);
    LexLeqTotal(a.report.submittedAt, b.report.submittedAt);
  }

  lemma PrecedesTransitive(a: Row, b: Row, c: Row)
    requires Precedes(a, b) && Precedes(b, c)
    ensures Precedes(a, c)
  {
    var da, db, dc := a.report.reportDate, b.report.reportDate, c.report.reportDate;
    if da != db && db != dc {
      LexLeqTransitive(dc, db, da);
      if da == dc {
        LexLeqAntisymmetric(da, db);
      }
    } else if da == db && db == dc {
      LexLeqTransitive(c.report.submittedAt, b.report.submittedAt, a.report.submittedAt);
    }
  }

  predicate Ordered(s: seq<Row>) {
    forall i, j :: 0 <= i < j < |s| ==> Precedes(s[i], s[j])
  }

  /** `x` precedes everything in `s` once it precedes the first element of the ordered `s`. */
  lemma PrecedesAll(x: Row, s: seq<Row>)
    requires Ordered(s) && s != [] && Precedes(x, s[0])
    ensures forall j :: 0 <= j < |s| ==> Precedes(x, s[j])
  {
    forall j | 0 <= j < |s| ensures Precedes(x, s[j]) {
      if j > 0 {
        PrecedesTransitive(x, s[0], s[j]);
      }
    }
  }

  /** Insert `x` into ordered `s` ahead of every row it ties with (a stable insertion). */
  function InsertOrdered(x: Row, s: seq<Row>): seq<Row> {
    if s == [] then [x]
    else if Precedes(x, s[0]) then [x] + s
    else [s[0]] + InsertOrdered(x, s[1..])
  }

  lemma {:induction false} InsertOrderedCounts(x: Row, s: seq<Row>)
    ensures multiset(InsertOrdered(x, s)) == multiset(s) + multiset{x}
  {
    if s != [] && !Precedes(x, s[0]) {
      InsertOrderedCounts(x, s[1..]);
      assert s == [s[0]] + s[1..];
    }
  }

  lemma {:induction false} InsertOrderedOrdered(x: Row, s: seq<Row>)
    requires Ordered(s)
    ensures Ordered(InsertOrdered(x, s))
  {
    if s == [] {
    } else if Precedes(x, s[0]) {
      PrecedesAll(x, s);
    } else {
      PrecedesTotal(x, s[0]);
      var rest := InsertOrdered(x, s[1..]);
      InsertOrderedOrdered(x, s[1..]);
      HeadPrecedesInserted(x, s);
      var r := [s[0]] + rest;
      forall i, j | 0 <= i < j < |r| ensures Precedes(r[i], r[j]) {
        if i > 0 {
          assert r[i] == rest[i - 1] && r[j] == rest[j - 1];
        }
      }
    }
  }

  /** The head of an ordered list precedes every row of its tail with `x` inserted, when it precedes `x`. */
  lemma HeadPrecedesInserted(x: Row, s: seq<Row>)
    requires Ordered(s) && s != [] && Precedes(s[0], x)
    ensures forall k :: 0 <= k < |InsertOrdered(x, s[1..])| ==> Precedes(s[0], InsertOrdered(x, s[1..])[k])
  {
    var rest := InsertOrdered(x, s[1..]);
    InsertOrderedCounts(x, s[1..]);
    forall k | 0 <= k < |rest| ensures Precedes(s[0], rest[k]) {
      assert rest[k] in multiset(rest);
      if rest[k] != x {
        assert rest[k] in s[1..];
        var m :| 0 <= m < |s[1..]| && s[1..][m] == rest[k];
        assert s[m + 1] == rest[k];
      }
    }
  }

  /** The engine's sort: a stable insertion sort under `Precedes`. */
  function SortRows(s: seq<Row>): seq<Row> {
    if s == [] then [] else InsertOrdered(s[0], SortRows(s[1..]))
  }

  /** Sorting orders the rows and neither drops nor duplicates any. */
  lemma {:induction false} SortRowsCorrect(s: seq<Row>)
    ensures Ordered(SortRows(s))
    ensures multiset(SortRows(s)) == multiset(s)
  {
    if s != [] {
      SortRowsCorrect(s[1..]);
      InsertOrderedOrdered(s[0], SortRows(s[1..]));
      InsertOrderedCounts(s[0], SortRows(s[1..]));
      assert s == [s[0]] + s[1..];
    }
  }

  /** A sequence whose ids strictly increase holds every row at most once. */
  lemma {:induction false} IncreasingIdsOnce(s: seq<Row>)
    requires forall k, l :: 0 <= k < l < |s| ==> s[k].id < s[l].id
    ensures forall x :: multiset(s)[x] <= 1
  {
    if s != [] {
      IncreasingIdsOnce(s[1..]);
      assert s == [s[0]] + s[1..];
      assert s[0] !in s[1..];
    }
  }

  /** A row listed at two positions occurs twice in the multiset. */
  lemma TwiceListed(s: seq<Row>, i: nat, j: nat)
    requires i < j < |s| && s[i] == s[j]
    ensures multiset(s)[s[i]] >= 2
  {
    assert s == s[..j] + [s[j]] + s[j + 1..];
    assert s[i] in s[..j];
  }

  /** With pairwise different ids, a sequence has as many elements as ids. */
  lemma {:induction false} DistinctIdsCount(s: seq<Row>)
    requires forall i, j :: 0 <= i < j < |s| ==> s[i].id != s[j].id
    ensures |set k | 0 <= k < |s| :: s[k].id| == |s|
  {
    if s != [] {
      var n := |s| - 1;
      DistinctIdsCount(s[..n]);
      var before := set k | 0 <= k < n :: s[..n][k].id;
      var all := set k | 0 <= k < |s| :: s[k].id;
      assert all == before + {s[n].id} by {
        forall x | x in all ensures x in before + {s[n].id} {
          var k :| 0 <= k < |s| && s[k].id == x;
          if k < n {
            assert s[..n][k].id == x;
          }
        }
      }
      assert s[n].id !in before;
    }
  }

  /**
   * `SELECT * FROM reports ORDER BY report_date DESC, submitted_at DESC`,
   * the default query of `getAllReports`.
   */
  function AllReports(t: Table): seq<Row> {
    SortRows(Scan(t))
  }

  /** The default listing holds exactly the rows of the table, in the ORDER BY order. */
  lemma AllReportsCorrect(t: Table)
    requires t.Valid()
    ensures Ordered(AllReports(t))
    ensures forall x :: x in AllReports(t) <==> x.id in t.rows && x.report == t.rows[x.id]
  {
    ScanFacts(t);
    SortRowsCorrect(Scan(t));
    assert forall x :: x in AllReports(t) <==> x in multiset(Scan(t));
  }

  /** Rows that agree with one map and occur once each have pairwise different ids. */
  lemma OnceMeansDistinctIds(r: seq<Row>, rows: map<nat, Report>)
    requires forall k :: 0 <= k < |r| ==> r[k].id in rows && r[k].report == rows[r[k].id]
    requires forall x :: multiset(r)[x] <= 1
    ensures forall i, j :: 0 <= i < j < |r| ==> r[i].id != r[j].id
  {
    forall i, j | 0 <= i < j < |r| ensures r[i].id != r[j].id {
      if r[i].id == r[j].id {
        assert r[i] == r[j];
        TwiceListed(r, i, j);
      }
    }
  }

  /** The default listing holds every row exactly once. */
  lemma AllReportsOnce(t: Table)
    requires t.Valid()
    ensures forall i, j :: 0 <= i < j < |AllReports(t)| ==> AllReports(t)[i].id != AllReports(t)[j].id
  {
    var r := AllReports(t);
    var scan := Scan(t);
    ScanFacts(t);
    SortRowsCorrect(scan);
    IncreasingIdsOnce(scan);
    assert multiset(r) == multiset(scan);
    assert forall k :: 0 <= k < |r| ==> r[k] in multiset(scan);
    assert forall k :: 0 <= k < |r| ==> r[k].id in t.rows && r[k].report == t.rows[r[k].id];
    OnceMeansDistinctIds(r, t.rows);
  }

  /** The default listing is exactly as long as the table. */
  lemma AllReportsCount(t: Table)
    requires t.Valid()
    ensures |AllReports(t)| == |t.rows|
  {
    var r := AllReports(t);
    AllReportsCorrect(t);
    AllReportsOnce(t);
    var ids := set k | 0 <= k < |r| :: r[k].id;
    assert ids == t.rows.Keys by {
      forall id | id in t.rows ensures id in ids {
        assert Row(id, t.rows[id]) in r;
      }
    }
    DistinctIdsCount(r);
  }
}
