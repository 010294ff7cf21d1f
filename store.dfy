/**
 * `DatabaseManager` (dbManager.js): one object that owns the local cache
 * store (SQLite, `this.sqliteDb`) and the primary store (PostgreSQL,
 * `this.pgPool`) and mirrors every write into both. The primary store is
 * best-effort: whether it can be reached is the parameter `primaryUp`, and
 * every primary error is swallowed. Cache errors are returned to the caller.
 */
module Store {
  import opened Wrappers
  import opened ReportTable

  /** Some row of `t` holds the (uid, report_date) of `r`. */
  ghost predicate PairIn(t: Table, r: Report) {
    exists id :: id in t.rows && HasKey(t.rows[id], r.uid, r.reportDate)
  }

  /**
   * The primary store after the three-step fallback of `updateReport`:
   * update the row with the original (uid, report_date); if none was
   * affected, update every row with the original uid; if still none,
   * insert the new values with the original submitted_at, or on a clash of
   * (uid, report_date) overwrite name, team and activities. An error in any
   * step leaves the primary store as it was.
   */
  function PrimaryAfterUpdate(p: Table, original: Report, data: Fields): (q: Table)
    ensures p.Valid() ==> q.Valid()
  {
    var step1 := Update(p, IdsWithKey(p, original.uid, original.reportDate), data);
    if step1.Failure? then p
    else if step1.value.1 != 0 then step1.value.0
    else
      var step2 := Update(p, IdsWithUid(p, original.uid), data);
      if step2.Failure? then p
      else if step2.value.1 != 0 then step2.value.0
      else Upsert(p, Report(data.uid, data.name, data.team, data.activities, data.reportDate, original.submittedAt))
  }

  /**
   * Step 1: the row `k` holding the original pair is rewritten, unless
   * another row already holds the new pair, in which case the UPDATE fails
   * and the primary store keeps its rows.
   */
  lemma PrimaryUpdateByKey(p: Table, original: Report, data: Fields, k: nat)
    requires p.Valid() && IdsWithKey(p, original.uid, original.reportDate) == {k}
    ensures PrimaryAfterUpdate(p, original, data) ==
      if IdsWithKey(p, data.uid, data.reportDate) <= {k}
      then Table(p.rows[k := WithFields(p.rows[k], data)], p.nextId) else p
  {
    UpdateOne(p, IdsWithKey(p, original.uid, original.reportDate), data, k);
  }

  /**
   * Step 2: with no row for the original pair but exactly one row `k` for
   * the original uid, that row is rewritten whatever its report_date, so a
   * report of another day takes the edited values.
   */
  lemma PrimaryUpdateByUid(p: Table, original: Report, data: Fields, k: nat)
    requires p.Valid() && IdsWithKey(p, original.uid, original.reportDate) == {}
    requires IdsWithUid(p, original.uid) == {k}
    ensures PrimaryAfterUpdate(p, original, data) ==
      if IdsWithKey(p, data.uid, data.reportDate) <= {k}
      then Table(p.rows[k := WithFields(p.rows[k], data)], p.nextId) else p
  {
    UpdateNone(p, IdsWithKey(p, original.uid, original.reportDate), data);
    UpdateOne(p, IdsWithUid(p, original.uid), data, k);
  }

  /**
   * Step 2 with two or more rows for the original uid: setting them all to
   * one (uid, report_date) breaks UNIQUE, the error is swallowed and the
   * primary store does not change.
   */
  lemma PrimaryUpdateManyUid(p: Table, original: Report, data: Fields)
    requires p.Valid() && IdsWithKey(p, original.uid, original.reportDate) == {}
    requires |IdsWithUid(p, original.uid)| >= 2
    ensures PrimaryAfterUpdate(p, original, data) == p
  {
    UpdateNone(p, IdsWithKey(p, original.uid, original.reportDate), data);
    assert IdsWithUid(p, original.uid) * p.rows.Keys == IdsWithUid(p, original.uid);
    UpdateMany(p, IdsWithUid(p, original.uid), data);
  }

  /**
   * Step 3: with no row for the original uid, the new values are upserted
   * with the original submitted_at.
   */
  lemma PrimaryUpdateInsert(p: Table, original: Report, data: Fields)
    requires p.Valid() && IdsWithUid(p, original.uid) == {}
    ensures PrimaryAfterUpdate(p, original, data) ==
      Upsert(p, Report(data.uid, data.name, data.team, data.activities, data.reportDate, original.submittedAt))
  {
    assert IdsWithKey(p, original.uid, original.reportDate) == {};
    UpdateNone(p, IdsWithKey(p, original.uid, original.reportDate), data);
    UpdateNone(p, IdsWithUid(p, original.uid), data);
  }

  /** `submitted_at` looks like an ISO timestamp: it contains 'T' or 'Z'. */
  predicate HasIsoMarker(s: string) {
    'T' in s || 'Z' in s
  }

  /**
   * `convertISOToIST`: `toIst` stands for `new Date(s)` followed by the
   * Asia/Kolkata `toLocaleString` formatting, and is None where the date
   * does not parse; the input then comes back unchanged.
   */
  function ConvertIsoToIst(s: string, toIst: string -> Option<string>): (r: string)
    ensures toIst(s).None? ==> r == s
    ensures toIst(s).Some? ==> r == toIst(s).value
  {
    match toIst(s)
    case None => s
    case Some(ist) => ist
  }

  /** One row as the migration leaves it. */
  function MigrateRow(r: Report, toIst: string -> Option<string>): Report {
    if HasIsoMarker(r.submittedAt) then r.(submittedAt := ConvertIsoToIst(r.submittedAt, toIst)) else r
  }

  /** The cache once the rows `done` have been visited by the migration scan. */
  function CacheMigratedUpTo(c: Table, done: set<nat>, toIst: string -> Option<string>): Table {
    Table(map id | id in c.rows :: if id in done then MigrateRow(c.rows[id], toIst) else c.rows[id], c.nextId)
  }

  /**
   * The cache after `migrateDatesToIST`: the same ids; a row whose
   * submitted_at has neither 'T' nor 'Z' is untouched, and in any other row
   * only submitted_at changes, to the converted value.
   */
  function CacheAfterMigration(c: Table, toIst: string -> Option<string>): (m: Table)
    ensures m.rows.Keys == c.rows.Keys && m.nextId == c.nextId
    ensures forall id :: id in c.rows && !HasIsoMarker(c.rows[id].submittedAt) ==> m.rows[id] == c.rows[id]
    ensures forall id :: id in c.rows && HasIsoMarker(c.rows[id].submittedAt) ==>
      m.rows[id] == c.rows[id].(submittedAt := ConvertIsoToIst(c.rows[id].submittedAt, toIst))
    ensures c.Valid() ==> m.Valid()
  {
    CacheMigratedUpTo(c, c.rows.Keys, toIst)
  }

  /**
   * One primary row once the cache rows `done` have been visited: it takes
   * the converted timestamp of the cache row with its (uid, report_date),
   * if that row was visited, carried a marker, and its primary UPDATE
   * reached the store (`down` holds the cache ids whose primary UPDATE
   * failed).
   */
  function PrimaryRowMigrated(r: Report, c: Table, done: set<nat>, toIst: string -> Option<string>, down: set<nat>): Report
    requires c.Valid()
  {
    match FindKey(c, r.uid, r.reportDate)
    case None => r
    case Some(cid) =>
      if cid in done && cid !in down && HasIsoMarker(c.rows[cid].submittedAt)
      then r.(submittedAt := ConvertIsoToIst(c.rows[cid].submittedAt, toIst))
      else r
  }

  function PrimaryMigratedUpTo(p: Table, c: Table, done: set<nat>, toIst: string -> Option<string>, down: set<nat>): Table
    requires c.Valid()
  {
    Table(map id | id in p.rows :: PrimaryRowMigrated(p.rows[id], c, done, toIst, down), p.nextId)
  }

  /** The primary store after `migrateDatesToIST` scanned the cache `c`. */
  function PrimaryAfterMigration(p: Table, c: Table, toIst: string -> Option<string>, down: set<nat>): (q: Table)
    requires c.Valid()
    ensures q.rows.Keys == p.rows.Keys && q.nextId == p.nextId
    ensures forall id :: id in p.rows ==>
      q.rows[id] == p.rows[id] || q.rows[id] == p.rows[id].(submittedAt := q.rows[id].submittedAt)
    ensures p.Valid() ==> q.Valid()
  {
    PrimaryMigratedUpTo(p, c, c.rows.Keys, toIst, down)
  }

  /** Visiting one more cache row changes the cache as the loop body does. */
  lemma CacheMigrationStep(c: Table, done: set<nat>, cid: nat, toIst: string -> Option<string>)
    requires cid in c.rows
    ensures CacheMigratedUpTo(c, done + {cid}, toIst) ==
      if HasIsoMarker(c.rows[cid].submittedAt)
      then SetSubmittedAt(CacheMigratedUpTo(c, done, toIst), {cid}, ConvertIsoToIst(c.rows[cid].submittedAt, toIst))
      else CacheMigratedUpTo(c, done, toIst)
  {
  }

  /** Visiting one more cache row changes the primary store as the loop body does. */
  lemma PrimaryMigrationStep(p: Table, c: Table, done: set<nat>, cid: nat, toIst: string -> Option<string>, down: set<nat>)
    requires c.Valid() && cid in c.rows
    ensures PrimaryMigratedUpTo(p, c, done + {cid}, toIst, down) ==
      if cid !in down && HasIsoMarker(c.rows[cid].submittedAt)
      then
        var before := PrimaryMigratedUpTo(p, c, done, toIst, down);
        SetSubmittedAt(before, IdsWithKey(before, c.rows[cid].uid, c.rows[cid].reportDate),
                       ConvertIsoToIst(c.rows[cid].submittedAt, toIst))
      else PrimaryMigratedUpTo(p, c, done, toIst, down)
  {
    var row := c.rows[cid];
    var before := PrimaryMigratedUpTo(p, c, done, toIst, down);
    var after := PrimaryMigratedUpTo(p, c, done + {cid}, toIst, down);
    assert FindKey(c, row.uid, row.reportDate) == Some(cid);
    if cid !in down && HasIsoMarker(row.submittedAt) {
      var v := ConvertIsoToIst(row.submittedAt, toIst);
      var target := SetSubmittedAt(before, IdsWithKey(before, row.uid, row.reportDate), v);
      forall id | id in p.rows ensures after.rows[id] == target.rows[id] {
        var f := FindKey(c, p.rows[id].uid, p.rows[id].reportDate);
        if HasKey(p.rows[id], row.uid, row.reportDate) {
          assert id in IdsWithKey(before, row.uid, row.reportDate);
        } else if f.Some? {
          assert f.value != cid;
          assert id !in IdsWithKey(before, row.uid, row.reportDate);
        } else {
          assert id !in IdsWithKey(before, row.uid, row.reportDate);
        }
      }
    } else {
      forall id | id in p.rows ensures after.rows[id] == before.rows[id] {
      }
    }
  }

  /**
   * Once the converter's output never contains 'T' or 'Z', a second
   * migration pass changes neither store: converted rows no longer carry a
   * marker, and rows whose timestamp did not parse are rewritten to the
   * same value.
   */
  lemma MigrationIdempotent(c: Table, p: Table, toIst: string -> Option<string>, down: set<nat>)
    requires c.Valid()
    requires forall s :: toIst(s).Some? ==> !HasIsoMarker(toIst(s).value)
    ensures CacheAfterMigration(CacheAfterMigration(c, toIst), toIst) == CacheAfterMigration(c, toIst)
    ensures PrimaryAfterMigration(PrimaryAfterMigration(p, c, toIst, down), CacheAfterMigration(c, toIst), toIst, down)
         == PrimaryAfterMigration(p, c, toIst, down)
  {
    CacheMigrationIdempotent(c, toIst);
    PrimaryMigrationIdempotent(c, p, toIst, down);
  }

  /** The cache half of `MigrationIdempotent`. */
  lemma CacheMigrationIdempotent(c: Table, toIst: string -> Option<string>)
    requires forall s :: toIst(s).Some? ==> !HasIsoMarker(toIst(s).value)
    ensures CacheAfterMigration(CacheAfterMigration(c, toIst), toIst) == CacheAfterMigration(c, toIst)
  {
    var c1 := CacheAfterMigration(c, toIst);
    forall id | id in c.rows
      ensures CacheAfterMigration(c1, toIst).rows[id] == c1.rows[id]
    {
      var s := c.rows[id].submittedAt;
      if HasIsoMarker(s) && toIst(s).Some? {
        assert !HasIsoMarker(c1.rows[id].submittedAt);
      }
    }
  }

  /** The primary half of `MigrationIdempotent`. */
  lemma PrimaryMigrationIdempotent(c: Table, p: Table, toIst: string -> Option<string>, down: set<nat>)
    requires c.Valid()
    requires forall s :: toIst(s).Some? ==> !HasIsoMarker(toIst(s).value)
    ensures PrimaryAfterMigration(PrimaryAfterMigration(p, c, toIst, down), CacheAfterMigration(c, toIst), toIst, down)
         == PrimaryAfterMigration(p, c, toIst, down)
  {
    var c1 := CacheAfterMigration(c, toIst);
    var p1 := PrimaryAfterMigration(p, c, toIst, down);
    var p2 := PrimaryAfterMigration(p1, c1, toIst, down);
    forall id | id in p.rows ensures p2.rows[id] == p1.rows[id] {
      var r := p.rows[id];
      assert HasKey(p1.rows[id], r.uid, r.reportDate);
      var f := FindKey(c, r.uid, r.reportDate);
      var f1 := FindKey(c1, r.uid, r.reportDate);
      if f.Some? {
        assert f.value in IdsWithKey(c1, r.uid, r.reportDate);
        assert f1 == f;
      }
    }
  }

  /** The rows of `rs` have pairwise different (uid, report_date). */
  ghost predicate DistinctPairs(rs: seq<Row>) {
    forall k, l :: 0 <= k < l < |rs| ==> !HasKey(rs[l].report, rs[k].report.uid, rs[k].report.reportDate)
  }

  /** The cache after INSERT OR REPLACE of each report of `rs`, in order. */
  function SyncRows(c: Table, rs: seq<Row>): Table
    decreases |rs|
  {
    if rs == [] then c
    else InsertOrReplace(SyncRows(c, rs[..|rs| - 1]), rs[|rs| - 1].report).0
  }

  lemma SyncRowsNext(c: Table, rs: seq<Row>, i: nat)
    requires i < |rs|
    ensures SyncRows(c, rs[..i + 1]) == InsertOrReplace(SyncRows(c, rs[..i]), rs[i].report).0
  {
    assert rs[..i + 1][..i] == rs[..i];
  }

  /**
   * `t` is what copying `rs` into the valid cache `c` leaves: the k-th
   * row under id `c.nextId + k`; an old row kept exactly when none of the
   * copied rows shares its pair; nothing else.
   */
  ghost predicate SyncFacts(c: Table, rs: seq<Row>, t: Table) {
    && t.Valid() && t.nextId == c.nextId + |rs|
    && (forall k :: 0 <= k < |rs| ==> CopiedAt(c, rs, t, k))
    && (forall cid :: cid in c.rows && !PairAmong(rs, c.rows[cid]) ==> cid in t.rows && t.rows[cid] == c.rows[cid])
    && (forall cid :: cid in t.rows ==>
          || (cid in c.rows && !PairAmong(rs, c.rows[cid]) && t.rows[cid] == c.rows[cid])
          || c.nextId <= cid < c.nextId + |rs|)
  }

  /** The k-th copied row sits in `t` under the k-th id the counter of `c` hands out. */
  predicate CopiedAt(c: Table, rs: seq<Row>, t: Table, k: int)
    requires 0 <= k < |rs|
  {
    c.nextId + k in t.rows && t.rows[c.nextId + k] == rs[k].report
  }

  lemma PairAmongSnoc(rs: seq<Row>, last: Row, r: Report)
    ensures PairAmong(rs + [last], r) <==> PairAmong(rs, r) || HasKey(last.report, r.uid, r.reportDate)
  {
    var all := rs + [last];
    if PairAmong(rs, r) {
      var k :| 0 <= k < |rs| && HasKey(rs[k].report, r.uid, r.reportDate);
      assert all[k] == rs[k];
    }
    if PairAmong(all, r) {
      var k :| 0 <= k < |all| && HasKey(all[k].report, r.uid, r.reportDate);
      if k < |rs| {
        assert all[k] == rs[k];
      }
    }
    if HasKey(last.report, r.uid, r.reportDate) {
      assert all[|rs|] == last;
    }
  }

  /** Copying one more row, whose pair none of the earlier rows holds. */
  lemma SyncStep(c: Table, rs: seq<Row>, t: Table, last: Row)
    requires c.Valid() && SyncFacts(c, rs, t)
    requires forall k :: 0 <= k < |rs| ==> !HasKey(last.report, rs[k].report.uid, rs[k].report.reportDate)
    ensures SyncFacts(c, rs + [last], InsertOrReplace(t, last.report).0)
  {
    var next := InsertOrReplace(t, last.report).0;
    var all := rs + [last];
    SyncStepCopies(c, rs, t, last, next, all);
    SyncStepKeeps(c, rs, t, last, next, all);
    SyncStepNothingElse(c, rs, t, last, next, all);
    assert next.Valid() && next.nextId == c.nextId + |all|;
  }

  lemma SyncStepCopies(c: Table, rs: seq<Row>, t: Table, last: Row, next: Table, all: seq<Row>)
    requires c.Valid() && SyncFacts(c, rs, t)
    requires next == InsertOrReplace(t, last.report).0 && all == rs + [last]
    requires forall k :: 0 <= k < |rs| ==> !HasKey(last.report, rs[k].report.uid, rs[k].report.reportDate)
    ensures forall k :: 0 <= k < |all| ==> CopiedAt(c, all, next, k)
  {
    forall k | 0 <= k < |all| ensures CopiedAt(c, all, next, k) {
      SyncStepCopy(c, rs, t, last, next, all, k);
    }
  }

  lemma SyncStepCopy(c: Table, rs: seq<Row>, t: Table, last: Row, next: Table, all: seq<Row>, k: nat)
    requires c.Valid() && SyncFacts(c, rs, t)
    requires next == InsertOrReplace(t, last.report).0 && all == rs + [last]
    requires forall k :: 0 <= k < |rs| ==> !HasKey(last.report, rs[k].report.uid, rs[k].report.reportDate)
    requires k < |all|
    ensures CopiedAt(c, all, next, k)
  {
    if k < |rs| {
      assert CopiedAt(c, rs, t, k);
      assert all[k] == rs[k];
      assert !HasKey(t.rows[c.nextId + k], last.report.uid, last.report.reportDate);
    } else {
      assert all[k] == last;
    }
  }

  lemma SyncStepKeeps(c: Table, rs: seq<Row>, t: Table, last: Row, next: Table, all: seq<Row>)
    requires c.Valid() && SyncFacts(c, rs, t)
    requires next == InsertOrReplace(t, last.report).0 && all == rs + [last]
    ensures forall cid :: cid in c.rows && !PairAmong(all, c.rows[cid]) ==> cid in next.rows && next.rows[cid] == c.rows[cid]
  {
    forall cid | cid in c.rows && !PairAmong(all, c.rows[cid])
      ensures cid in next.rows && next.rows[cid] == c.rows[cid]
    {
      PairAmongSnoc(rs, last, c.rows[cid]);
    }
  }

  lemma SyncStepNothingElse(c: Table, rs: seq<Row>, t: Table, last: Row, next: Table, all: seq<Row>)
    requires c.Valid() && SyncFacts(c, rs, t)
    requires next == InsertOrReplace(t, last.report).0 && all == rs + [last]
    ensures forall cid :: cid in next.rows ==>
      || (cid in c.rows && !PairAmong(all, c.rows[cid]) && next.rows[cid] == c.rows[cid])
      || c.nextId <= cid < c.nextId + |all|
  {
    forall cid | cid in next.rows
      ensures || (cid in c.rows && !PairAmong(all, c.rows[cid]) && next.rows[cid] == c.rows[cid])
              || c.nextId <= cid < c.nextId + |all|
    {
      if cid != t.nextId && cid in c.rows && !PairAmong(rs, c.rows[cid]) && t.rows[cid] == c.rows[cid] {
        PairAmongSnoc(rs, last, c.rows[cid]);
      }
    }
  }

  /** Copying rows with pairwise different (uid, report_date) into a valid cache. */
  lemma {:induction false} SyncRowsEffect(c: Table, rs: seq<Row>)
    requires c.Valid() && DistinctPairs(rs)
    ensures SyncFacts(c, rs, SyncRows(c, rs))
  {
    if rs != [] {
      var n := |rs| - 1;
      var init := rs[..n];
      assert rs == init + [rs[n]];
      assert DistinctPairs(init) by {
        forall k, l | 0 <= k < l < |init|
          ensures !HasKey(init[l].report, init[k].report.uid, init[k].report.reportDate)
        {
          assert init[k] == rs[k] && init[l] == rs[l];
        }
      }
      SyncRowsEffect(c, init);
      forall k | 0 <= k < |init|
        ensures !HasKey(rs[n].report, init[k].report.uid, init[k].report.reportDate)
      {
        assert init[k] == rs[k];
      }
      SyncStep(c, init, SyncRows(c, init), rs[n]);
    }
  }

  /** The primary rows in id order have pairwise different pairs, so the copy is described by `SyncFacts`. */
  lemma SyncFromPrimaryFacts(c: Table, p: Table)
    requires c.Valid() && p.Valid()
    ensures SyncFacts(c, Scan(p), SyncRows(c, Scan(p)))
  {
    ScanKeysDistinct(p);
    SyncRowsEffect(c, Scan(p));
  }

  /**
   * After a sync the cache holds, for every primary row, exactly one row
   * with its (uid, report_date), equal to it and under an id the cache had
   * not used.
   */
  lemma SyncCopiesPrimary(c: Table, p: Table, t: Table)
    requires c.Valid() && p.Valid() && SyncFacts(c, Scan(p), t)
    ensures forall pid :: pid in p.rows ==> exists cid :: SoleCopy(c, t, p.rows[pid], cid)
  {
    forall pid | pid in p.rows ensures exists cid :: SoleCopy(c, t, p.rows[pid], cid) {
      var cid := SyncCopyOf(c, p, t, pid);
    }
  }

  /** `cid` is a new cache id, the only one holding the pair of `r`, and its row equals `r`. */
  predicate SoleCopy(c: Table, t: Table, r: Report, cid: nat) {
    && cid >= c.nextId && cid in t.rows && t.rows[cid] == r
    && IdsWithKey(t, r.uid, r.reportDate) == {cid}
  }

  lemma SyncCopyOf(c: Table, p: Table, t: Table, pid: nat) returns (cid: nat)
    requires c.Valid() && p.Valid() && SyncFacts(c, Scan(p), t) && pid in p.rows
    ensures SoleCopy(c, t, p.rows[pid], cid)
  {
    var k := ScanPosition(p, pid);
    cid := c.nextId + k;
    assert CopiedAt(c, Scan(p), t, k);
    OnlyRowWithPair(t, cid);
  }

  /** The position of a row in the id-order scan. */
  lemma ScanPosition(p: Table, pid: nat) returns (k: nat)
    requires p.Valid() && pid in p.rows
    ensures k < |Scan(p)| && Scan(p)[k] == Row(pid, p.rows[pid])
  {
    ScanFacts(p);
    assert Row(pid, p.rows[pid]) in Scan(p);
    k :| 0 <= k < |Scan(p)| && Scan(p)[k] == Row(pid, p.rows[pid]);
  }

  /** A cache row whose (uid, report_date) the primary store does not hold survives a sync unchanged. */
  lemma SyncKeepsCacheOnlyRows(c: Table, p: Table, t: Table)
    requires c.Valid() && p.Valid() && SyncFacts(c, Scan(p), t)
    ensures forall cid :: cid in c.rows && !PairIn(p, c.rows[cid]) ==> cid in t.rows && t.rows[cid] == c.rows[cid]
  {
    ScanFacts(p);
    forall cid | cid in c.rows && !PairIn(p, c.rows[cid]) ensures !PairAmong(Scan(p), c.rows[cid]) {
    }
  }

  /** Every cache row after a sync is an old cache row or a copy of a primary row under a new id. */
  lemma SyncAddsOnlyCopies(c: Table, p: Table, t: Table)
    requires c.Valid() && p.Valid() && SyncFacts(c, Scan(p), t)
    ensures forall cid :: cid in t.rows ==>
      || (cid in c.rows && t.rows[cid] == c.rows[cid])
      || (cid >= c.nextId && exists pid :: pid in p.rows && p.rows[pid] == t.rows[cid])
  {
    forall cid | cid in t.rows && !(cid in c.rows && t.rows[cid] == c.rows[cid])
      ensures cid >= c.nextId && exists pid :: pid in p.rows && p.rows[pid] == t.rows[cid]
    {
      ScanFacts(p);
      var k := cid - c.nextId;
      assert CopiedAt(c, Scan(p), t, k);
    }
  }

  class DatabaseManager {
    /** `this.sqliteDb`: the cache store, which serves every read. */
    var cache: Table
    /** `this.pgPool`: the primary store, written best-effort. */
    var primary: Table

    ghost predicate Valid()
      reads this
    {
      cache.Valid() && primary.Valid()
    }

    /** Opening both stores on the tables they already hold. */
    constructor (cacheFile: Table, primaryDb: Table)
      requires cacheFile.Valid() && primaryDb.Valid()
      ensures Valid() && cache == cacheFile && primary == primaryDb
    {
      cache := cacheFile;
      primary := primaryDb;
    }

    /**
     * `insertReport`: insert into the primary store first, ignoring any
     * failure there, then into the cache; a cache error goes back to the
     * caller, otherwise the cache's new id does.
     */
    method InsertReport(data: Report, primaryUp: bool) returns (r: Result<nat, StoreError>)
      requires Valid()
      modifies this
      ensures Valid()
      ensures primary ==
        if primaryUp && !PairIn(old(primary), data)
        then Table(old(primary.rows)[old(primary.nextId) := data], old(primary.nextId) + 1)
        else old(primary)
      ensures r.Success? <==> !PairIn(old(cache), data)
      ensures r.Success? ==>
        && r.value == old(cache.nextId)
        && cache == Table(old(cache.rows)[r.value := data], r.value + 1)
      ensures r.Failure? ==> r.error == UniqueViolation && cache == old(cache)
    {
      if primaryUp {
        var pgResult := Insert(primary, data);
        if pgResult.Success? {
          primary := pgResult.value.0;
        }
      }
      var sqliteResult := Insert(cache, data);
      if sqliteResult.Failure? {
        return Failure(sqliteResult.error);
      }
      cache := sqliteResult.value.0;
      r := Success(sqliteResult.value.1);
    }

    /**
     * `insertToSQLiteOnly`: INSERT OR REPLACE into the cache. The row that
     * held the same (uid, report_date) is dropped and the copy gets a new id.
     */
    method InsertToCacheOnly(data: Report) returns (id: nat)
      requires Valid()
      modifies this
      ensures Valid() && primary == old(primary)
      ensures (cache, id) == InsertOrReplace(old(cache), data)
    {
      var res := InsertOrReplace(cache, data);
      cache := res.0;
      id := res.1;
    }

    /**
     * `syncFromPostgresToSQLite`: copy every primary row, in id order,
     * into the cache with INSERT OR REPLACE. An unreachable primary or an
     * empty one leaves the cache as it was.
     */
    method SyncFromPrimary(primaryUp: bool)
      requires Valid()
      modifies this
      ensures Valid() && primary == old(primary)
      ensures cache == if primaryUp then SyncRows(old(cache), Scan(primary)) else old(cache)
    {
      if !primaryUp {
        return;
      }
      var rows := Scan(primary);
      if |rows| == 0 {
        return;
      }
      ghost var c0 := cache;
      for i := 0 to |rows|
        invariant primary == old(primary) && cache == SyncRows(c0, rows[..i])
        invariant Valid()
      {
        SyncRowsNext(c0, rows, i);
        var _ := InsertToCacheOnly(rows[i].report);
      }
      assert rows[..|rows|] == rows;
    }

    /**
     * `updateReport`: look the report up in the cache by id (absent: the
     * error "Original report not found in SQLite", and neither store
     * changes); run the three-step fallback on the primary store,
     * swallowing its errors; then set uid, name, team, activities and
     * report_date of that cache row, whose error goes to the caller.
     */
    method UpdateReport(id: nat, data: Fields, primaryUp: bool) returns (r: Result<(), StoreError>)
      requires Valid()
      modifies this
      ensures Valid()
      ensures id !in old(cache.rows) ==>
        r == Failure(ReportNotFound) && cache == old(cache) && primary == old(primary)
      ensures id in old(cache.rows) ==>
        primary == if primaryUp then PrimaryAfterUpdate(old(primary), old(cache.rows[id]), data) else old(primary)
      ensures r.Success? <==>
        id in old(cache.rows) && IdsWithKey(old(cache), data.uid, data.reportDate) <= {id}
      ensures r.Success? ==>
        cache == Table(old(cache.rows)[id := WithFields(old(cache.rows[id]), data)], old(cache.nextId))
      ensures r.Failure? ==> cache == old(cache)
      ensures id in old(cache.rows) && r.Failure? ==> r.error == UniqueViolation
    {
      if id !in cache.rows {
        return Failure(ReportNotFound);
      }
      var original := cache.rows[id];
      if primaryUp {
        var result := Update(primary, IdsWithKey(primary, original.uid, original.reportDate), data);
        if result.Success? && result.value.1 == 0 {
          result := Update(primary, IdsWithUid(primary, original.uid), data);
        }
        if result.Success? {
          if result.value.1 == 0 {
            primary := Upsert(primary, Report(data.uid, data.name, data.team, data.activities, data.reportDate, original.submittedAt));
          } else {
            primary := result.value.0;
          }
        }
      }
      assert {id} * cache.rows.Keys == {id};
      UpdateOne(cache, {id}, data, id);
      var sqliteResult := Update(cache, {id}, data);
      if sqliteResult.Failure? {
        return Failure(sqliteResult.error);
      }
      cache := sqliteResult.value.0;
      r := Success(());
    }

    /**
     * `getAllReports()` with its default query: every cache row exactly
     * once, report_date descending, then submitted_at descending.
     */
    method GetAllReports() returns (rows: seq<Row>)
      requires Valid()
      ensures Ordered(rows)
      ensures forall x :: x in rows <==> x.id in cache.rows && x.report == cache.rows[x.id]
      ensures forall i, j :: 0 <= i < j < |rows| ==> rows[i].id != rows[j].id
      ensures |rows| == |cache.rows|
    {
      rows := AllReports(cache);
      AllReportsCorrect(cache);
      AllReportsOnce(cache);
      AllReportsCount(cache);
    }

    /** `getReportById`: the cache row with that id, if any. */
    method GetReportById(id: nat) returns (row: Option<Row>)
      requires Valid()
      ensures row.Some? <==> id in cache.rows
      ensures row.Some? ==> row.value.id == id && row.value.report == cache.rows[id]
    {
      if id in cache.rows {
        row := Some(Row(id, cache.rows[id]));
      } else {
        row := None;
      }
    }

    /**
     * `checkDuplicate`: the id of the cache row with exactly this uid and
     * report_date, if there is one.
     */
    method CheckDuplicate(uid: string, reportDate: string) returns (found: Option<nat>)
      requires Valid()
      ensures found.Some? <==> exists id :: id in cache.rows && HasKey(cache.rows[id], uid, reportDate)
      ensures found.Some? ==> found.value in cache.rows && HasKey(cache.rows[found.value], uid, reportDate)
    {
      found := FindKey(cache, uid, reportDate);
    }

    /**
     * `migrateDatesToIST`: scan the cache in the default order; every row
     * whose submitted_at contains 'T' or 'Z' gets the converted value in the
     * cache (by id) and in the primary store (by uid and report_date,
     * skipped for the rows in `primaryDown`, whose primary UPDATE fails).
     * Returns `migratedCount`, the number of rows rewritten.
     */
    method MigrateDatesToIst(toIst: string -> Option<string>, primaryDown: set<nat>) returns (migratedCount: nat)
      requires Valid()
      modifies this
      ensures Valid()
      ensures cache == CacheAfterMigration(old(cache), toIst)
      ensures primary == PrimaryAfterMigration(old(primary), old(cache), toIst, primaryDown)
      ensures migratedCount == |Marked(old(cache), old(cache).rows.Keys)|
    {
      var rows := GetAllReports();
      migratedCount := MigrateListed(rows, toIst, primaryDown);
    }

    /** The loop of `migrateDatesToIST` over a listing of every cache row, each listed once. */
    method MigrateListed(rows: seq<Row>, toIst: string -> Option<string>, primaryDown: set<nat>) returns (migratedCount: nat)
      requires Valid()
      requires forall x :: x in rows <==> x.id in cache.rows && x.report == cache.rows[x.id]
      requires forall i, j :: 0 <= i < j < |rows| ==> rows[i].id != rows[j].id
      modifies this
      ensures Valid()
      ensures cache == CacheAfterMigration(old(cache), toIst)
      ensures primary == PrimaryAfterMigration(old(primary), old(cache), toIst, primaryDown)
      ensures migratedCount == |Marked(old(cache), old(cache).rows.Keys)|
    {
      ghost var c0, p0 := cache, primary;
      migratedCount := 0;
      for i := 0 to |rows|
        invariant Valid()
        invariant cache == CacheMigratedUpTo(c0, IdsOf(rows[..i]), toIst)
        invariant primary == PrimaryMigratedUpTo(p0, c0, IdsOf(rows[..i]), toIst, primaryDown)
        invariant migratedCount == |Marked(c0, IdsOf(rows[..i]))|
      {
        var row := rows[i];
        assert row in rows;
        IdsOfStep(rows, i);
        IdsOfFresh(rows, i);
        ghost var done := IdsOf(rows[..i]);
        CacheMigrationStep(c0, done, row.id, toIst);
        PrimaryMigrationStep(p0, c0, done, row.id, toIst, primaryDown);
        MarkedStep(c0, done, row.id);
        if HasIsoMarker(row.report.submittedAt) {
          var istDate := ConvertIsoToIst(row.report.submittedAt, toIst);
          cache := SetSubmittedAt(cache, {row.id}, istDate);
          if row.id !in primaryDown {
            primary := SetSubmittedAt(primary, IdsWithKey(primary, row.report.uid, row.report.reportDate), istDate);
          }
          migratedCount := migratedCount + 1;
        }
      }
      IdsOfAll(rows, c0);
    }

    /**
     * `initializeDatabases` as `initializeApp` runs it. `connected` is the
     * outcome of the connection test; when it fails only the cache table is
     * (already) there. Otherwise the sync runs, with `syncUp` telling whether
     * its connect and SELECT succeed (a failure there is swallowed), and
     * the timestamp migration runs on whatever the cache then holds.
     */
    method InitializeDatabases(connected: bool, syncUp: bool, toIst: string -> Option<string>, primaryDown: set<nat>)
      requires Valid()
      modifies this
      ensures Valid()
      ensures !connected ==> cache == old(cache) && primary == old(primary)
      ensures connected ==>
        var synced := if syncUp then SyncRows(old(cache), Scan(old(primary))) else old(cache);
        && synced.Valid()
        && cache == CacheAfterMigration(synced, toIst)
        && primary == PrimaryAfterMigration(old(primary), synced, toIst, primaryDown)
    {
      if connected {
        SyncFromPrimary(syncUp);
        var _ := MigrateDatesToIst(toIst, primaryDown);
      }
    }
  }

  /** Some row of `rs` holds the (uid, report_date) of `r`. */
  ghost predicate PairAmong(rs: seq<Row>, r: Report) {
    exists k :: 0 <= k < |rs| && HasKey(rs[k].report, r.uid, r.reportDate)
  }

  /** The ids of the rows listed in `rs`. */
  ghost function IdsOf(rs: seq<Row>): set<nat> {
    set k | 0 <= k < |rs| :: rs[k].id
  }

  lemma IdsOfStep(rs: seq<Row>, i: nat)
    requires i < |rs|
    ensures IdsOf(rs[..i + 1]) == IdsOf(rs[..i]) + {rs[i].id}
  {
    assert rs[..i + 1] == rs[..i] + [rs[i]];
  }

  lemma IdsOfFresh(rs: seq<Row>, i: nat)
    requires i < |rs| && forall k, l :: 0 <= k < l < |rs| ==> rs[k].id != rs[l].id
    ensures rs[i].id !in IdsOf(rs[..i])
  {
  }

  lemma IdsOfAll(rs: seq<Row>, c: Table)
    requires forall x :: x in rs <==> x.id in c.rows && x.report == c.rows[x.id]
    ensures IdsOf(rs[..|rs|]) == c.rows.Keys
  {
    assert rs[..|rs|] == rs;
    forall id | id in c.rows ensures id in IdsOf(rs) {
      assert Row(id, c.rows[id]) in rs;
    }
  }

  /** The ids among `done` whose cache row carries an ISO marker. */
  ghost function Marked(c: Table, done: set<nat>): set<nat> {
    set id | id in done && id in c.rows && HasIsoMarker(c.rows[id].submittedAt)
  }

  lemma MarkedStep(c: Table, done: set<nat>, cid: nat)
    requires cid in c.rows && cid !in done
    ensures |Marked(c, done + {cid})| == |Marked(c, done)| + if HasIsoMarker(c.rows[cid].submittedAt) then 1 else 0
  {
    if HasIsoMarker(c.rows[cid].submittedAt) {
      assert Marked(c, done + {cid}) == Marked(c, done) + {cid};
    } else {
      assert Marked(c, done + {cid}) == Marked(c, done);
    }
  }
}
