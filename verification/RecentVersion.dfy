/**
 The "recent version" queries in their two shapes: MAX(JobTDate) with GROUP BY and a join back on the
 date (MySQL, SQLite), and DISTINCT ON over rows ordered by date (PostgreSQL). Both exist plainly and
 per DeltaSeq.
 */
module RecentVersion {
  import opened Catalog

  datatype Form = Plain | PerDelta

  /** A result row: the File columns and the date of the owning job. */
  datatype Row = Row(file: FileRow, jobTDate: int)

  datatype Group = Group(pathId: nat, filename: string, deltaSeq: nat)

  datatype Dated = Dated(jobTDate: int, key: Group)

  function Key(form: Form, f: FileRow): Group {
    Group(f.pathId, f.filename, if form == PerDelta then f.deltaSeq else 0)
  }

  // ----- Which files the list of jobs stands for

  ghost predicate IsBaseFile(db: Db, ids: set<nat>, f: FileRow) {
    exists b :: b in db.base && b.jobId in ids && b.fileId == f.fileId
  }

  ghost predicate IsBaseJob(db: Db, ids: set<nat>, j: JobRow) {
    exists b :: b in db.base && b.jobId in ids && b.baseJobId == j.jobId
  }

  /** Jobs of the list and the base jobs they use. */
  ghost predicate Involved(db: Db, ids: set<nat>, j: JobRow) {
    j in db.jobs && (j.jobId in ids || exists b :: b in db.base && b.jobId in ids && b.baseJobId == j.jobId)
  }

  ghost predicate InUnion(db: Db, ids: set<nat>, f: FileRow) {
    f in db.files && (f.jobId in ids || IsBaseFile(db, ids, f))
  }

  // ----- DISTINCT ON

  ghost function UnionRows(db: Db, ids: set<nat>): set<Row> {
    set f, j | f in db.files && j in db.jobs && InUnion(db, ids, f) && j.jobId == f.jobId :: Row(f, j.jobTDate)
  }

  /** No row of the same path and name is newer, of those with the same DeltaSeq where that counts. */
  ghost predicate IsNewest(form: Form, rows: set<Row>, x: Row) {
    && x in rows
    && forall y | y in rows && y.file.pathId == x.file.pathId && y.file.filename == x.file.filename ::
         (form == PerDelta ==> y.file.deltaSeq == x.file.deltaSeq) ==> y.jobTDate <= x.jobTDate
  }

  /** DISTINCT ON keeps one row of each group, of greatest date; which one, on a tie, is unspecified. */
  ghost predicate IsDistinctOn(form: Form, rows: set<Row>, r: set<Row>) {
    && (forall x :: x in r ==> IsNewest(form, rows, x))
    && (forall x :: x in rows ==> exists y :: y in r && Key(form, y.file) == Key(form, x.file))
    && (forall x, y :: x in r && y in r && Key(form, x.file) == Key(form, y.file) ==> x == y)
  }

  // ----- MAX, GROUP BY and the join back

  ghost function NormalDates(form: Form, db: Db, ids: set<nat>): set<Dated> {
    set f, j | f in db.files && j in db.jobs && f.jobId in ids && j.jobId == f.jobId
      :: Dated(j.jobTDate, Key(form, f))
  }

  ghost function BaseDates(form: Form, db: Db, ids: set<nat>): set<Dated> {
    set b, f, j | b in db.base && f in db.files && j in db.jobs &&
                  b.jobId in ids && b.fileId == f.fileId && j.jobId == b.baseJobId
      :: Dated(j.jobTDate, Key(form, f))
  }

  ghost function MaxPerGroup(dates: set<Dated>): set<Dated> {
    set t | t in dates && forall u :: u in dates && u.key == t.key ==> u.jobTDate <= t.jobTDate
  }

  /** The join compares date, path and name; the per-DeltaSeq form does not compare DeltaSeq. */
  predicate Joins(t: Dated, f: FileRow, j: JobRow) {
    && t.jobTDate == j.jobTDate
    && j.jobId == f.jobId
    && t.key.pathId == f.pathId
    && t.key.filename == f.filename
  }

  ghost function T1(form: Form, db: Db, ids: set<nat>): set<Dated> {
    MaxPerGroup(NormalDates(form, db, ids) + BaseDates(form, db, ids))
  }

  ghost function GroupByForm(form: Form, db: Db, ids: set<nat>): set<Row> {
    set f, j, t | f in db.files && j in db.jobs && t in T1(form, db, ids) &&
                  (j.jobId in ids || IsBaseJob(db, ids, j)) && Joins(t, f, j)
      :: Row(f, j.jobTDate)
  }

  // ----- The two forms agree

  ghost predicate DistinctDates(db: Db, ids: set<nat>) {
    forall i, j :: Involved(db, ids, i) && Involved(db, ids, j) && i.jobTDate == j.jobTDate ==> i == j
  }

  /** No job involved holds a path and name twice. */
  ghost predicate OncePerJob(db: Db, ids: set<nat>) {
    forall f, g, j | f in db.files && g in db.files && Involved(db, ids, j) ::
      f.jobId == j.jobId && g.jobId == j.jobId && SameFile(f, g) ==> f == g
  }

  /** The dates grouped by the first form are those of the rows the second one ranks. */
  lemma {:induction false} DatesAreUnionDates(form: Form, db: Db, ids: set<nat>, t: Dated)
    requires WellFormed(db)
    ensures t in NormalDates(form, db, ids) + BaseDates(form, db, ids) <==>
            exists x :: x in UnionRows(db, ids) && t == Dated(x.jobTDate, Key(form, x.file))
  {
    if t in NormalDates(form, db, ids) {
      var f, j :| f in db.files && j in db.jobs && f.jobId in ids && j.jobId == f.jobId &&
                  t == Dated(j.jobTDate, Key(form, f));
      assert Row(f, j.jobTDate) in UnionRows(db, ids);
    }
    if t in BaseDates(form, db, ids) {
      var b, f, j :| b in db.base && f in db.files && j in db.jobs &&
                     b.jobId in ids && b.fileId == f.fileId && j.jobId == b.baseJobId &&
                     t == Dated(j.jobTDate, Key(form, f));
      assert IsBaseFile(db, ids, f);
      assert Row(f, j.jobTDate) in UnionRows(db, ids);
    }
    forall x | x in UnionRows(db, ids) && t == Dated(x.jobTDate, Key(form, x.file))
      ensures t in NormalDates(form, db, ids) + BaseDates(form, db, ids)
    {
      var f, j :| f in db.files && j in db.jobs && InUnion(db, ids, f) && j.jobId == f.jobId &&
                  x == Row(f, j.jobTDate);
      if f.jobId !in ids {
        var b :| b in db.base && b.jobId in ids && b.fileId == f.fileId;
        assert b.baseJobId == f.jobId;
      }
    }
  }

  /** Every ranked row belongs to a job involved. */
  lemma {:induction false} UnionRowOwner(db: Db, ids: set<nat>, x: Row) returns (j: JobRow)
    requires WellFormed(db) && x in UnionRows(db, ids)
    ensures x.file in db.files && Involved(db, ids, j)
    ensures j.jobId == x.file.jobId && j.jobTDate == x.jobTDate
  {
    var f;
    f, j :| f in db.files && j in db.jobs && InUnion(db, ids, f) && j.jobId == f.jobId && x == Row(f, j.jobTDate);
    if f.jobId !in ids {
      var b :| b in db.base && b.jobId in ids && b.fileId == f.fileId;
      assert IsBaseJob(db, ids, j);
    }
  }

  /** The date of a newest row is the greatest of its group. */
  lemma {:induction false} NewestIsDated(form: Form, db: Db, ids: set<nat>, x: Row)
    requires WellFormed(db) && IsNewest(form, UnionRows(db, ids), x)
    ensures Dated(x.jobTDate, Key(form, x.file)) in T1(form, db, ids)
  {
    var all := NormalDates(form, db, ids) + BaseDates(form, db, ids);
    var t := Dated(x.jobTDate, Key(form, x.file));
    DatesAreUnionDates(form, db, ids, t);
    forall u | u in all && u.key == t.key ensures u.jobTDate <= t.jobTDate {
      DatesAreUnionDates(form, db, ids, u);
    }
  }

  /** A file of a job involved is joined with a group of its path, name and date. */
  lemma {:induction false} IsJoined(form: Form, db: Db, ids: set<nat>, t: Dated, f: FileRow, j: JobRow)
    requires f in db.files && Involved(db, ids, j) && t in T1(form, db, ids) && Joins(t, f, j)
    ensures Row(f, j.jobTDate) in GroupByForm(form, db, ids)
  {
    assert j.jobId in ids || IsBaseJob(db, ids, j);
  }

  /** A newest row always survives the join. */
  lemma {:induction false} NewestIsJoined(form: Form, db: Db, ids: set<nat>, x: Row)
    requires WellFormed(db) && IsNewest(form, UnionRows(db, ids), x)
    ensures x in GroupByForm(form, db, ids)
  {
    NewestIsDated(form, db, ids, x);
    var j := UnionRowOwner(db, ids, x);
    IsJoined(form, db, ids, Dated(x.jobTDate, Key(form, x.file)), x.file, j);
  }

  /** A joined row carries the date of some newest row of the same path and name. */
  lemma {:induction false} JoinedDate(form: Form, db: Db, ids: set<nat>, x: Row) returns (j: JobRow, y: Row)
    requires WellFormed(db) && x in GroupByForm(form, db, ids)
    ensures x.file in db.files && Involved(db, ids, j) && j.jobId == x.file.jobId && j.jobTDate == x.jobTDate
    ensures IsNewest(form, UnionRows(db, ids), y) && y.jobTDate == x.jobTDate && SameFile(y.file, x.file)
  {
    var f, t;
    f, j, t :| f in db.files && j in db.jobs && t in T1(form, db, ids) &&
               (j.jobId in ids || IsBaseJob(db, ids, j)) && Joins(t, f, j) && x == Row(f, j.jobTDate);
    DatesAreUnionDates(form, db, ids, t);
    y :| y in UnionRows(db, ids) && t == Dated(y.jobTDate, Key(form, y.file));
    forall z | z in UnionRows(db, ids) && Key(form, z.file) == Key(form, y.file) ensures z.jobTDate <= y.jobTDate {
      DatesAreUnionDates(form, db, ids, Dated(z.jobTDate, Key(form, z.file)));
    }
  }

  lemma {:induction false} NewestExists(form: Form, rows: set<Row>, x: Row) returns (y: Row)
    requires x in rows
    ensures IsNewest(form, rows, y) && Key(form, y.file) == Key(form, x.file)
    decreases rows
  {
    var rest := rows - {x};
    y := x;
    if z :| z in rest && Key(form, z.file) == Key(form, x.file) {
      var w := NewestExists(form, rest, z);
      if x.jobTDate < w.jobTDate {
        y := w;
      }
      forall v | v in rows && Key(form, v.file) == Key(form, x.file) ensures v.jobTDate <= y.jobTDate {
        assert v == x || v in rest;
      }
    }
  }

  /** Without ties the newest rows are the only DISTINCT ON answer. */
  lemma {:induction false} DistinctOnIsNewest(form: Form, rows: set<Row>, g: set<Row>, r: set<Row>)
    requires forall x :: x in g <==> IsNewest(form, rows, x)
    requires forall x, y :: x in g && y in g && Key(form, x.file) == Key(form, y.file) ==> x == y
    ensures IsDistinctOn(form, rows, r) <==> r == g
  {
    if IsDistinctOn(form, rows, r) {
      forall x | x in g ensures x in r {
        var y :| y in r && Key(form, y.file) == Key(form, x.file);
        assert IsNewest(form, rows, y);
      }
    }
    forall x | x in rows ensures exists y :: y in g && Key(form, y.file) == Key(form, x.file) {
      var y := NewestExists(form, rows, x);
    }
  }

  /** The DISTINCT ON answer and the GROUP BY answer are the same set of rows. */
  lemma {:induction false} QueriesAgree(form: Form, db: Db, ids: set<nat>, r: set<Row>)
    requires WellFormed(db) && DistinctDates(db, ids) && OncePerJob(db, ids)
    ensures IsDistinctOn(form, UnionRows(db, ids), r) <==> r == GroupByForm(form, db, ids)
    ensures forall x :: x in GroupByForm(form, db, ids) <==> IsNewest(form, UnionRows(db, ids), x)
  {
    var rows, g := UnionRows(db, ids), GroupByForm(form, db, ids);
    forall x ensures x in g <==> IsNewest(form, rows, x) {
      if x in g {
        var j, y := JoinedDate(form, db, ids, x);
        var i := UnionRowOwner(db, ids, y);
        assert i == j && x.file == y.file;
      }
      if IsNewest(form, rows, x) {
        NewestIsJoined(form, db, ids, x);
      }
    }
    forall x, y | x in g && y in g && Key(form, x.file) == Key(form, y.file) ensures x == y {
      assert IsNewest(form, rows, x) && IsNewest(form, rows, y);
      var i := UnionRowOwner(db, ids, x);
      var j := UnionRowOwner(db, ids, y);
      assert i == j && SameFile(x.file, y.file);
    }
    DistinctOnIsNewest(form, rows, g, r);
  }

  // ----- Exactly when the plain forms agree

  /** Jobs i and j, of one date, both hold the file of the newest row x; j holds it as g. */
  ghost predicate IsTopTie(db: Db, ids: set<nat>, x: Row, g: FileRow, i: JobRow, j: JobRow) {
    && IsNewest(Plain, UnionRows(db, ids), x) && g in db.files && SameFile(x.file, g)
    && Involved(db, ids, i) && Involved(db, ids, j) && i != j
    && i.jobId == x.file.jobId && j.jobId == g.jobId && i.jobTDate == x.jobTDate == j.jobTDate
  }

  ghost predicate TopTie(db: Db, ids: set<nat>) {
    exists x, g, i, j :: IsTopTie(db, ids, x, g, i, j)
  }

  lemma {:induction false} NoTieSameRow(db: Db, ids: set<nat>, x: Row, f: FileRow, j: JobRow)
    requires WellFormed(db) && OncePerJob(db, ids) && !TopTie(db, ids)
    requires IsNewest(Plain, UnionRows(db, ids), x)
    requires f in db.files && SameFile(x.file, f)
    requires Involved(db, ids, j) && j.jobId == f.jobId && j.jobTDate == x.jobTDate
    ensures x == Row(f, j.jobTDate)
  {
    var i := UnionRowOwner(db, ids, x);
    assert !IsTopTie(db, ids, x, f, i, j);
  }

  lemma {:induction false} NoTieJoinedIsNewest(db: Db, ids: set<nat>, x: Row)
    requires WellFormed(db) && OncePerJob(db, ids) && !TopTie(db, ids)
    ensures x in GroupByForm(Plain, db, ids) <==> IsNewest(Plain, UnionRows(db, ids), x)
  {
    if x in GroupByForm(Plain, db, ids) {
      var j, y := JoinedDate(Plain, db, ids, x);
      NoTieSameRow(db, ids, y, x.file, j);
    }
    if IsNewest(Plain, UnionRows(db, ids), x) {
      NewestIsJoined(Plain, db, ids, x);
    }
  }

  lemma {:induction false} NoTieAgrees(db: Db, ids: set<nat>)
    requires WellFormed(db) && OncePerJob(db, ids) && !TopTie(db, ids)
    ensures IsDistinctOn(Plain, UnionRows(db, ids), GroupByForm(Plain, db, ids))
  {
    var rows, g := UnionRows(db, ids), GroupByForm(Plain, db, ids);
    forall x ensures x in g <==> IsNewest(Plain, rows, x) {
      NoTieJoinedIsNewest(db, ids, x);
    }
    forall x, y | x in g && y in g && Key(Plain, x.file) == Key(Plain, y.file) ensures x == y {
      var j := UnionRowOwner(db, ids, y);
      NoTieSameRow(db, ids, x, y.file, j);
    }
    DistinctOnIsNewest(Plain, rows, g, g);
  }

  /** Distinct dates are more than needed: only a tie at the newest date makes the answers differ. */
  lemma {:induction false} PlainAgreesIffNoTopTie(db: Db, ids: set<nat>)
    requires WellFormed(db) && OncePerJob(db, ids)
    ensures IsDistinctOn(Plain, UnionRows(db, ids), GroupByForm(Plain, db, ids)) <==> !TopTie(db, ids)
  {
    if TopTie(db, ids) {
      var x, g, i, j :| IsTopTie(db, ids, x, g, i, j);
      TieDisagrees(db, ids, x, g, i, j);
    } else {
      NoTieAgrees(db, ids);
    }
  }

  lemma {:induction false} TieDisagrees(db: Db, ids: set<nat>, x: Row, g: FileRow, i: JobRow, j: JobRow)
    requires WellFormed(db) && IsTopTie(db, ids, x, g, i, j)
    ensures !IsDistinctOn(Plain, UnionRows(db, ids), GroupByForm(Plain, db, ids))
  {
    TieIsJoinedTwice(db, ids, x, g, j);
    assert i.jobId != j.jobId;
    TwoRowsOfOneGroup(Plain, UnionRows(db, ids), GroupByForm(Plain, db, ids), x, Row(g, j.jobTDate));
  }

  lemma {:induction false} TwoRowsOfOneGroup(form: Form, rows: set<Row>, r: set<Row>, x: Row, y: Row)
    requires x in r && y in r && x != y && Key(form, x.file) == Key(form, y.file)
    ensures !IsDistinctOn(form, rows, r)
  {
  }

  lemma {:induction false} TieIsJoinedTwice(db: Db, ids: set<nat>, x: Row, g: FileRow, j: JobRow)
    requires WellFormed(db) && IsNewest(Plain, UnionRows(db, ids), x)
    requires g in db.files && SameFile(x.file, g)
    requires Involved(db, ids, j) && j.jobId == g.jobId && j.jobTDate == x.jobTDate
    ensures x in GroupByForm(Plain, db, ids) && Row(g, j.jobTDate) in GroupByForm(Plain, db, ids)
  {
    NewestIsJoined(Plain, db, ids, x);
    NewestIsDated(Plain, db, ids, x);
    IsJoined(Plain, db, ids, Dated(x.jobTDate, Key(Plain, x.file)), g, j);
  }

  /** Two jobs of one date that both hold a file. */
  lemma {:induction false} TwoJobsOfOneDate()
    ensures var i := JobRow(1, "a", "", "n", JT_BACKUP, L_FULL, 'T', 1, 2, 2, 1, 1);
            var j := JobRow(2, "b", "", "n", JT_BACKUP, L_INCREMENTAL, 'T', 1, 2, 2, 1, 1);
            var f, g := FileRow(1, 1, 1, "f", 1, "", "", 0), FileRow(2, 2, 1, "f", 1, "", "", 0);
            var db := Db({i, j}, {f, g}, {}, map[1 := "set"]);
            WellFormed(db) && OncePerJob(db, {1, 2}) && TopTie(db, {1, 2})
  {
    var i := JobRow(1, "a", "", "n", JT_BACKUP, L_FULL, 'T', 1, 2, 2, 1, 1);
    var j := JobRow(2, "b", "", "n", JT_BACKUP, L_INCREMENTAL, 'T', 1, 2, 2, 1, 1);
    var f, g := FileRow(1, 1, 1, "f", 1, "", "", 0), FileRow(2, 2, 1, "f", 1, "", "", 0);
    var db := Db({i, j}, {f, g}, {}, map[1 := "set"]);
    assert Row(f, 2) in UnionRows(db, {1, 2});
    assert IsTopTie(db, {1, 2}, Row(f, 2), g, i, j);
  }

  /** The join produces each row once: a row is matched by one group only. */
  lemma {:induction false} JoinedOnce(form: Form, db: Db, ids: set<nat>, f: FileRow, j: JobRow, t: Dated, u: Dated)
    requires WellFormed(db) && DistinctDates(db, ids) && OncePerJob(db, ids)
    requires f in db.files && Involved(db, ids, j)
    requires t in T1(form, db, ids) && u in T1(form, db, ids) && Joins(t, f, j) && Joins(u, f, j)
    ensures t == u
  {
    DatesAreUnionDates(form, db, ids, t);
    var x :| x in UnionRows(db, ids) && t == Dated(x.jobTDate, Key(form, x.file));
    var ix := UnionRowOwner(db, ids, x);
    DatesAreUnionDates(form, db, ids, u);
    var y :| y in UnionRows(db, ids) && u == Dated(y.jobTDate, Key(form, y.file));
    var iy := UnionRowOwner(db, ids, y);
    assert ix == j && iy == j && SameFile(x.file, y.file);
  }
}
