/**
 Which jobs a restore or an accurate backup builds on: `bdb_get_accurate_jobids` picks the chain,
 `bdb_find_job_start_time` picks the job a Differential or Incremental is relative to, and
 `bdb_get_file_list` shows the newest entry of each file. `RestoreReconstruction` ties the three
 together.
 */
module RestoreChain {
  import opened Catalog
  import opened RecentVersion

  /** The start time as text; the out-parameter is preset to a date of zeros. */
  datatype StartText = Zeros | At(time: int)

  /** The fields of the job record handed to `bdb_get_accurate_jobids`. */
  datatype Request = Request(level: char, clientId: nat, fileSetId: nat, name: string, startTime: int)

  // ----- The chain of jobs

  /** Same client and FileSet name, and the same job name when one is given. */
  predicate Matches(db: Db, req: Request, j: JobRow) {
    && j.clientId == req.clientId && Terminated(j) && j.jobType == JT_BACKUP
    && j.fileSetId in db.fileSets && req.fileSetId in db.fileSets
    && db.fileSets[j.fileSetId] == db.fileSets[req.fileSetId]
    && (req.name != "" ==> j.name == req.name)
  }

  /** The upper bound on StartTime: one second past the wanted date, or past now. */
  function Limit(req: Request, now: int): int {
    (if req.startTime != 0 then req.startTime else now) + 1
  }

  function Select(db: Db, req: Request, limit: int, level: char): set<JobRow> {
    set j | j in db.jobs && Matches(db, req, j) && j.level == level && j.startTime < limit
  }

  /** StartTime > (SELECT EndTime FROM temp ORDER BY EndTime DESC LIMIT 1); NULL when temp is empty. */
  predicate StartsAfter(temp: set<JobRow>, j: JobRow) {
    temp != {} && forall x :: x in temp ==> x.endTime < j.startTime
  }

  function SelectAfter(db: Db, req: Request, limit: int, level: char, temp: set<JobRow>): set<JobRow> {
    set j | j in Select(db, req, limit, level) && StartsAfter(temp, j)
  }

  /** ORDER BY JobTDate DESC LIMIT 1 */
  ghost predicate IsTopOne(s: set<JobRow>, r: set<JobRow>) {
    if s == {} then r == {}
    else exists x :: x in s && r == {x} && forall y :: y in s ==> y.jobTDate <= x.jobTDate
  }

  predicate NeedsIncrementals(req: Request) {
    req.level == L_INCREMENTAL || req.level == L_VIRTUAL_FULL
  }

  ghost predicate IsChainFrom(db: Db, req: Request, limit: int, full: set<JobRow>, diff: set<JobRow>, chain: set<JobRow>) {
    && IsTopOne(Select(db, req, limit, L_FULL), full)
    && if NeedsIncrementals(req) then
         && IsTopOne(SelectAfter(db, req, limit, L_DIFFERENTIAL, full), diff)
         && chain == full + diff + SelectAfter(db, req, limit, L_INCREMENTAL, full + diff)
       else chain == full
  }

  /** The last Full, the last Differential after it, and all Incrementals after both. */
  ghost predicate IsAccurateChain(db: Db, req: Request, limit: int, chain: set<JobRow>) {
    exists full, diff :: IsChainFrom(db, req, limit, full, diff, chain)
  }

  /** Some job of a non-empty set has the greatest key. */
  lemma {:induction false} GreatestExists(s: set<JobRow>, key: JobRow -> int) returns (x: JobRow)
    requires s != {}
    ensures x in s && forall y :: y in s ==> key(y) <= key(x)
    decreases s
  {
    x :| x in s;
    if s != {x} {
      var w := GreatestExists(s - {x}, key);
      forall y | y in s ensures key(y) <= key(x) || key(y) <= key(w) {
        assert y == x || y in s - {x};
      }
      x := if key(x) < key(w) then w else x;
    }
  }

  method LimitOne(s: set<JobRow>) returns (r: set<JobRow>)
    ensures IsTopOne(s, r)
  {
    if s == {} {
      r := {};
    } else {
      ghost var w := GreatestExists(s, (j: JobRow) => j.jobTDate);
      var x :| x in s && forall y :: y in s ==> y.jobTDate <= x.jobTDate;
      r := {x};
    }
  }

  ghost function SetOf(rows: seq<JobRow>): set<JobRow> {
    set j | j in rows
  }

  /** The ids of the rows, each row once, in date order. */
  ghost predicate ListsByDate(ids: seq<nat>, rows: seq<JobRow>) {
    && |ids| == |rows| && (forall i :: 0 <= i < |rows| ==> ids[i] == rows[i].jobId)
    && forall i, k :: 0 <= i < k < |rows| ==> rows[i] != rows[k] && rows[i].jobTDate <= rows[k].jobTDate
  }

  /** SELECT JobId FROM btemp3 ORDER BY JobTDate, one row at a time to the list handler. */
  method ListByDate(btemp3: set<JobRow>) returns (ids: seq<nat>)
    ensures exists rows :: SetOf(rows) == btemp3 && ListsByDate(ids, rows)
  {
    ids := [];
    ghost var rows: seq<JobRow> := [];
    var rest := btemp3;
    while rest != {}
      invariant forall j :: j in btemp3 <==> j in rest || j in rows
      invariant ListsByDate(ids, rows)
      invariant forall i, j :: 0 <= i < |rows| && j in rest ==> rows[i] != j && rows[i].jobTDate <= j.jobTDate
      decreases rest
    {
      ghost var w := GreatestExists(rest, (j: JobRow) => -j.jobTDate);
      var x :| x in rest && forall y :: y in rest ==> x.jobTDate <= y.jobTDate;
      ids := ids + [x.jobId];
      rows := rows + [x];
      rest := rest - {x};
    }
    assert SetOf(rows) == btemp3;
  }

  /** `bdb_get_accurate_jobids`: fills btemp3 by three statements, then lists it in date order. */
  method GetAccurateJobIds(db: Db, req: Request, now: int) returns (ids: seq<nat>)
    ensures exists rows :: IsAccurateChain(db, req, Limit(req, now), SetOf(rows)) && ListsByDate(ids, rows)
  {
    var limit := Limit(req, now);
    var btemp3 := LimitOne(Select(db, req, limit, L_FULL));
    ghost var full, diff := btemp3, {};
    if NeedsIncrementals(req) {
      var lastDiff := LimitOne(SelectAfter(db, req, limit, L_DIFFERENTIAL, btemp3));
      diff := lastDiff;
      btemp3 := btemp3 + lastDiff;
      btemp3 := btemp3 + SelectAfter(db, req, limit, L_INCREMENTAL, btemp3);
    }
    assert IsChainFrom(db, req, limit, full, diff, btemp3);
    ids := ListByDate(btemp3);
  }

  /** What every job of the chain has, in columns; one that starts at the wanted date is taken, a later one is not. */
  lemma {:induction false} ChainColumns(db: Db, req: Request, now: int, chain: set<JobRow>, j: JobRow)
    requires IsAccurateChain(db, req, Limit(req, now), chain) && j in chain
    ensures j in db.jobs && j.clientId == req.clientId && (j.status == 'T' || j.status == 'W') && j.jobType == 'B'
    ensures j.fileSetId in db.fileSets && req.fileSetId in db.fileSets && db.fileSets[j.fileSetId] == db.fileSets[req.fileSetId]
    ensures req.name != "" ==> j.name == req.name
    ensures j.startTime <= if req.startTime != 0 then req.startTime else now
    ensures j.level == 'F' || ((req.level == 'I' || req.level == 'f') && (j.level == 'D' || j.level == 'I'))
    ensures j.level != 'I' ==> forall i :: i in chain && i.level == j.level ==> i == j
    ensures j.level != 'F' ==> exists f :: f in chain && f.level == 'F' && f.endTime < j.startTime
  {
    var full, diff :| IsChainFrom(db, req, Limit(req, now), full, diff, chain);
    if j.level != 'F' {
      var f :| f in full;
      assert f in full + diff;
    }
  }

  /** The Full of the chain is the newest one before the wanted date. */
  lemma {:induction false} ChainTakesFull(db: Db, req: Request, now: int, chain: set<JobRow>, j: JobRow)
    requires IsAccurateChain(db, req, Limit(req, now), chain) && Relevant(db, req, j) && j.level == 'F'
    requires j.startTime <= if req.startTime != 0 then req.startTime else now
    ensures exists f :: f in chain && f.level == 'F' && j.jobTDate <= f.jobTDate
  {
    var full, diff :| IsChainFrom(db, req, Limit(req, now), full, diff, chain);
    assert Matches(db, req, j) && j in Select(db, req, Limit(req, now), 'F');
  }

  /** A Differential before the wanted date is not newer than the one taken, or does not start after the Full has ended. */
  lemma {:induction false} ChainTakesDifferential(db: Db, req: Request, now: int, chain: set<JobRow>, j: JobRow, f: JobRow)
    requires IsAccurateChain(db, req, Limit(req, now), chain) && Relevant(db, req, j) && j.level == 'D'
    requires j.startTime <= if req.startTime != 0 then req.startTime else now
    requires (req.level == 'I' || req.level == 'f') && f in chain && f.level == 'F' && f.endTime < j.startTime
    ensures exists d :: d in chain && d.level == 'D' && j.jobTDate <= d.jobTDate
  {
    var full, diff :| IsChainFrom(db, req, Limit(req, now), full, diff, chain);
    assert Matches(db, req, j) && j in Select(db, req, Limit(req, now), 'D');
    assert full == {f} && StartsAfter(full, j);
    assert j in SelectAfter(db, req, Limit(req, now), 'D', full);
  }

  /** An Incremental before the wanted date is taken if it starts after the Full, and the Differential if any, have ended. */
  lemma {:induction false} ChainTakesIncremental(db: Db, req: Request, now: int, chain: set<JobRow>, j: JobRow, f: JobRow)
    requires IsAccurateChain(db, req, Limit(req, now), chain) && Relevant(db, req, j) && j.level == 'I'
    requires j.startTime <= if req.startTime != 0 then req.startTime else now
    requires (req.level == 'I' || req.level == 'f') && f in chain && f.level == 'F'
    ensures j in chain <==> forall x :: x in chain && (x.level == 'F' || x.level == 'D') ==> x.endTime < j.startTime
  {
    var full, diff :| IsChainFrom(db, req, Limit(req, now), full, diff, chain);
    assert Matches(db, req, j) && j in Select(db, req, Limit(req, now), 'I');
    assert f in full + diff;
    assert forall x :: x in full + diff <==> x in chain && (x.level == 'F' || x.level == 'D');
    assert j in SelectAfter(db, req, Limit(req, now), 'I', full + diff) <==> StartsAfter(full + diff, j);
  }

  // ----- The reference job

  /** The fields of the job record handed to `bdb_find_job_start_time`. */
  datatype Since = Since(jobId: nat, jobType: char, level: char, name: string, clientId: nat, fileSetId: nat)

  predicate SameSeries(since: Since, j: JobRow) {
    && Terminated(j) && j.jobType == since.jobType && j.name == since.name && j.clientId == since.clientId
    && (since.fileSetId != 0 ==> j.fileSetId == since.fileSetId)
  }

  function FullsOf(jobs: set<JobRow>, since: Since): set<JobRow> {
    set j | j in jobs && SameSeries(since, j) && j.level == L_FULL
  }

  function BackupsOf(jobs: set<JobRow>, since: Since): set<JobRow> {
    set j | j in jobs && SameSeries(since, j) && IsBackupLevel(j.level)
  }

  /** A successful job of the series, in the columns of the Job table: a Full, or any backup. */
  ghost predicate IsSeriesJob(jobs: set<JobRow>, since: Since, full: bool, j: JobRow) {
    && j in jobs && (j.status == 'T' || j.status == 'W')
    && j.jobType == since.jobType && j.name == since.name && j.clientId == since.clientId
    && (since.fileSetId == 0 || j.fileSetId == since.fileSetId)
    && (j.level == 'F' || (!full && (j.level == 'D' || j.level == 'I')))
  }

  /** The job a run is relative to: the last Full, or for an Incremental the last backup if there is a Full. */
  ghost predicate IsReference(jobs: set<JobRow>, since: Since, r: JobRow) {
    if since.jobId != 0 then r in jobs && r.jobId == since.jobId
    else
      && (since.level == 'D' || since.level == 'I')
      && (exists f :: IsSeriesJob(jobs, since, true, f))
      && IsSeriesJob(jobs, since, since.level == 'D', r)
      && forall y :: IsSeriesJob(jobs, since, since.level == 'D', y) ==> y.startTime <= r.startTime
  }

  /** `bdb_find_job_start_time`: the query is rebuilt by level, then run; no row means failure. */
  method FindJobStartTime(jobs: set<JobRow>, since: Since) returns (ok: bool, stime: StartText, job: string)
    ensures ok <==> exists r :: IsReference(jobs, since, r)
    ensures ok ==> exists r :: IsReference(jobs, since, r) && stime == At(r.startTime) &&
                               job == if r.priorJob != "" then r.priorJob else r.job
    ensures !ok ==> stime == Zeros && job == ""
  {
    ok, stime, job := false, Zeros, "";
    var cmd: set<JobRow>;
    assert forall j :: j in FullsOf(jobs, since) <==> IsSeriesJob(jobs, since, true, j);
    assert forall j :: j in BackupsOf(jobs, since) <==> IsSeriesJob(jobs, since, false, j);
    if since.jobId == 0 {
      cmd := FullsOf(jobs, since);
      if since.level == L_DIFFERENTIAL {
      } else if since.level == L_INCREMENTAL {
        if cmd == {} {
          return;
        }
        cmd := BackupsOf(jobs, since);
      } else {
        return;
      }
    } else {
      cmd := set j | j in jobs && j.jobId == since.jobId;
    }
    assert forall r :: IsReference(jobs, since, r) ==> r in cmd;
    if cmd == {} {
      return;
    }
    var r: JobRow;
    if since.jobId == 0 {
      ghost var w := GreatestExists(cmd, (j: JobRow) => j.startTime);
      r :| r in cmd && forall y :: y in cmd ==> y.startTime <= r.startTime;
    } else {
      r :| r in cmd;
    }
    assert IsReference(jobs, since, r);
    ok, stime := true, At(r.startTime);
    job := if r.priorJob != "" then r.priorJob else r.job;
  }

  // ----- The file list

  /** Options of `bdb_get_file_list`; a deleted-only option overrides the one for all files. */
  datatype ListOptions = ListOptions(useDelta: bool, allFiles: bool, deleted: bool)

  predicate Listed(opts: ListOptions, fileIndex: int) {
    if opts.deleted then fileIndex <= 0 else opts.allFiles || fileIndex > 0
  }

  /** `bdb_get_file_list` over some jobs, with the query in either shape; without jobs it fails. */
  ghost predicate IsFileList(db: Db, ids: set<nat>, opts: ListOptions, list: set<Row>) {
    ids != {} && exists rows :: IsRecentVersion(if opts.useDelta then PerDelta else Plain, db, ids, rows) &&
                                list == ListedRows(rows, opts)
  }

  ghost predicate IsRecentVersion(form: Form, db: Db, ids: set<nat>, rows: set<Row>) {
    rows == GroupByForm(form, db, ids) || IsDistinctOn(form, UnionRows(db, ids), rows)
  }

  ghost function ListedRows(rows: set<Row>, opts: ListOptions): set<Row> {
    set x | x in rows && Listed(opts, x.file.fileIndex)
  }

  // ----- File states and what a job records of them

  datatype FileKey = FileKey(pathId: nat, filename: string)
  datatype Content = Content(lstat: string, md5: string)
  type State = map<FileKey, Content>

  function KeyOf(f: FileRow): FileKey {
    FileKey(f.pathId, f.filename)
  }

  function ContentOf(f: FileRow): Content {
    Content(f.lstat, f.md5)
  }

  predicate Agree(s: State, t: State, k: FileKey) {
    (k in s <==> k in t) && (k in s ==> s[k] == t[k])
  }

  /** The entry is right about the state: it has the file with these contents, or lacks a deleted one. */
  predicate IsTrueOf(f: FileRow, s: State) {
    if f.fileIndex > 0 then KeyOf(f) in s && s[KeyOf(f)] == ContentOf(f) else KeyOf(f) !in s
  }

  /** The entries of a job: its own files and the base files it uses. */
  ghost function RowsOf(db: Db, j: JobRow): set<Row> {
    set f, i | f in db.files && i in db.jobs && i.jobId == f.jobId &&
               (f.jobId == j.jobId || exists b :: b in db.base && b.jobId == j.jobId && b.fileId == f.fileId)
      :: Row(f, i.jobTDate)
  }

  /** They are the rows the query ranks for a list of that job alone. */
  lemma {:induction false} RowsOfIs(db: Db, j: JobRow)
    ensures RowsOf(db, j) == UnionRows(db, {j.jobId})
  {
    forall f ensures InUnion(db, {j.jobId}, f) <==>
                     f in db.files && (f.jobId == j.jobId || exists b :: b in db.base && b.jobId == j.jobId && b.fileId == f.fileId)
    {
    }
  }

  ghost predicate HasEntry(db: Db, j: JobRow, k: FileKey) {
    exists x :: x in RowsOf(db, j) && KeyOf(x.file) == k
  }

  ghost predicate HasOwnEntry(db: Db, j: JobRow, k: FileKey) {
    exists f :: f in db.files && f.jobId == j.jobId && KeyOf(f) == k
  }

  /** x is what job j says of its file: an entry of its own, or a base file it has no own entry for. */
  ghost predicate Tells(db: Db, j: JobRow, x: Row) {
    x in RowsOf(db, j) && (x.file.jobId == j.jobId || !HasOwnEntry(db, j, KeyOf(x.file)))
  }

  /** Each entry that tells is right about the state at the job; a file with no entry is as it was before. */
  ghost predicate Records(db: Db, j: JobRow, before: State, now: State) {
    && (forall x :: Tells(db, j, x) ==> IsTrueOf(x.file, now))
    && (forall k :: !HasEntry(db, j, k) ==> Agree(before, now, k))
  }

  /**
   A listing shows a state: each file of it once, unless only deletions are asked for, and each file
   recorded but gone once, if deletions are asked for.
   */
  ghost predicate Shows(list: set<Row>, opts: ListOptions, recorded: set<Row>, s: State) {
    && (forall x :: x in list ==>
          var k := FileKey(x.file.pathId, x.file.filename);
          if x.file.fileIndex > 0 then !opts.deleted && k in s && s[k] == Content(x.file.lstat, x.file.md5)
          else (opts.deleted || opts.allFiles) && k !in s)
    && (forall k :: k in s && !opts.deleted ==> exists x :: x in list && KeyOf(x.file) == k)
    && (forall y :: y in recorded && KeyOf(y.file) !in s && (opts.deleted || opts.allFiles) ==>
                    exists x :: x in list && KeyOf(x.file) == KeyOf(y.file))
    && (forall x, y :: x in list && y in list && KeyOf(x.file) == KeyOf(y.file) ==> x == y)
  }

  // ----- Histories

  /** A successful backup of the client and FileSet, and of the Job resource if one is named, in columns. */
  ghost predicate Relevant(db: Db, req: Request, j: JobRow) {
    && j in db.jobs && j.clientId == req.clientId && (j.status == 'T' || j.status == 'W') && j.jobType == 'B'
    && j.fileSetId in db.fileSets && req.fileSetId in db.fileSets && db.fileSets[j.fileSetId] == db.fileSets[req.fileSetId]
    && (req.name == "" || j.name == req.name)
    && (j.level == 'F' || j.level == 'D' || j.level == 'I')
  }

  /**
   All successful backups the request matches, in time order, none starting before an earlier one has
   ended. They may differ in FileSetId, and in name if the request gives none.
   */
  ghost predicate IsHistory(db: Db, req: Request, h: seq<JobRow>) {
    && (forall j :: j in h <==> Relevant(db, req, j))
    && (forall i, k :: 0 <= i < k < |h| ==> h[i].startTime < h[k].startTime && h[i].jobTDate < h[k].jobTDate)
    && (forall i, k :: 0 <= i < k < |h| ==> h[i].endTime <= h[k].startTime)
    && (forall i :: 0 <= i < |h| ==> h[i].startTime <= h[i].endTime)
    && (forall i :: 0 <= i < |h| ==> h[i].fileSetId != 0)
  }

  function SinceOf(j: JobRow): Since {
    Since(0, j.jobType, j.level, j.name, j.clientId, j.fileSetId)
  }

  /** The jobs whose records are complete when j looks for its reference. */
  ghost function DoneBefore(db: Db, j: JobRow): set<JobRow> {
    set i | i in db.jobs && i.startTime < j.startTime && i.endTime <= j.startTime
  }

  /** No job holds a file twice; only Fulls use base files, of older jobs with dates of their own. */
  ghost predicate EntriesOk(db: Db, j: JobRow) {
    && HoldsOnce(db, j)
    && (j.level != L_FULL ==> forall b :: b in db.base ==> b.jobId != j.jobId)
    && (forall i :: IsBaseOf(db, j, i) ==> i.jobTDate < j.jobTDate && HoldsOnce(db, i))
    && (forall i, k :: IsBaseOf(db, j, i) && IsBaseOf(db, j, k) && i.jobTDate == k.jobTDate ==> i == k)
  }

  ghost predicate HoldsOnce(db: Db, j: JobRow) {
    forall f, g | f in db.files && g in db.files && f.jobId == j.jobId && g.jobId == j.jobId ::
      KeyOf(f) == KeyOf(g) ==> f == g
  }

  ghost predicate IsBaseOf(db: Db, j: JobRow, i: JobRow) {
    i in db.jobs && exists b :: b in db.base && b.jobId == j.jobId && b.baseJobId == i.jobId
  }

  /** Job r of the history is the reference the code picks when job k runs. */
  ghost predicate RefersTo(db: Db, h: seq<JobRow>, k: nat, r: nat) {
    k < |h| && r < |h| && IsReference(DoneBefore(db, h[k]), SinceOf(h[k]), h[r])
  }

  /** A Full is relative to nothing, the others to their reference. */
  ghost predicate JobRecords(db: Db, h: seq<JobRow>, states: seq<State>, k: nat)
    requires k < |h| == |states|
  {
    if h[k].level == L_FULL then Records(db, h[k], map[], states[k])
    else exists r: nat :: RefersTo(db, h, k, r) && Records(db, h[k], states[r], states[k])
  }

  ghost predicate RecordsHistory(db: Db, h: seq<JobRow>, states: seq<State>)
  {
    |states| == |h| && forall k :: 0 <= k < |h| ==> EntriesOk(db, h[k]) && JobRecords(db, h, states, k)
  }

  /** The last index below n holding a job of that level, or -1. */
  function LastOf(h: seq<JobRow>, n: nat, level: char): (i: int)
    requires n <= |h|
    ensures -1 <= i < n
    ensures i >= 0 ==> h[i].level == level
    ensures forall k :: i < k < n ==> h[k].level != level
  {
    if n == 0 then -1 else if h[n - 1].level == level then n - 1 else LastOf(h, n - 1, level)
  }

  /** Where the Incrementals of the chain start: after the last Differential, or after the Full. */
  function Anchor(h: seq<JobRow>, n: nat): (m: int)
    requires n <= |h|
    ensures -1 <= m < n
  {
    var a, d := LastOf(h, n, L_FULL), LastOf(h, n, L_DIFFERENTIAL);
    if d > a then d else a
  }

  /** The last Differential starts strictly after the Full ends. */
  ghost predicate DiffSeparated(h: seq<JobRow>, n: nat)
    requires n <= |h|
  {
    var a, m := LastOf(h, n, L_FULL), Anchor(h, n);
    0 <= a < m ==> h[a].endTime < h[m].startTime
  }

  /** ... and the next Incremental strictly after the job it follows: start times have whole seconds. */
  ghost predicate Separated(h: seq<JobRow>, n: nat)
    requires n <= |h|
  {
    DiffSeparated(h, n) && (0 <= Anchor(h, n) < n - 1 ==> h[Anchor(h, n)].endTime < h[Anchor(h, n) + 1].startTime)
  }

  /** The job whose state a restore yields: the last one for an Incremental request, else the last Full. */
  function RestoredAt(req: Request, h: seq<JobRow>, n: nat): (i: nat)
    requires n <= |h| && LastOf(h, n, 'F') >= 0
    ensures i < n
  {
    if req.level == 'I' || req.level == 'f' then n - 1 else LastOf(h, n, 'F')
  }

  /** The first n jobs of the history are those that start at the date or before. */
  ghost predicate StartBy(h: seq<JobRow>, n: nat, date: int) {
    && n <= |h|
    && (forall i :: 0 <= i < n ==> h[i].startTime <= date)
    && (forall i :: n <= i < |h| ==> date < h[i].startTime)
  }

  /** ... or before the limit. */
  ghost predicate IsCut(h: seq<JobRow>, limit: int, n: nat) {
    && n <= |h|
    && (forall i :: 0 <= i < n ==> h[i].startTime < limit)
    && (forall i :: n <= i < |h| ==> limit <= h[i].startTime)
  }

  ghost predicate InChain(h: seq<JobRow>, n: nat, j: JobRow)
    requires n <= |h|
  {
    exists i :: 0 <= i < n && h[i] == j && (i == LastOf(h, n, L_FULL) || Anchor(h, n) <= i)
  }

  lemma {:induction false} SelectedIndex(db: Db, req: Request, h: seq<JobRow>, limit: int, n: nat, level: char, j: JobRow)
    requires IsHistory(db, req, h) && IsCut(h, limit, n) && IsBackupLevel(level)
    ensures j in Select(db, req, limit, level) <==> exists i :: 0 <= i < n && h[i] == j && j.level == level
  {
    if j in Select(db, req, limit, level) {
      assert j in h;
    }
    if exists i :: 0 <= i < n && h[i] == j && j.level == level {
      assert j in h;
    }
  }

  lemma {:induction false} FullIs(db: Db, req: Request, h: seq<JobRow>, limit: int, n: nat, full: set<JobRow>)
    requires IsHistory(db, req, h) && IsCut(h, limit, n)
    requires IsTopOne(Select(db, req, limit, L_FULL), full)
    ensures full == if LastOf(h, n, L_FULL) >= 0 then {h[LastOf(h, n, L_FULL)]} else {}
  {
    var a := LastOf(h, n, L_FULL);
    forall j ensures j in Select(db, req, limit, L_FULL) <==> exists i :: 0 <= i < n && h[i] == j && j.level == L_FULL {
      SelectedIndex(db, req, h, limit, n, L_FULL, j);
    }
    if a >= 0 {
      assert h[a] in Select(db, req, limit, L_FULL);
    }
  }

  lemma {:induction false} DiffCandidates(db: Db, req: Request, h: seq<JobRow>, limit: int, n: nat, a: nat, j: JobRow) returns (i: nat)
    requires IsHistory(db, req, h) && IsCut(h, limit, n) && a < n
    requires j in SelectAfter(db, req, limit, L_DIFFERENTIAL, {h[a]})
    ensures a < i < n && h[i] == j && j.level == L_DIFFERENTIAL
  {
    SelectedIndex(db, req, h, limit, n, L_DIFFERENTIAL, j);
    i :| 0 <= i < n && h[i] == j && j.level == L_DIFFERENTIAL;
    assert h[a] in {h[a]};
  }

  lemma {:induction false} DiffIs(db: Db, req: Request, h: seq<JobRow>, limit: int, n: nat, diff: set<JobRow>)
    requires IsHistory(db, req, h) && IsCut(h, limit, n) && LastOf(h, n, L_FULL) >= 0 && DiffSeparated(h, n)
    requires IsTopOne(SelectAfter(db, req, limit, L_DIFFERENTIAL, {h[LastOf(h, n, L_FULL)]}), diff)
    ensures diff == if LastOf(h, n, L_DIFFERENTIAL) > LastOf(h, n, L_FULL) then {h[LastOf(h, n, L_DIFFERENTIAL)]} else {}
  {
    var a, d := LastOf(h, n, L_FULL), LastOf(h, n, L_DIFFERENTIAL);
    var s := SelectAfter(db, req, limit, L_DIFFERENTIAL, {h[a]});
    if d > a {
      SelectedIndex(db, req, h, limit, n, L_DIFFERENTIAL, h[d]);
      assert h[d] in s;
    }
    if s != {} {
      var x :| x in s && diff == {x} && forall y :: y in s ==> y.jobTDate <= x.jobTDate;
      var i := DiffCandidates(db, req, h, limit, n, a, x);
      assert i <= d && h[d].jobTDate <= h[i].jobTDate;
    }
  }

  /** Every job after the anchor is an Incremental that starts after both anchors have ended. */
  lemma {:induction false} AfterAnchors(db: Db, req: Request, h: seq<JobRow>, n: nat, i: nat)
    requires IsHistory(db, req, h) && n <= |h| && LastOf(h, n, L_FULL) >= 0 && Separated(h, n)
    requires Anchor(h, n) < i < n
    ensures h[i].level == L_INCREMENTAL
    ensures h[LastOf(h, n, L_FULL)].endTime < h[i].startTime && h[Anchor(h, n)].endTime < h[i].startTime
  {
    assert h[i] in h;
    var a, m := LastOf(h, n, L_FULL), Anchor(h, n);
    assert h[m + 1].startTime <= h[i].startTime;
    assert h[m].startTime < h[m + 1].startTime;
  }

  lemma {:induction false} SelectedIsAfter(db: Db, req: Request, h: seq<JobRow>, limit: int, n: nat, temp: set<JobRow>, j: JobRow) returns (i: nat)
    requires IsHistory(db, req, h) && IsCut(h, limit, n) && LastOf(h, n, L_FULL) >= 0
    requires h[Anchor(h, n)] in temp && j in SelectAfter(db, req, limit, L_INCREMENTAL, temp)
    ensures Anchor(h, n) < i < n && h[i] == j
  {
    SelectedIndex(db, req, h, limit, n, L_INCREMENTAL, j);
    i :| 0 <= i < n && h[i] == j && j.level == L_INCREMENTAL;
    assert h[Anchor(h, n)].endTime < h[i].startTime;
  }

  lemma {:induction false} IncrementalsAre(db: Db, req: Request, h: seq<JobRow>, limit: int, n: nat, temp: set<JobRow>, j: JobRow)
    requires IsHistory(db, req, h) && IsCut(h, limit, n) && LastOf(h, n, L_FULL) >= 0 && Separated(h, n)
    requires temp == {h[LastOf(h, n, L_FULL)], h[Anchor(h, n)]}
    ensures j in SelectAfter(db, req, limit, L_INCREMENTAL, temp) <==> exists i :: Anchor(h, n) < i < n && h[i] == j
  {
    if j in SelectAfter(db, req, limit, L_INCREMENTAL, temp) {
      var i := SelectedIsAfter(db, req, h, limit, n, temp, j);
    }
    if i :| Anchor(h, n) < i < n && h[i] == j {
      SelectedIndex(db, req, h, limit, n, L_INCREMENTAL, j);
      AfterAnchors(db, req, h, n, i);
    }
  }

  lemma {:induction false} ChainMembers(h: seq<JobRow>, n: nat, anchors: set<JobRow>, incs: set<JobRow>, j: JobRow)
    requires n <= |h| && LastOf(h, n, L_FULL) >= 0
    requires anchors == {h[LastOf(h, n, L_FULL)], h[Anchor(h, n)]}
    requires j in incs <==> exists i :: Anchor(h, n) < i < n && h[i] == j
    ensures j in anchors + incs <==> InChain(h, n, j)
  {
    if InChain(h, n, j) {
      var i :| 0 <= i < n && h[i] == j && (i == LastOf(h, n, L_FULL) || Anchor(h, n) <= i);
    }
  }

  lemma {:induction false} AnchorsAre(db: Db, req: Request, h: seq<JobRow>, limit: int, n: nat, full: set<JobRow>, diff: set<JobRow>)
    requires IsHistory(db, req, h) && IsCut(h, limit, n) && LastOf(h, n, L_FULL) >= 0 && DiffSeparated(h, n)
    requires IsTopOne(Select(db, req, limit, L_FULL), full)
    requires IsTopOne(SelectAfter(db, req, limit, L_DIFFERENTIAL, full), diff)
    ensures full + diff == {h[LastOf(h, n, L_FULL)], h[Anchor(h, n)]}
  {
    FullIs(db, req, h, limit, n, full);
    DiffIs(db, req, h, limit, n, diff);
  }

  /** The chain is the last Full, the last Differential after it, and every later job. */
  lemma {:induction false} ChainIs(db: Db, req: Request, h: seq<JobRow>, limit: int, n: nat, chain: set<JobRow>, j: JobRow)
    requires IsHistory(db, req, h) && IsCut(h, limit, n) && LastOf(h, n, L_FULL) >= 0
    requires NeedsIncrementals(req) ==> Separated(h, n)
    requires IsAccurateChain(db, req, limit, chain)
    ensures j in chain <==> if NeedsIncrementals(req) then InChain(h, n, j) else j == h[LastOf(h, n, L_FULL)]
  {
    var full, diff :| IsChainFrom(db, req, limit, full, diff, chain);
    if NeedsIncrementals(req) {
      AnchorsAre(db, req, h, limit, n, full, diff);
      IncrementalsAre(db, req, h, limit, n, full + diff, j);
      ChainMembers(h, n, full + diff, SelectAfter(db, req, limit, L_INCREMENTAL, full + diff), j);
    } else {
      FullIs(db, req, h, limit, n, full);
    }
  }

  /** The chain is complete exactly when the jobs it joins do not touch. */
  lemma {:induction false} ChainCompleteIff(db: Db, req: Request, h: seq<JobRow>, limit: int, n: nat, chain: set<JobRow>)
    requires IsHistory(db, req, h) && IsCut(h, limit, n) && LastOf(h, n, L_FULL) >= 0
    requires IsAccurateChain(db, req, limit, chain) && NeedsIncrementals(req)
    ensures (forall j :: j in chain <==> InChain(h, n, j)) <==> Separated(h, n)
  {
    if Separated(h, n) {
      forall j ensures j in chain <==> InChain(h, n, j) {
        ChainIs(db, req, h, limit, n, chain, j);
      }
    } else {
      var i := TouchingJobIsDropped(db, req, h, limit, n, chain);
      assert InChain(h, n, h[i]);
    }
  }

  /** A Differential that starts in the second the Full ended is left out. */
  lemma {:induction false} TouchingDiffIsDropped(db: Db, req: Request, h: seq<JobRow>, limit: int, n: nat, full: set<JobRow>, diff: set<JobRow>, chain: set<JobRow>)
    requires IsHistory(db, req, h) && n <= |h| && LastOf(h, n, L_FULL) >= 0 && !DiffSeparated(h, n)
    requires full == {h[LastOf(h, n, L_FULL)]} && NeedsIncrementals(req) && IsChainFrom(db, req, limit, full, diff, chain)
    ensures h[Anchor(h, n)] !in chain
  {
    var a, m := LastOf(h, n, L_FULL), Anchor(h, n);
    assert h[a] in full && h[m].level == L_DIFFERENTIAL;
  }

  /** So is an Incremental that starts in the second the job before it ended. */
  lemma {:induction false} TouchingIncrementalIsDropped(db: Db, req: Request, h: seq<JobRow>, limit: int, n: nat, temp: set<JobRow>)
    requires IsHistory(db, req, h) && n <= |h| && LastOf(h, n, L_FULL) >= 0 && DiffSeparated(h, n) && !Separated(h, n)
    requires temp == {h[LastOf(h, n, L_FULL)], h[Anchor(h, n)]}
    ensures h[Anchor(h, n) + 1] !in temp + SelectAfter(db, req, limit, L_INCREMENTAL, temp)
  {
    var a, m := LastOf(h, n, L_FULL), Anchor(h, n);
    assert h[m] in temp;
    assert h[a].startTime < h[m + 1].startTime && h[m].startTime < h[m + 1].startTime;
  }

  lemma {:induction false} IncrementalLeftOut(db: Db, req: Request, h: seq<JobRow>, limit: int, n: nat, full: set<JobRow>, diff: set<JobRow>, chain: set<JobRow>)
    requires IsHistory(db, req, h) && IsCut(h, limit, n) && LastOf(h, n, L_FULL) >= 0 && DiffSeparated(h, n) && !Separated(h, n)
    requires NeedsIncrementals(req) && IsChainFrom(db, req, limit, full, diff, chain)
    ensures h[Anchor(h, n) + 1] !in chain
  {
    AnchorsAre(db, req, h, limit, n, full, diff);
    TouchingIncrementalIsDropped(db, req, h, limit, n, full + diff);
  }

  /** A job that starts in the second its predecessor ended is left out of the chain. */
  lemma {:induction false} TouchingJobIsDropped(db: Db, req: Request, h: seq<JobRow>, limit: int, n: nat, chain: set<JobRow>) returns (i: nat)
    requires IsHistory(db, req, h) && IsCut(h, limit, n) && LastOf(h, n, L_FULL) >= 0
    requires IsAccurateChain(db, req, limit, chain) && NeedsIncrementals(req) && !Separated(h, n)
    ensures Anchor(h, n) <= i < n && h[i] !in chain
  {
    var full, diff :| IsChainFrom(db, req, limit, full, diff, chain);
    if DiffSeparated(h, n) {
      i := Anchor(h, n) + 1;
      IncrementalLeftOut(db, req, h, limit, n, full, diff, chain);
    } else {
      i := Anchor(h, n);
      FullIs(db, req, h, limit, n, full);
      TouchingDiffIsDropped(db, req, h, limit, n, full, diff, chain);
    }
  }

  function Lasting(jobId: nat, level: char, fileSetId: nat, start: int, end: int): JobRow {
    JobRow(jobId, "run", "", "backup", JT_BACKUP, level, 'T', start, end, end, 1, fileSetId)
  }

  /** A Full that ends at 20 and an Incremental that starts at 20: the Incremental is left out. */
  lemma {:induction false} TouchingHistory(chain: set<JobRow>)
    ensures var full, inc := Lasting(1, L_FULL, 1, 10, 20), Lasting(2, L_INCREMENTAL, 1, 20, 30);
            var db, req := Db({full, inc}, {}, {}, map[1 := "set"]), Request(L_INCREMENTAL, 1, 1, "", 100);
            && IsHistory(db, req, [full, inc]) && IsCut([full, inc], Limit(req, 0), 2) && LastOf([full, inc], 2, L_FULL) == 0
            && (IsAccurateChain(db, req, Limit(req, 0), chain) ==> inc !in chain)
  {
    var full, inc := Lasting(1, L_FULL, 1, 10, 20), Lasting(2, L_INCREMENTAL, 1, 20, 30);
    var db, req := Db({full, inc}, {}, {}, map[1 := "set"]), Request(L_INCREMENTAL, 1, 1, "", 100);
    var h := [full, inc];
    assert h[0] == full && h[1] == inc;
    assert LastOf(h, 1, L_FULL) == 0 && LastOf(h, 1, L_DIFFERENTIAL) == -1 && Anchor(h, 2) == 0;
    assert IsCut(h, Limit(req, 0), 2) && IsHistory(db, req, h);
    if fulls, diffs :| IsChainFrom(db, req, Limit(req, 0), fulls, diffs, chain) {
      IncrementalLeftOut(db, req, h, Limit(req, 0), 2, fulls, diffs, chain);
    }
  }

  // ----- The reference job of a job of the history

  /** The jobs that the search for a reference treats as one series. */
  predicate InSeries(i: JobRow, j: JobRow) {
    i.name == j.name && i.fileSetId == j.fileSetId
  }

  /** The last job below n of the series of j, or its last Full. */
  function LastLike(h: seq<JobRow>, n: nat, j: JobRow, full: bool): (i: int)
    requires n <= |h|
    ensures -1 <= i < n
    ensures i >= 0 ==> InSeries(h[i], j) && (full ==> h[i].level == L_FULL)
    ensures forall k :: i < k < n && InSeries(h[k], j) ==> full && h[k].level != L_FULL
  {
    if n == 0 then -1
    else if InSeries(h[n - 1], j) && (full ==> h[n - 1].level == L_FULL) then n - 1
    else LastLike(h, n - 1, j, full)
  }

  /** A Differential refers to the last Full of its series, an Incremental to the last job of its series. */
  lemma {:induction false} ReferenceIs(db: Db, req: Request, h: seq<JobRow>, k: nat, r: nat)
    requires IsHistory(db, req, h) && RefersTo(db, h, k, r) && h[k].level != L_FULL
    ensures r == LastLike(h, k, h[k], h[k].level == L_DIFFERENTIAL)
  {
    var jobs, since := DoneBefore(db, h[k]), SinceOf(h[k]);
    assert h[k] in h && h[r] in h;
    assert r < k by {
      assert h[r] in jobs;
    }
    var l := LastLike(h, k, h[k], h[k].level == L_DIFFERENTIAL);
    assert l >= r;
    assert h[l] in h && h[l] in jobs && IsSeriesJob(jobs, since, h[k].level == 'D', h[l]);
  }

  /** The job whose state a job of the chain has to build on. */
  function Base(h: seq<JobRow>, n: nat, k: nat): (b: nat)
    requires n <= |h| && LastOf(h, n, L_FULL) >= 0 && LastOf(h, n, L_FULL) < k < n && Anchor(h, n) <= k
    ensures b < k
  {
    if k == Anchor(h, n) then LastOf(h, n, L_FULL) else k - 1
  }

  ghost predicate IsLink(h: seq<JobRow>, n: nat, k: nat)
    requires n <= |h|
  {
    0 <= LastOf(h, n, L_FULL) < k < n && Anchor(h, n) <= k
  }

  /** Each job of the chain is of the series of the job it builds on. */
  ghost predicate OneSeries(h: seq<JobRow>, n: nat)
    requires n <= |h|
  {
    forall k: nat :: IsLink(h, n, k) ==> InSeries(h[Base(h, n, k)], h[k])
  }

  /** A job of the chain refers to the job it builds on exactly when both are of one series. */
  lemma {:induction false} RefersToBaseIff(db: Db, req: Request, h: seq<JobRow>, n: nat, k: nat, r: nat)
    requires IsHistory(db, req, h) && n <= |h| && IsLink(h, n, k) && RefersTo(db, h, k, r)
    ensures r == Base(h, n, k) <==> InSeries(h[Base(h, n, k)], h[k])
  {
    assert h[k] in h && h[k].level != L_FULL;
    ReferenceIs(db, req, h, k, r);
    var a, m := LastOf(h, n, L_FULL), Anchor(h, n);
    if k == m {
      assert h[k].level == L_DIFFERENTIAL;
    } else {
      assert h[k].level == L_INCREMENTAL;
    }
  }

  /** So the chain holds what its jobs are relative to exactly when FileSetIds and names are kept along it. */
  lemma {:induction false} ReferencesInChainIff(db: Db, req: Request, h: seq<JobRow>, n: nat)
    requires IsHistory(db, req, h) && n <= |h|
    requires forall k: nat :: IsLink(h, n, k) ==> exists r: nat :: RefersTo(db, h, k, r)
    ensures (forall k: nat :: IsLink(h, n, k) ==> RefersTo(db, h, k, Base(h, n, k))) <==> OneSeries(h, n)
  {
    forall k: nat | IsLink(h, n, k) ensures RefersTo(db, h, k, Base(h, n, k)) <==> InSeries(h[Base(h, n, k)], h[k]) {
      var r: nat :| RefersTo(db, h, k, r);
      RefersToBaseIff(db, req, h, n, k, r);
      if RefersTo(db, h, k, Base(h, n, k)) {
        RefersToBaseIff(db, req, h, n, k, Base(h, n, k));
      }
    }
  }

  // ----- What the newest entries show

  /** The newest rows, deletions hidden, are the state. */
  ghost predicate Represents(rows: set<Row>, s: State) {
    && (forall x {:trigger IsNewest(Plain, rows, x)} :: IsNewest(Plain, rows, x) ==> IsTrueOf(x.file, s))
    && (forall k {:trigger HasNewest(rows, k)} :: k in s ==> HasNewest(rows, k))
  }

  ghost predicate HasNewest(rows: set<Row>, k: FileKey) {
    exists x :: IsNewest(Plain, rows, x) && KeyOf(x.file) == k
  }

  /** Within one job an own entry is newer than a base file. */
  lemma {:induction false} OwnIsNewer(db: Db, j: JobRow, x: Row, f: FileRow)
    requires WellFormed(db) && j in db.jobs && EntriesOk(db, j) && x in RowsOf(db, j) && x.file.jobId != j.jobId
    requires f in db.files && f.jobId == j.jobId
    ensures Row(f, j.jobTDate) in RowsOf(db, j) && x.jobTDate < j.jobTDate
  {
    RowsOfIs(db, j);
    var i := UnionRowOwner(db, {j.jobId}, x);
    assert IsBaseOf(db, j, i);
  }

  /** So the newest entry of a file is the one that tells. */
  lemma {:induction false} NewestTells(db: Db, j: JobRow, x: Row)
    requires WellFormed(db) && j in db.jobs && EntriesOk(db, j) && IsNewest(Plain, RowsOf(db, j), x)
    ensures Tells(db, j, x)
  {
    forall f | f in db.files && f.jobId == j.jobId && x.file.jobId != j.jobId
      ensures Row(f, j.jobTDate) in RowsOf(db, j) && x.jobTDate < j.jobTDate
    {
      OwnIsNewer(db, j, x, f);
    }
  }

  lemma {:induction false} EntryHasNewest(db: Db, j: JobRow, k: FileKey) returns (x: Row)
    requires HasEntry(db, j, k)
    ensures IsNewest(Plain, RowsOf(db, j), x) && KeyOf(x.file) == k
  {
    var y :| y in RowsOf(db, j) && KeyOf(y.file) == k;
    x := NewestExists(Plain, RowsOf(db, j), y);
  }

  /** Adding a newer job that records the change from one state to another moves the view from the one to the other. */
  lemma {:induction false} ViewAdvances(db: Db, rows: set<Row>, before: State, j: JobRow, now: State)
    requires WellFormed(db) && j in db.jobs && EntriesOk(db, j)
    requires Represents(rows, before) && Records(db, j, before, now)
    requires forall x, y :: x in rows && y in RowsOf(db, j) ==> x.jobTDate < y.jobTDate
    ensures Represents(rows + RowsOf(db, j), now)
  {
    var all := rows + RowsOf(db, j);
    forall x | IsNewest(Plain, all, x) ensures IsTrueOf(x.file, now) {
      if x in RowsOf(db, j) {
        NewestTells(db, j, x);
      } else {
        assert !HasEntry(db, j, KeyOf(x.file));
        assert IsNewest(Plain, rows, x) && Agree(before, now, KeyOf(x.file));
      }
    }
    forall k | k in now ensures HasNewest(all, k) {
      if HasEntry(db, j, k) {
        var x := EntryHasNewest(db, j, k);
        assert IsNewest(Plain, all, x);
      } else {
        assert Agree(before, now, k) && HasNewest(rows, k);
        var x :| IsNewest(Plain, rows, x) && KeyOf(x.file) == k;
        assert IsNewest(Plain, all, x);
      }
    }
  }

  // ----- The view over the chain

  ghost function IdsOf(chain: set<JobRow>): set<nat> {
    set j | j in chain :: j.jobId
  }

  lemma {:induction false} RowsAdded(db: Db, s: set<JobRow>, j: JobRow)
    ensures UnionRows(db, IdsOf(s + {j})) == UnionRows(db, IdsOf(s)) + RowsOf(db, j)
  {
    RowsOfIs(db, j);
    var more := IdsOf(s + {j});
    assert more == IdsOf(s) + {j.jobId};
    forall f ensures InUnion(db, more, f) <==> InUnion(db, IdsOf(s), f) || InUnion(db, {j.jobId}, f) {
    }
    forall x ensures x in UnionRows(db, more) <==> x in UnionRows(db, IdsOf(s)) + RowsOf(db, j) {
    }
  }

  /** A Full and newer jobs that are no Fulls, with dates of their own. */
  ghost predicate IsRestoreSet(db: Db, s: set<JobRow>, full: JobRow) {
    && full in s && s <= db.jobs
    && (forall j :: j in s ==> EntriesOk(db, j) && (j == full || (j.level != L_FULL && full.jobTDate < j.jobTDate)))
    && (forall i, j :: i in s && j in s && i.jobTDate == j.jobTDate ==> i == j)
  }

  /** Only base jobs of the Full are involved besides the jobs themselves. */
  lemma {:induction false} InvolvedIs(db: Db, s: set<JobRow>, full: JobRow, j: JobRow)
    requires WellFormed(db) && IsRestoreSet(db, s, full) && Involved(db, IdsOf(s), j)
    ensures j in s || IsBaseOf(db, full, j)
  {
    if j.jobId in IdsOf(s) {
      var i :| i in s && i.jobId == j.jobId;
      assert i == j;
    } else {
      var b :| b in db.base && b.jobId in IdsOf(s) && b.baseJobId == j.jobId;
      var i :| i in s && i.jobId == b.jobId;
      assert i == full;
    }
  }

  lemma {:induction false} RestoreSetIsRanked(db: Db, s: set<JobRow>, full: JobRow)
    requires WellFormed(db) && IsRestoreSet(db, s, full)
    ensures DistinctDates(db, IdsOf(s)) && OncePerJob(db, IdsOf(s))
  {
    forall i, j | Involved(db, IdsOf(s), i) && Involved(db, IdsOf(s), j) && i.jobTDate == j.jobTDate ensures i == j {
      InvolvedIs(db, s, full, i);
      InvolvedIs(db, s, full, j);
    }
    forall f, g, j | f in db.files && g in db.files && Involved(db, IdsOf(s), j) &&
                     f.jobId == j.jobId && g.jobId == j.jobId && SameFile(f, g)
      ensures f == g
    {
      InvolvedIs(db, s, full, j);
      assert HoldsOnce(db, j) && KeyOf(f) == KeyOf(g);
    }
  }

  /** The rows of a later job are newer than all rows so far. */
  lemma {:induction false} LaterRowsAreNewer(db: Db, s: set<JobRow>, full: JobRow, j: JobRow, x: Row, y: Row)
    requires WellFormed(db) && IsRestoreSet(db, s, full)
    requires j in db.jobs && EntriesOk(db, j) && j.level != L_FULL && forall i :: i in s ==> i.jobTDate < j.jobTDate
    requires x in UnionRows(db, IdsOf(s)) && y in RowsOf(db, j)
    ensures x.jobTDate < y.jobTDate
  {
    RowsOfIs(db, j);
    var i := UnionRowOwner(db, IdsOf(s), x);
    InvolvedIs(db, s, full, i);
    assert full in s;
    var k := UnionRowOwner(db, {j.jobId}, y);
    assert k == j;
  }

  /** The part of the chain up to index i. */
  ghost function ChainUpTo(h: seq<JobRow>, a: nat, m: nat, i: nat): set<JobRow>
    requires a <= m <= i < |h|
    decreases i
  {
    if i == m then {h[a]} + (if m == a then {} else {h[m]}) else ChainUpTo(h, a, m, i - 1) + {h[i]}
  }

  lemma {:induction false} ChainUpToMembers(h: seq<JobRow>, a: nat, m: nat, i: nat, j: JobRow)
    requires a <= m <= i < |h|
    ensures j in ChainUpTo(h, a, m, i) <==> exists k :: 0 <= k <= i && h[k] == j && (k == a || m <= k)
    decreases i
  {
    if i > m {
      ChainUpToMembers(h, a, m, i - 1, j);
    }
  }

  ghost predicate DatesRise(h: seq<JobRow>) {
    forall i, k :: 0 <= i < k < |h| ==> h[i].jobTDate < h[k].jobTDate
  }

  /** From a to i: a Full, then other jobs. */
  ghost predicate IsSpan(db: Db, h: seq<JobRow>, a: nat, i: nat) {
    && a <= i < |h| && DatesRise(h)
    && (forall k :: a <= k <= i ==> h[k] in db.jobs)
    && (forall k {:trigger EntriesOk(db, h[k])} :: a <= k <= i ==> EntriesOk(db, h[k]))
    && (forall k :: a < k <= i ==> h[k].level != L_FULL)
  }

  lemma {:induction false} ChainMember(db: Db, h: seq<JobRow>, a: nat, m: nat, i: nat, j: JobRow) returns (k: nat)
    requires IsSpan(db, h, a, i) && a <= m <= i && j in ChainUpTo(h, a, m, i)
    ensures a <= k <= i && h[k] == j && j in db.jobs && EntriesOk(db, j)
    ensures j == h[a] || (j.level != L_FULL && h[a].jobTDate < j.jobTDate)
  {
    ChainUpToMembers(h, a, m, i, j);
    k :| 0 <= k <= i && h[k] == j && (k == a || m <= k);
  }

  lemma {:induction false} SameDate(h: seq<JobRow>, k: nat, l: nat)
    requires DatesRise(h) && k < |h| && l < |h| && h[k].jobTDate == h[l].jobTDate
    ensures k == l
  {
  }

  lemma {:induction false} ChainIsRestoreSet(db: Db, h: seq<JobRow>, a: nat, m: nat, i: nat)
    requires IsSpan(db, h, a, i) && a <= m <= i
    ensures IsRestoreSet(db, ChainUpTo(h, a, m, i), h[a])
  {
    var s := ChainUpTo(h, a, m, i);
    ChainUpToMembers(h, a, m, i, h[a]);
    forall j | j in s
      ensures j in db.jobs && EntriesOk(db, j) && (j == h[a] || (j.level != L_FULL && h[a].jobTDate < j.jobTDate))
    {
      var k := ChainMember(db, h, a, m, i, j);
    }
    forall j, o | j in s && o in s && j.jobTDate == o.jobTDate ensures j == o {
      var k := ChainMember(db, h, a, m, i, j);
      var l := ChainMember(db, h, a, m, i, o);
      SameDate(h, k, l);
    }
  }

  /** The Full at a, the Differential at m if m is another job, and the jobs up to i, each on its base. */
  ghost predicate RecordsChain(db: Db, h: seq<JobRow>, states: seq<State>, a: nat, m: nat, i: nat) {
    && a <= m <= i < |h| == |states|
    && Records(db, h[a], map[], states[a])
    && (m == a || Records(db, h[m], states[a], states[m]))
    && forall k :: m < k <= i ==> Records(db, h[k], states[k - 1], states[k])
  }

  lemma {:induction false} FullRepresents(db: Db, j: JobRow, s: State)
    requires WellFormed(db) && j in db.jobs && EntriesOk(db, j) && Records(db, j, map[], s)
    ensures Represents(UnionRows(db, IdsOf({j})), s)
  {
    assert IdsOf({j}) == {j.jobId};
    RowsOfIs(db, j);
    assert Represents({}, map[]);
    ViewAdvances(db, {}, map[], j, s);
    assert {} + RowsOf(db, j) == RowsOf(db, j);
  }

  lemma {:induction false} JobAdvances(db: Db, s: set<JobRow>, full: JobRow, before: State, j: JobRow, now: State)
    requires WellFormed(db) && IsRestoreSet(db, s, full) && Represents(UnionRows(db, IdsOf(s)), before)
    requires j in db.jobs && EntriesOk(db, j) && j.level != L_FULL && forall i :: i in s ==> i.jobTDate < j.jobTDate
    requires Records(db, j, before, now)
    ensures Represents(UnionRows(db, IdsOf(s + {j})), now)
  {
    forall x, y | x in UnionRows(db, IdsOf(s)) && y in RowsOf(db, j) ensures x.jobTDate < y.jobTDate {
      LaterRowsAreNewer(db, s, full, j, x, y);
    }
    ViewAdvances(db, UnionRows(db, IdsOf(s)), before, j, now);
    RowsAdded(db, s, j);
  }

  lemma {:induction false} ChainStartRepresents(db: Db, h: seq<JobRow>, states: seq<State>, a: nat, m: nat)
    requires WellFormed(db) && IsSpan(db, h, a, m) && RecordsChain(db, h, states, a, m, m)
    ensures Represents(UnionRows(db, IdsOf(ChainUpTo(h, a, m, m))), states[m])
  {
    var full := ChainUpTo(h, a, a, a);
    FullRepresents(db, h[a], states[a]);
    assert full == {h[a]};
    if m > a {
      ChainIsRestoreSet(db, h, a, a, a);
      JobAdvances(db, full, h[a], states[a], h[m], states[m]);
      assert ChainUpTo(h, a, m, m) == full + {h[m]};
    }
  }

  lemma {:induction false} ChainAdvances(db: Db, h: seq<JobRow>, states: seq<State>, a: nat, m: nat, n: nat, i: nat)
    requires WellFormed(db) && IsSpan(db, h, a, n) && RecordsChain(db, h, states, a, m, n) && m < i <= n
    requires Represents(UnionRows(db, IdsOf(ChainUpTo(h, a, m, i - 1))), states[i - 1])
    ensures Represents(UnionRows(db, IdsOf(ChainUpTo(h, a, m, i))), states[i])
  {
    ChainIsRestoreSet(db, h, a, m, i - 1);
    ChainIsOlder(h, a, m, i);
    JobAdvances(db, ChainUpTo(h, a, m, i - 1), h[a], states[i - 1], h[i], states[i]);
  }

  /** The newest entries over the chain up to any job are the state at that job. */
  lemma {:induction false} ChainRepresents(db: Db, h: seq<JobRow>, states: seq<State>, a: nat, m: nat, n: nat, i: nat)
    requires WellFormed(db) && IsSpan(db, h, a, n) && RecordsChain(db, h, states, a, m, n) && m <= i <= n
    ensures Represents(UnionRows(db, IdsOf(ChainUpTo(h, a, m, i))), states[i])
    decreases i
  {
    if i > m {
      ChainRepresents(db, h, states, a, m, n, i - 1);
      ChainAdvances(db, h, states, a, m, n, i);
    } else {
      ChainStartRepresents(db, h, states, a, m);
    }
  }

  lemma {:induction false} ChainIsOlder(h: seq<JobRow>, a: nat, m: nat, i: nat)
    requires DatesRise(h) && a <= m < i < |h|
    ensures forall j :: j in ChainUpTo(h, a, m, i - 1) ==> j.jobTDate < h[i].jobTDate
  {
    forall j | j in ChainUpTo(h, a, m, i - 1) ensures j.jobTDate < h[i].jobTDate {
      ChainUpToMembers(h, a, m, i - 1, j);
    }
  }

  // ----- Reconstruction

  /** Where the chain of a request starts to run without gaps. */
  function ChainStart(req: Request, h: seq<JobRow>, n: nat): (m: nat)
    requires n <= |h| && LastOf(h, n, L_FULL) >= 0
    ensures m <= RestoredAt(req, h, n)
  {
    if NeedsIncrementals(req) then Anchor(h, n) else LastOf(h, n, L_FULL)
  }

  /** What a job of the chain records, if its reference is the job it builds on. */
  lemma {:induction false} LinkRecords(db: Db, req: Request, h: seq<JobRow>, states: seq<State>, n: nat, k: nat)
    requires IsHistory(db, req, h) && RecordsHistory(db, h, states) && n <= |h| && OneSeries(h, n) && IsLink(h, n, k)
    ensures Records(db, h[k], states[Base(h, n, k)], states[k])
  {
    assert JobRecords(db, h, states, k);
    var r: nat :| RefersTo(db, h, k, r) && Records(db, h[k], states[r], states[k]);
    RefersToBaseIff(db, req, h, n, k, r);
  }

  lemma {:induction false} HistoryRecordsChain(db: Db, req: Request, h: seq<JobRow>, states: seq<State>, n: nat)
    requires IsHistory(db, req, h) && RecordsHistory(db, h, states) && n <= |h| && LastOf(h, n, L_FULL) >= 0
    requires NeedsIncrementals(req) ==> OneSeries(h, n)
    ensures RecordsChain(db, h, states, LastOf(h, n, L_FULL), ChainStart(req, h, n), RestoredAt(req, h, n))
  {
    var a, m := LastOf(h, n, L_FULL), ChainStart(req, h, n);
    assert JobRecords(db, h, states, a);
    if m > a {
      assert IsLink(h, n, m);
      LinkRecords(db, req, h, states, n, m);
    }
    forall k | m < k <= RestoredAt(req, h, n) ensures Records(db, h[k], states[k - 1], states[k]) {
      assert IsLink(h, n, k);
      LinkRecords(db, req, h, states, n, k);
    }
  }

  lemma {:induction false} HistoryIsSpan(db: Db, req: Request, h: seq<JobRow>, states: seq<State>, n: nat)
    requires IsHistory(db, req, h) && RecordsHistory(db, h, states) && n <= |h| && LastOf(h, n, L_FULL) >= 0
    ensures IsSpan(db, h, LastOf(h, n, L_FULL), RestoredAt(req, h, n))
  {
    forall k | 0 <= k < |h| ensures h[k] in db.jobs && EntriesOk(db, h[k]) {
      assert h[k] in h;
    }
  }

  lemma {:induction false} ChainIsUpTo(req: Request, h: seq<JobRow>, n: nat, chain: set<JobRow>)
    requires n <= |h| && LastOf(h, n, L_FULL) >= 0
    requires forall j :: j in chain <==> if NeedsIncrementals(req) then InChain(h, n, j) else j == h[LastOf(h, n, L_FULL)]
    ensures chain == ChainUpTo(h, LastOf(h, n, L_FULL), ChainStart(req, h, n), RestoredAt(req, h, n))
  {
    var s := ChainUpTo(h, LastOf(h, n, L_FULL), ChainStart(req, h, n), RestoredAt(req, h, n));
    forall j ensures j in chain <==> j in s {
      ChainUpToMembers(h, LastOf(h, n, L_FULL), ChainStart(req, h, n), RestoredAt(req, h, n), j);
    }
  }

  /** Rows that are the newest ones, each file once, show the state they represent. */
  lemma {:induction false} NewestRowsShow(all: set<Row>, rows: set<Row>, s: State, opts: ListOptions)
    requires Represents(all, s) && forall x :: x in rows <==> IsNewest(Plain, all, x)
    requires forall x, y :: x in rows && y in rows && KeyOf(x.file) == KeyOf(y.file) ==> x == y
    ensures Shows(ListedRows(rows, opts), opts, all, s)
  {
    var list := ListedRows(rows, opts);
    forall k | k in s && !opts.deleted ensures exists x :: x in list && KeyOf(x.file) == k {
      assert HasNewest(all, k);
      var x :| IsNewest(Plain, all, x) && KeyOf(x.file) == k;
      assert IsTrueOf(x.file, s) && x in list;
    }
    forall y | y in all && KeyOf(y.file) !in s && (opts.deleted || opts.allFiles)
      ensures exists x :: x in list && KeyOf(x.file) == KeyOf(y.file)
    {
      var x := NewestExists(Plain, all, y);
      assert IsTrueOf(x.file, s) && KeyOf(x.file) == KeyOf(y.file) && x in list;
    }
  }

  /** Either query shape over a restore set returns its newest rows, each file once. */
  lemma {:induction false} QueryIsNewest(db: Db, s: set<JobRow>, full: JobRow, rows: set<Row>)
    requires WellFormed(db) && IsRestoreSet(db, s, full) && IsRecentVersion(Plain, db, IdsOf(s), rows)
    ensures forall x :: x in rows <==> IsNewest(Plain, UnionRows(db, IdsOf(s)), x)
    ensures forall x, y :: x in rows && y in rows && KeyOf(x.file) == KeyOf(y.file) ==> x == y
  {
    RestoreSetIsRanked(db, s, full);
    QueriesAgree(Plain, db, IdsOf(s), rows);
    assert IsDistinctOn(Plain, UnionRows(db, IdsOf(s)), rows);
    forall x, y | x in rows && y in rows && KeyOf(x.file) == KeyOf(y.file) ensures x == y {
      assert Key(Plain, x.file) == Key(Plain, y.file);
    }
  }

  /** With any options the list over a chain is the newest entries, per DeltaSeq if asked for, of the FileIndex asked for. */
  lemma {:induction false} FileListIs(db: Db, s: set<JobRow>, full: JobRow, opts: ListOptions, list: set<Row>, x: Row)
    requires WellFormed(db) && IsRestoreSet(db, s, full) && IsFileList(db, IdsOf(s), opts, list)
    ensures x in list <==> IsNewest(if opts.useDelta then PerDelta else Plain, UnionRows(db, IdsOf(s)), x) &&
                           (if opts.deleted then x.file.fileIndex <= 0 else opts.allFiles || x.file.fileIndex > 0)
  {
    var form := if opts.useDelta then PerDelta else Plain;
    var rows :| IsRecentVersion(form, db, IdsOf(s), rows) && list == ListedRows(rows, opts);
    RestoreSetIsRanked(db, s, full);
    QueriesAgree(form, db, IdsOf(s), rows);
  }

  /**
   The file list over the accurate chain shows the file state: at the last job before the wanted date for
   an Incremental or virtual Full request, at the last Full otherwise; base files included.
   */
  lemma {:induction false} RestoreReconstruction(db: Db, req: Request, now: int, h: seq<JobRow>, states: seq<State>, n: nat,
                              chain: set<JobRow>, opts: ListOptions, list: set<Row>)
    requires WellFormed(db) && IsHistory(db, req, h) && RecordsHistory(db, h, states)
    requires StartBy(h, n, if req.startTime != 0 then req.startTime else now) && exists i :: 0 <= i < n && h[i].level == 'F'
    requires req.level == 'I' || req.level == 'f' ==> Separated(h, n) && OneSeries(h, n)
    requires IsAccurateChain(db, req, Limit(req, now), chain)
    requires IsFileList(db, IdsOf(chain), opts, list) && !opts.useDelta
    ensures Shows(list, opts, UnionRows(db, IdsOf(chain)), states[RestoredAt(req, h, n)])
  {
    assert IsCut(h, Limit(req, now), n);
    forall j ensures j in chain <==> if NeedsIncrementals(req) then InChain(h, n, j) else j == h[LastOf(h, n, L_FULL)] {
      ChainIs(db, req, h, Limit(req, now), n, chain, j);
    }
    var a, m, i := LastOf(h, n, L_FULL), ChainStart(req, h, n), RestoredAt(req, h, n);
    ChainIsUpTo(req, h, n, chain);
    HistoryIsSpan(db, req, h, states, n);
    HistoryRecordsChain(db, req, h, states, n);
    ChainRepresents(db, h, states, a, m, i, i);
    ChainIsRestoreSet(db, h, a, m, i);
    var rows :| IsRecentVersion(Plain, db, IdsOf(chain), rows) && list == ListedRows(rows, opts);
    QueryIsNewest(db, chain, h[a], rows);
    NewestRowsShow(UnionRows(db, IdsOf(chain)), rows, states[i], opts);
  }

  /** Without a Full before the date there is nothing to restore from. */
  lemma {:induction false} NoFullNoChain(db: Db, req: Request, now: int, h: seq<JobRow>, n: nat, chain: set<JobRow>)
    requires IsHistory(db, req, h) && StartBy(h, n, if req.startTime != 0 then req.startTime else now)
    requires forall i :: 0 <= i < n ==> h[i].level != 'F'
    requires IsAccurateChain(db, req, Limit(req, now), chain)
    ensures chain == {}
  {
    assert IsCut(h, Limit(req, now), n);
    var full, diff :| IsChainFrom(db, req, Limit(req, now), full, diff, chain);
    FullIs(db, req, h, Limit(req, now), n, full);
    assert LastOf(h, n, L_FULL) == -1;
    if NeedsIncrementals(req) {
      assert SelectAfter(db, req, Limit(req, now), L_DIFFERENTIAL, {}) == {};
      assert SelectAfter(db, req, Limit(req, now), L_INCREMENTAL, {}) == {};
      assert full + diff == {};
    }
  }

  // ----- A chain that leaves its series

  function Run(jobId: nat, level: char, fileSetId: nat, start: int): JobRow {
    Lasting(jobId, level, fileSetId, start, start + 1)
  }

  /**
   The chain compares FileSet names, the reference compares FileSetIds. When a FileSet is edited and
   then put back, an Incremental is relative to a Full that the chain no longer holds.
   */
  lemma {:induction false} RevertedFileSetLeavesTheChain(chain: set<JobRow>)
    ensures var full1, full2, inc := Run(1, L_FULL, 1, 10), Run(2, L_FULL, 2, 20), Run(3, L_INCREMENTAL, 1, 30);
            var db, req := Db({full1, full2, inc}, {}, {}, map[1 := "set", 2 := "set"]), Request(L_INCREMENTAL, 1, 1, "", 100);
            && IsHistory(db, req, [full1, full2, inc]) && !OneSeries([full1, full2, inc], 3)
            && IsReference(DoneBefore(db, inc), SinceOf(inc), full1)
            && (IsAccurateChain(db, req, 101, chain) ==> chain == {full2, inc})
  {
    var full1, full2, inc := Run(1, L_FULL, 1, 10), Run(2, L_FULL, 2, 20), Run(3, L_INCREMENTAL, 1, 30);
    var db := Db({full1, full2, inc}, {}, {}, map[1 := "set", 2 := "set"]);
    var req := Request(L_INCREMENTAL, 1, 1, "", 100);
    FullsThenIncremental(full1, full2, inc);
    assert IsSeriesJob(DoneBefore(db, inc), SinceOf(inc), true, full1);
    assert Select(db, req, 101, L_FULL) == {full1, full2};
    if full, diff :| IsChainFrom(db, req, 101, full, diff, chain) {
      assert full1.jobTDate < full2.jobTDate && full == {full2};
      assert SelectAfter(db, req, 101, L_DIFFERENTIAL, full) == {};
      assert SelectAfter(db, req, 101, L_INCREMENTAL, full + diff) == {inc};
    }
  }

  lemma {:induction false} FullsThenIncremental(full1: JobRow, full2: JobRow, inc: JobRow)
    requires full1.level == L_FULL && full2.level == L_FULL && inc.level == L_INCREMENTAL
    ensures var h := [full1, full2, inc];
            LastOf(h, 3, L_FULL) == 1 && Anchor(h, 3) == 1 && (OneSeries(h, 3) <==> InSeries(full2, inc))
  {
    var h := [full1, full2, inc];
    assert h[2] == inc && h[1] == full2 && h[0] == full1;
    assert LastOf(h, 2, L_FULL) == 1 && LastOf(h, 1, L_DIFFERENTIAL) == -1 && LastOf(h, 2, L_DIFFERENTIAL) == -1;
    assert IsLink(h, 3, 2) && Base(h, 3, 2) == 1;
  }

  /** When a FileSet is edited and a new Full follows, the chain is of one series again. */
  lemma {:induction false} EditedFileSetKeepsItsChain()
    ensures var full1, full2, inc := Run(1, L_FULL, 1, 10), Run(2, L_FULL, 2, 20), Run(3, L_INCREMENTAL, 2, 30);
            var db, req := Db({full1, full2, inc}, {}, {}, map[1 := "set", 2 := "set"]), Request(L_INCREMENTAL, 1, 2, "", 100);
            IsHistory(db, req, [full1, full2, inc]) && OneSeries([full1, full2, inc], 3) && Separated([full1, full2, inc], 3)
  {
    var full1, full2, inc := Run(1, L_FULL, 1, 10), Run(2, L_FULL, 2, 20), Run(3, L_INCREMENTAL, 2, 30);
    FullsThenIncremental(full1, full2, inc);
  }
}
