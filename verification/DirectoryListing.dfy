/**
 Listing a directory: the inner selection of `ls_dirs` reads the caches instead of the File table, and
 `_handle_path` folds the joined rows so that a directory shows once, judged by its newest entry.
 */
module DirectoryListing {
  import opened Catalog
  import opened PathNames
  import opened PathHierarchy
  import PathStore

  // ----- Which sub-directories are listed

  /** SELECT DISTINCT PathId of the hierarchy rows below pwd that some job of the list shows. */
  function ListedDirs(h: map<nat, nat>, shown: set<Shown>, pwd: nat, jobIds: set<nat>): set<nat> {
    set i | i in h && h[i] == pwd && exists j :: j in jobIds && Shown(i, j) in shown
  }

  /** A scan of the files: q is a child of pwd and some job has a file in q or below it. */
  ghost predicate IsChildWithFiles(rows: map<nat, string>, files: set<FileRow>, base: set<BaseRow>, pwd: nat, jobIds: set<nat>, q: nat)
    requires pwd in rows
  {
    && q in rows && rows[q] != "" && ParentDir(rows[q]) == rows[pwd]
    && exists j :: j in jobIds && AtOrBelow(rows, q, Dirs(files, base, j))
  }

  /** Once the caches are built, the listing agrees with the scan. */
  lemma {:induction false} ListingIsScan(rows: map<nat, string>, h: map<nat, nat>, shown: set<Shown>, files: set<FileRow>, base: set<BaseRow>,
                      hasCache: set<nat>, pwd: nat, jobIds: set<nat>, q: nat)
    requires PathStore.OneToOne(rows) && TrueParents(rows, h) && AllExact(rows, h, shown, files, base, hasCache)
    requires jobIds <= hasCache && pwd in rows
    ensures q in ListedDirs(h, shown, pwd, jobIds) <==> IsChildWithFiles(rows, files, base, pwd, jobIds, q)
  {
    if q in ListedDirs(h, shown, pwd, jobIds) {
      var j :| j in jobIds && Shown(q, j) in shown;
      assert JobExact(rows, h, shown, files, base, j);
    }
    if IsChildWithFiles(rows, files, base, pwd, jobIds, q) {
      var j :| j in jobIds && AtOrBelow(rows, q, Dirs(files, base, j));
      assert JobExact(rows, h, shown, files, base, j);
      assert Shown(q, j) in shown;
    }
  }

  /** With rooted directory names "at or below" is a prefix test on the path strings. */
  lemma {:induction false} BelowIsPrefix(rows: map<nat, string>, dirs: set<nat>, q: nat)
    requires q in rows && forall d :: d in dirs ==> d in rows && IsRootedDir(rows[d])
    ensures AtOrBelow(rows, q, dirs) <==> exists d :: d in dirs && IsDirPrefix(rows[q], rows[d])
  {
    forall d | d in dirs ensures rows[q] in Ancestors(rows[d]) <==> IsDirPrefix(rows[q], rows[d]) {
      AncestorIffDirPrefix(rows[d], rows[q]);
    }
  }

  /** A cached job shows the root exactly when one of its directories is rooted. */
  lemma {:induction false} RootShownIff(rows: map<nat, string>, h: map<nat, nat>, shown: set<Shown>, dirs: set<nat>, jobId: nat)
    requires TrueParents(rows, h) && Exact(rows, shown, dirs, jobId) && ShownHaveRows(rows, h, shown, jobId)
    requires forall d :: d in dirs ==> d in rows
    ensures (exists p :: Shown(p, jobId) in shown && rows[p] == "") <==> (exists d :: d in dirs && IsRooted(rows[d]))
  {
    ExactIsClosed(rows, h, shown, dirs, jobId);
    if d :| d in dirs && IsRooted(rows[d]) {
      ReachesRootIffRooted(rows[d]);
      assert AtOrBelow(rows, d, dirs);
      var p := AncestorIsShown(rows, h, shown, jobId, d, "");
    }
    if p :| Shown(p, jobId) in shown && rows[p] == "" {
      var d :| d in dirs && d in rows && rows[p] in Ancestors(rows[d]);
      ReachesRootIffRooted(rows[d]);
    }
  }

  // ----- Showing each directory once

  datatype Field = Null | Value(v: int)

  /** A row of the outer query; the attribute columns are NULL when no job has an entry for the path. */
  datatype DirRow = DirRow(isDir: bool, pathId: nat, jobTDate: int, fileIndex: Field, fileId: Field)

  /** ORDER BY Path, JobTDate DESC: rows of one path are together, newest first. */
  ghost predicate IsOrdered(rows: seq<DirRow>) {
    && (forall i, k, m :: 0 <= i < k < m < |rows| && rows[i].pathId == rows[m].pathId ==> rows[k].pathId == rows[i].pathId)
    && (forall i, k :: 0 <= i < k < |rows| && rows[i].pathId == rows[k].pathId ==> rows[k].jobTDate <= rows[i].jobTDate)
  }

  /** The newest directory row of its path. */
  ghost predicate IsFirst(rows: seq<DirRow>, i: nat) {
    i < |rows| && rows[i].isDir && forall k :: 0 <= k < i && rows[k].isDir ==> rows[k].pathId != rows[i].pathId
  }

  /** prev is the path of the last directory row before p. */
  ghost predicate IsLastDir(rows: seq<DirRow>, p: nat, prev: Field) {
    p <= |rows| &&
    if prev == Null then forall k :: 0 <= k < p ==> !rows[k].isDir
    else exists k :: 0 <= k < p && rows[k].isDir && Value(rows[k].pathId) == prev && forall m :: k < m < p ==> !rows[m].isDir
  }

  /** In ordered rows, remembering the last path is enough to recognise a new one. */
  lemma {:induction false} FirstIffNotLast(rows: seq<DirRow>, p: nat, prev: Field)
    requires IsOrdered(rows) && p < |rows| && IsLastDir(rows, p, prev)
    ensures IsFirst(rows, p) <==> rows[p].isDir && prev != Value(rows[p].pathId)
    ensures IsLastDir(rows, p + 1, if rows[p].isDir then Value(rows[p].pathId) else prev)
  {
    if rows[p].isDir && prev != Null {
      var l :| 0 <= l < p && rows[l].isDir && Value(rows[l].pathId) == prev && forall m :: l < m < p ==> !rows[m].isDir;
      forall k | 0 <= k < p && rows[k].isDir ensures rows[k].pathId == rows[p].pathId ==> rows[l].pathId == rows[p].pathId {
        assert k <= l;
      }
    }
  }

  class DirHandler {
    var prevDir: Field

    constructor ()
      ensures prevDir == Null
    {
      prevDir := Null;
    }

    /** `_handle_path`: says whether the row goes to the list handler. */
    method HandlePath(r: DirRow) returns (listed: bool)
      modifies this
      ensures prevDir == if r.isDir then Value(r.pathId) else old(prevDir)
      ensures listed <==> r.isDir && old(prevDir) != Value(r.pathId) &&
                          (r.fileIndex == Null || r.fileIndex.v > 0 || r.fileId == Value(0))
    {
      if r.isDir {
        if Value(r.pathId) != prevDir {
          prevDir := Value(r.pathId);
          if r.fileIndex != Null && r.fileIndex.v <= 0 && r.fileId != Value(0) {
            return false;
          }
          return true;
        }
      }
      return false;
    }

    /** The rows of the query, one call each. */
    method ListDirs(rows: seq<DirRow>) returns (listed: seq<DirRow>, ghost at: seq<nat>)
      requires IsOrdered(rows)
      modifies this
      ensures ArePicked(rows, listed, at) && forall i: nat :: i in at <==> IsPicked(rows, i)
      ensures forall i, k :: 0 <= i < k < |listed| ==> listed[i].pathId != listed[k].pathId
      ensures forall k, i :: 0 <= k < |listed| && 0 <= i < |rows| ==> NotNewer(rows[i], listed[k])
    {
      prevDir := Null;
      listed, at := [], [];
      for p := 0 to |rows|
        invariant ArePicked(rows, listed, at)
        invariant forall i: nat :: i in at <==> i < p && IsPicked(rows, i)
        invariant IsLastDir(rows, p, prevDir)
      {
        FirstIffNotLast(rows, p, prevDir);
        var ok := HandlePath(rows[p]);
        if ok {
          AllBefore(at, p);
          listed, at := listed + [rows[p]], at + [p];
        }
      }
      forall k | 0 <= k < |at| ensures IsFirst(rows, at[k]) {
        assert at[k] in at && IsPicked(rows, at[k]);
      }
      PickedOnce(rows, listed, at);
    }
  }

  /** The row is shown: the newest of its path, without attributes, saved, or without a FileId. */
  ghost predicate IsPicked(rows: seq<DirRow>, i: nat) {
    IsFirst(rows, i) && (rows[i].fileIndex == Null || rows[i].fileIndex.v > 0 || rows[i].fileId == Value(0))
  }

  /** The rows listed stand at ascending places of the result. */
  ghost predicate ArePicked(rows: seq<DirRow>, listed: seq<DirRow>, at: seq<nat>) {
    && |at| == |listed|
    && (forall k :: 0 <= k < |at| ==> at[k] < |rows| && listed[k] == rows[at[k]])
    && (forall i, k :: 0 <= i < k < |at| ==> at[i] < at[k])
  }

  lemma {:induction false} AllBefore(at: seq<nat>, p: nat)
    requires forall i :: i in at ==> i < p
    ensures forall k :: 0 <= k < |at| ==> at[k] < p
  {
    forall k | 0 <= k < |at| ensures at[k] < p {
      assert at[k] in at;
    }
  }

  predicate NotNewer(r: DirRow, shown: DirRow) {
    r.isDir && r.pathId == shown.pathId ==> r.jobTDate <= shown.jobTDate
  }

  lemma {:induction false} PickedOnce(rows: seq<DirRow>, listed: seq<DirRow>, at: seq<nat>)
    requires IsOrdered(rows) && ArePicked(rows, listed, at) && forall k :: 0 <= k < |at| ==> IsFirst(rows, at[k])
    ensures forall i, k :: 0 <= i < k < |listed| ==> listed[i].pathId != listed[k].pathId
    ensures forall k, i :: 0 <= k < |listed| && 0 <= i < |rows| ==> NotNewer(rows[i], listed[k])
  {
    forall k, i | 0 <= k < |listed| && 0 <= i < |rows| ensures NotNewer(rows[i], listed[k]) {
      assert IsFirst(rows, at[k]);
    }
  }

  // ----- The listing as a whole

  /** The entry of a directory itself, with an empty file name, in one of the jobs. */
  ghost predicate IsOwnEntry(files: set<FileRow>, jobs: set<JobRow>, jobIds: set<nat>, q: nat, f: FileRow, j: JobRow) {
    f in files && f.pathId == q && f.filename == "" && f.jobId in jobIds && j in jobs && j.jobId == f.jobId
  }

  function RowFor(f: FileRow, j: JobRow): DirRow {
    DirRow(true, f.pathId, j.jobTDate, Value(f.fileIndex), Value(f.fileId))
  }

  /** A directory without an entry has one row, with no attributes; its date is not compared with any. */
  function BareRow(q: nat): DirRow {
    DirRow(true, q, 0, Null, Null)
  }

  /** LEFT JOIN of the selected directories with their own entries. */
  ghost predicate IsJoined(dirs: set<nat>, files: set<FileRow>, jobs: set<JobRow>, jobIds: set<nat>, r: DirRow) {
    r.pathId in dirs &&
    if exists f, j :: IsOwnEntry(files, jobs, jobIds, r.pathId, f, j)
    then exists f, j :: IsOwnEntry(files, jobs, jobIds, r.pathId, f, j) && r == RowFor(f, j)
    else r == BareRow(r.pathId)
  }

  /** The newest own entry of the directory, a File row without a name, has a FileIndex that is not positive. */
  ghost predicate IsGone(files: set<FileRow>, jobs: set<JobRow>, jobIds: set<nat>, q: nat) {
    exists f, j | f in files && j in jobs :: f.fileIndex <= 0 && f.fileId != 0 && IsNewestEntry(files, jobs, jobIds, q, f, j)
  }

  ghost predicate IsNewestEntry(files: set<FileRow>, jobs: set<JobRow>, jobIds: set<nat>, q: nat, f: FileRow, j: JobRow) {
    && f in files && f.pathId == q && f.filename == "" && f.jobId in jobIds && j in jobs && j.jobId == f.jobId
    && forall g, i | g in files && i in jobs && g.pathId == q && g.filename == "" && g.jobId in jobIds && i.jobId == g.jobId ::
         i.jobTDate <= j.jobTDate
  }

  /** No directory has two own entries of one date. */
  ghost predicate EntriesApart(files: set<FileRow>, jobs: set<JobRow>, jobIds: set<nat>) {
    forall q, f, j, g, i | IsOwnEntry(files, jobs, jobIds, q, f, j) && IsOwnEntry(files, jobs, jobIds, q, g, i) ::
      j.jobTDate == i.jobTDate ==> f == g
  }

  ghost predicate IsQueryResult(dirs: set<nat>, files: set<FileRow>, jobs: set<JobRow>, jobIds: set<nat>, rows: seq<DirRow>) {
    IsOrdered(rows) && forall r :: r in rows <==> IsJoined(dirs, files, jobs, jobIds, r)
  }

  predicate Lists(listed: seq<DirRow>, q: nat) {
    exists k :: 0 <= k < |listed| && listed[k].pathId == q
  }

  lemma {:induction false} FirstRowOf(rows: seq<DirRow>, i: nat) returns (k: nat)
    requires i < |rows| && rows[i].isDir
    ensures IsFirst(rows, k) && rows[k].pathId == rows[i].pathId
    decreases i
  {
    k := i;
    if m :| 0 <= m < i && rows[m].isDir && rows[m].pathId == rows[i].pathId {
      k := FirstRowOf(rows, m);
    }
  }

  /** A selected directory is shown if it has no entry of its own, or the newest is that of a saved directory; hidden if it is a deletion. */
  lemma {:induction false} ShownByNewest(files: set<FileRow>, jobs: set<JobRow>, jobIds: set<nat>, q: nat)
    requires EntriesApart(files, jobs, jobIds)
    ensures (forall f, j :: f in files && j in jobs && f.jobId == j.jobId && f.jobId in jobIds && f.pathId == q ==> f.filename != "") ==>
              !IsGone(files, jobs, jobIds, q)
    ensures forall f, j :: IsNewestEntry(files, jobs, jobIds, q, f, j) ==>
              (IsGone(files, jobs, jobIds, q) <==> f.fileIndex <= 0 && f.fileId != 0)
  {
    forall f, j | IsNewestEntry(files, jobs, jobIds, q, f, j) && IsGone(files, jobs, jobIds, q) ensures f.fileIndex <= 0 && f.fileId != 0 {
      var g, i :| g in files && i in jobs && g.fileIndex <= 0 && g.fileId != 0 && IsNewestEntry(files, jobs, jobIds, q, g, i);
      assert IsOwnEntry(files, jobs, jobIds, q, f, j) && IsOwnEntry(files, jobs, jobIds, q, g, i);
    }
  }

  /** The first row of a directory is its newest own entry, if it has any. */
  lemma {:induction false} FirstIsNewest(dirs: set<nat>, files: set<FileRow>, jobs: set<JobRow>, jobIds: set<nat>, rows: seq<DirRow>, i: nat)
    requires IsQueryResult(dirs, files, jobs, jobIds, rows) && EntriesApart(files, jobs, jobIds) && IsFirst(rows, i)
    ensures IsPicked(rows, i) <==> !IsGone(files, jobs, jobIds, rows[i].pathId)
  {
    var q := rows[i].pathId;
    ShownByNewest(files, jobs, jobIds, q);
    assert rows[i] in rows && IsJoined(dirs, files, jobs, jobIds, rows[i]);
    if f, j :| IsOwnEntry(files, jobs, jobIds, q, f, j) && rows[i] == RowFor(f, j) {
      forall g, k | g in files && k in jobs && g.pathId == q && g.filename == "" && g.jobId in jobIds && k.jobId == g.jobId
        ensures k.jobTDate <= j.jobTDate
      {
        assert IsOwnEntry(files, jobs, jobIds, q, g, k);
        assert IsJoined(dirs, files, jobs, jobIds, RowFor(g, k)) && RowFor(g, k) in rows;
        var m :| 0 <= m < |rows| && rows[m] == RowFor(g, k);
      }
      assert IsNewestEntry(files, jobs, jobIds, q, f, j);
    } else if IsGone(files, jobs, jobIds, q) {
      var f, j :| f in files && j in jobs && f.fileIndex <= 0 && f.fileId != 0 && IsNewestEntry(files, jobs, jobIds, q, f, j);
      assert IsOwnEntry(files, jobs, jobIds, q, f, j);
      assert false;
    }
  }

  lemma {:induction false} DirHasRow(dirs: set<nat>, files: set<FileRow>, jobs: set<JobRow>, jobIds: set<nat>, rows: seq<DirRow>, q: nat)
    returns (i: nat)
    requires IsQueryResult(dirs, files, jobs, jobIds, rows) && q in dirs
    ensures IsFirst(rows, i) && rows[i].pathId == q
  {
    var r := BareRow(q);
    if f, j :| IsOwnEntry(files, jobs, jobIds, q, f, j) {
      r := RowFor(f, j);
    }
    assert IsJoined(dirs, files, jobs, jobIds, r) && r in rows;
    var m :| 0 <= m < |rows| && rows[m] == r;
    i := FirstRowOf(rows, m);
  }

  /** The directories listed are those selected whose newest own entry, if any, is no deletion. */
  lemma {:induction false} ListedIff(dirs: set<nat>, files: set<FileRow>, jobs: set<JobRow>, jobIds: set<nat>,
                  rows: seq<DirRow>, listed: seq<DirRow>, at: seq<nat>, q: nat)
    requires IsQueryResult(dirs, files, jobs, jobIds, rows) && EntriesApart(files, jobs, jobIds)
    requires ArePicked(rows, listed, at) && forall i: nat :: i in at <==> IsPicked(rows, i)
    ensures Lists(listed, q) <==> q in dirs && !IsGone(files, jobs, jobIds, q)
  {
    if k :| 0 <= k < |listed| && listed[k].pathId == q {
      assert at[k] in at && IsPicked(rows, at[k]) && rows[at[k]] in rows;
      FirstIsNewest(dirs, files, jobs, jobIds, rows, at[k]);
    }
    if q in dirs && !IsGone(files, jobs, jobIds, q) {
      var i := DirHasRow(dirs, files, jobs, jobIds, rows, q);
      FirstIsNewest(dirs, files, jobs, jobIds, rows, i);
      assert IsPicked(rows, i);
      var k :| 0 <= k < |at| && at[k] == i;
      assert listed[k].pathId == q;
    }
  }

  /**
   `ls_dirs` for any result of its query: shows each child that has a file of the chosen jobs at or below
   it once, unless the newest own entry of the child records a deletion, and nothing else.
   */
  method LsDirs(handler: DirHandler, rows: map<nat, string>, h: map<nat, nat>, shown: set<Shown>, hasCache: set<nat>,
                files: set<FileRow>, base: set<BaseRow>, jobs: set<JobRow>, pwd: nat, jobIds: set<nat>, result: seq<DirRow>)
    returns (listed: seq<DirRow>)
    requires PathStore.OneToOne(rows) && TrueParents(rows, h) && AllExact(rows, h, shown, files, base, hasCache)
    requires jobIds <= hasCache && pwd in rows && EntriesApart(files, jobs, jobIds)
    requires IsQueryResult(ListedDirs(h, shown, pwd, jobIds), files, jobs, jobIds, result)
    modifies handler
    ensures forall q :: Lists(listed, q) <==>
                        IsChildWithFiles(rows, files, base, pwd, jobIds, q) && !IsGone(files, jobs, jobIds, q)
    ensures forall i, k :: 0 <= i < k < |listed| ==> listed[i].pathId != listed[k].pathId
  {
    ghost var at;
    listed, at := handler.ListDirs(result);
    forall q ensures Lists(listed, q) <==>
                     IsChildWithFiles(rows, files, base, pwd, jobIds, q) && !IsGone(files, jobs, jobIds, q)
    {
      ListedIff(ListedDirs(h, shown, pwd, jobIds), files, jobs, jobIds, result, listed, at, q);
      ListingIsScan(rows, h, shown, files, base, hasCache, pwd, jobIds, q);
    }
  }
}
