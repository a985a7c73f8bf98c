/**
 The directory cache of the file browser: PathHierarchy maps a path to its parent, PathVisibility says
 which paths a job shows. `Browser` holds the tables; its methods are the statements and loops of
 `build_path_hierarchy`, `update_path_hierarchy_cache` and `bvfs_update_cache`.
 */
module PathHierarchy {
  import opened Catalog
  import opened Dialects
  import opened PathNames
  import PathStore

  /** A row of PathVisibility. */
  datatype Shown = Shown(pathId: nat, jobId: nat)

  // ----- The hierarchy

  /** Each row maps a path, never the root, to its parent. */
  ghost predicate TrueParents(rows: map<nat, string>, h: map<nat, nat>) {
    forall i :: i in h ==> i in rows && rows[i] != "" && h[i] in rows && rows[h[i]] == ParentDir(rows[i])
  }

  /** The parent of each row is the root or has a row itself; cur alone may still be missing. */
  ghost predicate ClosedBut(rows: map<nat, string>, h: map<nat, nat>, cur: nat)
    requires TrueParents(rows, h)
  {
    forall i :: i in h ==> rows[h[i]] == "" || h[i] in h || h[i] == cur
  }

  ghost predicate Closed(rows: map<nat, string>, h: map<nat, nat>)
    requires TrueParents(rows, h)
  {
    forall i :: i in h ==> rows[h[i]] == "" || h[i] in h
  }

  predicate NulFree(rows: map<nat, string>) {
    forall i :: i in rows ==> '\0' !in rows[i]
  }

  /** A row for the missing path makes its parent the one that may be missing. */
  lemma {:induction false} RowAdded(rows: map<nat, string>, rows': map<nat, string>, h: map<nat, nat>, cur: nat, parent: nat)
    requires TrueParents(rows, h) && ClosedBut(rows, h, cur) && PathStore.Extends(rows', rows)
    requires cur in rows && rows[cur] != "" && parent in rows' && rows'[parent] == ParentDir(rows[cur])
    ensures TrueParents(rows', h[cur := parent]) && ClosedBut(rows', h[cur := parent], parent)
  {
  }

  // ----- Visibility

  /** The directories a job has files in: files not deleted, and base files. */
  function Dirs(files: set<FileRow>, base: set<BaseRow>, jobId: nat): set<nat> {
    (set f | f in files && f.jobId == jobId && f.fileIndex > 0 :: f.pathId) +
    (set b, f | b in base && f in files && b.fileId == f.fileId && b.jobId == jobId :: f.pathId)
  }

  ghost predicate AtOrBelow(rows: map<nat, string>, p: nat, dirs: set<nat>)
    requires p in rows
  {
    exists d :: d in dirs && d in rows && rows[p] in Ancestors(rows[d])
  }

  /** A job shows exactly its directories and their ancestors. */
  ghost predicate Exact(rows: map<nat, string>, shown: set<Shown>, dirs: set<nat>, jobId: nat) {
    forall p :: Shown(p, jobId) in shown <==> p in rows && AtOrBelow(rows, p, dirs)
  }

  /** Rows of other jobs are the same. */
  ghost predicate SameBut(shown': set<Shown>, shown: set<Shown>, jobId: nat) {
    forall s: Shown :: s.jobId != jobId ==> (s in shown' <==> s in shown)
  }

  /** All the directories are shown, and nothing but them and their ancestors. */
  ghost predicate Between(rows: map<nat, string>, shown: set<Shown>, dirs: set<nat>, jobId: nat) {
    && (forall d :: d in dirs ==> Shown(d, jobId) in shown)
    && (forall p :: Shown(p, jobId) in shown ==> p in rows && AtOrBelow(rows, p, dirs))
  }

  /** Every shown path but the root has a hierarchy row. */
  predicate HasRow(rows: map<nat, string>, h: map<nat, nat>, p: nat) {
    p in rows && (rows[p] == "" || p in h)
  }

  ghost predicate ShownHaveRows(rows: map<nat, string>, h: map<nat, nat>, shown: set<Shown>, jobId: nat) {
    forall p :: Shown(p, jobId) in shown ==> HasRow(rows, h, p)
  }

  /** Every shown path has a row or is still to be done. */
  ghost predicate HaveRowsBut(rows: map<nat, string>, h: map<nat, nat>, shown: set<Shown>, jobId: nat, todo: set<nat>) {
    forall p :: Shown(p, jobId) in shown && p !in todo ==> HasRow(rows, h, p)
  }

  lemma {:induction false} RowsStay(rows: map<nat, string>, rows': map<nat, string>, h: map<nat, nat>, h': map<nat, nat>,
                 shown: set<Shown>, jobId: nat, todo: set<nat>, p: nat)
    requires PathStore.Extends(rows', rows) && PathStore.Extends(h', h)
    requires HaveRowsBut(rows, h, shown, jobId, todo) && HasRow(rows', h', p)
    ensures HaveRowsBut(rows', h', shown, jobId, todo - {p})
  {
    forall q | Shown(q, jobId) in shown && q !in todo - {p} ensures HasRow(rows', h', q) {
      assert q == p || HasRow(rows, h, q);
    }
  }

  function PathsOf(shown: set<Shown>, jobId: nat): set<nat> {
    set s | s in shown && s.jobId == jobId :: s.pathId
  }

  lemma {:induction false} InPathsOf(shown: set<Shown>, jobId: nat, p: nat)
    ensures p in PathsOf(shown, jobId) <==> Shown(p, jobId) in shown
  {
    if p in PathsOf(shown, jobId) {
      var t :| t in shown && t.jobId == jobId && t.pathId == p;
      assert t == Shown(p, jobId);
    }
  }

  // ----- The statement that adds missing parents, in three dialects

  /** NOT IN over two sub-selects. */
  function MissingSqlite(h: map<nat, nat>, shown: set<Shown>, jobId: nat): set<Shown> {
    set i | i in h && i in PathsOf(shown, jobId) && h[i] !in PathsOf(shown, jobId) :: Shown(h[i], jobId)
  }

  function ParentsOfShown(h: map<nat, nat>, shown: set<Shown>, jobId: nat): set<nat> {
    set i, s | i in h && s in shown && s.pathId == i && s.jobId == jobId :: h[i]
  }

  /** LEFT JOIN on path and job, keeping the unmatched rows. */
  function MissingMySql(h: map<nat, nat>, shown: set<Shown>, jobId: nat): set<Shown> {
    set a | a in ParentsOfShown(h, shown, jobId) &&
            (forall b :: b in shown ==> !(b.jobId == jobId && a == b.pathId))
      :: Shown(a, jobId)
  }

  /** LEFT JOIN on path with the rows of the job, keeping the unmatched rows. */
  function MissingPostgreSql(h: map<nat, nat>, shown: set<Shown>, jobId: nat): set<Shown> {
    var ofJob := set s | s in shown && s.jobId == jobId;
    set a | a in ParentsOfShown(h, shown, jobId) && (forall b :: b in ofJob ==> a != b.pathId) :: Shown(a, jobId)
  }

  function MissingParents(d: Dialect, h: map<nat, nat>, shown: set<Shown>, jobId: nat): set<Shown> {
    match d
    case Sqlite => MissingSqlite(h, shown, jobId)
    case MySql => MissingMySql(h, shown, jobId)
    case PostgreSql => MissingPostgreSql(h, shown, jobId)
  }

  /** A parent of a shown path that is not shown itself. */
  ghost predicate IsMissing(h: map<nat, nat>, shown: set<Shown>, jobId: nat, s: Shown) {
    s.jobId == jobId && s !in shown && exists i :: i in h && Shown(i, jobId) in shown && h[i] == s.pathId
  }

  /** Whatever the dialect, the rows added are the parents of shown paths that are not shown. */
  lemma {:induction false} DialectsAgree(d: Dialect, h: map<nat, nat>, shown: set<Shown>, jobId: nat, s: Shown)
    ensures s in MissingParents(d, h, shown, jobId) <==> IsMissing(h, shown, jobId, s)
  {
    forall p ensures p in PathsOf(shown, jobId) <==> Shown(p, jobId) in shown {
      InPathsOf(shown, jobId, p);
    }
    forall p ensures p in ParentsOfShown(h, shown, jobId) <==> exists i :: i in h && Shown(i, jobId) in shown && h[i] == p {
      if p in ParentsOfShown(h, shown, jobId) {
        var i, t :| i in h && t in shown && t.pathId == i && t.jobId == jobId && h[i] == p;
        assert t == Shown(i, jobId);
      }
    }
    if s.jobId == jobId {
      assert s == Shown(s.pathId, jobId);
    }
  }

  // ----- Why the fixpoint is exact

  ghost predicate ParentClosed(h: map<nat, nat>, shown: set<Shown>, jobId: nat) {
    forall i :: i in h && Shown(i, jobId) in shown ==> Shown(h[i], jobId) in shown
  }

  /** Every ancestor of a shown path has a PathId and is shown. */
  lemma {:induction false} AncestorIsShown(rows: map<nat, string>, h: map<nat, nat>, shown: set<Shown>, jobId: nat, d: nat, a: string)
    returns (p: nat)
    requires TrueParents(rows, h)
    requires ParentClosed(h, shown, jobId) && ShownHaveRows(rows, h, shown, jobId)
    requires Shown(d, jobId) in shown && a in Ancestors(rows[d])
    ensures Shown(p, jobId) in shown && p in rows && rows[p] == a
    decreases |rows[d]|
  {
    ParentDirShorter(rows[d]);
    p := d;
    if a != rows[d] {
      p := AncestorIsShown(rows, h, shown, jobId, h[d], a);
    }
  }

  /** A set of shown paths that lies between the directories and their ancestors, and is closed, is exact. */
  lemma {:induction false} ClosedIsExact(rows: map<nat, string>, h: map<nat, nat>, shown: set<Shown>, dirs: set<nat>, jobId: nat)
    requires PathStore.OneToOne(rows) && TrueParents(rows, h)
    requires ParentClosed(h, shown, jobId) && ShownHaveRows(rows, h, shown, jobId)
    requires Between(rows, shown, dirs, jobId)
    ensures Exact(rows, shown, dirs, jobId)
  {
    forall p | p in rows && AtOrBelow(rows, p, dirs) ensures Shown(p, jobId) in shown {
      var d :| d in dirs && d in rows && rows[p] in Ancestors(rows[d]);
      var q := AncestorIsShown(rows, h, shown, jobId, d, rows[p]);
      assert q == p;
    }
  }

  lemma {:induction false} ExactIsClosed(rows: map<nat, string>, h: map<nat, nat>, shown: set<Shown>, dirs: set<nat>, jobId: nat)
    requires TrueParents(rows, h) && Exact(rows, shown, dirs, jobId)
    ensures ParentClosed(h, shown, jobId)
  {
    forall i | i in h && Shown(i, jobId) in shown ensures Shown(h[i], jobId) in shown {
      ParentAtOrBelow(rows, i, h[i], dirs);
    }
  }

  /** New paths are never ancestors of a directory already cached, so an exact job stays exact. */
  lemma {:induction false} ExactExtends(rows: map<nat, string>, rows': map<nat, string>, h: map<nat, nat>, shown: set<Shown>, dirs: set<nat>, jobId: nat)
    requires TrueParents(rows, h) && PathStore.Extends(rows', rows) && PathStore.OneToOne(rows')
    requires Exact(rows, shown, dirs, jobId) && ShownHaveRows(rows, h, shown, jobId)
    requires forall d :: d in dirs ==> d in rows
    ensures Exact(rows', shown, dirs, jobId)
  {
    ExactIsClosed(rows, h, shown, dirs, jobId);
    forall p ensures Shown(p, jobId) in shown <==> p in rows' && AtOrBelow(rows', p, dirs) {
      if Shown(p, jobId) in shown {
        var d :| d in dirs && d in rows && rows[p] in Ancestors(rows[d]);
        assert rows'[p] in Ancestors(rows'[d]);
      }
      if p in rows' && AtOrBelow(rows', p, dirs) {
        var d :| d in dirs && d in rows' && rows'[p] in Ancestors(rows'[d]);
        assert AtOrBelow(rows, d, dirs);
        var q := AncestorIsShown(rows, h, shown, jobId, d, rows'[p]);
        assert q == p;
      }
    }
  }

  /** Adding a parent keeps within the ancestors of the directories. */
  lemma {:induction false} ParentAtOrBelow(rows: map<nat, string>, i: nat, p: nat, dirs: set<nat>)
    requires i in rows && p in rows && rows[p] == ParentDir(rows[i]) && AtOrBelow(rows, i, dirs)
    ensures AtOrBelow(rows, p, dirs)
  {
    var d :| d in dirs && d in rows && rows[i] in Ancestors(rows[d]);
    AncestorsClosed(rows[d], rows[i]);
  }

  lemma {:induction false} OtherJobKept(rows: map<nat, string>, rows': map<nat, string>, h: map<nat, nat>, h': map<nat, nat>,
                     shown: set<Shown>, shown': set<Shown>, dirs: set<nat>, jobId: nat)
    requires TrueParents(rows, h) && PathStore.Extends(rows', rows) && PathStore.Extends(h', h) && PathStore.OneToOne(rows')
    requires Exact(rows, shown, dirs, jobId) && ShownHaveRows(rows, h, shown, jobId)
    requires forall d :: d in dirs ==> d in rows
    requires forall p :: Shown(p, jobId) in shown <==> Shown(p, jobId) in shown'
    ensures Exact(rows', shown', dirs, jobId) && ShownHaveRows(rows', h', shown', jobId)
  {
    ExactExtends(rows, rows', h, shown, dirs, jobId);
  }

  lemma {:induction false} BetweenExtends(rows: map<nat, string>, rows': map<nat, string>, shown: set<Shown>, dirs: set<nat>, jobId: nat)
    requires Between(rows, shown, dirs, jobId) && PathStore.Extends(rows', rows)
    ensures Between(rows', shown, dirs, jobId)
  {
    forall p | Shown(p, jobId) in shown ensures AtOrBelow(rows', p, dirs) {
      var d :| d in dirs && d in rows && rows[p] in Ancestors(rows[d]);
      assert rows'[p] in Ancestors(rows'[d]);
    }
  }

  ghost predicate AllExact(rows: map<nat, string>, h: map<nat, nat>, shown: set<Shown>,
                           files: set<FileRow>, base: set<BaseRow>, hasCache: set<nat>) {
    forall j {:trigger JobExact(rows, h, shown, files, base, j)} :: j in hasCache ==> JobExact(rows, h, shown, files, base, j)
  }

  ghost predicate JobExact(rows: map<nat, string>, h: map<nat, nat>, shown: set<Shown>,
                           files: set<FileRow>, base: set<BaseRow>, j: nat) {
    Exact(rows, shown, Dirs(files, base, j), j) && ShownHaveRows(rows, h, shown, j)
  }

  lemma {:induction false} AllKept(rows: map<nat, string>, rows': map<nat, string>, h: map<nat, nat>, h': map<nat, nat>,
                shown: set<Shown>, shown': set<Shown>, files: set<FileRow>, base: set<BaseRow>, hasCache: set<nat>, but: nat)
    requires TrueParents(rows, h) && PathStore.Extends(rows', rows) && PathStore.Extends(h', h) && PathStore.OneToOne(rows')
    requires AllExact(rows, h, shown, files, base, hasCache) && but !in hasCache
    requires forall f :: f in files ==> f.pathId in rows
    requires SameBut(shown', shown, but)
    ensures AllExact(rows', h', shown', files, base, hasCache)
  {
    forall j | j in hasCache
      ensures JobExact(rows', h', shown', files, base, j)
    {
      assert JobExact(rows, h, shown, files, base, j);
      OtherJobKept(rows, rows', h, h', shown, shown', Dirs(files, base, j), j);
    }
  }

  /** bstrdup: a fresh NUL-terminated copy. */
  method CString(s: string) returns (buf: array<char>)
    requires '\0' !in s
    ensures fresh(buf) && '\0' in buf[..] && Text(buf[..]) == s
  {
    var row := s + ['\0'];
    buf := new char[|row|](i requires 0 <= i < |row| => row[i]);
    assert buf[..] == row && row[..|s|] == s;
    TextIs(buf[..], |s|);
  }

  lemma {:induction false} RowsShrink(ids: set<nat>, shown: set<Shown>, added: set<Shown>, jobId: nat)
    requires added != {}
    requires forall s :: s in added ==> s.jobId == jobId && s.pathId in ids && s !in shown
    ensures ids - PathsOf(shown + added, jobId) < ids - PathsOf(shown, jobId)
  {
    var s :| s in added;
    assert s == Shown(s.pathId, jobId);
    InPathsOf(shown, jobId, s.pathId);
    InPathsOf(shown + added, jobId, s.pathId);
  }

  lemma {:induction false} MissingIsBelow(rows: map<nat, string>, h: map<nat, nat>, shown: set<Shown>, dirs: set<nat>, jobId: nat, s: Shown)
    requires TrueParents(rows, h) && Closed(rows, h) && Between(rows, shown, dirs, jobId)
    requires IsMissing(h, shown, jobId, s)
    ensures s.pathId in rows && AtOrBelow(rows, s.pathId, dirs) && (rows[s.pathId] == "" || s.pathId in h)
  {
    var i :| i in h && Shown(i, jobId) in shown && h[i] == s.pathId;
    ParentAtOrBelow(rows, i, s.pathId, dirs);
  }

  /** One run of the statement keeps the bounds ... */
  lemma {:induction false} MissingAdded(rows: map<nat, string>, h: map<nat, nat>, shown: set<Shown>, dirs: set<nat>, jobId: nat, added: set<Shown>)
    requires TrueParents(rows, h) && Closed(rows, h)
    requires ShownHaveRows(rows, h, shown, jobId) && Between(rows, shown, dirs, jobId)
    requires forall s :: s in added <==> IsMissing(h, shown, jobId, s)
    ensures ShownHaveRows(rows, h, shown + added, jobId) && Between(rows, shown + added, dirs, jobId)
  {
    forall p | Shown(p, jobId) in added
      ensures p in rows && AtOrBelow(rows, p, dirs) && (rows[p] == "" || p in h)
    {
      MissingIsBelow(rows, h, shown, dirs, jobId, Shown(p, jobId));
    }
  }

  /** ... and either finds the set closed or adds a path. */
  lemma {:induction false} MissingEnds(rows: map<nat, string>, h: map<nat, nat>, shown: set<Shown>, jobId: nat, added: set<Shown>)
    requires TrueParents(rows, h)
    requires forall s :: s in added <==> IsMissing(h, shown, jobId, s)
    ensures added == {} ==> ParentClosed(h, shown, jobId)
    ensures added != {} ==> rows.Keys - PathsOf(shown + added, jobId) < rows.Keys - PathsOf(shown, jobId)
  {
    if added == {} {
      forall i | i in h && Shown(i, jobId) in shown ensures Shown(h[i], jobId) in shown {
        assert !IsMissing(h, shown, jobId, Shown(h[i], jobId));
      }
    } else {
      RowsShrink(rows.Keys, shown, added, jobId);
    }
  }

  /** A new file of another job changes no directory of this one. */
  lemma {:induction false} SameDirs(files: set<FileRow>, f: FileRow, base: set<BaseRow>, jobId: nat)
    requires f.jobId != jobId && forall b :: b in base ==> b.fileId != f.fileId
    ensures Dirs(files + {f}, base, jobId) == Dirs(files, base, jobId)
  {
  }

  lemma {:induction false} BelowTwice(rows: map<nat, string>, dirs: set<nat>, q: nat, p: nat)
    requires p in rows && q in rows && AtOrBelow(rows, q, dirs) && rows[p] in Ancestors(rows[q])
    ensures AtOrBelow(rows, p, dirs)
  {
    var d :| d in dirs && d in rows && rows[q] in Ancestors(rows[d]);
    AncestorsTransitive(rows[d], rows[q], rows[p]);
  }

  ghost predicate AllShown(shown: set<Shown>, dirs: set<nat>, jobId: nat) {
    forall d :: d in dirs ==> Shown(d, jobId) in shown
  }

  /** An exact job shows its directories. */
  lemma {:induction false} DirsAreShown(rows: map<nat, string>, shown: set<Shown>, dirs: set<nat>, jobId: nat)
    requires Exact(rows, shown, dirs, jobId) && dirs <= rows.Keys
    ensures AllShown(shown, dirs, jobId)
  {
    forall d | d in dirs ensures Shown(d, jobId) in shown {
      assert AtOrBelow(rows, d, dirs);
    }
  }

  lemma {:induction false} NothingNewAbove(rows: map<nat, string>, shown: set<Shown>, dirs: set<nat>, more: set<nat>, jobId: nat, p: nat)
    requires Exact(rows, shown, dirs, jobId) && dirs <= more <= rows.Keys && AllShown(shown, more, jobId) && p in rows
    ensures AtOrBelow(rows, p, more) <==> AtOrBelow(rows, p, dirs)
  {
    if AtOrBelow(rows, p, more) {
      var d :| d in more && d in rows && rows[p] in Ancestors(rows[d]);
      assert Shown(d, jobId) in shown && AtOrBelow(rows, d, dirs);
      BelowTwice(rows, dirs, d, p);
    }
  }

  /** More directories leave a job exact exactly when all of them are shown already. */
  lemma {:induction false} ExactGrowsIff(rows: map<nat, string>, shown: set<Shown>, dirs: set<nat>, more: set<nat>, jobId: nat)
    requires Exact(rows, shown, dirs, jobId) && dirs <= more <= rows.Keys
    ensures Exact(rows, shown, more, jobId) <==> AllShown(shown, more, jobId)
  {
    if AllShown(shown, more, jobId) {
      GrownIsExact(rows, shown, dirs, more, jobId);
    } else if Exact(rows, shown, more, jobId) {
      DirsAreShown(rows, shown, more, jobId);
    }
  }

  lemma {:induction false} GrownIsExact(rows: map<nat, string>, shown: set<Shown>, dirs: set<nat>, more: set<nat>, jobId: nat)
    requires Exact(rows, shown, dirs, jobId) && dirs <= more <= rows.Keys && AllShown(shown, more, jobId)
    ensures Exact(rows, shown, more, jobId)
  {
    forall p ensures Shown(p, jobId) in shown <==> p in rows && AtOrBelow(rows, p, more) {
      if p in rows {
        NothingNewAbove(rows, shown, dirs, more, jobId, p);
      }
    }
  }

  /** With more directories for one job all jobs stay exact exactly when that job shows them already. */
  lemma {:induction false} AllExactGrowsIff(rows: map<nat, string>, h: map<nat, nat>, shown: set<Shown>, files: set<FileRow>, base: set<BaseRow>,
                         files': set<FileRow>, base': set<BaseRow>, hasCache: set<nat>, jobId: nat)
    requires AllExact(rows, h, shown, files, base, hasCache)
    requires forall j :: j in hasCache && j != jobId ==> Dirs(files', base', j) == Dirs(files, base, j)
    requires Dirs(files, base, jobId) <= Dirs(files', base', jobId) <= rows.Keys
    ensures AllExact(rows, h, shown, files', base', hasCache) <==> jobId !in hasCache || AllShown(shown, Dirs(files', base', jobId), jobId)
  {
    if jobId in hasCache {
      assert JobExact(rows, h, shown, files, base, jobId);
      ExactGrowsIff(rows, shown, Dirs(files, base, jobId), Dirs(files', base', jobId), jobId);
      assert JobExact(rows, h, shown, files', base', jobId) <==> AllShown(shown, Dirs(files', base', jobId), jobId);
    }
    forall j | j in hasCache && j != jobId ensures JobExact(rows, h, shown, files', base', j) {
      assert JobExact(rows, h, shown, files, base, j);
    }
  }

  /** A file record keeps all jobs exact unless it is saved for a cached job in a directory not shown. */
  lemma {:induction false} FileKeepsExactIff(rows: map<nat, string>, h: map<nat, nat>, shown: set<Shown>,
                          files: set<FileRow>, base: set<BaseRow>, hasCache: set<nat>, f: FileRow)
    requires AllExact(rows, h, shown, files, base, hasCache)
    requires f.pathId in rows && (forall g :: g in files ==> g.pathId in rows) && (forall b :: b in base ==> b.fileId != f.fileId)
    ensures AllExact(rows, h, shown, files + {f}, base, hasCache) <==>
            f.jobId !in hasCache || f.fileIndex <= 0 || Shown(f.pathId, f.jobId) in shown
  {
    forall j | j in hasCache && j != f.jobId ensures Dirs(files + {f}, base, j) == Dirs(files, base, j) {
      SameDirs(files, f, base, j);
    }
    var (dirs, more) := (Dirs(files, base, f.jobId), Dirs(files + {f}, base, f.jobId));
    assert more == if f.fileIndex > 0 then dirs + {f.pathId} else dirs;
    AllExactGrowsIff(rows, h, shown, files, base, files + {f}, base, hasCache, f.jobId);
    if f.jobId in hasCache {
      assert JobExact(rows, h, shown, files, base, f.jobId);
      DirsAreShown(rows, shown, dirs, f.jobId);
    }
  }

  /** So does a base file record, unless it is for a cached job and its file is in a directory not shown. */
  lemma {:induction false} BaseKeepsExactIff(rows: map<nat, string>, h: map<nat, nat>, shown: set<Shown>,
                          files: set<FileRow>, base: set<BaseRow>, hasCache: set<nat>, b: BaseRow)
    requires AllExact(rows, h, shown, files, base, hasCache) && forall g :: g in files ==> g.pathId in rows
    ensures AllExact(rows, h, shown, files, base + {b}, hasCache) <==>
            b.jobId !in hasCache || forall g :: g in files && g.fileId == b.fileId ==> Shown(g.pathId, b.jobId) in shown
  {
    forall j | j in hasCache && j != b.jobId ensures Dirs(files, base + {b}, j) == Dirs(files, base, j) {
    }
    var (dirs, more) := (Dirs(files, base, b.jobId), Dirs(files, base + {b}, b.jobId));
    var added := set g | g in files && g.fileId == b.fileId :: g.pathId;
    assert more == dirs + added;
    AllExactGrowsIff(rows, h, shown, files, base, files, base + {b}, hasCache, b.jobId);
    if b.jobId in hasCache {
      assert JobExact(rows, h, shown, files, base, b.jobId);
      DirsAreShown(rows, shown, dirs, b.jobId);
      assert AllShown(shown, more, b.jobId) <==> AllShown(shown, added, b.jobId);
      forall g | g in files && g.fileId == b.fileId ensures g.pathId in added {
      }
    }
  }

  /** New paths keep all jobs exact. */
  lemma {:induction false} AllExtended(rows: map<nat, string>, rows': map<nat, string>, h: map<nat, nat>, shown: set<Shown>,
                    files: set<FileRow>, base: set<BaseRow>, hasCache: set<nat>)
    requires TrueParents(rows, h) && PathStore.Extends(rows', rows) && PathStore.OneToOne(rows')
    requires AllExact(rows, h, shown, files, base, hasCache) && forall f :: f in files ==> f.pathId in rows
    ensures AllExact(rows', h, shown, files, base, hasCache)
  {
    forall j | j in hasCache
      ensures JobExact(rows', h, shown, files, base, j)
    {
      assert JobExact(rows, h, shown, files, base, j);
      OtherJobKept(rows, rows', h, h, shown, shown, Dirs(files, base, j), j);
    }
  }

  function IdsIn(jobIds: seq<nat>): set<nat> {
    set j | j in jobIds
  }

  lemma {:induction false} NextId(jobIds: seq<nat>, p: nat)
    requires p < |jobIds|
    ensures IdsIn(jobIds[..p + 1]) == IdsIn(jobIds[..p]) + {jobIds[p]}
  {
    assert jobIds[..p + 1] == jobIds[..p] + [jobIds[p]];
  }

  /** The in-memory list of PathIds known to be in PathHierarchy. */
  class PathIdCache {
    var seen: set<nat>

    constructor ()
      ensures seen == {}
    {
      seen := {};
    }

    method Insert(pathId: nat)
      modifies this
      ensures seen == old(seen) + {pathId}
    {
      seen := seen + {pathId};
    }
  }

  class Browser {
    const paths: PathStore.PathTable
    var hierarchy: map<nat, nat>
    var shown: set<Shown>
    var jobs: set<nat>
    var hasCache: set<nat>
    var files: set<FileRow>
    var base: set<BaseRow>

    ghost predicate HierarchyOk()
      reads this, paths
    {
      && PathStore.Valid(paths.Value()) && NulFree(paths.rows)
      && TrueParents(paths.rows, hierarchy) && Closed(paths.rows, hierarchy)
    }

    ghost predicate TablesOk()
      reads this, paths
    {
      && HierarchyOk()
      && hasCache <= jobs
      && (forall f :: f in files ==> f.pathId in paths.rows)
      && (forall s :: s in shown && s.jobId in jobs ==> s.jobId in hasCache)
    }

    /** The invariant of the cache between calls. */
    ghost predicate Valid()
      reads this, paths
    {
      TablesOk() && AllExact(paths.rows, hierarchy, shown, files, base, hasCache)
    }

    constructor ()
      ensures Valid() && fresh(paths)
    {
      var p := new PathStore.PathTable();
      paths := p;
      hierarchy, shown, jobs, hasCache, files, base := map[], {}, {}, {}, {}, {};
    }

    /** The body of the walk for a path without a row: find or create its parent, then insert the row. */
    method AddHierarchyRow(cache: PathIdCache, pathId: nat, path: array<char>) returns (parent: nat)
      requires PathStore.Valid(paths.Value()) && NulFree(paths.rows)
      requires TrueParents(paths.rows, hierarchy) && ClosedBut(paths.rows, hierarchy, pathId)
      requires cache.seen <= hierarchy.Keys && pathId !in hierarchy
      requires '\0' in path[..] && pathId in paths.rows && paths.rows[pathId] == Text(path[..]) != ""
      modifies this`hierarchy, paths, cache, path
      ensures PathStore.Valid(paths.Value()) && NulFree(paths.rows) && PathStore.Extends(paths.rows, old(paths.rows))
      ensures hierarchy == old(hierarchy)[pathId := parent]
      ensures TrueParents(paths.rows, hierarchy) && ClosedBut(paths.rows, hierarchy, parent)
      ensures cache.seen == old(cache.seen) + {pathId} <= hierarchy.Keys
      ensures '\0' in path[..] && parent in paths.rows && paths.rows[parent] == Text(path[..]) == ParentDir(old(Text(path[..])))
    {
      ParentDirInPlace(path);
      parent := paths.CreatePathRecord(Text(path[..]), StrLen(path[..]));
      RowAdded(old(paths.rows), paths.rows, hierarchy, pathId, parent);
      cache.Insert(pathId);
      hierarchy := hierarchy[pathId := parent];
    }

    /** `build_path_hierarchy`: walks up from a path until a row or the cache says the rest is done. */
    method BuildPathHierarchy(cache: PathIdCache, orgPathId: nat, path: array<char>)
      requires HierarchyOk() && cache.seen <= hierarchy.Keys
      requires '\0' in path[..] && orgPathId in paths.rows && paths.rows[orgPathId] == Text(path[..])
      modifies this`hierarchy, paths, cache, path
      ensures HierarchyOk() && cache.seen <= hierarchy.Keys
      ensures PathStore.Extends(paths.rows, old(paths.rows)) && PathStore.Extends(hierarchy, old(hierarchy))
      ensures paths.rows[orgPathId] == "" || orgPathId in hierarchy
    {
      var pathId := orgPathId;
      while path[0] != '\0'
        invariant '\0' in path[..] && pathId in paths.rows && paths.rows[pathId] == Text(path[..])
        invariant PathStore.Valid(paths.Value()) && NulFree(paths.rows)
        invariant TrueParents(paths.rows, hierarchy) && ClosedBut(paths.rows, hierarchy, pathId)
        invariant cache.seen <= hierarchy.Keys
        invariant PathStore.Extends(paths.rows, old(paths.rows)) && PathStore.Extends(hierarchy, old(hierarchy))
        invariant orgPathId in hierarchy || pathId == orgPathId
        decreases |Text(path[..])|, if pathId in cache.seen then 0 else 1
      {
        ghost var s := Text(path[..]);
        if pathId !in cache.seen {
          if pathId in hierarchy {
            cache.Insert(pathId);
            return;
          } else {
            pathId := AddHierarchyRow(cache, pathId, path);
            ParentDirShorter(s);
          }
        } else {
          return;
        }
      }
    }

    /** The loop over the shown paths without a hierarchy row. */
    method HierarchisePaths(cache: PathIdCache, jobId: nat)
      requires HierarchyOk() && cache.seen <= hierarchy.Keys
      requires forall p :: Shown(p, jobId) in shown ==> p in paths.rows
      modifies this`hierarchy, paths, cache
      ensures HierarchyOk() && cache.seen <= hierarchy.Keys
      ensures PathStore.Extends(paths.rows, old(paths.rows)) && PathStore.Extends(hierarchy, old(hierarchy))
      ensures ShownHaveRows(paths.rows, hierarchy, shown, jobId)
    {
      var result := set p | p in PathsOf(shown, jobId) && p !in hierarchy;
      forall p | Shown(p, jobId) in shown ensures p in PathsOf(shown, jobId) {
        InPathsOf(shown, jobId, p);
      }
      while result != {}
        invariant HierarchyOk() && cache.seen <= hierarchy.Keys
        invariant PathStore.Extends(paths.rows, old(paths.rows)) && PathStore.Extends(hierarchy, old(hierarchy))
        invariant forall p :: p in result ==> p in paths.rows
        invariant HaveRowsBut(paths.rows, hierarchy, shown, jobId, result)
        decreases result
      {
        var p :| p in result;
        var copy := CString(paths.rows[p]);
        ghost var (rows, h) := (paths.rows, hierarchy);
        BuildPathHierarchy(cache, p, copy);
        RowsStay(rows, paths.rows, h, hierarchy, shown, jobId, result, p);
        result := result - {p};
      }
    }

    /** One run of the statement. */
    method AddMissing(dialect: Dialect, jobId: nat, ghost dirs: set<nat>) returns (affected: bool)
      requires TrueParents(paths.rows, hierarchy) && Closed(paths.rows, hierarchy)
      requires ShownHaveRows(paths.rows, hierarchy, shown, jobId) && Between(paths.rows, shown, dirs, jobId)
      modifies this`shown
      ensures ShownHaveRows(paths.rows, hierarchy, shown, jobId) && Between(paths.rows, shown, dirs, jobId)
      ensures SameBut(shown, old(shown), jobId)
      ensures if affected then paths.rows.Keys - PathsOf(shown, jobId) < paths.rows.Keys - PathsOf(old(shown), jobId)
              else ParentClosed(hierarchy, shown, jobId)
    {
      var added := MissingParents(dialect, hierarchy, shown, jobId);
      forall s ensures s in added <==> IsMissing(hierarchy, shown, jobId, s) {
        DialectsAgree(dialect, hierarchy, shown, jobId, s);
      }
      MissingAdded(paths.rows, hierarchy, shown, dirs, jobId, added);
      MissingEnds(paths.rows, hierarchy, shown, jobId, added);
      affected := added != {};
      assert !affected ==> shown + added == shown;
      shown := shown + added;
    }

    /** The do/while loop: repeats the statement until it adds no row. */
    method CloseVisibility(dialect: Dialect, jobId: nat, ghost dirs: set<nat>)
      requires PathStore.Valid(paths.Value()) && TrueParents(paths.rows, hierarchy) && Closed(paths.rows, hierarchy)
      requires ShownHaveRows(paths.rows, hierarchy, shown, jobId) && Between(paths.rows, shown, dirs, jobId)
      modifies this`shown
      ensures Exact(paths.rows, shown, dirs, jobId) && ShownHaveRows(paths.rows, hierarchy, shown, jobId)
      ensures SameBut(shown, old(shown), jobId)
    {
      var affected := true;
      while affected
        invariant ShownHaveRows(paths.rows, hierarchy, shown, jobId) && Between(paths.rows, shown, dirs, jobId)
        invariant SameBut(shown, old(shown), jobId)
        invariant !affected ==> ParentClosed(hierarchy, shown, jobId)
        decreases affected, paths.rows.Keys - PathsOf(shown, jobId)
      {
        affected := AddMissing(dialect, jobId, dirs);
      }
      ClosedIsExact(paths.rows, hierarchy, shown, dirs, jobId);
    }

    /** The first INSERT: the directories of the files of a job. */
    method ShowDirs(dirs: set<nat>, jobId: nat)
      requires dirs <= paths.rows.Keys && forall s :: s in shown ==> s.jobId != jobId
      modifies this`shown
      ensures Between(paths.rows, shown, dirs, jobId) && SameBut(shown, old(shown), jobId)
    {
      var added := set p | p in dirs :: Shown(p, jobId);
      shown := shown + added;
      forall p | Shown(p, jobId) in shown ensures p in dirs && AtOrBelow(paths.rows, p, dirs) {
        assert Shown(p, jobId) in added;
      }
    }

    /** The statements that fill the two tables for a job not cached yet. */
    method BuildJobCache(cache: PathIdCache, dialect: Dialect, dirs: set<nat>, jobId: nat)
      requires HierarchyOk() && cache.seen <= hierarchy.Keys
      requires dirs <= paths.rows.Keys && forall s :: s in shown ==> s.jobId != jobId
      modifies this`hierarchy, this`shown, paths, cache
      ensures HierarchyOk() && cache.seen <= hierarchy.Keys
      ensures PathStore.Extends(paths.rows, old(paths.rows)) && PathStore.Extends(hierarchy, old(hierarchy))
      ensures Exact(paths.rows, shown, dirs, jobId) && ShownHaveRows(paths.rows, hierarchy, shown, jobId)
      ensures SameBut(shown, old(shown), jobId)
    {
      ShowDirs(dirs, jobId);
      HierarchisePaths(cache, jobId);
      BetweenExtends(old(paths.rows), paths.rows, shown, dirs, jobId);
      CloseVisibility(dialect, jobId, dirs);
    }

    /** `update_path_hierarchy_cache` for one job. */
    method UpdatePathHierarchyCache(cache: PathIdCache, dialect: Dialect, jobId: nat)
      requires Valid() && jobId in jobs && cache.seen <= hierarchy.Keys
      modifies this`hierarchy, this`shown, this`hasCache, paths, cache
      ensures Valid() && cache.seen <= hierarchy.Keys
      ensures hasCache == old(hasCache) + {jobId}
      ensures PathStore.Extends(paths.rows, old(paths.rows)) && PathStore.Extends(hierarchy, old(hierarchy))
      ensures SameBut(shown, old(shown), jobId)
    {
      if jobId in hasCache {
        return;
      }
      BuildJobCache(cache, dialect, Dirs(files, base, jobId), jobId);
      AllKept(old(paths.rows), paths.rows, old(hierarchy), hierarchy, old(shown), shown, files, base, hasCache, jobId);
      hasCache := hasCache + {jobId};
    }

    /** `bvfs_update_path_hierarchy_cache`: one memory cache shared over a list of jobs. */
    method UpdateAll(dialect: Dialect, jobIds: seq<nat>)
      requires Valid() && forall i :: 0 <= i < |jobIds| ==> jobIds[i] in jobs
      modifies this`hierarchy, this`shown, this`hasCache, paths
      ensures Valid()
      ensures hasCache == old(hasCache) + IdsIn(jobIds)
      ensures PathStore.Extends(paths.rows, old(paths.rows)) && PathStore.Extends(hierarchy, old(hierarchy))
    {
      var cache := new PathIdCache();
      for p := 0 to |jobIds|
        invariant Valid() && cache.seen <= hierarchy.Keys && fresh(cache)
        invariant hasCache == old(hasCache) + IdsIn(jobIds[..p])
        invariant PathStore.Extends(paths.rows, old(paths.rows)) && PathStore.Extends(hierarchy, old(hierarchy))
      {
        UpdatePathHierarchyCache(cache, dialect, jobIds[p]);
        NextId(jobIds, p);
      }
      assert jobIds[..|jobIds|] == jobIds;
    }

    // ----- What happens to the tables between updates

    /** A job record is created. */
    method AddJob(jobId: nat)
      requires Valid() && jobId !in jobs && forall s :: s in shown ==> s.jobId != jobId
      modifies this`jobs
      ensures Valid() && jobs == old(jobs) + {jobId}
    {
      jobs := jobs + {jobId};
    }

    /** A path record is inserted if need be. */
    method AddPath(path: string) returns (pathId: nat)
      requires Valid() && '\0' !in path
      modifies paths
      ensures Valid() && pathId in paths.rows && paths.rows[pathId] == path && PathStore.Extends(paths.rows, old(paths.rows))
    {
      pathId := paths.CreatePathRecord(path, |path|);
      AllExtended(old(paths.rows), paths.rows, hierarchy, shown, files, base, hasCache);
    }

    /** A file record, and its path record if need be, is inserted. */
    method AddFile(path: string, f: FileRow) returns (pathId: nat)
      requires Valid() && '\0' !in path
      requires (forall g :: g in files ==> g.fileId != f.fileId) && (forall b :: b in base ==> b.fileId != f.fileId)
      modifies this`files, paths
      ensures Valid() <==> f.jobId !in hasCache || f.fileIndex <= 0 || Shown(pathId, f.jobId) in shown
      ensures TablesOk() && pathId in paths.rows && paths.rows[pathId] == path
      ensures files == old(files) + {f.(pathId := pathId)} && PathStore.Extends(paths.rows, old(paths.rows))
    {
      pathId := AddPath(path);
      FileKeepsExactIff(paths.rows, hierarchy, shown, files, base, hasCache, f.(pathId := pathId));
      files := files + {f.(pathId := pathId)};
    }

    /** A base file record is inserted. */
    method AddBase(b: BaseRow)
      requires Valid()
      modifies this`base
      ensures Valid() <==> b.jobId !in hasCache || forall g :: g in files && g.fileId == b.fileId ==> Shown(g.pathId, b.jobId) in shown
      ensures TablesOk() && base == old(base) + {b}
    {
      BaseKeepsExactIff(paths.rows, hierarchy, shown, files, base, hasCache, b);
      base := base + {b};
    }

    /** A job record is deleted; its PathVisibility rows stay until the next cleaning. */
    method DropJob(jobId: nat)
      requires Valid()
      modifies this`jobs, this`hasCache
      ensures Valid() && jobs == old(jobs) - {jobId} && hasCache == old(hasCache) - {jobId}
    {
      jobs, hasCache := jobs - {jobId}, hasCache - {jobId};
    }

    /** The DELETE at the end of `bvfs_update_cache`. */
    method CleanVisibility()
      requires Valid()
      modifies this`shown
      ensures Valid() && shown == set s | s in old(shown) && s.jobId in jobs
    {
      ghost var before := shown;
      shown := set s | s in shown && s.jobId in jobs;
      forall j | j in hasCache ensures JobExact(paths.rows, hierarchy, shown, files, base, j) {
        assert JobExact(paths.rows, hierarchy, before, files, base, j);
        assert forall p :: Shown(p, j) in shown <==> Shown(p, j) in before;
      }
    }

    /** `clear_cache` */
    method ClearCache()
      requires Valid()
      modifies this`hierarchy, this`shown, this`hasCache
      ensures Valid() && hierarchy == map[] && shown == {} && hasCache == {}
    {
      hasCache, hierarchy, shown := {}, map[], {};
    }
  }
}
