/**
 Sizes and file counts of directories: `fv_compute_size_and_count` fills the Size and Files columns of
 PathVisibility bottom-up and stops at rows that already hold a size. The specification is a plain
 scan: the sum over all files of the job whose directory lies at or below the path.
 */
module DirectorySizes {
  import opened PathNames
  import opened PathHierarchy
  import PathStore

  /** A File row with the size decoded from its LStat field. */
  datatype SizedFile = SizedFile(fileId: nat, jobId: nat, pathId: nat, size: int)

  datatype Totals = Totals(size: int, files: int)

  // ----- Sums over sets of files

  ghost function SumSize(s: set<SizedFile>): int {
    if s == {} then 0 else var f :| f in s; f.size + SumSize(s - {f})
  }

  lemma {:induction false} SumSizeMinus(s: set<SizedFile>, f: SizedFile)
    requires f in s
    ensures SumSize(s) == f.size + SumSize(s - {f})
    decreases s
  {
    var g :| g in s && SumSize(s) == g.size + SumSize(s - {g});
    if g != f {
      SumSizeMinus(s - {g}, f);
      SumSizeMinus(s - {f}, g);
      assert s - {g} - {f} == s - {f} - {g};
    }
  }

  lemma {:induction false} SumSizeUnion(s: set<SizedFile>, t: set<SizedFile>)
    requires s !! t
    ensures SumSize(s + t) == SumSize(s) + SumSize(t)
    decreases t
  {
    if t == {} {
      assert s + t == s;
    } else {
      var f :| f in t;
      SumSizeUnion(s, t - {f});
      SumSizeMinus(s + t, f);
      SumSizeMinus(t, f);
      assert s + t - {f} == s + (t - {f});
    }
  }

  // ----- Forests: what the recursion needs to know of the directory cache

  /** Nodes with their parent, the nodes at or below each, a rank that grows downwards, and true totals. */
  datatype Forest = Forest(nodes: set<nat>, parent: map<nat, nat>, under: map<nat, set<nat>>, rank: map<nat, nat>, total: map<nat, Totals>)

  predicate IsChild(t: Forest, c: nat, p: nat) {
    c in t.nodes && c in t.parent && t.parent[c] == p
  }

  // The relations below stand behind names so that a proof brings in only the instances it mentions.

  /** q lies at or below a child of p. */
  ghost predicate ThroughChild(t: Forest, p: nat, q: nat) {
    exists c :: IsChild(t, c, p) && c in t.under && q in t.under[c]
  }

  ghost predicate Nested(t: Forest, p: nat, q: nat) {
    p in t.under && q in t.under && t.under[q] <= t.under[p]
  }

  ghost predicate Apart(t: Forest, c: nat, d: nat) {
    c in t.under && d in t.under && t.under[c] !! t.under[d]
  }

  ghost predicate UnderOk(t: Forest) {
    && t.under.Keys == t.nodes && t.rank.Keys == t.nodes
    && (forall p :: p in t.nodes ==> p in t.under[p] && t.under[p] <= t.nodes)
    && (forall p, q {:trigger Nested(t, p, q)} :: p in t.nodes && q in t.under[p] ==> Nested(t, p, q))
  }

  ghost predicate ChildrenOk(t: Forest)
    requires UnderOk(t)
  {
    && (forall p, c :: p in t.nodes && IsChild(t, c, p) ==> c in t.under[p] && p !in t.under[c] && t.rank[p] < t.rank[c])
    && (forall p, c, d {:trigger IsChild(t, c, p), Apart(t, c, d)} ::
          p in t.nodes && IsChild(t, c, p) && IsChild(t, d, p) && c != d ==> Apart(t, c, d))
    && (forall p, q {:trigger ThroughChild(t, p, q)} :: p in t.nodes && q in t.under[p] && q != p ==> ThroughChild(t, p, q))
  }

  /** The total of q is the scan over the files at or below it. */
  ghost predicate IsTotal(t: Forest, files: set<SizedFile>, q: nat) {
    q in t.total && q in t.under && t.total[q] == Scan(files, t.under[q])
  }

  ghost predicate ForestOk(t: Forest, files: set<SizedFile>) {
    && UnderOk(t) && ChildrenOk(t) && t.total.Keys == t.nodes
    && forall q {:trigger IsTotal(t, files, q)} :: q in t.nodes ==> IsTotal(t, files, q)
  }

  // ----- The plain scan

  function FilesOfJob(files: set<SizedFile>, jobId: nat): set<SizedFile> {
    set f | f in files && f.jobId == jobId
  }

  function FilesIn(files: set<SizedFile>, dirs: set<nat>): set<SizedFile> {
    set f | f in files && f.pathId in dirs
  }

  /** The totals of all files whose directory is in the set. */
  ghost function Scan(files: set<SizedFile>, dirs: set<nat>): Totals {
    Totals(SumSize(FilesIn(files, dirs)), |FilesIn(files, dirs)|)
  }

  function Plus(a: Totals, b: Totals): Totals {
    Totals(a.size + b.size, a.files + b.files)
  }

  lemma {:induction false} ScanUnion(files: set<SizedFile>, a: set<nat>, b: set<nat>)
    requires a !! b
    ensures Scan(files, a + b) == Plus(Scan(files, a), Scan(files, b))
  {
    assert FilesIn(files, a + b) == FilesIn(files, a) + FilesIn(files, b);
    SumSizeUnion(FilesIn(files, a), FilesIn(files, b));
  }

  // ----- The memo

  /** Every row at or below p holds its true totals. */
  ghost predicate SubtreeDone(t: Forest, stored: map<nat, Totals>, p: nat) {
    p in t.under && forall q :: q in t.under[p] ==> q in t.total && q in stored && stored[q] == t.total[q]
  }

  /** A row with a positive Size has its whole subtree done: this is why the recursion may stop there. */
  ghost predicate Sound(t: Forest, stored: map<nat, Totals>) {
    forall q :: q in t.nodes && q in stored && stored[q].size > 0 ==> SubtreeDone(t, stored, q)
  }

  /** Only rows at or below p changed. */
  ghost predicate OnlyUnder(t: Forest, after: map<nat, Totals>, before: map<nat, Totals>, p: nat) {
    && p in t.under && after.Keys == before.Keys
    && forall q :: q in before && q !in t.under[p] ==> after[q] == before[q]
  }

  lemma {:induction false} SoundKept(t: Forest, after: map<nat, Totals>, before: map<nat, Totals>, p: nat)
    requires UnderOk(t) && p in t.nodes && t.nodes <= before.Keys && t.total.Keys == t.nodes
    requires Sound(t, before) && SubtreeDone(t, after, p) && OnlyUnder(t, after, before, p)
    ensures Sound(t, after)
  {
    forall q | q in t.nodes && after[q].size > 0 ensures SubtreeDone(t, after, q) {
      forall r | r in t.under[q] ensures r in t.total && r in after && after[r] == t.total[r] {
        if r !in t.under[p] {
          assert q !in t.under[p] || Nested(t, p, q);
          assert SubtreeDone(t, before, q);
        }
      }
    }
  }

  /** A child is either visited, with its rows done, or untouched so far. */
  ghost predicate ChildProgress(t: Forest, stored: map<nat, Totals>, c: nat, done: set<nat>, visited: set<nat>) {
    c in t.under && if c in done then t.under[c] <= visited && SubtreeDone(t, stored, c) else t.under[c] !! visited
  }

  /** The state of the loop over the children: the totals so far are those of the nodes visited. */
  ghost predicate Progress(t: Forest, files: set<SizedFile>, stored: map<nat, Totals>, first: map<nat, Totals>,
                           p: nat, done: set<nat>, visited: set<nat>, sofar: Totals) {
    && p in t.under && p in visited && visited <= t.under[p]
    && (forall c :: IsChild(t, c, p) ==> ChildProgress(t, stored, c, done, visited))
    && sofar == Scan(files, visited)
    && OnlyUnder(t, stored, first, p)
  }

  ghost predicate RanksUpTo(t: Forest, maxRank: nat) {
    forall q :: q in t.rank ==> t.rank[q] <= maxRank
  }

  lemma {:induction false} ChildOutranks(t: Forest, p: nat, c: nat, maxRank: nat)
    requires UnderOk(t) && ChildrenOk(t) && p in t.nodes && IsChild(t, c, p) && RanksUpTo(t, maxRank)
    ensures c in t.nodes && t.rank[p] < t.rank[c] <= maxRank
  {
  }

  lemma {:induction false} ProgressStarts(t: Forest, files: set<SizedFile>, stored: map<nat, Totals>, p: nat)
    requires ForestOk(t, files) && p in t.nodes
    ensures Progress(t, files, stored, stored, p, {}, {p}, Scan(files, {p}))
  {
  }

  lemma {:induction false} SiblingProgress(t: Forest, files: set<SizedFile>, after: map<nat, Totals>, before: map<nat, Totals>,
                        p: nat, done: set<nat>, visited: set<nat>, c: nat, d: nat)
    requires ForestOk(t, files) && p in t.nodes && IsChild(t, c, p) && IsChild(t, d, p) && c != d
    requires OnlyUnder(t, after, before, c) && ChildProgress(t, before, d, done, visited)
    ensures ChildProgress(t, after, d, done + {c}, visited + t.under[c])
  {
    assert Apart(t, c, d);
  }

  lemma {:induction false} ProgressStep(t: Forest, files: set<SizedFile>, after: map<nat, Totals>, before: map<nat, Totals>, first: map<nat, Totals>,
                     p: nat, done: set<nat>, visited: set<nat>, c: nat, sofar: Totals, next: Totals)
    requires ForestOk(t, files) && p in t.nodes && IsChild(t, c, p) && c !in done && next == Plus(sofar, t.total[c])
    requires Progress(t, files, before, first, p, done, visited, sofar)
    requires SubtreeDone(t, after, c) && OnlyUnder(t, after, before, c)
    ensures Progress(t, files, after, first, p, done + {c}, visited + t.under[c], next)
  {
    assert ChildProgress(t, before, c, done, visited);
    assert IsTotal(t, files, c);
    ScanUnion(files, visited, t.under[c]);
    assert Nested(t, p, c);
    forall d | IsChild(t, d, p) ensures ChildProgress(t, after, d, done + {c}, visited + t.under[c]) {
      if d != c {
        SiblingProgress(t, files, after, before, p, done, visited, c, d);
      }
    }
  }

  lemma {:induction false} AllVisited(t: Forest, files: set<SizedFile>, stored: map<nat, Totals>, p: nat, done: set<nat>, visited: set<nat>, q: nat)
    requires ForestOk(t, files) && p in t.nodes && q in t.under[p] && q != p
    requires forall c :: IsChild(t, c, p) ==> c in done && ChildProgress(t, stored, c, done, visited)
    ensures q in visited && q in stored && stored[q] == t.total[q]
  {
    assert ThroughChild(t, p, q);
    var c :| IsChild(t, c, p) && c in t.under && q in t.under[c];
    assert ChildProgress(t, stored, c, done, visited);
  }

  /** With all children done and p updated, the subtree of p is done. */
  lemma {:induction false} ProgressEnds(t: Forest, files: set<SizedFile>, before: map<nat, Totals>, first: map<nat, Totals>,
                     p: nat, done: set<nat>, visited: set<nat>, sofar: Totals)
    requires ForestOk(t, files) && p in t.nodes && t.nodes <= before.Keys
    requires Progress(t, files, before, first, p, done, visited, sofar) && forall c :: IsChild(t, c, p) ==> c in done
    ensures sofar == t.total[p] == Scan(files, t.under[p])
    ensures SubtreeDone(t, before[p := sofar], p)
    ensures OnlyUnder(t, before[p := sofar], before, p) && OnlyUnder(t, before[p := sofar], first, p)
  {
    forall q | q in t.under[p] && q != p ensures q in visited && q in before && before[q] == t.total[q] {
      AllVisited(t, files, before, p, done, visited, q);
    }
    assert visited == t.under[p];
    assert IsTotal(t, files, p);
  }

  // ----- The directory cache of a job is such a forest

  /** A path that is its own parent would be its own child; the recursion must not start at one. */
  ghost predicate IsOwnParent(rows: map<nat, string>, p: nat)
    requires p in rows
  {
    rows[p] != "" && ParentDir(rows[p]) == rows[p]
  }

  ghost predicate CacheOk(rows: map<nat, string>, h: map<nat, nat>, shown: set<Shown>, jobId: nat) {
    && PathStore.OneToOne(rows) && TrueParents(rows, h)
    && ParentClosed(h, shown, jobId) && ShownHaveRows(rows, h, shown, jobId)
  }

  /** An exact cache is one. */
  lemma {:induction false} ExactIsCacheOk(rows: map<nat, string>, h: map<nat, nat>, shown: set<Shown>, dirs: set<nat>, jobId: nat)
    requires PathStore.OneToOne(rows) && TrueParents(rows, h)
    requires Exact(rows, shown, dirs, jobId) && ShownHaveRows(rows, h, shown, jobId)
    ensures CacheOk(rows, h, shown, jobId)
  {
    ExactIsClosed(rows, h, shown, dirs, jobId);
  }

  /** A shown path that is its own parent is its own child, so the recursion would call itself for it again. */
  lemma {:induction false} OwnParentIsOwnChild(rows: map<nat, string>, h: map<nat, nat>, shown: set<Shown>, jobId: nat, p: nat)
    requires CacheOk(rows, h, shown, jobId) && Shown(p, jobId) in shown && p in rows
    ensures IsOwnParent(rows, p) <==> p in h && h[p] == p
  {
  }

  ghost predicate IsNode(rows: map<nat, string>, shown: set<Shown>, jobId: nat, p: nat) {
    Shown(p, jobId) in shown && p in rows && !IsOwnParent(rows, p)
  }

  ghost function Nodes(rows: map<nat, string>, shown: set<Shown>, jobId: nat): set<nat> {
    set p | p in rows && IsNode(rows, shown, jobId, p)
  }

  /** The shown paths q whose ancestors include p. */
  ghost function UnderPath(rows: map<nat, string>, nodes: set<nat>, p: nat): set<nat>
    requires p in rows && nodes <= rows.Keys
  {
    set q | q in nodes && rows[p] in Ancestors(rows[q])
  }

  ghost function PathForest(rows: map<nat, string>, h: map<nat, nat>, shown: set<Shown>, files: set<SizedFile>, jobId: nat): Forest {
    var nodes := Nodes(rows, shown, jobId);
    Forest(nodes, h,
           map p | p in nodes :: UnderPath(rows, nodes, p),
           map p | p in nodes :: |rows[p]|,
           map p | p in nodes :: Scan(FilesOfJob(files, jobId), UnderPath(rows, nodes, p)))
  }

  lemma {:induction false} ChildIsLonger(rows: map<nat, string>, h: map<nat, nat>, shown: set<Shown>, jobId: nat, p: nat, c: nat)
    requires CacheOk(rows, h, shown, jobId) && IsNode(rows, shown, jobId, p)
    requires Shown(c, jobId) in shown && c in h && h[c] == p
    ensures c in rows && |rows[p]| < |rows[c]| && IsNode(rows, shown, jobId, c)
    ensures rows[p] in Ancestors(rows[c]) && rows[c] !in Ancestors(rows[p])
  {
    ParentDirShorter(rows[c]);
    if rows[c] in Ancestors(rows[p]) {
      AncestorsClosed(rows[p], rows[c]);
    }
  }

  /** What lies strictly below p lies at or below a child of p. */
  lemma {:induction false} ChildToward(rows: map<nat, string>, h: map<nat, nat>, shown: set<Shown>, jobId: nat, p: nat, q: nat) returns (c: nat)
    requires CacheOk(rows, h, shown, jobId) && IsNode(rows, shown, jobId, p) && IsNode(rows, shown, jobId, q)
    requires rows[p] in Ancestors(rows[q]) && q != p
    ensures Shown(c, jobId) in shown && c in rows && c in h && h[c] == p && rows[c] in Ancestors(rows[q])
  {
    AncestorsStep(rows[q], rows[p]);
    var s :| s in Ancestors(rows[q]) && s != rows[p] && ParentDir(s) == rows[p];
    c := AncestorIsShown(rows, h, shown, jobId, q, s);
  }

  /** Nothing lies below two children of p. */
  lemma {:induction false} ChildrenApart(rows: map<nat, string>, h: map<nat, nat>, shown: set<Shown>, jobId: nat, p: nat, c: nat, d: nat, q: nat)
    requires CacheOk(rows, h, shown, jobId) && IsNode(rows, shown, jobId, p) && q in rows
    requires Shown(c, jobId) in shown && c in h && h[c] == p && Shown(d, jobId) in shown && d in h && h[d] == p
    requires rows[c] in Ancestors(rows[q]) && rows[d] in Ancestors(rows[q])
    ensures c == d
  {
    ChildIsLonger(rows, h, shown, jobId, p, c);
    ChildIsLonger(rows, h, shown, jobId, p, d);
    var (a, b) := if |rows[d]| <= |rows[c]| then (c, d) else (d, c);
    var (longer, shorter) := (rows[a], rows[b]);
    AncestorsChain(rows[q], longer, shorter);
    if longer != shorter {
      AncestorsClosed(ParentDir(longer), shorter);
      assert false;
    }
  }

  lemma {:induction false} PathUnderOk(rows: map<nat, string>, h: map<nat, nat>, shown: set<Shown>, files: set<SizedFile>, jobId: nat)
    requires CacheOk(rows, h, shown, jobId)
    ensures UnderOk(PathForest(rows, h, shown, files, jobId))
  {
    var t := PathForest(rows, h, shown, files, jobId);
    forall p, q | p in t.nodes && q in t.under[p] ensures Nested(t, p, q) {
      forall r | r in t.under[q] ensures r in t.under[p] {
        AncestorsTransitive(rows[r], rows[q], rows[p]);
      }
    }
  }

  lemma {:induction false} PathChildrenOk(rows: map<nat, string>, h: map<nat, nat>, shown: set<Shown>, files: set<SizedFile>, jobId: nat)
    requires CacheOk(rows, h, shown, jobId) && UnderOk(PathForest(rows, h, shown, files, jobId))
    ensures ChildrenOk(PathForest(rows, h, shown, files, jobId))
  {
    var t := PathForest(rows, h, shown, files, jobId);
    forall p, c | p in t.nodes && IsChild(t, c, p)
      ensures c in t.under[p] && p !in t.under[c] && t.rank[p] < t.rank[c]
    {
      ChildIsLonger(rows, h, shown, jobId, p, c);
    }
    forall p, c, d | p in t.nodes && IsChild(t, c, p) && IsChild(t, d, p) && c != d ensures Apart(t, c, d) {
      forall q | q in t.under[c] && q in t.under[d] ensures false {
        ChildrenApart(rows, h, shown, jobId, p, c, d, q);
      }
    }
    forall p, q | p in t.nodes && q in t.under[p] && q != p ensures ThroughChild(t, p, q) {
      var c := ChildToward(rows, h, shown, jobId, p, q);
      ChildIsLonger(rows, h, shown, jobId, p, c);
      assert IsChild(t, c, p) && q in t.under[c];
    }
  }

  /** The paths a job shows, but for those that are their own parent, satisfy all the recursion needs. */
  lemma {:induction false} PathForestOk(rows: map<nat, string>, h: map<nat, nat>, shown: set<Shown>, files: set<SizedFile>, jobId: nat)
    requires CacheOk(rows, h, shown, jobId)
    ensures var t := PathForest(rows, h, shown, files, jobId);
            && ForestOk(t, FilesOfJob(files, jobId)) && t.parent == h
            && (forall q :: q in t.nodes ==> Shown(q, jobId) in shown)
            && (forall c :: c in h && h[c] in t.nodes && Shown(c, jobId) in shown ==> c in t.nodes)
            && ParentClosed(h, shown, jobId)
  {
    PathUnderOk(rows, h, shown, files, jobId);
    PathChildrenOk(rows, h, shown, files, jobId);
    var t := PathForest(rows, h, shown, files, jobId);
    forall c | c in h && h[c] in t.nodes && Shown(c, jobId) in shown ensures c in t.nodes {
      ChildIsLonger(rows, h, shown, jobId, h[c], c);
    }
  }

  /** The size and number of the files of a job in some directories, from the columns of the File table. */
  ghost predicate AreTotals(files: set<SizedFile>, jobId: nat, dirs: set<nat>, size: int, count: int) {
    var s := set f | f in files && f.jobId == jobId && f.pathId in dirs;
    size == SumSize(s) && count == |s|
  }

  /** The scan is over the files of the job in those directories. */
  lemma {:induction false} ScanIsTotals(files: set<SizedFile>, jobId: nat, dirs: set<nat>, t: Totals)
    requires t == Scan(FilesOfJob(files, jobId), dirs)
    ensures AreTotals(files, jobId, dirs, t.size, t.files)
  {
    assert FilesIn(FilesOfJob(files, jobId), dirs) == set f | f in files && f.jobId == jobId && f.pathId in dirs;
  }

  /** One more file changes the totals by exactly its size and one, if it is of the job and in the directories, and not at all otherwise. */
  lemma {:induction false} FileAdded(files: set<SizedFile>, f: SizedFile, jobId: nat, dirs: set<nat>, size: int, count: int)
    requires f !in files
    ensures AreTotals(files + {f}, jobId, dirs, size, count) <==>
            if f.jobId == jobId && f.pathId in dirs then AreTotals(files, jobId, dirs, size - f.size, count - 1)
            else AreTotals(files, jobId, dirs, size, count)
  {
    var before := set g | g in files && g.jobId == jobId && g.pathId in dirs;
    var after := set g | g in files + {f} && g.jobId == jobId && g.pathId in dirs;
    if f.jobId == jobId && f.pathId in dirs {
      assert after == before + {f};
      SumSizeMinus(after, f);
      assert after - {f} == before;
    } else {
      assert after == before;
    }
  }

  /** Without files they are zero. */
  lemma {:induction false} NoFileNoTotals(jobId: nat, dirs: set<nat>, size: int, count: int)
    ensures AreTotals({}, jobId, dirs, size, count) <==> size == 0 && count == 0
  {
    var s := set f: SizedFile | f in {} && f.jobId == jobId && f.pathId in dirs;
    assert s == {};
  }

  /** At the root of a job with rooted paths only, the total counts every file of a shown directory. */
  lemma {:induction false} RootCountsEverything(rows: map<nat, string>, h: map<nat, nat>, shown: set<Shown>, files: set<SizedFile>, jobId: nat, root: nat)
    requires CacheOk(rows, h, shown, jobId) && Shown(root, jobId) in shown && rows[root] == ""
    requires forall p :: Shown(p, jobId) in shown ==> p in rows && IsRooted(rows[p])
    ensures var t := PathForest(rows, h, shown, files, jobId);
            root in t.total && AreTotals(files, jobId, set s | s in shown && s.jobId == jobId :: s.pathId, t.total[root].size, t.total[root].files)
  {
    var nodes := Nodes(rows, shown, jobId);
    forall p ensures p in PathsOf(shown, jobId) <==> p in UnderPath(rows, nodes, root) {
      InPathsOf(shown, jobId, p);
      if Shown(p, jobId) in shown {
        ReachesRootIffRooted(rows[p]);
        ParentDirShorter(rows[p]);
      }
    }
    assert PathsOf(shown, jobId) == UnderPath(rows, nodes, root);
    assert PathsOf(shown, jobId) == set s | s in shown && s.jobId == jobId :: s.pathId;
    ScanIsTotals(files, jobId, PathsOf(shown, jobId), PathForest(rows, h, shown, files, jobId).total[root]);
  }

  lemma {:induction false} MaxRank(t: Forest, nodes: set<nat>) returns (m: nat)
    requires nodes <= t.rank.Keys
    ensures forall q :: q in nodes ==> t.rank[q] <= m
    decreases nodes
  {
    m := 0;
    if p :| p in nodes {
      var k := MaxRank(t, nodes - {p});
      m := if k < t.rank[p] then t.rank[p] else k;
      forall q | q in nodes ensures t.rank[q] <= m {
        assert q == p || q in nodes - {p};
      }
    }
  }

  method Add(size: int, count: int, s: int, c: int) returns (size': int, count': int)
    ensures Totals(size', count') == Plus(Totals(size, count), Totals(s, c))
  {
    size', count' := size + s, count + c;
  }

  /** The tables of one job and the columns the recursion fills. */
  class JobSizes {
    const jobId: nat
    const h: map<nat, nat>
    const shown: set<Shown>
    const files: set<SizedFile>
    ghost const t: Forest
    ghost const ofJob: set<SizedFile>
    var stored: map<nat, Totals>   // the Size and Files columns of PathVisibility

    /** The forest is the part of the cache where no path is its own parent. */
    ghost predicate Fits() {
      && ofJob == FilesOfJob(files, jobId) && ForestOk(t, ofJob) && t.parent == h
      && (forall q :: q in t.nodes ==> Shown(q, jobId) in shown)
      && (forall c :: c in h && h[c] in t.nodes && Shown(c, jobId) in shown ==> c in t.nodes)
      && ParentClosed(h, shown, jobId)
    }

    ghost predicate Valid()
      reads this
    {
      Fits() && t.nodes <= stored.Keys == PathsOf(shown, jobId) && Sound(t, stored)
    }

    /** Columns start at their default of zero. */
    constructor (jobId: nat, h: map<nat, nat>, shown: set<Shown>, files: set<SizedFile>, ghost t: Forest)
      requires ForestOk(t, FilesOfJob(files, jobId)) && t.parent == h
      requires forall q :: q in t.nodes ==> Shown(q, jobId) in shown
      requires forall c :: c in h && h[c] in t.nodes && Shown(c, jobId) in shown ==> c in t.nodes
      requires ParentClosed(h, shown, jobId)
      ensures Valid() && this.jobId == jobId && this.h == h && this.shown == shown && this.files == files && this.t == t
      ensures ofJob == FilesOfJob(files, jobId) && forall q :: q in stored ==> stored[q] == Totals(0, 0)
    {
      this.jobId, this.h, this.shown, this.files, this.t := jobId, h, shown, files, t;
      this.ofJob := FilesOfJob(files, jobId);
      this.stored := map q | q in PathsOf(shown, jobId) :: Totals(0, 0);
      new;
      forall q | q in t.nodes ensures q in stored {
        InPathsOf(shown, jobId, q);
      }
    }

    /** `fv_get_size_and_count`: SELECT sum(size), count(1) over the files of one path. */
    method GetSizeAndCount(p: nat) returns (size: int, count: int)
      requires ofJob == FilesOfJob(files, jobId)
      ensures Totals(size, count) == Scan(ofJob, {p}) && AreTotals(files, jobId, {p}, size, count)
    {
      size, count := 0, 0;
      var rest := FilesIn(FilesOfJob(files, jobId), {p});
      ghost var summed := {};
      while rest != {}
        invariant rest + summed == FilesIn(ofJob, {p}) && rest !! summed
        invariant size == SumSize(summed) && count == |summed|
        decreases rest
      {
        var f :| f in rest;
        SumSizeMinus(summed + {f}, f);
        assert summed + {f} - {f} == summed;
        size, count, rest, summed := size + f.size, count + 1, rest - {f}, summed + {f};
      }
      assert summed == FilesIn(ofJob, {p});
      ScanIsTotals(files, jobId, {p}, Totals(size, count));
    }

    /** `fv_compute_size_and_count`; a child outranks its parent, so the recursion ends. */
    method ComputeSizeAndCount(p: nat, ghost maxRank: nat) returns (size: int, count: int)
      requires Valid() && p in t.nodes && RanksUpTo(t, maxRank)
      modifies this`stored
      ensures Valid() && Totals(size, count) == t.total[p] && AreTotals(files, jobId, t.under[p], size, count)
      ensures SubtreeDone(t, stored, p) && OnlyUnder(t, stored, old(stored), p)
      decreases maxRank - t.rank[p], 1
    {
      size, count := stored[p].size, stored[p].files;
      if size > 0 {
        assert SubtreeDone(t, stored, p) && IsTotal(t, ofJob, p);
        ScanIsTotals(files, jobId, t.under[p], t.total[p]);
        return;
      }
      size, count := GetSizeAndCount(p);
      ProgressStarts(t, ofJob, stored, p);
      var result := set c | c in h && h[c] == p && Shown(c, jobId) in shown;
      ghost var done: set<nat> := {};
      ghost var visited: set<nat> := {p};
      while result != {}
        invariant Valid() && Progress(t, ofJob, stored, old(stored), p, done, visited, Totals(size, count))
        invariant forall c :: IsChild(t, c, p) <==> c in done || c in result
        invariant done !! result
        decreases result
      {
        var c :| c in result;
        assert IsChild(t, c, p);
        size, count := AddChild(p, c, size, count, maxRank, old(stored), done, visited);
        result := result - {c};
        done, visited := done + {c}, visited + t.under[c];
      }
      ProgressEnds(t, ofJob, stored, old(stored), p, done, visited, Totals(size, count));
      SoundKept(t, stored[p := Totals(size, count)], stored, p);
      ScanIsTotals(files, jobId, t.under[p], t.total[p]);
      stored := stored[p := Totals(size, count)];
    }

    /** The body of the loop over the children. */
    method AddChild(p: nat, c: nat, size: int, count: int, ghost maxRank: nat,
                    ghost first: map<nat, Totals>, ghost done: set<nat>, ghost visited: set<nat>) returns (size': int, count': int)
      requires Valid() && p in t.nodes && IsChild(t, c, p) && c !in done && RanksUpTo(t, maxRank)
      requires Progress(t, ofJob, stored, first, p, done, visited, Totals(size, count))
      modifies this`stored
      ensures Valid() && Progress(t, ofJob, stored, first, p, done + {c}, visited + t.under[c], Totals(size', count'))
      decreases maxRank - t.rank[p], 0
    {
      ghost var before := stored;
      ChildOutranks(t, p, c, maxRank);
      var s, n := ComputeSizeAndCount(c, maxRank);
      size', count' := Add(size, count, s, n);
      ProgressStep(t, ofJob, stored, before, first, p, done, visited, c, Totals(size, count), Totals(size', count'));
    }

    /** The same for a path the job does not show: no row is read, no child is found, and no row is updated. */
    method ComputeUnshown(p: nat) returns (size: int, count: int)
      requires Valid() && Shown(p, jobId) !in shown
      ensures AreTotals(files, jobId, {p}, size, count)
    {
      size, count := GetSizeAndCount(p);
      var result := set c | c in h && h[c] == p && Shown(c, jobId) in shown;
      assert result == {};
    }

    /** `fv_update_cache`: computes the totals from the root of the job down. */
    method UpdateCache(root: nat)
      requires Valid() && (Shown(root, jobId) in shown ==> root in t.nodes)
      modifies this`stored
      ensures Valid()
      ensures root in t.nodes ==> OnlyUnder(t, stored, old(stored), root)
      ensures root in t.nodes ==> forall q | q in t.under[root] ::
                q in stored && q in t.under && AreTotals(files, jobId, t.under[q], stored[q].size, stored[q].files)
      ensures root !in t.nodes ==> stored == old(stored)
    {
      InPathsOf(shown, jobId, root);
      if root in stored {
        ghost var m := MaxRank(t, t.nodes);
        var size, count := ComputeSizeAndCount(root, m);
        forall q | q in t.under[root]
          ensures q in stored && q in t.under && AreTotals(files, jobId, t.under[q], stored[q].size, stored[q].files)
        {
          assert IsTotal(t, ofJob, q);
          ScanIsTotals(files, jobId, t.under[q], stored[q]);
        }
      } else {
        var size, count := ComputeUnshown(root);
      }
    }
  }
}
