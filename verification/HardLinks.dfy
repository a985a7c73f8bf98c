/**
 The hard-link closure of a restore list: `checkhardlinks_cb` collects the files that selected hard
 links point to, `insert_hardlinks` loads them in batches and joins them back to the File table.
 */
module HardLinks {

  /** A row of the restore table. */
  datatype RestoreRow = RestoreRow(jobId: nat, fileIndex: int, fileId: nat)

  /** A File row with the two fields decoded from its LStat; without an LStat nlink is 0. */
  datatype LinkFile = LinkFile(fileId: nat, jobId: nat, fileIndex: int, filename: string, nlink: int, linkFI: int)

  /** What the callback sees of a selected file. */
  datatype LinkRow = LinkRow(jobId: nat, nlink: int, linkFI: int)

  datatype Link = Link(jobId: nat, fileIndex: int)

  const TWO32: nat := 0x1_0000_0000
  const TWO31: int := 0x8000_0000

  /** JobId is a uint32, LinkFI an int32. */
  predicate InRange(r: LinkRow) {
    r.jobId < TWO32 && -TWO31 <= r.linkFI < TWO31
  }

  /** (jobid << 32) | LinkFI; the halves do not overlap when LinkFI is not negative. */
  function HashKey(jobId: nat, linkFI: int): int {
    jobId * TWO32 + linkFI
  }

  /** Two links share a key only when they are the same link: the halves of the key are JobId and LinkFI. */
  lemma {:induction false} HashKeyIsOneToOne(a: nat, i: int, b: nat, k: int)
    requires 0 <= i < TWO31 && 0 <= k < TWO31
    ensures HashKey(a, i) == HashKey(b, k) <==> a == b && i == k
    ensures HashKey(a, i) / 0x1_0000_0000 == a && HashKey(a, i) % 0x1_0000_0000 == i
  {
    if a < b {
      assert (a + 1) * TWO32 <= b * TWO32;
    } else if b < a {
      assert (b + 1) * TWO32 <= a * TWO32;
    }
  }

  /** The row is a hard link to an earlier file of its job. */
  predicate PointsTo(r: LinkRow, l: Link) {
    r.nlink > 1 && r.linkFI > 0 && l == Link(r.jobId, r.linkFI)
  }

  predicate NoRepeat(s: seq<Link>) {
    forall i, k :: 0 <= i < k < |s| ==> s[i] != s[k]
  }

  predicate ValidLink(l: Link) {
    l.jobId < TWO32 && 0 < l.fileIndex < TWO31
  }

  class LinkCollector {
    var hardlinks: set<int>       // keys of the hash table
    var missing: seq<Link>        // missing_hardlinks

    /** The positive keys of the table are those of the missing list; keys of first names never match. */
    ghost predicate Valid()
      reads this
    {
      && NoRepeat(missing)
      && (forall l :: l in missing ==> ValidLink(l))
      && (forall l: Link :: ValidLink(l) ==> (HashKey(l.jobId, l.fileIndex) in hardlinks <==> l in missing))
    }

    constructor ()
      ensures Valid() && missing == []
    {
      hardlinks, missing := {}, [];
    }

    /** `checkhardlinks_cb`: adds the target of a hard link the first time it is referenced. */
    method CheckHardlinks(r: LinkRow)
      requires Valid() && InRange(r)
      modifies this
      ensures Valid() && old(missing) <= missing
      ensures hardlinks == if r.nlink > 1 && r.linkFI >= 0 then old(hardlinks) + {r.jobId * 0x1_0000_0000 + r.linkFI} else old(hardlinks)
      ensures forall l :: l in missing <==> l in old(missing) || PointsTo(r, l)
    {
      if r.nlink > 1 {
        var key := HashKey(r.jobId, r.linkFI);
        if r.linkFI == 0 {
          forall l: Link | ValidLink(l) ensures HashKey(l.jobId, l.fileIndex) != key {
            HashKeyIsOneToOne(l.jobId, l.fileIndex, r.jobId, 0);
          }
          hardlinks := hardlinks + {key};
        } else if r.linkFI > 0 {
          if key !in hardlinks {
            forall l: Link | ValidLink(l)
              ensures HashKey(l.jobId, l.fileIndex) == key <==> l == Link(r.jobId, r.linkFI)
            {
              HashKeyIsOneToOne(l.jobId, l.fileIndex, r.jobId, r.linkFI);
            }
            missing := missing + [Link(r.jobId, r.linkFI)];
            hardlinks := hardlinks + {key};
          } else {
            assert ValidLink(Link(r.jobId, r.linkFI));
          }
        }
      }
    }

    method CollectAll(rows: seq<LinkRow>)
      requires Valid() && missing == [] && forall i :: 0 <= i < |rows| ==> InRange(rows[i])
      modifies this
      ensures Valid()
      ensures forall l :: l in missing <==> exists i :: 0 <= i < |rows| && PointsTo(rows[i], l)
    {
      for n := 0 to |rows|
        invariant Valid()
        invariant forall l :: l in missing <==> exists i :: 0 <= i < n && PointsTo(rows[i], l)
      {
        CheckHardlinks(rows[n]);
      }
    }
  }

  // ----- Batched inserts

  function Concat(batches: seq<seq<Link>>): seq<Link> {
    if batches == [] then [] else Concat(batches[..|batches| - 1]) + batches[|batches| - 1]
  }

  lemma {:induction false} ConcatAppend(batches: seq<seq<Link>>, b: seq<Link>)
    ensures Concat(batches + [b]) == Concat(batches) + b
  {
    assert (batches + [b])[..|batches|] == batches;
  }

  /** The INSERT statements for the h table: together the whole list, in order, each within the limit. */
  method InsertInBatches(missing: seq<Link>) returns (batches: seq<seq<Link>>)
    ensures Concat(batches) == missing
    ensures forall k :: 0 <= k < |batches| ==> 0 < |batches[k]| <= 501 && (k < |batches| - 1 ==> |batches[k]| == 501)
  {
    batches := [];
    var first, nb := true, 0;
    var tmp2: seq<Link> := [];
    for i := 0 to |missing|
      invariant Concat(batches) + tmp2 == missing[..i]
      invariant |tmp2| == nb <= 500 && (first <==> tmp2 == [])
      invariant forall k :: 0 <= k < |batches| ==> |batches[k]| == 501
    {
      first := false;
      tmp2 := tmp2 + [missing[i]];
      assert missing[..i + 1] == missing[..i] + [missing[i]];
      nb := nb + 1;
      if nb - 1 >= 500 {
        ConcatAppend(batches, tmp2);
        batches := batches + [tmp2];
        tmp2, first, nb := [], true, 0;
      }
    }
    assert missing[..|missing|] == missing;
    if !first {
      ConcatAppend(batches, tmp2);
      batches := batches + [tmp2];
    }
  }

  // ----- The closure

  /** The join of the restore table with File, file names only. */
  ghost predicate IsSelection(rows: seq<LinkRow>, table: multiset<RestoreRow>, files: set<LinkFile>) {
    forall r :: r in rows <==> exists t, f :: t in table && f in files && t.fileId == f.fileId && f.filename != "" &&
                                              r == LinkRow(t.jobId, f.nlink, f.linkFI)
  }

  /** g is the file that the selected hard link f, of row t, points to. */
  ghost predicate IsTarget(table: multiset<RestoreRow>, files: set<LinkFile>, t: RestoreRow, f: LinkFile, g: LinkFile) {
    && t in table && f in files && t.fileId == f.fileId && f.filename != "" && f.nlink > 1 && f.linkFI > 0
    && g in files && g.jobId == t.jobId && g.fileIndex == f.linkFI
  }

  function RowOf(g: LinkFile): RestoreRow {
    RestoreRow(g.jobId, g.fileIndex, g.fileId)
  }

  ghost predicate IsMissingTarget(table: multiset<RestoreRow>, files: set<LinkFile>, g: LinkFile) {
    exists t, f :: IsTarget(table, files, t, f, g)
  }

  /** The rows that the join of one link with File yields. */
  function RowsFor(files: set<LinkFile>, l: Link): set<RestoreRow> {
    set g | g in files && g.jobId == l.jobId && g.fileIndex == l.fileIndex :: RowOf(g)
  }

  function RowsForAll(files: set<LinkFile>, links: seq<Link>): set<RestoreRow> {
    set g | g in files && Link(g.jobId, g.fileIndex) in links :: RowOf(g)
  }

  /** A link not joined before yields rows that are all new. */
  lemma {:induction false} NewLinkNewRows(files: set<LinkFile>, links: seq<Link>, n: nat)
    requires NoRepeat(links) && n < |links|
    ensures RowsForAll(files, links[..n + 1]) == RowsForAll(files, links[..n]) + RowsFor(files, links[n])
    ensures RowsForAll(files, links[..n]) !! RowsFor(files, links[n])
  {
    assert links[..n + 1] == links[..n] + [links[n]];
    assert links[n] !in links[..n];
    forall r | r in RowsForAll(files, links[..n]) ensures Link(r.jobId, r.fileIndex) in links[..n] {
      var g :| g in files && Link(g.jobId, g.fileIndex) in links[..n] && r == RowOf(g);
    }
  }

  /** INSERT INTO table SELECT ... FROM File JOIN h: a row for each pair of equal job and index. */
  method JoinLinks(table: multiset<RestoreRow>, files: set<LinkFile>, h: seq<Link>) returns (after: multiset<RestoreRow>)
    requires NoRepeat(h)
    ensures after == table + multiset(RowsForAll(files, h))
  {
    after := table;
    assert RowsForAll(files, h[..0]) == {};
    for n := 0 to |h|
      invariant after == table + multiset(RowsForAll(files, h[..n]))
    {
      NewLinkNewRows(files, h, n);
      after := after + multiset(RowsFor(files, h[n]));
    }
    assert h[..|h|] == h;
  }

  /** The rows of the targets of all selected hard links. */
  ghost function TargetRows(table: multiset<RestoreRow>, files: set<LinkFile>): set<RestoreRow> {
    set g | g in files && IsMissingTarget(table, files, g) :: RestoreRow(g.jobId, g.fileIndex, g.fileId)
  }

  /** `insert_hardlinks`: adds the target of every selected hard link, each once, and nothing else. */
  method InsertHardlinks(table: multiset<RestoreRow>, files: set<LinkFile>, rows: seq<LinkRow>)
    returns (after: multiset<RestoreRow>)
    requires IsSelection(rows, table, files) && forall i :: 0 <= i < |rows| ==> InRange(rows[i])
    ensures after == table + multiset(TargetRows(table, files))
  {
    var c := new LinkCollector();
    c.CollectAll(rows);
    var batches := InsertInBatches(c.missing);
    var h := Concat(batches);
    after := JoinLinks(table, files, h);
    forall g ensures g in files && Link(g.jobId, g.fileIndex) in h <==> IsMissingTarget(table, files, g) {
      JoinFindsTargets(table, files, rows, h, g);
    }
    assert RowsForAll(files, h) == TargetRows(table, files);
  }

  /**
   A target already in the table is added all the same: the key of a first name, whose LinkFI is zero, is
   never looked up. So the table stays free of repeats exactly when no target was in it.
   */
  lemma {:induction false} StaysUniqueIff(table: multiset<RestoreRow>, files: set<LinkFile>, after: multiset<RestoreRow>)
    requires after == table + multiset(TargetRows(table, files))
    ensures (forall r :: after[r] <= 1) <==>
            (forall r :: table[r] <= 1) && (forall r :: r in TargetRows(table, files) ==> r !in table)
  {
    var added := TargetRows(table, files);
    forall r ensures after[r] == table[r] + if r in added then 1 else 0 {
    }
    if forall r :: after[r] <= 1 {
      forall r ensures table[r] <= 1 && (r in added ==> r !in table) {
        assert after[r] <= 1;
      }
    }
  }

  /** The first name and a link to it, both selected: the first name ends up in the table twice. */
  lemma {:induction false} SelectedTargetIsRepeated()
    ensures var first, link := LinkFile(11, 7, 1, "a", 2, 0), LinkFile(12, 7, 2, "b", 2, 1);
            RestoreRow(7, 1, 11) in TargetRows(multiset{RestoreRow(7, 1, 11), RestoreRow(7, 2, 12)}, {first, link})
  {
    var first, link := LinkFile(11, 7, 1, "a", 2, 0), LinkFile(12, 7, 2, "b", 2, 1);
    var table, files := multiset{RowOf(first), RowOf(link)}, {first, link};
    assert IsTarget(table, files, RowOf(link), link, first);
  }

  /** Joining on the collected links finds exactly the targets. */
  lemma {:induction false} JoinFindsTargets(table: multiset<RestoreRow>, files: set<LinkFile>, rows: seq<LinkRow>, links: seq<Link>, g: LinkFile)
    requires IsSelection(rows, table, files)
    requires forall l :: l in links <==> exists i :: 0 <= i < |rows| && PointsTo(rows[i], l)
    ensures g in files && Link(g.jobId, g.fileIndex) in links <==> IsMissingTarget(table, files, g)
  {
    var l := Link(g.jobId, g.fileIndex);
    if g in files && l in links {
      var i :| 0 <= i < |rows| && PointsTo(rows[i], l);
      assert rows[i] in rows;
      var t, f :| t in table && f in files && t.fileId == f.fileId && f.filename != "" &&
                  rows[i] == LinkRow(t.jobId, f.nlink, f.linkFI);
      assert IsTarget(table, files, t, f, g);
    }
    if t, f :| IsTarget(table, files, t, f, g) {
      var r := LinkRow(t.jobId, f.nlink, f.linkFI);
      assert r in rows;
      var i :| 0 <= i < |rows| && rows[i] == r;
      assert PointsTo(rows[i], l);
    }
  }
}
