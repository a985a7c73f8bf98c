/**
 Storing file attributes: one record at a time (`bdb_create_file_attributes_record`), or in bulk
 through a temporary table (`bdb_create_batch_file_attributes_record`, `bdb_write_batch_file_records`).
 Both are proved to add the same rows to the catalog as seen through path names.
 */
module BatchInsert {
  import opened Dialects
  import opened PathNames
  import opened PathStore

  /** An attributes record from the backup; an absent digest is "". */
  datatype Attr = Attr(fname: string, fileIndex: int, jobId: nat, lstat: string, digest: string, deltaSeq: nat)

  /** A row of File, its automatic key left aside. */
  datatype FileRec = FileRec(fileIndex: int, jobId: nat, pathId: nat, filename: string, lstat: string, md5: string, deltaSeq: nat)

  /** A row of the temporary table; also a File row with its PathId replaced by the path. */
  datatype NamedRec = NamedRec(fileIndex: int, jobId: nat, path: string, filename: string, lstat: string, md5: string, deltaSeq: nat)

  function Digest(digest: string): string {
    if digest == "" then "0" else digest
  }

  function Named(ar: Attr): NamedRec {
    NamedRec(ar.fileIndex, ar.jobId, PathPart(ar.fname), FilePart(ar.fname), ar.lstat, Digest(ar.digest), ar.deltaSeq)
  }

  /** The named row of a record: its own columns, path and name together the full name, and "0" for an absent digest. */
  lemma {:induction false} NamedColumns(ar: Attr, b: NamedRec)
    ensures b == Named(ar) <==>
            && b.fileIndex == ar.fileIndex && b.jobId == ar.jobId && b.lstat == ar.lstat && b.deltaSeq == ar.deltaSeq
            && b.md5 == (if ar.digest != "" then ar.digest else "0")
            && b.path + b.filename == ar.fname
            && if '/' in ar.fname then b.path != "" && b.path[|b.path| - 1] == '/' && '/' !in b.filename else b.filename == ""
  {
    var (s, p) := (ar.fname, PathPart(ar.fname));
    if '/' in s {
      LastSlashIn(s);
      forall k | |p| <= k < |s| ensures s[k] != '/' {
        NoSlashAfter(s, k);
      }
      if b.path + b.filename == s && b.path != "" && b.path[|b.path| - 1] == '/' && '/' !in b.filename {
        UpToLastSlashAt(s, |b.path| - 1);
      }
    } else {
      assert b.filename == "" ==> b.path + b.filename == b.path;
    }
  }

  function WithPath(rows: map<nat, string>, f: FileRec): NamedRec
    requires f.pathId in rows
  {
    NamedRec(f.fileIndex, f.jobId, rows[f.pathId], f.filename, f.lstat, f.md5, f.deltaSeq)
  }

  function WithPathId(b: NamedRec, pathId: nat): FileRec {
    FileRec(b.fileIndex, b.jobId, pathId, b.filename, b.lstat, b.md5, b.deltaSeq)
  }

  ghost predicate PathsKnown(rows: map<nat, string>, files: seq<FileRec>) {
    forall i :: 0 <= i < |files| ==> files[i].pathId in rows
  }

  /** The File table joined with Path. */
  function View(rows: map<nat, string>, files: seq<FileRec>): seq<NamedRec>
    requires PathsKnown(rows, files)
  {
    seq(|files|, i requires 0 <= i < |files| => WithPath(rows, files[i]))
  }

  /** New paths do not change what the stored rows look like. */
  lemma {:induction false} ViewGrows(rows: map<nat, string>, rows': map<nat, string>, files: seq<FileRec>)
    requires PathsKnown(rows, files) && Extends(rows', rows)
    ensures PathsKnown(rows', files) && View(rows', files) == View(rows, files)
  {
  }

  // ----- Filling in missing paths, in three dialects

  function PathsOf(batch: seq<NamedRec>): set<string> {
    set i | 0 <= i < |batch| :: batch[i].path
  }

  /** MySQL and PostgreSQL: DISTINCT paths with no equal path in the table. */
  function MissingNotExists(rows: map<nat, string>, batch: seq<NamedRec>): set<string> {
    set p | p in PathsOf(batch) && !(exists i :: i in rows && rows[i] == p)
  }

  /** SQLite: set difference. */
  function MissingExcept(rows: map<nat, string>, batch: seq<NamedRec>): set<string> {
    PathsOf(batch) - rows.Values
  }

  lemma {:induction false} FillDialectsAgree(rows: map<nat, string>, batch: seq<NamedRec>)
    ensures MissingNotExists(rows, batch) == MissingExcept(rows, batch)
  {
  }

  const MYSQL_CHANGES_PER_BATCH_INSERT := 32

  class Catalog {
    const paths: PathTable
    var files: seq<FileRec>

    // The batch connection of the job
    const dialect: Dialect
    var batchStarted: bool
    var changes: nat
    var cmd: seq<NamedRec>      // MySQL: the rows in the text of the pending INSERT
    var batch: seq<NamedRec>    // the temporary table

    /** Rows handed to the batch connection and not yet written to File. */
    function Held(): seq<NamedRec>
      reads this
    {
      if !batchStarted then [] else batch + if dialect == MySql && changes != 0 then cmd else []
    }

    ghost predicate CatalogOk()
      reads this, paths
    {
      PathStore.Valid(paths.Value()) && PathsKnown(paths.rows, files)
    }

    ghost predicate Valid()
      reads this, paths
    {
      CatalogOk() && (batchStarted && dialect == MySql ==> changes < MYSQL_CHANGES_PER_BATCH_INSERT)
    }

    /** Everything stored or on its way, as named rows. */
    ghost function Everything(): seq<NamedRec>
      requires PathsKnown(paths.rows, files)
      reads this, paths
    {
      View(paths.rows, files) + Held()
    }

    constructor (dialect: Dialect)
      ensures Valid() && this.dialect == dialect && files == [] && !batchStarted && changes == 0 && fresh(paths)
    {
      paths := new PathTable();
      files, this.dialect := [], dialect;
      batchStarted, changes, cmd, batch := false, 0, [], [];
    }

    // ----- One by one

    /** `bdb_create_file_attributes_record` and `bdb_create_file_record` */
    method CreateFileAttributesRecord(ar: Attr)
      requires Valid() && ar.jobId != 0
      modifies this`files, paths
      ensures Valid() && Held() == old(Held())
      ensures View(paths.rows, files) == old(View(paths.rows, files)) + [Named(ar)]
    {
      var path, fname := SplitPathAndFile(ar.fname);
      var pathId := paths.CreatePathRecord(path, |path|);
      ViewGrows(old(paths.rows), paths.rows, files);
      var digest := if ar.digest == "" then "0" else ar.digest;
      files := files + [FileRec(ar.fileIndex, ar.jobId, pathId, fname, ar.lstat, digest, ar.deltaSeq)];
    }

    // ----- In bulk

    /** `sql_batch_start`: an empty temporary table; MySQL also resets its counter. */
    method SqlBatchStart()
      modifies this`batch, this`changes
      ensures batch == [] && changes == if dialect == MySql then 0 else old(changes)
    {
      batch := [];
      if dialect == MySql {
        changes := 0;
      }
    }

    /** `sql_batch_insert`: MySQL gathers rows in one statement and sends it every 32 rows. */
    method SqlBatchInsert(ar: Attr)
      requires Valid() && batchStarted
      modifies this`cmd, this`changes, this`batch
      ensures Valid() && Held() == old(Held()) + [Named(ar)]
      ensures changes == if dialect == MySql then (old(changes) + 1) % 32 else old(changes) + 1
      ensures dialect == MySql && changes != 0 ==> batch == old(batch)
    {
      var path, fname := SplitPathAndFile(ar.fname);
      var digest := if ar.digest == "" then "0" else ar.digest;
      var row := NamedRec(ar.fileIndex, ar.jobId, path, fname, ar.lstat, digest, ar.deltaSeq);
      if dialect == MySql {
        if changes == 0 {
          cmd := [row];
          changes := changes + 1;
        } else {
          cmd := cmd + [row];
          changes := changes + 1;
        }
        if changes % MYSQL_CHANGES_PER_BATCH_INSERT == 0 {
          batch := batch + cmd;
          changes := 0;
        }
      } else {
        batch := batch + [row];
        changes := changes + 1;
      }
    }

    /** `sql_batch_end`: sends what is pending; the counter is left as it is. */
    method SqlBatchEnd()
      requires Valid() && batchStarted
      modifies this`batch
      ensures batch == old(Held())
    {
      if dialect == MySql && changes != 0 {
        batch := batch + cmd;
      }
    }

    /** The statement that inserts missing paths, each with a new key. */
    method FillPaths()
      requires PathStore.Valid(paths.Value())
      modifies paths`rows, paths`nextId
      ensures PathStore.Valid(paths.Value()) && Extends(paths.rows, old(paths.rows))
      ensures PathsOf(batch) <= paths.rows.Values
    {
      var missing := if dialect == Sqlite then MissingExcept(paths.rows, batch) else MissingNotExists(paths.rows, batch);
      FillDialectsAgree(paths.rows, batch);
      while missing != {}
        invariant PathStore.Valid(paths.Value()) && Extends(paths.rows, old(paths.rows))
        invariant missing !! paths.rows.Values
        invariant PathsOf(batch) <= paths.rows.Values + missing
        decreases missing
      {
        var p :| p in missing;
        ghost var before := paths.rows;
        paths.rows, paths.nextId := paths.rows[paths.nextId := p], paths.nextId + 1;
        assert paths.rows.Values == before.Values + {p} by { ValuesGrow(before, paths.nextId - 1, p); }
        missing := missing - {p};
      }
    }

    /** INSERT INTO File SELECT ... FROM batch JOIN Path: a row for each pair of equal paths. */
    method JoinIntoFile()
      requires CatalogOk() && PathsOf(batch) <= paths.rows.Values
      modifies this`files
      ensures CatalogOk() && View(paths.rows, files) == old(View(paths.rows, files)) + batch
    {
      for i := 0 to |batch|
        invariant PathsKnown(paths.rows, files)
        invariant View(paths.rows, files) == old(View(paths.rows, files)) + batch[..i]
      {
        var b := batch[i];
        assert b.path in PathsOf(batch);
        var matches := set k | k in paths.rows && paths.rows[k] == b.path;
        ghost var n :| n in paths.rows && paths.rows[n] == b.path;
        assert matches == {n};
        while matches != {}
          invariant PathsKnown(paths.rows, files) && matches <= {n}
          invariant View(paths.rows, files) == old(View(paths.rows, files)) + batch[..i] + if matches == {} then [b] else []
          decreases matches
        {
          var k :| k in matches;
          files := files + [WithPathId(b, k)];
          matches := matches - {k};
        }
        assert batch[..i + 1] == batch[..i] + [b];
      }
      assert batch[..|batch|] == batch;
    }

    /**
     `bdb_write_batch_file_records`. The two flags say whether the job is found cancelled before or
     after the pending rows are sent; the temporary table is then dropped unread.
     */
    method WriteBatchFileRecords(cancelledBefore: bool, cancelledAfter: bool) returns (ok: bool)
      requires Valid()
      modifies this`batch, this`files, this`batchStarted, paths`rows, paths`nextId
      ensures Valid() && Held() == [] && !batchStarted && Extends(paths.rows, old(paths.rows)) && (old(batchStarted) ==> batch == [])
      ensures ok <==> !old(batchStarted) || !(cancelledBefore || cancelledAfter)
      ensures if ok then View(paths.rows, files) == old(View(paths.rows, files)) + old(Held())
              else files == old(files) && paths.rows == old(paths.rows)
    {
      if !batchStarted {
        return true;
      }
      ok := false;
      if !cancelledBefore {
        SqlBatchEnd();
        if !cancelledAfter {
          FillPaths();
          ViewGrows(old(paths.rows), paths.rows, files);
          JoinIntoFile();
          ok := true;
        }
      }
      batch := [];
      batchStarted := false;
    }

    /**
     `bdb_create_batch_file_attributes_record`: writes first when the batch is large. If the job is found
     cancelled then, the failure is ignored: the rows held are gone and the record starts a new batch.
     */
    method CreateBatchFileAttributesRecord(ar: Attr, cancelledBefore: bool, cancelledAfter: bool)
      requires Valid()
      modifies this`cmd, this`changes, this`batch, this`files, this`batchStarted, paths`rows, paths`nextId
      ensures Valid() && batchStarted && Extends(paths.rows, old(paths.rows))
      ensures if old(batchStarted && changes > 500000) && (cancelledBefore || cancelledAfter)
              then files == old(files) && Held() == [Named(ar)]
              else Everything() == old(Everything()) + [Named(ar)]
      ensures changes == if old(batchStarted && changes > 500000) || (dialect == MySql && !old(batchStarted)) then 1
                         else if dialect == MySql then (old(changes) + 1) % 32 else old(changes) + 1
    {
      if batchStarted && changes > 500000 {
        var _ := WriteBatchFileRecords(cancelledBefore, cancelledAfter);
        changes := 0;
        assert !(cancelledBefore || cancelledAfter) ==> Everything() == old(Everything());
      }
      if !batchStarted {
        SqlBatchStart();
        batchStarted := true;
      }
      SqlBatchInsert(ar);
    }

    // ----- Streams

    method Flush()
      requires Valid()
      modifies this`batch, this`files, this`batchStarted, paths`rows, paths`nextId
      ensures Valid() && Held() == [] && Everything() == old(Everything())
    {
      var ok := WriteBatchFileRecords(false, false);
    }

    method StoreOneByOne(stream: seq<Attr>)
      requires Valid() && forall i :: 0 <= i < |stream| ==> stream[i].jobId != 0
      modifies this`files, paths
      ensures Valid() && Held() == old(Held())
      ensures View(paths.rows, files) == old(View(paths.rows, files)) + NamedAll(stream)
    {
      for i := 0 to |stream|
        invariant Valid() && Held() == old(Held())
        invariant View(paths.rows, files) == old(View(paths.rows, files)) + NamedAll(stream[..i])
      {
        CreateFileAttributesRecord(stream[i]);
        assert stream[..i + 1][..i] == stream[..i];
      }
      assert stream[..|stream|] == stream;
    }

    method StoreAndFlush(ar: Attr, flush: bool)
      requires Valid()
      modifies this`cmd, this`changes, this`batch, this`files, this`batchStarted, paths`rows, paths`nextId
      ensures Valid() && Everything() == old(Everything()) + [Named(ar)] && (flush ==> Held() == [])
    {
      CreateBatchFileAttributesRecord(ar, false, false);
      if flush {
        Flush();
      }
    }

    /** The batch path with a write wherever flush says so, and one at the end. */
    method StoreInBulk(stream: seq<Attr>, flush: seq<bool>)
      requires Valid() && Held() == [] && |flush| == |stream|
      modifies this`cmd, this`changes, this`batch, this`files, this`batchStarted, paths`rows, paths`nextId
      ensures Valid() && Held() == []
      ensures View(paths.rows, files) == old(View(paths.rows, files)) + NamedAll(stream)
    {
      ghost var start := View(paths.rows, files);
      assert Everything() == start;
      for i := 0 to |stream|
        invariant Valid() && Everything() == start + NamedAll(stream[..i])
      {
        StoreAndFlush(stream[i], flush[i]);
        assert stream[..i + 1][..i] == stream[..i];
      }
      Flush();
      assert Everything() == View(paths.rows, files);
      assert stream[..|stream|] == stream;
    }
  }

  function NamedAll(stream: seq<Attr>): seq<NamedRec> {
    if stream == [] then [] else NamedAll(stream[..|stream| - 1]) + [Named(stream[|stream| - 1])]
  }

  lemma {:induction false} ValuesGrow(rows: map<nat, string>, k: nat, p: string)
    requires k !in rows
    ensures rows[k := p].Values == rows.Values + {p}
  {
    var rows' := rows[k := p];
    assert rows'[k] == p;
    forall v | v in rows.Values ensures v in rows'.Values {
      var i :| i in rows && rows[i] == v;
      assert rows'[i] == v;
    }
  }
}
