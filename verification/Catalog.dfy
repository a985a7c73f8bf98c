/**
 The rows of the catalog tables that the queries read. A table is a set of rows, and every SQL
 statement is one atomic step that succeeds.
 */
module Catalog {

  datatype JobRow = JobRow(
    jobId: nat,
    job: string,          // unique name of this run
    priorJob: string,     // name of the run this one was copied or migrated from, or ""
    name: string,         // name of the Job resource
    jobType: char,
    level: char,
    status: char,
    startTime: int,
    endTime: int,
    jobTDate: int,
    clientId: nat,
    fileSetId: nat)

  datatype FileRow = FileRow(
    fileId: nat,
    jobId: nat,
    pathId: nat,
    filename: string,
    fileIndex: int,       // positive for a saved file, zero or negative for a deletion
    lstat: string,
    md5: string,
    deltaSeq: nat)

  datatype BaseRow = BaseRow(baseJobId: nat, jobId: nat, fileId: nat, fileIndex: int)

  datatype Db = Db(
    jobs: set<JobRow>,
    files: set<FileRow>,
    base: set<BaseRow>,
    fileSets: map<nat, string>)   // FileSetId to FileSet name

  const JT_BACKUP := 'B'
  const L_FULL := 'F'
  const L_DIFFERENTIAL := 'D'
  const L_INCREMENTAL := 'I'
  const L_VIRTUAL_FULL := 'f'

  predicate Terminated(j: JobRow) {
    j.status == 'T' || j.status == 'W'
  }

  predicate IsBackupLevel(level: char) {
    level == L_FULL || level == L_DIFFERENTIAL || level == L_INCREMENTAL
  }

  /** Primary keys, and BaseFiles naming the job that owns the file it points to. */
  ghost predicate WellFormed(db: Db) {
    && (forall i, j :: i in db.jobs && j in db.jobs && i.jobId == j.jobId ==> i == j)
    && (forall f, g :: f in db.files && g in db.files && f.fileId == g.fileId ==> f == g)
    && (forall b, f :: b in db.base && f in db.files && b.fileId == f.fileId ==> b.baseJobId == f.jobId)
  }

  predicate SameFile(f: FileRow, g: FileRow) {
    f.pathId == g.pathId && f.filename == g.filename
  }
}
