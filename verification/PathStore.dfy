/**
 The Path table with the one-entry cache that `bdb_create_path_record` and `bdb_get_path_record`
 share. The class does what the C code does; the functions on `Store` are its specification, and
 `CacheIsTransparent` compares them with a table that has no cache, over any run.
 */
module PathStore {

  /** Path rows by PathId, the next automatic key, and the cached triple. */
  datatype Store = Store(rows: map<nat, string>, nextId: nat, cachedId: nat, cachedLen: nat, cachedPath: string)

  predicate OneToOne(rows: map<nat, string>) {
    forall i, j :: i in rows && j in rows && rows[i] == rows[j] ==> i == j
  }

  /** All entries are still there, unchanged. */
  predicate Extends<T(==)>(after: map<nat, T>, before: map<nat, T>) {
    forall i :: i in before ==> i in after && after[i] == before[i]
  }

  predicate IsTable(rows: map<nat, string>, nextId: nat) {
    && OneToOne(rows)
    && 0 < nextId
    && forall i :: i in rows ==> 0 < i < nextId
  }

  /** The cached triple, when there is one, names a row of the table. */
  predicate Valid(s: Store) {
    && IsTable(s.rows, s.nextId)
    && (s.cachedId != 0 ==> s.cachedId in s.rows && s.rows[s.cachedId] == s.cachedPath && |s.cachedPath| == s.cachedLen)
  }

  // ----- A table without a cache

  /** The PathId of a path, 0 when the path has none. */
  ghost function Lookup(rows: map<nat, string>, path: string): (id: nat)
    ensures id != 0 ==> id in rows && rows[id] == path
    ensures 0 !in rows ==> (id == 0 <==> path !in rows.Values)
  {
    if i :| i in rows && rows[i] == path then i else 0
  }

  ghost function Insert(rows: map<nat, string>, nextId: nat, path: string): (map<nat, string>, nat, nat) {
    var id := Lookup(rows, path);
    if id != 0 then (rows, nextId, id) else (rows[nextId := path], nextId + 1, nextId)
  }

  // ----- The cached operations

  predicate Hit(s: Store, path: string, pnl: nat) {
    s.cachedId != 0 && s.cachedLen == pnl && s.cachedPath == path
  }

  function Remember(s: Store, id: nat, path: string, pnl: nat): Store {
    if id != s.cachedId then s.(cachedId := id, cachedLen := pnl, cachedPath := path) else s
  }

  ghost function Create(s: Store, path: string, pnl: nat): (Store, nat) {
    if Hit(s, path, pnl) then (s, s.cachedId)
    else
      var (rows, nextId, id) := Insert(s.rows, s.nextId, path);
      (Remember(s.(rows := rows, nextId := nextId), id, path, pnl), id)
  }

  ghost function Get(s: Store, path: string, pnl: nat): (Store, nat) {
    if Hit(s, path, pnl) then (s, s.cachedId)
    else
      var id := Lookup(s.rows, path);
      (if id != 0 then Remember(s, id, path, pnl) else s, id)
  }

  lemma {:induction false} LookupIs(rows: map<nat, string>, path: string, id: nat)
    requires OneToOne(rows) && id in rows && rows[id] == path && id != 0
    ensures Lookup(rows, path) == id
  {
  }

  class PathTable {
    var rows: map<nat, string>
    var nextId: nat
    var cachedPathId: nat
    var cachedPathLen: nat
    var cachedPath: string

    ghost function Value(): Store
      reads this
    {
      Store(rows, nextId, cachedPathId, cachedPathLen, cachedPath)
    }

    constructor ()
      ensures Valid(Value()) && rows == map[] && cachedPathId == 0
    {
      rows, nextId, cachedPathId, cachedPathLen, cachedPath := map[], 1, 0, 0, "";
    }

    /** `bdb_create_path_record`: cache, then SELECT, then INSERT. */
    method CreatePathRecord(path: string, pnl: nat) returns (pathId: nat)
      requires Valid(Value()) && pnl == |path|
      modifies this
      ensures (Value(), pathId) == Create(old(Value()), path, pnl)
      ensures Valid(Value()) && pathId in rows && rows[pathId] == path
      ensures Extends(rows, old(rows))
      ensures forall i :: i in rows ==> i in old(rows) || i == pathId
      ensures cachedPathId == pathId && cachedPath == path && cachedPathLen == pnl
    {
      if cachedPathId != 0 && cachedPathLen == pnl && cachedPath == path {
        return cachedPathId;
      }
      var found := set i | i in rows && rows[i] == path;
      if found != {} {
        pathId :| pathId in found;
        LookupIs(rows, path, pathId);
        if pathId != cachedPathId {
          cachedPathId, cachedPathLen, cachedPath := pathId, pnl, path;
        }
        return;
      }
      assert forall i :: i in rows && rows[i] == path ==> i in found;
      assert Lookup(rows, path) == 0;
      pathId := nextId;
      rows, nextId := rows[nextId := path], nextId + 1;
      if pathId != cachedPathId {
        cachedPathId, cachedPathLen, cachedPath := pathId, pnl, path;
      }
    }

    /** `bdb_get_path_record`: cache, then SELECT; 0 when there is no such path. */
    method GetPathRecord(path: string, pnl: nat) returns (pathId: nat)
      requires Valid(Value()) && pnl == |path|
      modifies this`cachedPathId, this`cachedPathLen, this`cachedPath
      ensures (Value(), pathId) == Get(old(Value()), path, pnl)
      ensures Valid(Value())
      ensures if path in rows.Values then pathId in rows && rows[pathId] == path else pathId == 0
      ensures pathId != 0 ==> cachedPathId == pathId && cachedPath == path && cachedPathLen == pnl
    {
      if cachedPathId != 0 && cachedPathLen == pnl && cachedPath == path {
        return cachedPathId;
      }
      pathId := 0;
      var found := set i | i in rows && rows[i] == path;
      if found != {} {
        pathId :| pathId in found;
        LookupIs(rows, path, pathId);
        if pathId != cachedPathId {
          cachedPathId, cachedPathLen, cachedPath := pathId, pnl, path;
        }
        return;
      }
      assert forall i :: i in rows && rows[i] == path ==> i in found;
    }
  }

  // ----- Runs

  /** Calls of this connection, and a path inserted by another one. */
  datatype Op = CreateOp(path: string) | GetOp(path: string) | OtherInserts(path: string)

  ghost function Step(s: Store, op: Op): (Store, nat) {
    match op
    case CreateOp(p) => Create(s, p, |p|)
    case GetOp(p) => Get(s, p, |p|)
    case OtherInserts(p) =>
      var (rows, nextId, id) := Insert(s.rows, s.nextId, p);
      (s.(rows := rows, nextId := nextId), id)
  }

  ghost function Run(s: Store, ops: seq<Op>): (Store, seq<nat>)
    decreases |ops|
  {
    if ops == [] then (s, [])
    else
      var (t, id) := Step(s, ops[0]);
      var (u, ids) := Run(t, ops[1..]);
      (u, [id] + ids)
  }

  ghost function PlainStep(rows: map<nat, string>, nextId: nat, op: Op): (map<nat, string>, nat, nat) {
    match op
    case GetOp(p) => (rows, nextId, Lookup(rows, p))
    case _ => Insert(rows, nextId, op.path)
  }

  ghost function PlainRun(rows: map<nat, string>, nextId: nat, ops: seq<Op>): (map<nat, string>, nat, seq<nat>)
    decreases |ops|
  {
    if ops == [] then (rows, nextId, [])
    else
      var (r, n, id) := PlainStep(rows, nextId, ops[0]);
      var (r', n', ids) := PlainRun(r, n, ops[1..]);
      (r', n', [id] + ids)
  }

  lemma {:induction false} StepIsPlain(s: Store, op: Op)
    requires Valid(s)
    ensures var (t, id) := Step(s, op);
            Valid(t) && (t.rows, t.nextId, id) == PlainStep(s.rows, s.nextId, op)
  {
    if !op.OtherInserts? && Hit(s, op.path, |op.path|) {
      LookupIs(s.rows, op.path, s.cachedId);
    }
  }

  /** Over any run the answers and the table are those of a store without a cache. */
  lemma {:induction false} CacheIsTransparent(s: Store, ops: seq<Op>)
    requires Valid(s)
    ensures var (t, ids) := Run(s, ops);
            Valid(t) && (t.rows, t.nextId, ids) == PlainRun(s.rows, s.nextId, ops)
    decreases |ops|
  {
    if ops != [] {
      StepIsPlain(s, ops[0]);
      CacheIsTransparent(Step(s, ops[0]).0, ops[1..]);
    }
  }
}
