/** The table-space store: a table-space maps a table name to a table, a
    table maps a row id to a row. Every step a session queues is a total
    function from one table-space to a table-space or to the error the
    step raises; a session run folds its steps left to right. */
module Store {
  import opened JsObjects

  type TableName = string
  /** Immutable maps accept any key; rows are keyed by their `id` field. */
  type RowId = Value
  type Table = map<RowId, Row>
  type TableSpace = map<TableName, Table>

  /** What a step can raise: reading a table the table-space lacks (a
      `TypeError` on `undefined` in the source), or an error an updater or
      a relation returns. */
  datatype Error = NoSuchTable(table: TableName) | JsError(message: string)

  /** A result or an error, as `Fallibly<Result> = Result | Error`. */
  datatype Fallibly<T> = Ok(value: T) | Fail(error: Error)

  /** An error passes through untouched; a value is mapped. */
  function MapFallibly<T, U>(e: Fallibly<T>, f: T -> U): (r: Fallibly<U>)
    ensures r.Fail? <==> e.Fail?
    ensures e.Fail? ==> r.error == e.error
    ensures e.Ok? ==> r.value == f(e.value)
  {
    match e
    case Fail(err) => Fail(err)
    case Ok(v) => Ok(f(v))
  }

  // ---------------------------------------------------------------------
  // Schema

  /** A declared collection, reduced to the name of its row class. */
  datatype Collection = Collection(name: string)

  /** The name a collection's table is stored under in a fresh table-space. */
  function ToTableName(c: Collection): TableName
  {
    c.name
  }

  /** The key every session operation uses to find a collection's table. */
  function GetTableKey(c: Collection): (k: TableName)
    ensures k == ToTableName(c)
  {
    c.name
  }

  function EmptyTable(): (t: Table)
    ensures |t| == 0
  {
    map[]
  }

  /** The names of the declared collections. */
  function Names(cs: seq<Collection>): (names: set<TableName>)
    ensures forall c | c in cs :: ToTableName(c) in names
  {
    if cs == [] then {} else {ToTableName(cs[0])} + Names(cs[1..])
  }

  /** Every name is the name of a declared collection. */
  lemma {:induction false} NamesAreDeclared(cs: seq<Collection>, n: TableName)
    requires n in Names(cs)
    ensures exists i | 0 <= i < |cs| :: ToTableName(cs[i]) == n
  {
    if n != ToTableName(cs[0]) {
      NamesAreDeclared(cs[1..], n);
      var i :| 0 <= i < |cs[1..]| && ToTableName(cs[1..][i]) == n;
      assert ToTableName(cs[i + 1]) == n;
    }
  }

  datatype Schema = Schema(collections: seq<Collection>)
  {
    /** One empty table per declared collection, and nothing else. */
    function Initial(): (r: TableSpace)
      ensures r.Keys == Names(collections)
      ensures forall n | n in r :: r[n] == EmptyTable()
    {
      InitialFrom(collections, map[])
    }
  }

  /** `collections.reduce((a, c) => a.set(toTableName(c), emptyTable()), acc)`. */
  function InitialFrom(cs: seq<Collection>, acc: TableSpace): (r: TableSpace)
    ensures r.Keys == acc.Keys + Names(cs)
    ensures forall n | n in Names(cs) :: r[n] == EmptyTable()
    ensures forall n | n in acc && n !in Names(cs) :: r[n] == acc[n]
    decreases |cs|
  {
    if cs == [] then acc
    else InitialFrom(cs[1..], acc[ToTableName(cs[0]) := EmptyTable()])
  }

  /** The table and the operation keys agree: every declared collection's
      operation key names an empty table of the initial table-space. */
  lemma TableKeysMatchInitial(schema: Schema, c: Collection)
    requires c in schema.collections
    ensures GetTableKey(c) in schema.Initial()
    ensures schema.Initial()[GetTableKey(c)] == EmptyTable()
  {
  }

  // ---------------------------------------------------------------------
  // The steps a session queues

  /** A patch object, or a function from the current row (undefined when
      there is none) to a patch; the function may throw. */
  datatype UpdaterOrPatch = Patch(fields: Row) | Updater(apply: Option<Row> -> Fallibly<Row>)

  /** `s.get(name)`, with `updateIn`'s habit of treating a missing table
      as an empty one. */
  function TableOrEmpty(s: TableSpace, name: TableName): Table
  {
    if name in s then s[name] else EmptyTable()
  }

  /** The row at `id`, or undefined. */
  function Lookup(t: Table, id: RowId): Option<Row>
  {
    if id in t then Some(t[id]) else None
  }

  /** The patch an update computes for the row it targets. */
  function PatchFor(update: UpdaterOrPatch, current: Option<Row>): Fallibly<Row>
  {
    match update
    case Patch(p) => Ok(p)
    case Updater(f) => f(current)
  }

  /** The step `update(table, id, update)` queues: the row at `id` becomes
      the old row merged with the patch (or with what the updater returns
      for the old row); a missing row or table is created. */
  function UpdateRow(s: TableSpace, c: Collection, id: RowId, update: UpdaterOrPatch): (r: Fallibly<TableSpace>)
    ensures var current := Lookup(TableOrEmpty(s, GetTableKey(c)), id);
      r.Fail? <==> PatchFor(update, current).Fail?
    ensures r.Ok? ==>
      var key := GetTableKey(c);
      var current := Lookup(TableOrEmpty(s, key), id);
      && r.value.Keys == s.Keys + {key}
      && (forall n | n in s && n != key :: r.value[n] == s[n])
      && r.value[key].Keys == TableOrEmpty(s, key).Keys + {id}
      && (forall k | k in TableOrEmpty(s, key) && k != id :: r.value[key][k] == s[key][k])
      && r.value[key][id] == Assign(current, PatchFor(update, current).value)
  {
    var key := GetTableKey(c);
    var t := TableOrEmpty(s, key);
    var current := Lookup(t, id);
    MapFallibly(PatchFor(update, current), (p: Row) => s[key := t[id := Assign(current, p)]])
  }

  /** The step `updateAll(table, patch)` queues: every row of the table is
      merged with the patch; the ids stay the same. A missing table raises. */
  function UpdateAllRows(s: TableSpace, c: Collection, patch: Row): (r: Fallibly<TableSpace>)
    ensures r.Ok? <==> GetTableKey(c) in s
    ensures r.Fail? ==> r.error == NoSuchTable(GetTableKey(c))
    ensures r.Ok? ==>
      var key := GetTableKey(c);
      && r.value.Keys == s.Keys
      && (forall n | n in s && n != key :: r.value[n] == s[n])
      && r.value[key].Keys == s[key].Keys
      && (forall id | id in s[key] :: r.value[key][id] == Assign(Some(s[key][id]), patch))
  {
    var key := GetTableKey(c);
    if key !in s then Fail(NoSuchTable(key))
    else
      var original := s[key];
      Ok(s[key := map id | id in original :: Assign(Some(original[id]), patch)])
  }

  /** The step `delete(table, id)` queues: only the row at `id` goes; an
      absent row or table leaves the table-space as it was. */
  function DeleteRow(s: TableSpace, c: Collection, id: RowId): (r: Fallibly<TableSpace>)
    ensures r.Ok?
    ensures r.value.Keys == s.Keys
    ensures forall n | n in s && n != GetTableKey(c) :: r.value[n] == s[n]
    ensures GetTableKey(c) in s ==>
      var key := GetTableKey(c);
      && r.value[key].Keys == s[key].Keys - {id}
      && (forall k | k in r.value[key] :: r.value[key][k] == s[key][k])
    ensures id !in TableOrEmpty(s, GetTableKey(c)) ==> r.value == s
  {
    var key := GetTableKey(c);
    if key in s then
      assert id !in s[key] ==> s[key] - {id} == s[key];
      Ok(s[key := s[key] - {id}])
    else Ok(s)
  }

  /** The step `deleteWhere(table, pred)` queues: exactly the rows the
      predicate holds of go; the rest stay as they were. A missing table
      raises. */
  function DeleteRowsWhere(s: TableSpace, c: Collection, pred: (Row, RowId) -> bool): (r: Fallibly<TableSpace>)
    ensures r.Ok? <==> GetTableKey(c) in s
    ensures r.Fail? ==> r.error == NoSuchTable(GetTableKey(c))
    ensures r.Ok? ==>
      var key := GetTableKey(c);
      && r.value.Keys == s.Keys
      && (forall n | n in s && n != key :: r.value[n] == s[n])
      && (forall id :: id in r.value[key] <==> id in s[key] && !pred(s[key][id], id))
      && (forall id | id in r.value[key] :: r.value[key][id] == s[key][id])
  {
    var key := GetTableKey(c);
    if key !in s then Fail(NoSuchTable(key))
    else
      var t := s[key];
      Ok(s[key := map id | id in t && !pred(t[id], id) :: t[id]])
  }

  // ---------------------------------------------------------------------
  // Queued operations and the fold a run performs

  type Operation = TableSpace -> Fallibly<TableSpace>

  function UpdateOp(c: Collection, id: RowId, update: UpdaterOrPatch): Operation
  {
    s => UpdateRow(s, c, id, update)
  }

  function UpdateAllOp(c: Collection, patch: Row): Operation
  {
    s => UpdateAllRows(s, c, patch)
  }

  function DeleteOp(c: Collection, id: RowId): Operation
  {
    s => DeleteRow(s, c, id)
  }

  function DeleteWhereOp(c: Collection, pred: (Row, RowId) -> bool): Operation
  {
    s => DeleteRowsWhere(s, c, pred)
  }

  /** The id an inserted row is stored under: its own `id` field. */
  function IdOf(row: Row): RowId
  {
    Get(row, "id")
  }

  /** `insert(table, row)` is `update(table, row.id, row)`. */
  function InsertOp(c: Collection, row: Row): Operation
  {
    UpdateOp(c, IdOf(row), Patch(row))
  }

  /** Feeds a result to the next step; an error skips it. */
  function Then(r: Fallibly<TableSpace>, op: Operation): Fallibly<TableSpace>
  {
    match r
    case Fail(e) => Fail(e)
    case Ok(s) => op(s)
  }

  /** The queued steps applied in queue order, each to the previous one's
      result; the first error stops the fold. */
  function RunAll(ops: seq<Operation>, s: TableSpace): Fallibly<TableSpace>
    decreases |ops|
  {
    if ops == [] then Ok(s)
    else Then(RunAll(ops[..|ops| - 1], s), ops[|ops| - 1])
  }

  /** Running no step returns the snapshot unchanged. */
  lemma RunNothing(s: TableSpace)
    ensures RunAll([], s) == Ok(s)
  {
  }

  /** Running one step is applying it. */
  lemma RunOne(op: Operation, s: TableSpace)
    ensures RunAll([op], s) == op(s)
  {
    assert [op][..0] == [];
  }

  /** Running a queue in two parts: the second part starts from the first
      part's result, and an error in the first part is the result. */
  lemma {:induction false} RunAppend(a: seq<Operation>, b: seq<Operation>, s: TableSpace)
    ensures RunAll(a + b, s) == (match RunAll(a, s) case Fail(e) => Fail(e) case Ok(s') => RunAll(b, s'))
    decreases |b|
  {
    if b == [] {
      assert a + b == a;
    } else {
      var b' := b[..|b| - 1];
      assert (a + b)[..|a + b| - 1] == a + b';
      RunAppend(a, b', s);
    }
  }

  /** Once a step has failed, the rest of the queue cannot recover. */
  lemma RunAfterFailure(a: seq<Operation>, b: seq<Operation>, s: TableSpace)
    requires RunAll(a, s).Fail?
    ensures RunAll(a + b, s) == RunAll(a, s)
  {
    RunAppend(a, b, s);
  }

  // ---------------------------------------------------------------------
  // Properties of the steps

  /** An update with a patch at an absent id stores the patch: an upsert. */
  lemma UpdateAbsentIsUpsert(s: TableSpace, c: Collection, id: RowId, patch: Row)
    requires id !in TableOrEmpty(s, GetTableKey(c))
    ensures UpdateRow(s, c, id, Patch(patch)).Ok?
    ensures UpdateRow(s, c, id, Patch(patch)).value[GetTableKey(c)][id] == patch
  {
    AssignOverUndefined(patch);
  }

  /** Inserting a row at an id already present merges it over that row. */
  lemma InsertOverExistingMerges(s: TableSpace, c: Collection, row: Row)
    requires GetTableKey(c) in s && IdOf(row) in s[GetTableKey(c)]
    ensures RunAll([InsertOp(c, row)], s).Ok?
    ensures RunAll([InsertOp(c, row)], s).value[GetTableKey(c)][IdOf(row)]
         == s[GetTableKey(c)][IdOf(row)] + row
  {
    RunOne(InsertOp(c, row), s);
  }

  /** Merging every row with the same patch twice is merging it once. */
  lemma UpdateAllIdempotent(s: TableSpace, c: Collection, patch: Row)
    requires GetTableKey(c) in s
    ensures RunAll([UpdateAllOp(c, patch), UpdateAllOp(c, patch)], s) == RunAll([UpdateAllOp(c, patch)], s)
  {
    var key := GetTableKey(c);
    RunOne(UpdateAllOp(c, patch), s);
    RunAppend([UpdateAllOp(c, patch)], [UpdateAllOp(c, patch)], s);
    var once := UpdateAllRows(s, c, patch).value;
    RunOne(UpdateAllOp(c, patch), once);
    var twice := UpdateAllRows(once, c, patch).value;
    forall id | id in twice[key]
      ensures twice[key][id] == once[key][id]
    {
      AssignIdempotent(Some(s[key][id]), patch);
    }
    assert twice[key] == once[key];
    assert twice == once;
  }

  /** Deleting where a predicate holds twice is deleting once. */
  lemma DeleteWhereIdempotent(s: TableSpace, c: Collection, pred: (Row, RowId) -> bool)
    requires GetTableKey(c) in s
    ensures RunAll([DeleteWhereOp(c, pred), DeleteWhereOp(c, pred)], s) == RunAll([DeleteWhereOp(c, pred)], s)
  {
    var key := GetTableKey(c);
    RunOne(DeleteWhereOp(c, pred), s);
    RunAppend([DeleteWhereOp(c, pred)], [DeleteWhereOp(c, pred)], s);
    var once := DeleteRowsWhere(s, c, pred).value;
    RunOne(DeleteWhereOp(c, pred), once);
    var twice := DeleteRowsWhere(once, c, pred).value;
    assert twice[key] == once[key];
    assert twice == once;
  }

  /** Queue order matters: updating a row and then deleting it leaves no
      row, deleting and then updating leaves the patch as the row. */
  lemma UpdateDeleteDoNotCommute(s: TableSpace, c: Collection, id: RowId, patch: Row)
    requires GetTableKey(c) in s
    ensures RunAll([UpdateOp(c, id, Patch(patch)), DeleteOp(c, id)], s).Ok?
    ensures GetTableKey(c) in RunAll([UpdateOp(c, id, Patch(patch)), DeleteOp(c, id)], s).value
    ensures id !in RunAll([UpdateOp(c, id, Patch(patch)), DeleteOp(c, id)], s).value[GetTableKey(c)]
    ensures RunAll([DeleteOp(c, id), UpdateOp(c, id, Patch(patch))], s).Ok?
    ensures RunAll([DeleteOp(c, id), UpdateOp(c, id, Patch(patch))], s).value[GetTableKey(c)][id] == patch
  {
    var u, d := UpdateOp(c, id, Patch(patch)), DeleteOp(c, id);
    RunAppend([u], [d], s);
    RunOne(u, s);
    RunOne(d, UpdateRow(s, c, id, Patch(patch)).value);
    RunAppend([d], [u], s);
    RunOne(d, s);
    var deleted := DeleteRow(s, c, id).value;
    RunOne(u, deleted);
    UpdateAbsentIsUpsert(deleted, c, id, patch);
  }

  // ---------------------------------------------------------------------
  // Relations (the declared API is a stub)

  /** A link between two rows. */
  datatype RelationRecord = RelationRecord(idA: RowId, idB: RowId)

  /** `relate(table, a)`: the chain `.to(b)` is called on. */
  datatype RelationChain = RelationChain(a: Row, schema: Schema)
  {
    /** No relation can be established: the error comes back as a value. */
    function To(b: Row): (r: Fallibly<RelationRecord>)
      ensures r.Fail? && r.error.JsError?
    {
      Fail(JsError("this doesn't relate!"))
    }
  }

  /** `for(owner)`: the query `.all(Related)` is called on. */
  datatype RelationQuery = RelationQuery(a: Row)
  {
    /** No related row is ever found. */
    function All(b: Collection): (r: seq<Row>)
      ensures |r| == 0
    {
      []
    }
  }
}
