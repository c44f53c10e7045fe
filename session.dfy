/** A session over one table-space snapshot: it queues steps without
    touching the snapshot and folds them into a new snapshot on `Run`. */
module Session {
  import opened JsObjects
  import opened Store

  /** The rows `rows` list the table `t` in the key order `order`: every
      key once, each row at the position of its key. */
  ghost predicate Enumerates(rows: seq<Row>, order: seq<RowId>, t: Table)
  {
    && |rows| == |order|
    && (forall i, j | 0 <= i < j < |order| :: order[i] != order[j])
    && (forall i | 0 <= i < |order| :: order[i] in t && rows[i] == t[order[i]])
    && (forall k | k in t :: k in order)
  }

  /** A session: the snapshot it started from (or the last run produced)
      and the steps queued so far. */
  class Db {
    const schema: Schema
    var state: TableSpace
    var operations: seq<Operation>

    /** `schema.db(state)`: a session over `state` with nothing queued. */
    constructor (schema: Schema, state: TableSpace)
      ensures this.schema == schema && this.state == state && operations == []
    {
      this.schema := schema;
      this.state := state;
      operations := [];
    }

    /** `db.after`: the façade whose every call queues one step and runs. */
    method After() returns (a: SingleOperationReturningState)
      ensures fresh(a) && a.db == this
    {
      a := new SingleOperationReturningState(this);
    }

    /** The committed rows of a table, in some order; queued steps are not
        seen. A missing table raises. */
    method All(table: Collection) returns (r: Fallibly<seq<Row>>, ghost order: seq<RowId>)
      ensures GetTableKey(table) !in state ==> r == Fail(NoSuchTable(GetTableKey(table)))
      ensures GetTableKey(table) in state ==> r.Ok? && Enumerates(r.value, order, state[GetTableKey(table)])
    {
      var key := GetTableKey(table);
      if key !in state {
        return Fail(NoSuchTable(key)), [];
      }
      var t := state[key];
      var rest := t.Keys;
      var rows: seq<Row> := [];
      order := [];
      while rest != {}
        invariant rest <= t.Keys
        invariant |rows| == |order|
        invariant forall i, j | 0 <= i < j < |order| :: order[i] != order[j]
        invariant forall i | 0 <= i < |order| :: order[i] in t && order[i] !in rest && rows[i] == t[order[i]]
        invariant forall k | k in t :: k in rest || k in order
        decreases rest
      {
        var id :| id in rest;
        rows := rows + [t[id]];
        order := order + [id];
        rest := rest - {id};
      }
      r := Ok(rows);
    }

    /** Appends one step to the queue; the snapshot stays as it is. */
    method Queue(op: Operation)
      modifies this
      ensures operations == old(operations) + [op]
      ensures state == old(state)
    {
      operations := operations + [op];
    }

    /** Queues `update(table, id, update)` and returns this session. */
    method Update(table: Collection, id: RowId, update: UpdaterOrPatch) returns (self: Db)
      modifies this
      ensures self == this
      ensures operations == old(operations) + [UpdateOp(table, id, update)]
      ensures state == old(state)
    {
      Queue(UpdateOp(table, id, update));
      self := this;
    }

    /** Queues `updateAll(table, patch)` and returns this session. */
    method UpdateAll(table: Collection, patch: Row) returns (self: Db)
      modifies this
      ensures self == this
      ensures operations == old(operations) + [UpdateAllOp(table, patch)]
      ensures state == old(state)
    {
      Queue(UpdateAllOp(table, patch));
      self := this;
    }

    /** Queues `delete(table, id)` and returns this session. */
    method Delete(table: Collection, id: RowId) returns (self: Db)
      modifies this
      ensures self == this
      ensures operations == old(operations) + [DeleteOp(table, id)]
      ensures state == old(state)
    {
      Queue(DeleteOp(table, id));
      self := this;
    }

    /** Queues `deleteWhere(table, pred)` and returns this session. */
    method DeleteWhere(table: Collection, pred: (Row, RowId) -> bool) returns (self: Db)
      modifies this
      ensures self == this
      ensures operations == old(operations) + [DeleteWhereOp(table, pred)]
      ensures state == old(state)
    {
      Queue(DeleteWhereOp(table, pred));
      self := this;
    }

    /** Folds the queue over the snapshot in queue order and keeps the
        result as the new snapshot. The queue is kept, so a second run
        applies every step again to the new snapshot. If a step raises, the
        snapshot stays as it was. */
    method Run() returns (r: Fallibly<TableSpace>)
      modifies this
      ensures r == RunAll(old(operations), old(state))
      ensures operations == old(operations)
      ensures state == (if r.Ok? then r.value else old(state))
    {
      var current := state;
      var i := 0;
      while i < |operations|
        invariant 0 <= i <= |operations|
        invariant RunAll(operations[..i], state) == Ok(current)
      {
        var next := operations[i](current);
        assert operations[..i + 1][..i] == operations[..i];
        if next.Fail? {
          assert operations == operations[..i + 1] + operations[i + 1..];
          RunAfterFailure(operations[..i + 1], operations[i + 1..], state);
          return next;
        }
        current := next.value;
        i := i + 1;
      }
      assert operations[..i] == operations;
      state := current;
      r := Ok(current);
    }
  }

  /** `db.after`: each call queues exactly one step on the session and runs
      it, returning the resulting snapshot. */
  class SingleOperationReturningState {
    const db: Db

    constructor (db: Db)
      ensures this.db == db
    {
      this.db := db;
    }

    method Update(table: Collection, id: RowId, update: UpdaterOrPatch) returns (r: Fallibly<TableSpace>)
      modifies db
      ensures db.operations == old(db.operations) + [UpdateOp(table, id, update)]
      ensures r == RunAll(db.operations, old(db.state))
      ensures db.state == (if r.Ok? then r.value else old(db.state))
    {
      var session := db.Update(table, id, update);
      r := session.Run();
    }

    method UpdateAll(table: Collection, patch: Row) returns (r: Fallibly<TableSpace>)
      modifies db
      ensures db.operations == old(db.operations) + [UpdateAllOp(table, patch)]
      ensures r == RunAll(db.operations, old(db.state))
      ensures db.state == (if r.Ok? then r.value else old(db.state))
    {
      var session := db.UpdateAll(table, patch);
      r := session.Run();
    }

    /** `insert(table, row)` is `update(table, row.id, row)`. */
    method Insert(table: Collection, row: Row) returns (r: Fallibly<TableSpace>)
      modifies db
      ensures db.operations == old(db.operations) + [InsertOp(table, row)]
      ensures r == RunAll(db.operations, old(db.state))
      ensures db.state == (if r.Ok? then r.value else old(db.state))
    {
      var session := db.Update(table, IdOf(row), Patch(row));
      r := session.Run();
    }

    method Delete(table: Collection, id: RowId) returns (r: Fallibly<TableSpace>)
      modifies db
      ensures db.operations == old(db.operations) + [DeleteOp(table, id)]
      ensures r == RunAll(db.operations, old(db.state))
      ensures db.state == (if r.Ok? then r.value else old(db.state))
    {
      var session := db.Delete(table, id);
      r := session.Run();
    }

    method DeleteWhere(table: Collection, pred: (Row, RowId) -> bool) returns (r: Fallibly<TableSpace>)
      modifies db
      ensures db.operations == old(db.operations) + [DeleteWhereOp(table, pred)]
      ensures r == RunAll(db.operations, old(db.state))
      ensures db.state == (if r.Ok? then r.value else old(db.state))
    {
      var session := db.DeleteWhere(table, pred);
      r := session.Run();
    }
  }

  /** A fresh session's run of the one step the façade queues is that
      step applied to the snapshot; running again applies it once more. */
  method RunTwiceReapplies(s: TableSpace, c: Collection, id: RowId, update: UpdaterOrPatch)
    returns (first: Fallibly<TableSpace>, second: Fallibly<TableSpace>)
    ensures first == UpdateRow(s, c, id, update)
    ensures first.Ok? ==> second == UpdateRow(first.value, c, id, update)
    ensures first.Fail? ==> second == first
  {
    var db := new Db(Schema([c]), s);
    var after := db.After();
    first := after.Update(c, id, update);
    RunOne(UpdateOp(c, id, update), s);
    second := db.Run();
    if first.Ok? {
      RunOne(UpdateOp(c, id, update), first.value);
    }
  }
}
