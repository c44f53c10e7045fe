/** The TodoMVC reducer built on the store: one `Todo` table whose rows
    have an `id`, a `text` and a `completed` field, and six actions. */
module TodoMvc {
  import opened JsObjects
  import opened Store
  import opened Session

  /** The one collection of the application schema. */
  const Todo := Collection("Todo")
  const AppSchema := Schema([Todo])
  const TodoKey: TableName := "Todo"

  /** `new Todo(id, text, completed)` as a row. */
  function NewTodo(id: int, text: Value, completed: bool): Row
  {
    map["id" := Num(id), "text" := text, "completed" := Bool(completed)]
  }

  const UseRedux := NewTodo(0, Str("Use Redux"), false)

  /** The default state: the empty table-space with one inserted todo. */
  function GetInitial(): (r: Fallibly<TableSpace>)
    ensures r == Ok(map[TodoKey := map[Num(0) := UseRedux]])
  {
    AppInitial();
    RunOne(InsertOp(Todo, UseRedux), AppSchema.Initial());
    assert IdOf(UseRedux) == Num(0);
    UpsertIntoOnly(EmptyTable(), Num(0), UseRedux);
    AssignOverUndefined(UseRedux);
    RunAll([InsertOp(Todo, UseRedux)], AppSchema.Initial())
  }

  /** Upserting into a table-space that holds only the `Todo` table merges
      the row over whatever is stored at its id. */
  lemma UpsertIntoOnly(t: Table, id: RowId, row: Row)
    ensures UpdateRow(map[TodoKey := t], Todo, id, Patch(row)) == Ok(map[TodoKey := t[id := Assign(Lookup(t, id), row)]])
  {
    var r := UpdateRow(map[TodoKey := t], Todo, id, Patch(row)).value;
    assert r.Keys == {TodoKey};
    assert r[TodoKey] == t[id := Assign(Lookup(t, id), row)];
    OnlyTodoTable(r);
  }

  /** The application's initial table-space: one empty `Todo` table. */
  lemma AppInitial()
    ensures AppSchema.Initial() == map[TodoKey := EmptyTable()]
  {
    var empty := AppSchema.Initial();
    assert Names([Todo]) == {TodoKey};
    assert empty.Keys == {TodoKey};
  }

  // ---------------------------------------------------------------------
  // A list of rows as the starting state

  /** The steps `xs.reduce((s, x) => s.update(Todo, x.id, x), db)` queues. */
  function FromArrayOps(xs: seq<Row>): (ops: seq<Operation>)
    ensures |ops| == |xs|
    decreases |xs|
  {
    if xs == [] then []
    else FromArrayOps(xs[..|xs| - 1]) + [UpdateOp(Todo, IdOf(xs[|xs| - 1]), Patch(xs[|xs| - 1]))]
  }

  /** A session over the initial table-space that upserts every row at its
      own id, in list order, and runs. */
  function FromArray(xs: seq<Row>): Fallibly<TableSpace>
  {
    RunAll(FromArrayOps(xs), AppSchema.Initial())
  }

  /** The table `fromArray` builds, as a plain fold over the list: each
      row is merged over whatever is already stored at its id. */
  function TableOf(xs: seq<Row>): Table
    decreases |xs|
  {
    if xs == [] then map[]
    else
      var t := TableOf(xs[..|xs| - 1]);
      var x := xs[|xs| - 1];
      t[IdOf(x) := Assign(Lookup(t, IdOf(x)), x)]
  }

  function IdsOf(xs: seq<Row>): set<RowId>
  {
    set x | x in xs :: IdOf(x)
  }

  /** No later row of `xs` carries the id of `xs[i]`. */
  predicate LastWithId(xs: seq<Row>, i: int)
    requires 0 <= i < |xs|
  {
    forall j | i < j < |xs| :: IdOf(xs[j]) != IdOf(xs[i])
  }

  predicate DistinctIds(xs: seq<Row>)
  {
    forall i, j | 0 <= i < j < |xs| :: IdOf(xs[i]) != IdOf(xs[j])
  }

  /** Every field of `small` is in `big` with the same value. */
  ghost predicate Extends(big: Row, small: Row)
  {
    forall f | f in small :: f in big && big[f] == small[f]
  }

  /** Converting a list is converting all but its last row and then
      upserting the last row. */
  lemma FromArrayStep(xs: seq<Row>)
    requires xs != []
    ensures var n := |xs| - 1;
      FromArray(xs) == Then(FromArray(xs[..n]), UpdateOp(Todo, IdOf(xs[n]), Patch(xs[n])))
  {
    var n := |xs| - 1;
    assert FromArrayOps(xs)[..n] == FromArrayOps(xs[..n]);
  }

  /** Converting a list never fails, and its result is the table-space
      holding only the `Todo` table `TableOf(xs)`. */
  lemma {:induction false} FromArrayIsTableOf(xs: seq<Row>)
    ensures FromArray(xs) == Ok(map[TodoKey := TableOf(xs)])
    decreases |xs|
  {
    if xs == [] {
      AppInitial();
    } else {
      var n := |xs| - 1;
      FromArrayIsTableOf(xs[..n]);
      FromArrayStep(xs);
      UpsertIntoOnly(TableOf(xs[..n]), IdOf(xs[n]), xs[n]);
    }
  }

  /** The converted table is keyed by exactly the rows' ids. */
  lemma {:induction false} TableOfKeys(xs: seq<Row>)
    ensures TableOf(xs).Keys == IdsOf(xs)
    decreases |xs|
  {
    if xs != [] {
      TableOfKeys(xs[..|xs| - 1]);
      IdsOfSnoc(xs);
    }
  }

  lemma IdsOfSnoc(xs: seq<Row>)
    requires xs != []
    ensures IdsOf(xs) == IdsOf(xs[..|xs| - 1]) + {IdOf(xs[|xs| - 1])}
  {
    var n := |xs| - 1;
    assert xs == xs[..n] + [xs[n]];
    assert forall y | y in xs :: y in xs[..n] || y == xs[n];
  }

  /** The last row given for an id has all its fields in the stored row. */
  lemma {:induction false} TableOfLastWins(xs: seq<Row>, i: int)
    requires 0 <= i < |xs| && LastWithId(xs, i)
    ensures IdOf(xs[i]) in TableOf(xs)
    ensures Extends(TableOf(xs)[IdOf(xs[i])], xs[i])
    decreases |xs|
  {
    var n := |xs| - 1;
    if i < n {
      assert xs[..n][i] == xs[i];
      LastWithIdInPrefix(xs, i);
      TableOfLastWins(xs[..n], i);
      assert IdOf(xs[i]) != IdOf(xs[n]);
    }
  }

  lemma LastWithIdInPrefix(xs: seq<Row>, i: int)
    requires 0 <= i < |xs| - 1 && LastWithId(xs, i)
    ensures LastWithId(xs[..|xs| - 1], i)
  {
  }

  /** With distinct ids every row is stored exactly as given. */
  lemma {:induction false} TableOfDistinct(xs: seq<Row>, i: int)
    requires DistinctIds(xs) && 0 <= i < |xs|
    ensures IdOf(xs[i]) in TableOf(xs)
    ensures TableOf(xs)[IdOf(xs[i])] == xs[i]
    decreases |xs|
  {
    var n := |xs| - 1;
    DistinctInPrefix(xs);
    if i < n {
      assert xs[..n][i] == xs[i];
      TableOfDistinct(xs[..n], i);
      assert IdOf(xs[i]) != IdOf(xs[n]);
    } else {
      TableOfKeys(xs[..n]);
      AssignOverUndefined(xs[n]);
    }
  }

  /** Dropping the last row keeps the ids distinct, and the last row's id
      is none of the others'. */
  lemma DistinctInPrefix(xs: seq<Row>)
    requires DistinctIds(xs) && xs != []
    ensures DistinctIds(xs[..|xs| - 1])
    ensures IdOf(xs[|xs| - 1]) !in IdsOf(xs[..|xs| - 1])
  {
    var n := |xs| - 1;
    var p := xs[..n];
    forall y | y in p
      ensures IdOf(y) != IdOf(xs[n])
    {
      var j :| 0 <= j < n && p[j] == y;
    }
  }

  // ---------------------------------------------------------------------
  // The reducer

  datatype Action =
    | AddTodo(text: Value)
    | DeleteTodo(id: Value)
    | EditTodo(id: Value, text: Value)
    | CompleteTodo(id: Value)
    | CompleteAll
    | ClearCompleted
    | Unrecognised

  /** What the reducer is called with: nothing (the default state), a list
      of rows, or a table-space. */
  datatype StateArg = Missing | List(rows: seq<Row>) | Snapshot(space: TableSpace)

  /** The numeric `id` fields of a table's rows. */
  function NumericIds(t: Table): set<int>
  {
    set r | r in t.Values && Get(r, "id").Num? :: Get(r, "id").n
  }

  lemma NonemptyHasElement(s: set<int>)
    requires s != {}
    ensures exists y :: y in s
  {
    if forall y :: y !in s {
      assert false;
    }
  }
  lemma {:induction false} HasMaximum(s: set<int>)
    requires s != {}
    ensures exists top :: top in s && forall x | x in s :: x <= top
    decreases |s|
  {
    NonemptyHasElement(s);
    var y :| y in s;
    var rest := s - {y};
    if rest == {} {
      forall x | x in s
        ensures x <= y
      {
        assert x !in rest;
      }
    } else {
      HasMaximum(rest);
      var top :| top in rest && forall x | x in rest :: x <= top;
      var m := if top < y then y else top;
      forall x | x in s
        ensures x <= m
      {
        if x != y {
          assert x in rest;
        }
      }
      assert m in s;
    }
  }

  /** `Math.max` of `floor` and every element of `s`. */
  function MaxOf(s: set<int>, floor: int): (m: int)
    ensures m >= floor
    ensures forall x | x in s :: x <= m
    ensures m == floor || m in s
  {
    if s == {} then floor
    else
      HasMaximum(s);
      var top :| top in s && forall x | x in s :: x <= top;
      if top < floor then floor else top
  }

  /** The id `ADD_TODO` assigns: one more than the largest id, 0 for none. */
  function NextId(t: Table): int
  {
    MaxOf(NumericIds(t), -1) + 1
  }

  /** `every(t => t.completed)` over the table's rows. */
  predicate AllCompleted(t: Table)
  {
    forall id | id in t :: Truthy(Get(t[id], "completed"))
  }

  /** The predicate `CLEAR_COMPLETED` deletes by. */
  predicate IsCompleted(row: Row, id: RowId)
  {
    Truthy(Get(row, "completed"))
  }

  /** The updater of `COMPLETE_TODO`: reading `completed` of undefined
      throws. */
  function ToggleCompleted(current: Option<Row>): Fallibly<Row>
  {
    match current
    case None => Fail(JsError("Cannot read properties of undefined (reading 'completed')"))
    case Some(todo) => Ok(map["completed" := Bool(!Truthy(Get(todo, "completed")))])
  }

  /** The table-space the reducer works on. */
  function StateOf(state: StateArg): TableSpace
  {
    match state
    case Missing => GetInitial().value
    case List(xs) => FromArrayIsTableOf(xs); FromArray(xs).value
    case Snapshot(s) => s
  }

  /** One action on a table-space: each case queues one step on a fresh
      session and runs it. */
  function Dispatch(s: TableSpace, action: Action): Fallibly<TableSpace>
  {
    match action
    case AddTodo(text) =>
      if TodoKey !in s then Fail(NoSuchTable(TodoKey))
      else RunAll([InsertOp(Todo, NewTodo(NextId(s[TodoKey]), text, false))], s)
    case DeleteTodo(id) => RunAll([DeleteOp(Todo, id)], s)
    case EditTodo(id, text) => RunAll([UpdateOp(Todo, id, Patch(map["text" := text]))], s)
    case CompleteTodo(id) => RunAll([UpdateOp(Todo, id, Updater(ToggleCompleted))], s)
    case CompleteAll =>
      if TodoKey !in s then Fail(NoSuchTable(TodoKey))
      else RunAll([UpdateAllOp(Todo, map["completed" := Bool(!AllCompleted(s[TodoKey]))])], s)
    case ClearCompleted => RunAll([DeleteWhereOp(Todo, IsCompleted)], s)
    case Unrecognised => Ok(s)
  }

  /** `todos(state, action)`. */
  function Todos(state: StateArg, action: Action): Fallibly<TableSpace>
  {
    Dispatch(StateOf(state), action)
  }

  // ---------------------------------------------------------------------
  // What each action does

  /** The table invariant the reducer relies on: every row is stored under
      its own numeric `id`. */
  ghost predicate KeysAreIds(t: Table)
  {
    forall k | k in t :: k.Num? && Get(t[k], "id") == k
  }

  /** The id `ADD_TODO` assigns is not negative and exceeds every numeric
      id present, so it is the key of no row of a well-keyed table. */
  lemma NextIdIsFresh(t: Table)
    ensures NextId(t) >= 0
    ensures forall k | k in t && Get(t[k], "id").Num? :: Get(t[k], "id").n < NextId(t)
    ensures KeysAreIds(t) ==> Num(NextId(t)) !in t
  {
    forall k | k in t && Get(t[k], "id").Num?
      ensures Get(t[k], "id").n in NumericIds(t)
    {
      assert t[k] in t.Values;
    }
  }

  /** `ADD_TODO` adds one row under the next id with the action's text and
      `completed` false, and leaves every other row and table alone. */
  lemma AddTodoAddsRow(s: TableSpace, text: Value)
    requires TodoKey in s
    ensures var r := Dispatch(s, AddTodo(text));
      var t := s[TodoKey];
      var n := NextId(t);
      && r.Ok?
      && r.value.Keys == s.Keys
      && (forall name | name in s && name != TodoKey :: r.value[name] == s[name])
      && r.value[TodoKey].Keys == t.Keys + {Num(n)}
      && (forall k | k in t && k != Num(n) :: r.value[TodoKey][k] == t[k])
      && Get(r.value[TodoKey][Num(n)], "id") == Num(n)
      && Get(r.value[TodoKey][Num(n)], "text") == text
      && Get(r.value[TodoKey][Num(n)], "completed") == Bool(false)
  {
    var row := NewTodo(NextId(s[TodoKey]), text, false);
    RunOne(InsertOp(Todo, row), s);
    assert IdOf(row) == Num(NextId(s[TodoKey]));
  }

  /** On a well-keyed table `ADD_TODO` stores exactly the new todo under a
      fresh key, and the table stays well-keyed. */
  lemma AddTodoOnWellKeyed(s: TableSpace, text: Value)
    requires TodoKey in s && KeysAreIds(s[TodoKey])
    ensures var t := s[TodoKey];
      var n := NextId(t);
      && Num(n) !in t
      && Dispatch(s, AddTodo(text)) == Ok(s[TodoKey := t[Num(n) := NewTodo(n, text, false)]])
      && KeysAreIds(t[Num(n) := NewTodo(n, text, false)])
  {
    var t := s[TodoKey];
    var n := NextId(t);
    var row := NewTodo(n, text, false);
    NextIdIsFresh(t);
    RunOne(InsertOp(Todo, row), s);
    assert IdOf(row) == Num(n);
    AssignOverUndefined(row);
    var r := Dispatch(s, AddTodo(text)).value;
    assert r[TodoKey] == t[Num(n) := row];
    assert r == s[TodoKey := t[Num(n) := row]];
  }

  /** `DELETE_TODO` removes exactly the row with the action's id. */
  lemma DeleteTodoRemoves(s: TableSpace, id: RowId)
    ensures Dispatch(s, DeleteTodo(id)) == Ok(if TodoKey in s then s[TodoKey := s[TodoKey] - {id}] else s)
  {
    RunOne(DeleteOp(Todo, id), s);
    if TodoKey in s {
      var r := DeleteRow(s, Todo, id).value;
      assert r[TodoKey] == s[TodoKey] - {id};
      assert r == s[TodoKey := s[TodoKey] - {id}];
    }
  }

  /** `EDIT_TODO` on a present row changes its `text` and nothing else. */
  lemma EditTodoChangesText(s: TableSpace, id: RowId, text: Value)
    requires TodoKey in s && id in s[TodoKey]
    ensures var t := s[TodoKey];
      Dispatch(s, EditTodo(id, text)) == Ok(s[TodoKey := t[id := t[id]["text" := text]]])
  {
    var t := s[TodoKey];
    var patch := map["text" := text];
    RunOne(UpdateOp(Todo, id, Patch(patch)), s);
    var r := UpdateRow(s, Todo, id, Patch(patch)).value;
    assert r[TodoKey][id] == t[id]["text" := text];
    assert r[TodoKey] == t[id := t[id]["text" := text]];
    assert r == s[TodoKey := t[id := t[id]["text" := text]]];
  }

  /** `EDIT_TODO` on an absent id is an upsert: it stores a row that has a
      `text` field only. */
  lemma EditAbsentTodoInsertsTextOnly(s: TableSpace, id: RowId, text: Value)
    requires id !in TableOrEmpty(s, TodoKey)
    ensures Dispatch(s, EditTodo(id, text)) == Ok(s[TodoKey := TableOrEmpty(s, TodoKey)[id := map["text" := text]]])
  {
    var t := TableOrEmpty(s, TodoKey);
    var patch := map["text" := text];
    RunOne(UpdateOp(Todo, id, Patch(patch)), s);
    UpdateAbsentIsUpsert(s, Todo, id, patch);
    var r := UpdateRow(s, Todo, id, Patch(patch)).value;
    assert r[TodoKey] == t[id := patch];
    assert r == s[TodoKey := t[id := patch]];
  }

  /** `COMPLETE_TODO` on a present row negates its `completed` and changes
      nothing else. */
  lemma CompleteTodoToggles(s: TableSpace, id: RowId)
    requires TodoKey in s && id in s[TodoKey]
    ensures var t := s[TodoKey];
      Dispatch(s, CompleteTodo(id))
      == Ok(s[TodoKey := t[id := t[id]["completed" := Bool(!Truthy(Get(t[id], "completed")))]]])
  {
    var t := s[TodoKey];
    var toggled := t[id]["completed" := Bool(!Truthy(Get(t[id], "completed")))];
    RunOne(UpdateOp(Todo, id, Updater(ToggleCompleted)), s);
    var r := UpdateRow(s, Todo, id, Updater(ToggleCompleted)).value;
    assert r[TodoKey][id] == toggled;
    assert r[TodoKey] == t[id := toggled];
    assert r == s[TodoKey := t[id := toggled]];
  }

  /** `COMPLETE_ALL` keeps the ids and sets every row's `completed` to the
      negation of "all rows were completed", changing no other field. */
  lemma CompleteAllSetsEvery(s: TableSpace)
    requires TodoKey in s
    ensures var r := Dispatch(s, CompleteAll);
      var t := s[TodoKey];
      && r.Ok?
      && r.value.Keys == s.Keys
      && (forall name | name in s && name != TodoKey :: r.value[name] == s[name])
      && r.value[TodoKey].Keys == t.Keys
      && (forall k | k in t :: r.value[TodoKey][k] == t[k]["completed" := Bool(!AllCompleted(t))])
  {
    var t := s[TodoKey];
    var patch := map["completed" := Bool(!AllCompleted(t))];
    RunOne(UpdateAllOp(Todo, patch), s);
    var r := UpdateAllRows(s, Todo, patch).value;
    forall k | k in t
      ensures r[TodoKey][k] == t[k]["completed" := Bool(!AllCompleted(t))]
    {
      assert r[TodoKey][k] == Assign(Some(t[k]), patch);
    }
  }

  /** On a non-empty table `COMPLETE_ALL` is a toggle: afterwards all rows
      are completed exactly when they were not all completed before. */
  lemma CompleteAllToggles(s: TableSpace)
    requires TodoKey in s && s[TodoKey] != map[]
    ensures Dispatch(s, CompleteAll).Ok?
    ensures AllCompleted(Dispatch(s, CompleteAll).value[TodoKey]) <==> !AllCompleted(s[TodoKey])
  {
    var t := s[TodoKey];
    CompleteAllSetsEvery(s);
    var after := Dispatch(s, CompleteAll).value[TodoKey];
    NonemptyTableHasKey(t);
    var k :| k in t;
    assert Get(after[k], "completed") == Bool(!AllCompleted(t));
    if !AllCompleted(t) {
      forall j | j in after
        ensures Truthy(Get(after[j], "completed"))
      {
        assert Get(after[j], "completed") == Bool(true);
      }
    }
  }

  lemma NonemptyTableHasKey(t: Table)
    requires t != map[]
    ensures exists k :: k in t
  {
    if forall k :: k !in t {
      assert false;
    }
  }

  /** `CLEAR_COMPLETED` removes exactly the completed rows and leaves the
      others as they were. */
  lemma ClearCompletedKeepsActive(s: TableSpace)
    requires TodoKey in s
    ensures var r := Dispatch(s, ClearCompleted);
      var t := s[TodoKey];
      && r.Ok?
      && r.value.Keys == s.Keys
      && (forall name | name in s && name != TodoKey :: r.value[name] == s[name])
      && (forall k :: k in r.value[TodoKey] <==> k in t && !Truthy(Get(t[k], "completed")))
      && (forall k | k in r.value[TodoKey] :: r.value[TodoKey][k] == t[k])
  {
    RunOne(DeleteWhereOp(Todo, IsCompleted), s);
  }

  /** An action the reducer does not know returns the state unchanged. */
  lemma UnrecognisedKeepsState(state: StateArg)
    ensures Todos(state, Unrecognised) == Ok(StateOf(state))
  {
  }

  /** When the reducer raises: a missing `Todo` table for the actions that
      read or filter it, and `COMPLETE_TODO` on an absent row (its updater
      reads a field of undefined). */
  lemma DispatchFailsExactly(s: TableSpace, action: Action)
    ensures Dispatch(s, action).Fail? <==>
      || (TodoKey !in s && (action.AddTodo? || action.CompleteAll? || action.ClearCompleted?))
      || (action.CompleteTodo? && action.id !in TableOrEmpty(s, TodoKey))
  {
    match action
    case AddTodo(text) =>
      if TodoKey in s { AddTodoAddsRow(s, text); }
    case DeleteTodo(id) =>
      DeleteTodoRemoves(s, id);
    case EditTodo(id, text) =>
      RunOne(UpdateOp(Todo, id, Patch(map["text" := text])), s);
    case CompleteTodo(id) =>
      RunOne(UpdateOp(Todo, id, Updater(ToggleCompleted)), s);
    case CompleteAll =>
      if TodoKey in s { CompleteAllSetsEvery(s); }
    case ClearCompleted =>
      RunOne(DeleteWhereOp(Todo, IsCompleted), s);
    case Unrecognised =>
  }

  // ---------------------------------------------------------------------
  // The table invariant across actions

  /** A list whose every id is a number folds to a well-keyed table: a
      later row with the same id merges over the earlier one and brings its
      own `id` along. */
  lemma {:induction false} TableOfIsWellKeyed(xs: seq<Row>)
    requires forall i | 0 <= i < |xs| :: IdOf(xs[i]).Num?
    ensures KeysAreIds(TableOf(xs))
    decreases |xs|
  {
    if xs != [] {
      var n := |xs| - 1;
      TableOfIsWellKeyed(xs[..n]);
      assert "id" in xs[n];
    }
  }

  /** A list whose every id is a number converts to a well-keyed table,
      whether or not its ids repeat. */
  lemma FromArrayIsWellKeyed(xs: seq<Row>)
    requires forall i | 0 <= i < |xs| :: IdOf(xs[i]).Num?
    ensures FromArray(xs).Ok? && KeysAreIds(FromArray(xs).value[TodoKey])
  {
    FromArrayIsTableOf(xs);
    TableOfIsWellKeyed(xs);
  }

  /** Every action that succeeds on a well-keyed table leaves it
      well-keyed, except `EDIT_TODO` on an absent id (see
      `EditAbsentBreaksKeysAreIds`). */
  lemma DispatchKeepsKeysAreIds(s: TableSpace, action: Action)
    requires TodoKey in s && KeysAreIds(s[TodoKey])
    requires action.EditTodo? ==> action.id in s[TodoKey]
    ensures var r := Dispatch(s, action);
      r.Ok? ==> TodoKey in r.value && KeysAreIds(r.value[TodoKey])
  {
    match action
    case AddTodo(text) =>
      AddTodoOnWellKeyed(s, text);
    case DeleteTodo(id) =>
      DeleteTodoRemoves(s, id);
    case EditTodo(id, text) =>
      EditTodoChangesText(s, id, text);
      SetFieldKeepsKeysAreIds(s[TodoKey], id, "text", text);
    case CompleteTodo(id) =>
      if id in s[TodoKey] {
        CompleteTodoToggles(s, id);
        var row := s[TodoKey][id];
        SetFieldKeepsKeysAreIds(s[TodoKey], id, "completed", Bool(!Truthy(Get(row, "completed"))));
      } else {
        DispatchFailsExactly(s, action);
      }
    case CompleteAll =>
      CompleteAllKeepsKeysAreIds(s);
    case ClearCompleted =>
      ClearCompletedKeepsActive(s);
    case Unrecognised =>
  }

  /** Setting a field other than `id` in one row keeps a table well-keyed. */
  lemma SetFieldKeepsKeysAreIds(t: Table, id: RowId, field: string, v: Value)
    requires KeysAreIds(t) && id in t && field != "id"
    ensures KeysAreIds(t[id := t[id][field := v]])
  {
    var after := t[id := t[id][field := v]];
    forall k | k in after
      ensures k.Num? && Get(after[k], "id") == k
    {
      if k == id {
        assert Get(after[k], "id") == Get(t[k], "id");
      }
    }
  }

  lemma CompleteAllKeepsKeysAreIds(s: TableSpace)
    requires TodoKey in s && KeysAreIds(s[TodoKey])
    ensures Dispatch(s, CompleteAll).Ok?
    ensures TodoKey in Dispatch(s, CompleteAll).value
    ensures KeysAreIds(Dispatch(s, CompleteAll).value[TodoKey])
  {
    var t := s[TodoKey];
    CompleteAllSetsEvery(s);
    var after := Dispatch(s, CompleteAll).value[TodoKey];
    forall k | k in after
      ensures k.Num? && Get(after[k], "id") == k
    {
      assert Get(after[k], "id") == Get(t[k], "id");
    }
  }

  /** `EDIT_TODO` on an absent numeric id stores a row without an `id`
      under that id, so the table is no longer well-keyed. */
  lemma EditAbsentBreaksKeysAreIds(s: TableSpace, id: RowId, text: Value)
    requires TodoKey in s && id !in s[TodoKey]
    ensures Dispatch(s, EditTodo(id, text)).Ok?
    ensures !KeysAreIds(Dispatch(s, EditTodo(id, text)).value[TodoKey])
  {
    EditAbsentTodoInsertsTextOnly(s, id, text);
    var after := Dispatch(s, EditTodo(id, text)).value[TodoKey];
    assert after[id] == map["text" := text];
    assert Get(after[id], "id") == Undefined;
  }

  // ---------------------------------------------------------------------
  // The next id

  lemma NextIdOfEmpty()
    ensures NextId(map[]) == 0
  {
    assert NumericIds(map[]) == {};
  }

  /** On a well-keyed table whose largest id is `m`, the next id is
      `m + 1`. */
  lemma NextIdAboveLargest(t: Table, m: nat)
    requires KeysAreIds(t) && Num(m) in t
    requires forall k | k in t :: k.n <= m
    ensures NextId(t) == m + 1
  {
    var ids := NumericIds(t);
    assert t[Num(m)] in t.Values;
    assert m in ids;
    forall x | x in ids
      ensures x <= m
    {
      var r :| r in t.Values && Get(r, "id").Num? && Get(r, "id").n == x;
      var k :| k in t && t[k] == r;
    }
  }

  /** An edit of an absent id stores a row without a numeric `id`, which the
      next id then ignores: `ADD_TODO` still issues one more than the
      largest numeric id. */
  lemma EditAbsentKeepsNextId(s: TableSpace, id: RowId, text: Value)
    requires TodoKey in s && id !in s[TodoKey]
    ensures Dispatch(s, EditTodo(id, text)).Ok?
    ensures NextId(Dispatch(s, EditTodo(id, text)).value[TodoKey]) == NextId(s[TodoKey])
  {
    EditAbsentTodoInsertsTextOnly(s, id, text);
    var t := s[TodoKey];
    var after := t[id := map["text" := text]];
    assert Dispatch(s, EditTodo(id, text)).value[TodoKey] == after;
    forall x | x in NumericIds(after)
      ensures x in NumericIds(t)
    {
      var r :| r in after.Values && Get(r, "id").Num? && Get(r, "id").n == x;
      var k :| k in after && after[k] == r;
      assert k != id;
      assert t[k] in t.Values;
    }
    forall x | x in NumericIds(t)
      ensures x in NumericIds(after)
    {
      var r :| r in t.Values && Get(r, "id").Num? && Get(r, "id").n == x;
      var k :| k in t && t[k] == r;
      assert after[k] == r;
      assert r in after.Values;
    }
    assert NumericIds(after) == NumericIds(t);
  }

  // ---------------------------------------------------------------------
  // The reducer on a session

  /** The numeric `id` fields of a list of rows. */
  function ListIds(rows: seq<Row>): set<int>
  {
    set i | 0 <= i < |rows| && Get(rows[i], "id").Num? :: Get(rows[i], "id").n
  }

  /** The three facts that characterise a maximum with a floor determine
      it. */
  lemma MaxOfUnique(s: set<int>, floor: int, m: int)
    requires m >= floor
    requires forall x | x in s :: x <= m
    requires m == floor || m in s
    ensures m == MaxOf(s, floor)
  {
  }

  /** `rows.reduce((maxId, todo) => Math.max(todo.id, maxId), -1)` over the
      rows' numeric ids. */
  method MaxIdOf(rows: seq<Row>) returns (m: int)
    ensures m == MaxOf(ListIds(rows), -1)
  {
    m := -1;
    var i := 0;
    while i < |rows|
      invariant 0 <= i <= |rows|
      invariant m >= -1
      invariant forall j | 0 <= j < i && Get(rows[j], "id").Num? :: Get(rows[j], "id").n <= m
      invariant m == -1 || exists j | 0 <= j < i :: Get(rows[j], "id") == Num(m)
    {
      var id := Get(rows[i], "id");
      if id.Num? && id.n > m {
        m := id.n;
      }
      i := i + 1;
    }
    forall x | x in ListIds(rows)
      ensures x <= m
    {
      var j :| 0 <= j < |rows| && Get(rows[j], "id").Num? && Get(rows[j], "id").n == x;
    }
    if m != -1 {
      var j :| 0 <= j < |rows| && Get(rows[j], "id") == Num(m);
      assert m in ListIds(rows);
    }
    MaxOfUnique(ListIds(rows), -1, m);
  }

  /** `rows.every(t => t.completed)`: stops at the first row that is not
      completed. */
  method EveryCompleted(rows: seq<Row>) returns (b: bool)
    ensures b <==> forall j | 0 <= j < |rows| :: Truthy(Get(rows[j], "completed"))
  {
    var i := 0;
    while i < |rows|
      invariant 0 <= i <= |rows|
      invariant forall j | 0 <= j < i :: Truthy(Get(rows[j], "completed"))
    {
      if !Truthy(Get(rows[i], "completed")) {
        return false;
      }
      i := i + 1;
    }
    return true;
  }

  /** A list that enumerates a table carries exactly the table's numeric
      ids, whatever its order. */
  lemma EnumeratedIds(rows: seq<Row>, order: seq<RowId>, t: Table)
    requires Enumerates(rows, order, t)
    ensures ListIds(rows) == NumericIds(t)
  {
    forall x | x in ListIds(rows)
      ensures x in NumericIds(t)
    {
      var i :| 0 <= i < |rows| && Get(rows[i], "id").Num? && Get(rows[i], "id").n == x;
      assert rows[i] == t[order[i]];
      assert rows[i] in t.Values;
    }
    forall x | x in NumericIds(t)
      ensures x in ListIds(rows)
    {
      var r :| r in t.Values && Get(r, "id").Num? && Get(r, "id").n == x;
      var k :| k in t && t[k] == r;
      assert k in order;
      var i :| 0 <= i < |order| && order[i] == k;
      assert rows[i] == r;
    }
  }

  /** Every row of a list that enumerates a table is completed exactly when
      every row of the table is. */
  lemma EnumeratedAllCompleted(rows: seq<Row>, order: seq<RowId>, t: Table)
    requires Enumerates(rows, order, t)
    ensures (forall j | 0 <= j < |rows| :: Truthy(Get(rows[j], "completed"))) <==> AllCompleted(t)
  {
    if forall j | 0 <= j < |rows| :: Truthy(Get(rows[j], "completed")) {
      forall id | id in t
        ensures Truthy(Get(t[id], "completed"))
      {
        assert id in order;
        var i :| 0 <= i < |order| && order[i] == id;
        assert Truthy(Get(rows[i], "completed"));
      }
    }
    if AllCompleted(t) {
      forall j | 0 <= j < |rows|
        ensures Truthy(Get(rows[j], "completed"))
      {
        assert rows[j] == t[order[j]];
      }
    }
  }

  /** `ADD_TODO` on a table-space that has the table is one insert of the
      new row under the next id. */
  lemma AddIsOneInsert(s: TableSpace, text: Value, id: int)
    requires TodoKey in s && id == NextId(s[TodoKey])
    ensures Dispatch(s, AddTodo(text)) == RunAll([InsertOp(Todo, NewTodo(id, text, false))], s)
  {
  }

  /** `ADD_TODO` on a session: read the committed table, fold its ids to
      their maximum and insert the new row one above it. */
  method AddOnSession(db: Db, after: SingleOperationReturningState, text: Value) returns (r: Fallibly<TableSpace>)
    requires after.db == db && db.operations == []
    modifies db
    ensures r == Dispatch(old(db.state), AddTodo(text))
  {
    var rows;
    ghost var order;
    rows, order := db.All(Todo);
    if rows.Fail? {
      return Fail(rows.error);
    }
    var maxId := MaxIdOf(rows.value);
    EnumeratedIds(rows.value, order, db.state[TodoKey]);
    var id := maxId + 1;
    AddIsOneInsert(db.state, text, id);
    r := after.Insert(Todo, NewTodo(id, text, false));
  }

  /** `COMPLETE_ALL` on a table-space that has the table is one update of
      every row's `completed`. */
  lemma CompleteAllIsOneUpdate(s: TableSpace, allMarked: bool)
    requires TodoKey in s && allMarked == AllCompleted(s[TodoKey])
    ensures Dispatch(s, CompleteAll) == RunAll([UpdateAllOp(Todo, map["completed" := Bool(!allMarked)])], s)
  {
  }

  /** `COMPLETE_ALL` on a session: read the committed table, ask whether
      every row is completed and set `completed` to the opposite on all. */
  method CompleteAllOnSession(db: Db, after: SingleOperationReturningState) returns (r: Fallibly<TableSpace>)
    requires after.db == db && db.operations == []
    modifies db
    ensures r == Dispatch(old(db.state), CompleteAll)
  {
    var rows;
    ghost var order;
    rows, order := db.All(Todo);
    if rows.Fail? {
      return Fail(rows.error);
    }
    var allMarked := EveryCompleted(rows.value);
    EnumeratedAllCompleted(rows.value, order, db.state[TodoKey]);
    CompleteAllIsOneUpdate(db.state, allMarked);
    r := after.UpdateAll(Todo, map["completed" := Bool(!allMarked)]);
  }

  /** The `switch` of `todos` on a session opened over `s`: each action
      queues and runs its one step through the session's façade. The
      result is the reducer's. */
  method DispatchOnSession(s: TableSpace, action: Action) returns (r: Fallibly<TableSpace>)
    ensures r == Dispatch(s, action)
  {
    var db := new Db(AppSchema, s);
    var after := db.After();
    match action {
      case AddTodo(text) =>
        r := AddOnSession(db, after, text);
      case DeleteTodo(id) =>
        r := after.Delete(Todo, id);
      case EditTodo(id, text) =>
        r := after.Update(Todo, id, Patch(map["text" := text]));
      case CompleteTodo(id) =>
        r := after.Update(Todo, id, Updater(ToggleCompleted));
      case CompleteAll =>
        r := CompleteAllOnSession(db, after);
      case ClearCompleted =>
        r := after.DeleteWhere(Todo, IsCompleted);
      case Unrecognised =>
        r := Ok(s);
    }
  }

  /** `getInitial()` on a session: insert the "Use Redux" todo through the
      façade of a session over the initial table-space. */
  method GetInitialOnSession() returns (r: Fallibly<TableSpace>)
    ensures r == GetInitial()
  {
    var db := new Db(AppSchema, AppSchema.Initial());
    var after := db.After();
    r := after.Insert(Todo, UseRedux);
  }

  /** `fromArray(xs)` on a session: queue one upsert per row, in list
      order, on a session over the initial table-space, then run it. */
  method FromArrayOnSession(xs: seq<Row>) returns (r: Fallibly<TableSpace>)
    ensures r == FromArray(xs)
  {
    var db := new Db(AppSchema, AppSchema.Initial());
    var i := 0;
    while i < |xs|
      invariant 0 <= i <= |xs|
      invariant db.state == AppSchema.Initial()
      invariant db.operations == FromArrayOps(xs[..i])
    {
      var _ := db.Update(Todo, IdOf(xs[i]), Patch(xs[i]));
      assert xs[..i + 1][..i] == xs[..i];
      i := i + 1;
    }
    assert xs[..|xs|] == xs;
    r := db.Run();
  }

  /** The state `todos` starts from, computed on sessions: the default
      state, the converted list, or the snapshot as given. */
  method StateOnSession(state: StateArg) returns (s: TableSpace)
    ensures s == StateOf(state)
  {
    match state {
      case Missing =>
        s := InitialStateOnSession();
      case List(xs) =>
        s := ListStateOnSession(xs);
      case Snapshot(snapshot) =>
        s := snapshot;
    }
  }

  /** The default state computed on a session. */
  method InitialStateOnSession() returns (s: TableSpace)
    ensures s == StateOf(Missing)
  {
    var r := GetInitialOnSession();
    s := r.value;
  }

  /** A list state converted on a session. */
  method ListStateOnSession(xs: seq<Row>) returns (s: TableSpace)
    ensures s == StateOf(List(xs))
  {
    var r := FromArrayOnSession(xs);
    FromArrayIsTableOf(xs);
    s := r.value;
  }

  /** `todos(state, action)` as the source runs it: convert the state, then
      dispatch on a session over it. */
  method TodosOnSession(state: StateArg, action: Action) returns (r: Fallibly<TableSpace>)
    ensures r == Todos(state, action)
  {
    var s := StateOnSession(state);
    r := DispatchOnSession(s, action);
  }

  // ---------------------------------------------------------------------
  // The reducer's examples


  /** One row converts to a table holding it. */
  lemma OneRowState(a: Row)
    ensures StateOf(List([a])) == map[TodoKey := map[IdOf(a) := a]]
  {
    FromArrayIsTableOf([a]);
    assert [a][..0] == [];
    AssignOverUndefined(a);
  }

  /** Two rows with different ids convert to a table holding both. */
  lemma TwoRowState(a: Row, b: Row)
    requires IdOf(a) != IdOf(b)
    ensures StateOf(List([a, b])) == map[TodoKey := map[IdOf(a) := a, IdOf(b) := b]]
  {
    FromArrayIsTableOf([a, b]);
    TableOfPair(a, b);
  }

  lemma TableOfPair(a: Row, b: Row)
    requires IdOf(a) != IdOf(b)
    ensures TableOf([a, b]) == map[IdOf(a) := a, IdOf(b) := b]
  {
    assert [a, b][..1] == [a];
    assert [a][..0] == [];
    AssignOverUndefined(a);
    AssignOverUndefined(b);
    var one := TableOf([a]);
    assert TableOf([a][..0]) == map[];
    assert one == map[][IdOf(a) := Assign(Lookup(map[], IdOf(a)), a)];
    assert one == map[IdOf(a) := a];
    assert Lookup(one, IdOf(b)) == None;
    assert TableOf([a, b]) == one[IdOf(b) := b];
  }

  lemma TableOfTwo(t: Table, i: RowId, j: RowId)
    requires i != j && t.Keys == {i, j}
    ensures t == map[i := t[i], j := t[j]]
  {
  }

  /** The reducer on a list of two rows is the action on the table that
      holds them. */
  lemma OnTwoRows(a: Row, b: Row, i: RowId, j: RowId, action: Action)
    requires IdOf(a) == i && IdOf(b) == j && i != j
    ensures Todos(List([a, b]), action) == Dispatch(map[TodoKey := map[i := a, j := b]], action)
  {
    TwoRowState(a, b);
  }

  lemma OnOneRow(a: Row, i: RowId, action: Action)
    requires IdOf(a) == i
    ensures Todos(List([a]), action) == Dispatch(map[TodoKey := map[i := a]], action)
  {
    OneRowState(a);
  }

  lemma OnNoRows(action: Action)
    ensures Todos(List([]), action) == Dispatch(map[TodoKey := map[]], action)
  {
    FromArrayIsTableOf([]);
  }

  // The actions on a table-space holding only the `Todo` table.

  lemma AddAboveLargest(t: Table, m: nat, n: nat, text: Value)
    requires KeysAreIds(t) && Num(m) in t && n == m + 1
    requires forall k | k in t :: k.n <= m
    ensures Dispatch(map[TodoKey := t], AddTodo(text)) == Ok(map[TodoKey := t[Num(n) := NewTodo(n, text, false)]])
  {
    NextIdAboveLargest(t, m);
    AddTodoOnWellKeyed(map[TodoKey := t], text);
    var u := t[Num(n) := NewTodo(n, text, false)];
    assert map[TodoKey := t][TodoKey := u] == map[TodoKey := u];
  }

  lemma AddToEmpty(text: Value)
    ensures Dispatch(map[TodoKey := map[]], AddTodo(text)) == Ok(map[TodoKey := map[Num(0) := NewTodo(0, text, false)]])
  {
    var t: Table := map[];
    NextIdOfEmpty();
    AddTodoOnWellKeyed(map[TodoKey := t], text);
    var u := t[Num(0) := NewTodo(0, text, false)];
    assert map[TodoKey := t][TodoKey := u] == map[TodoKey := u];
  }

  lemma DeleteFromOnly(t: Table, id: RowId)
    ensures Dispatch(map[TodoKey := t], DeleteTodo(id)) == Ok(map[TodoKey := t - {id}])
  {
    DeleteTodoRemoves(map[TodoKey := t], id);
    assert map[TodoKey := t][TodoKey := t - {id}] == map[TodoKey := t - {id}];
  }

  lemma EditInOnly(t: Table, id: RowId, text: Value)
    requires id in t
    ensures Dispatch(map[TodoKey := t], EditTodo(id, text)) == Ok(map[TodoKey := t[id := t[id]["text" := text]]])
  {
    EditTodoChangesText(map[TodoKey := t], id, text);
    var u := t[id := t[id]["text" := text]];
    assert map[TodoKey := t][TodoKey := u] == map[TodoKey := u];
  }

  lemma CompleteInOnly(t: Table, id: RowId)
    requires id in t
    ensures Dispatch(map[TodoKey := t], CompleteTodo(id))
      == Ok(map[TodoKey := t[id := t[id]["completed" := Bool(!Truthy(Get(t[id], "completed")))]]])
  {
    CompleteTodoToggles(map[TodoKey := t], id);
    var u := t[id := t[id]["completed" := Bool(!Truthy(Get(t[id], "completed")))]];
    assert map[TodoKey := t][TodoKey := u] == map[TodoKey := u];
  }

  /** `COMPLETE_ALL` over a two-row table from the rows' new values. */
  lemma CompleteAllOfTwo(t: Table, i: RowId, j: RowId, ri: Row, rj: Row)
    requires i != j && t.Keys == {i, j}
    requires ri == t[i]["completed" := Bool(!AllCompleted(t))]
    requires rj == t[j]["completed" := Bool(!AllCompleted(t))]
    ensures Dispatch(map[TodoKey := t], CompleteAll) == Ok(map[TodoKey := map[i := ri, j := rj]])
  {
    var s := map[TodoKey := t];
    CompleteAllSetsEvery(s);
    var after := Dispatch(s, CompleteAll).value;
    assert after.Keys == {TodoKey};
    TableOfTwo(after[TodoKey], i, j);
    OnlyTodoTable(after);
  }

  /** `CLEAR_COMPLETED` on a table of two rows of which only `j`'s is not
      completed. */
  lemma ClearOneOfTwo(t: Table, i: RowId, j: RowId)
    requires i != j && t.Keys == {i, j}
    requires IsCompleted(t[i], i) && !IsCompleted(t[j], j)
    ensures Dispatch(map[TodoKey := t], ClearCompleted) == Ok(map[TodoKey := map[j := t[j]]])
  {
    var s := map[TodoKey := t];
    ClearCompletedKeepsActive(s);
    var after := Dispatch(s, ClearCompleted).value;
    assert after.Keys == {TodoKey};
    assert after[TodoKey].Keys == {j};
    assert after[TodoKey] == map[j := t[j]];
    OnlyTodoTable(after);
  }

  lemma RemoveFromTwo(a: Row, b: Row, i: RowId, j: RowId)
    requires i != j
    ensures map[i := a, j := b] - {i} == map[j := b]
    ensures map[i := a, j := b] - {j} == map[i := a]
  {
  }

  lemma SetFirstOfTwo(a: Row, b: Row, i: RowId, j: RowId, x: Row)
    requires i != j
    ensures map[i := a, j := b][i := x] == map[i := x, j := b]
  {
  }

  lemma AllCompletedOfTwo(a: Row, b: Row, i: RowId, j: RowId)
    requires i != j
    ensures AllCompleted(map[i := a, j := b]) == (IsCompleted(a, i) && IsCompleted(b, j))
  {
    var t := map[i := a, j := b];
    assert t[i] == a && t[j] == b;
  }

  /** `ADD_TODO` on a table holding one row with id `m`. */
  lemma AddAfterOnly(a: Row, m: nat, n: nat, text: Value)
    requires IdOf(a) == Num(m) && n == m + 1
    ensures Dispatch(map[TodoKey := map[Num(m) := a]], AddTodo(text))
      == Ok(map[TodoKey := map[Num(m) := a, Num(n) := NewTodo(n, text, false)]])
  {
    var t := map[Num(m) := a];
    assert KeysAreIds(t);
    AddAboveLargest(t, m, n, text);
    assert t[Num(n) := NewTodo(n, text, false)] == map[Num(m) := a, Num(n) := NewTodo(n, text, false)];
  }

  /** `ADD_TODO` on a table holding rows with ids `m` and `k < m`. */
  lemma AddAfterPair(a: Row, b: Row, m: nat, k: nat, n: nat, text: Value)
    requires IdOf(a) == Num(m) && IdOf(b) == Num(k) && k < m && n == m + 1
    ensures Dispatch(map[TodoKey := map[Num(m) := a, Num(k) := b]], AddTodo(text))
      == Ok(map[TodoKey := map[Num(m) := a, Num(k) := b, Num(n) := NewTodo(n, text, false)]])
  {
    var t := map[Num(m) := a, Num(k) := b];
    assert t.Keys == {Num(m), Num(k)} && t[Num(m)] == a && t[Num(k)] == b;
    assert KeysAreIds(t);
    AddAboveLargest(t, m, n, text);
    assert t[Num(n) := NewTodo(n, text, false)]
      == map[Num(m) := a, Num(k) := b, Num(n) := NewTodo(n, text, false)];
  }

  lemma OnlyTodoTable(s: TableSpace)
    requires s.Keys == {TodoKey}
    ensures s == map[TodoKey := s[TodoKey]]
  {
  }

  lemma SetText(id: int, text: Value, text': Value, completed: bool)
    ensures NewTodo(id, text, completed)["text" := text'] == NewTodo(id, text', completed)
  {
  }

  lemma SetCompleted(id: int, text: Value, completed: bool, completed': bool)
    ensures NewTodo(id, text, completed)["completed" := Bool(completed')] == NewTodo(id, text, completed')
  {
  }

  // The reducer on lists of one or two rows, for any rows.

  lemma AddToNoRows(text: Value)
    ensures Todos(List([]), AddTodo(text)) == Ok(map[TodoKey := map[Num(0) := NewTodo(0, text, false)]])
  {
    AddToEmpty(text);
    OnNoRows(AddTodo(text));
  }

  /** Adding after a single row with id `m` gives the new row id
      `n == m + 1`. */
  lemma AddAfterRow(a: Row, m: nat, n: nat, text: Value)
    requires IdOf(a) == Num(m) && n == m + 1
    ensures Todos(List([a]), AddTodo(text))
      == Ok(map[TodoKey := map[Num(m) := a, Num(n) := NewTodo(n, text, false)]])
  {
    AddAfterOnly(a, m, n, text);
    OnOneRow(a, Num(m), AddTodo(text));
  }

  /** Adding after rows with ids `m` and `k < m` gives the new row id
      `n == m + 1`. */
  lemma AddAfterTwoRows(a: Row, b: Row, m: nat, k: nat, n: nat, text: Value)
    requires IdOf(a) == Num(m) && IdOf(b) == Num(k) && k < m && n == m + 1
    ensures Todos(List([a, b]), AddTodo(text))
      == Ok(map[TodoKey := map[Num(m) := a, Num(k) := b, Num(n) := NewTodo(n, text, false)]])
  {
    AddAfterPair(a, b, m, k, n, text);
    OnTwoRows(a, b, Num(m), Num(k), AddTodo(text));
  }

  lemma DeleteFromTwo(a: Row, b: Row, i: RowId, j: RowId)
    requires IdOf(a) == i && IdOf(b) == j && i != j
    ensures Todos(List([a, b]), DeleteTodo(i)) == Ok(map[TodoKey := map[j := b]])
    ensures Todos(List([a, b]), DeleteTodo(j)) == Ok(map[TodoKey := map[i := a]])
  {
    var t := map[i := a, j := b];
    RemoveFromTwo(a, b, i, j);
    DeleteFromOnly(t, i);
    assert Dispatch(map[TodoKey := t], DeleteTodo(i)) == Ok(map[TodoKey := map[j := b]]);
    OnTwoRows(a, b, i, j, DeleteTodo(i));
    DeleteFromOnly(t, j);
    assert Dispatch(map[TodoKey := t], DeleteTodo(j)) == Ok(map[TodoKey := map[i := a]]);
    OnTwoRows(a, b, i, j, DeleteTodo(j));
  }

  lemma EditInTwo(a: Row, b: Row, i: RowId, j: RowId, text: Value)
    requires IdOf(a) == i && IdOf(b) == j && i != j
    ensures Todos(List([a, b]), EditTodo(i, text)) == Ok(map[TodoKey := map[i := a["text" := text], j := b]])
  {
    var t := map[i := a, j := b];
    EditInOnly(t, i, text);
    assert t[i] == a;
    SetFirstOfTwo(a, b, i, j, a["text" := text]);
    assert Dispatch(map[TodoKey := t], EditTodo(i, text)) == Ok(map[TodoKey := map[i := a["text" := text], j := b]]);
    OnTwoRows(a, b, i, j, EditTodo(i, text));
  }

  lemma CompleteInTwo(a: Row, b: Row, i: RowId, j: RowId)
    requires IdOf(a) == i && IdOf(b) == j && i != j
    ensures Todos(List([a, b]), CompleteTodo(i))
      == Ok(map[TodoKey := map[i := a["completed" := Bool(!Truthy(Get(a, "completed")))], j := b]])
  {
    var t := map[i := a, j := b];
    var x := a["completed" := Bool(!Truthy(Get(a, "completed")))];
    CompleteInOnly(t, i);
    assert t[i] == a;
    SetFirstOfTwo(a, b, i, j, x);
    assert Dispatch(map[TodoKey := t], CompleteTodo(i)) == Ok(map[TodoKey := map[i := x, j := b]]);
    OnTwoRows(a, b, i, j, CompleteTodo(i));
  }

  lemma CompleteAllOnTwo(a: Row, b: Row, i: RowId, j: RowId)
    requires IdOf(a) == i && IdOf(b) == j && i != j
    ensures var flag := Bool(!(IsCompleted(a, i) && IsCompleted(b, j)));
      Todos(List([a, b]), CompleteAll) == Ok(map[TodoKey := map[i := a["completed" := flag], j := b["completed" := flag]]])
  {
    var t := map[i := a, j := b];
    var flag := Bool(!(IsCompleted(a, i) && IsCompleted(b, j)));
    AllCompletedOfTwo(a, b, i, j);
    assert t[i] == a && t[j] == b;
    CompleteAllOfTwo(t, i, j, a["completed" := flag], b["completed" := flag]);
    OnTwoRows(a, b, i, j, CompleteAll);
  }

  lemma ClearOnTwo(a: Row, b: Row, i: RowId, j: RowId)
    requires IdOf(a) == i && IdOf(b) == j && i != j
    requires IsCompleted(a, i) && !IsCompleted(b, j)
    ensures Todos(List([a, b]), ClearCompleted) == Ok(map[TodoKey := map[j := b]])
  {
    ClearOneOfTwo(map[i := a, j := b], i, j);
    OnTwoRows(a, b, i, j, ClearCompleted);
  }

  /** A snapshot is used as it is. */
  lemma OnSnapshot(s: TableSpace, action: Action)
    ensures Todos(Snapshot(s), action) == Dispatch(s, action)
  {
  }

  lemma NewTodoId(id: int, text: Value, completed: bool)
    ensures IdOf(NewTodo(id, text, completed)) == Num(id)
    ensures IsCompleted(NewTodo(id, text, completed), Num(id)) == completed
  {
  }

  const RunTests := NewTodo(1, Str("Run the tests"), false)
  const RunTestsDone := NewTodo(1, Str("Run the tests"), true)
  const UseReduxDone := NewTodo(0, Str("Use Redux"), true)
  const WriteTests := NewTodo(1, Str("Write tests"), false)

  /** With no state the reducer starts from one "Use Redux" todo. */
  lemma InitialStateExample()
    ensures Todos(Missing, Unrecognised) == Ok(map[TodoKey := map[Num(0) := UseRedux]])
  {
    UnrecognisedKeepsState(Missing);
  }

  /** Adding to an empty list gives the new todo id 0. */
  lemma AddToEmptyExample()
    ensures Todos(List([]), AddTodo(Str("Run the tests")))
      == Ok(map[TodoKey := map[Num(0) := NewTodo(0, Str("Run the tests"), false)]])
  {
    AddToNoRows(Str("Run the tests"));
  }

  /** Adding after the todo with id 0 gives the new todo id 1. */
  lemma AddAfterOneExample()
    ensures Todos(List([UseRedux]), AddTodo(Str("Run the tests")))
      == Ok(map[TodoKey := map[Num(0) := UseRedux, Num(1) := RunTests]])
  {
    NewTodoId(0, Str("Use Redux"), false);
    AddAfterRow(UseRedux, 0, 1, Str("Run the tests"));
  }

  /** Adding after todos 1 and 0 gives the new todo id 2. */
  lemma AddAfterTwoExample()
    ensures Todos(List([RunTests, UseRedux]), AddTodo(Str("Fix the tests")))
      == Ok(map[TodoKey := map[Num(1) := RunTests, Num(0) := UseRedux,
                              Num(2) := NewTodo(2, Str("Fix the tests"), false)]])
  {
    NewTodoId(1, Str("Run the tests"), false);
    NewTodoId(0, Str("Use Redux"), false);
    AddAfterTwoRows(RunTests, UseRedux, 1, 0, 2, Str("Fix the tests"));
  }

  lemma DeleteExample()
    ensures Todos(List([RunTests, UseRedux]), DeleteTodo(Num(1)))
      == Ok(map[TodoKey := map[Num(0) := UseRedux]])
  {
    NewTodoId(1, Str("Run the tests"), false);
    NewTodoId(0, Str("Use Redux"), false);
    DeleteFromTwo(RunTests, UseRedux, Num(1), Num(0));
  }

  lemma EditExample()
    ensures Todos(List([RunTests, UseRedux]), EditTodo(Num(1), Str("Fix the tests")))
      == Ok(map[TodoKey := map[Num(1) := NewTodo(1, Str("Fix the tests"), false), Num(0) := UseRedux]])
  {
    NewTodoId(1, Str("Run the tests"), false);
    NewTodoId(0, Str("Use Redux"), false);
    SetText(1, Str("Run the tests"), Str("Fix the tests"), false);
    EditInTwo(RunTests, UseRedux, Num(1), Num(0), Str("Fix the tests"));
  }

  lemma CompleteExample()
    ensures Todos(List([RunTests, UseRedux]), CompleteTodo(Num(1)))
      == Ok(map[TodoKey := map[Num(1) := RunTestsDone, Num(0) := UseRedux]])
  {
    NewTodoId(1, Str("Run the tests"), false);
    NewTodoId(0, Str("Use Redux"), false);
    SetCompleted(1, Str("Run the tests"), false, true);
    CompleteInTwo(RunTests, UseRedux, Num(1), Num(0));
  }

  /** When some todo is active, `COMPLETE_ALL` marks every todo. */
  lemma CompleteAllMarksExample()
    ensures Todos(List([RunTestsDone, UseRedux]), CompleteAll)
      == Ok(map[TodoKey := map[Num(1) := RunTestsDone, Num(0) := UseReduxDone]])
  {
    NewTodoId(1, Str("Run the tests"), true);
    NewTodoId(0, Str("Use Redux"), false);
    SetCompleted(1, Str("Run the tests"), true, true);
    SetCompleted(0, Str("Use Redux"), false, true);
    CompleteAllOnTwo(RunTestsDone, UseRedux, Num(1), Num(0));
  }

  /** When every todo is completed, `COMPLETE_ALL` unmarks them all. */
  lemma CompleteAllUnmarksExample()
    ensures Todos(List([RunTestsDone, UseReduxDone]), CompleteAll)
      == Ok(map[TodoKey := map[Num(1) := RunTests, Num(0) := UseRedux]])
  {
    NewTodoId(1, Str("Run the tests"), true);
    NewTodoId(0, Str("Use Redux"), true);
    SetCompleted(1, Str("Run the tests"), true, false);
    SetCompleted(0, Str("Use Redux"), true, false);
    CompleteAllOnTwo(RunTestsDone, UseReduxDone, Num(1), Num(0));
  }

  lemma ClearCompletedExample()
    ensures Todos(List([RunTestsDone, UseRedux]), ClearCompleted)
      == Ok(map[TodoKey := map[Num(0) := UseRedux]])
  {
    NewTodoId(1, Str("Run the tests"), true);
    NewTodoId(0, Str("Use Redux"), false);
    ClearOnTwo(RunTestsDone, UseRedux, Num(1), Num(0));
  }

  /** Completing todo 0, clearing completed todos and adding yields id 2
      beside the surviving todo 1: no live id is issued twice. */
  lemma NoDuplicateAfterClearExample()
    ensures Todos(List([UseRedux, WriteTests]), CompleteTodo(Num(0)))
      == Ok(map[TodoKey := map[Num(0) := UseReduxDone, Num(1) := WriteTests]])
    ensures Todos(Snapshot(map[TodoKey := map[Num(0) := UseReduxDone, Num(1) := WriteTests]]), ClearCompleted)
      == Ok(map[TodoKey := map[Num(1) := WriteTests]])
    ensures Todos(Snapshot(map[TodoKey := map[Num(1) := WriteTests]]), AddTodo(Str("Write more tests")))
      == Ok(map[TodoKey := map[Num(1) := WriteTests, Num(2) := NewTodo(2, Str("Write more tests"), false)]])
  {
    NewTodoId(0, Str("Use Redux"), false);
    NewTodoId(0, Str("Use Redux"), true);
    NewTodoId(1, Str("Write tests"), false);
    SetCompleted(0, Str("Use Redux"), false, true);
    CompleteInTwo(UseRedux, WriteTests, Num(0), Num(1));
    assert UseReduxDone == UseRedux["completed" := Bool(!Truthy(Get(UseRedux, "completed")))];
    OnSnapshot(map[TodoKey := map[Num(0) := UseReduxDone, Num(1) := WriteTests]], ClearCompleted);
    ClearOneOfTwo(map[Num(0) := UseReduxDone, Num(1) := WriteTests], Num(0), Num(1));
    OnSnapshot(map[TodoKey := map[Num(1) := WriteTests]], AddTodo(Str("Write more tests")));
    AddAfterOnly(WriteTests, 1, 2, Str("Write more tests"));
  }

  /** Ids are one more than the largest live id, so the id of a deleted
      todo with the largest id is issued again. */
  lemma DeletedIdIsReissuedExample()
    ensures Todos(List([UseRedux, WriteTests]), DeleteTodo(Num(1)))
      == Ok(map[TodoKey := map[Num(0) := UseRedux]])
    ensures Todos(Snapshot(map[TodoKey := map[Num(0) := UseRedux]]), AddTodo(Str("Write more tests")))
      == Ok(map[TodoKey := map[Num(0) := UseRedux, Num(1) := NewTodo(1, Str("Write more tests"), false)]])
  {
    NewTodoId(0, Str("Use Redux"), false);
    NewTodoId(1, Str("Write tests"), false);
    OnSnapshot(map[TodoKey := map[Num(0) := UseRedux]], AddTodo(Str("Write more tests")));
    AddAfterOnly(UseRedux, 0, 1, Str("Write more tests"));
    assert Todos(Snapshot(map[TodoKey := map[Num(0) := UseRedux]]), AddTodo(Str("Write more tests")))
      == Ok(map[TodoKey := map[Num(0) := UseRedux, Num(1) := NewTodo(1, Str("Write more tests"), false)]]);
    DeleteFromTwo(UseRedux, WriteTests, Num(0), Num(1));
  }
}
