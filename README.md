# A transaction-queue table store and the TodoMVC reducer built on it

This project models a small in-memory database.

- A **table-space** maps a table name to a table. A **table** maps a row id to a row. A **row** is a plain object, modelled as a map from field names to values. A value is an integer, a string, a boolean or `undefined`; JavaScript's `null`, `NaN`, fractional numbers and nested objects are not represented.
- A **schema** lists collections. `initial()` gives one empty table per collection.
- A **session** (`Db`) wraps one committed snapshot. It stages mutations as steps in an `operations` list: `update`, `updateAll`, `delete` and `deleteWhere`. `run()` folds the steps over the snapshot in queue order and commits the result.
- `db.after` is a façade. Each of its calls queues exactly one step and runs the session at once. Its `insert` is `update` at the row's own `id`.

On top of the store sits the TodoMVC reducer `todos(state, action)`. It works on one `Todo` table whose rows have `id`, `text` and `completed`. It starts either from the default state (one "Use Redux" todo) or from a list of rows converted by `fromArray`. It handles six actions: add, delete, edit, toggle one, toggle all and clear completed.

The project has four modules:

- `JsObjects` (`jsobjects.dfy`): values, rows, field reads, truthiness, and the shallow merge `Object.assign({}, v, patch)`.
- `Store` (`store.dfy`): the pure part of `Schema.ts`. This covers errors and `mapFallibly`, collections and table names, `Schema.initial`, each queued step as a function from snapshot to snapshot, the fold that runs a queue, and the relation stubs.
- `Session` (`session.dfy`): the stateful part of `Schema.ts`. The `Db` class has a `state` field and an `operations` field and is proved against `RunAll`. The `SingleOperationReturningState` class is the façade.
- `TodoMvc` (`todo_mvc.dfy`): the reducer, `getInitial` and `fromArray`. It also holds the lemmas for every action and for every expected result in the reducer's examples. `TodosOnSession` runs the reducer as the code does, on `Db` sessions. `getInitial` inserts through a façade, and `fromArray` queues one upsert per row and runs. The `switch` goes through the façade of a session over the state, with the `reduce` and `every` loops over the list `db.all` returns. It is proved to give the same result as `Todos`.

Errors are values. JavaScript raises in two places, and the relation stub returns an error instead of a result; each of the three becomes `Fail(...)`:

- reading a table the snapshot lacks (`s.get(key)` is `undefined`) raises, and gives `Fail(NoSuchTable(key))`;
- an updater that reads a field of an absent row raises, and gives `Fail(JsError(...))`;
- the relation stub returns an `Error` value rather than raising, and it also becomes `Fail(JsError(...))`.

A failing step makes the whole run fail. The committed snapshot then stays as it was, because the source assigns `this.state` only after the loop.

## Model

| member | source | states |
|---|---|---|
| Store.MapFallibly | Schema.ts:8-10 | the result fails exactly when the input fails, with the same error; otherwise it is the function applied to the value |
| Store.ToTableName | Schema.ts:26-28 | no contract of its own: a collection's name; see Store.GetTableKey and Store.Schema.Initial |
| Store.GetTableKey | Schema.ts:26-32 | the key a step uses for a collection is its table name, the same name `initial()` uses |
| Store.Names | Schema.ts:46-49 | the table names of a list of collections: every collection's name is in it |
| Store.NamesAreDeclared | Schema.ts:46-49 | every table name of the list is the name of some collection in it, so `initial()` creates no other table |
| Store.InitialFrom | Schema.ts:47-49 | the left fold that sets each collection's name to an empty table: keys are the start keys plus the names, every name maps to an empty table, and other keys keep their tables |
| Store.Schema.Initial | Schema.ts:46-50 | the initial table-space has exactly the declared collections' names as keys, each mapped to an empty table |
| Store.EmptyTable | Schema.ts:22-24 | a new table has no rows |
| Store.TableKeysMatchInitial | Schema.ts:26-32 | the table a step addresses for a declared collection exists in the initial table-space and is empty |
| Store.UpdateRow | Schema.ts:123-131 | the row at `id` becomes the old row (or nothing) merged with the patch, or with the updater's result, and patch fields win; every other row and table is unchanged; a missing table is created; an updater's error fails the step |
| Store.UpdateAllRows | Schema.ts:134-148 | fails with `NoSuchTable` exactly when the table is missing; otherwise the id set is unchanged, each row is its old value merged with the patch, and other tables are unchanged |
| Store.DeleteRow | Schema.ts:153-158 | never fails; removes only the row at `id`; an absent table or id leaves the snapshot unchanged |
| Store.DeleteRowsWhere | Schema.ts:160-166 | fails with `NoSuchTable` exactly when the table is missing; otherwise a row survives exactly when the predicate is false for it, survivors are unchanged, and other tables are unchanged |
| Store.TableOrEmpty | Schema.ts:128 | no contract of its own: the table at a key, or an empty one when the key is missing; see Store.UpdateRow |
| Store.PatchFor | Schema.ts:125-127 | no contract of its own: the patch an update merges, the plain patch or the updater's result on the stored row; see Store.UpdateRow and Store.UpdateAbsentIsUpsert |
| Store.UpdateOp | Schema.ts:124-129 | no contract of its own: the queued update step as a function of the snapshot, which is Store.UpdateRow; see Store.RunOne |
| Store.UpdateAllOp | Schema.ts:136-148 | no contract of its own: the queued `updateAll` step, which is Store.UpdateAllRows; see Store.RunOne |
| Store.DeleteOp | Schema.ts:154-156 | no contract of its own: the queued delete step, which is Store.DeleteRow; see Store.RunOne |
| Store.DeleteWhereOp | Schema.ts:161-164 | no contract of its own: the queued `deleteWhere` step, which is Store.DeleteRowsWhere; see Store.RunOne |
| Store.InsertOp | Schema.ts:75-77 | no contract of its own: the update step at the row's own `id` with the row as patch; see Store.InsertOverExistingMerges and Session.SingleOperationReturningState.Insert |
| Store.Then | Schema.ts:170-174 | no contract of its own: one step of the run, which stops at the first error; see Store.RunAppend and Store.RunAfterFailure |
| Store.RunAll | Schema.ts:168-176 | no contract of its own: the fold of the queue over the snapshot; see Store.RunNothing, Store.RunOne, Store.RunAppend, Store.RunAfterFailure and Session.Db.Run |
| Store.RunNothing | Schema.ts:168-176 | running an empty queue returns the snapshot unchanged |
| Store.RunOne | Schema.ts:168-176 | running a one-step queue is applying that step |
| Store.RunAppend | Schema.ts:168-176 | running `a + b` is running `a` and then running `b` on its result; a failure in `a` stops the run |
| Store.RunAfterFailure | Schema.ts:168-176 | once a prefix of the queue fails, no later step changes the outcome |
| Store.UpdateAbsentIsUpsert | Schema.ts:123-128 | a plain patch at an absent id stores the patch itself as the new row |
| Store.InsertOverExistingMerges | Schema.ts:75-77 | inserting a row at an id that is present merges the row over the stored one |
| Store.UpdateAllIdempotent | Schema.ts:134-148 | applying the same `updateAll` patch twice equals applying it once |
| Store.DeleteWhereIdempotent | Schema.ts:160-166 | deleting by the same predicate twice equals deleting once |
| Store.UpdateDeleteDoNotCommute | Schema.ts:123-158 | update-then-delete leaves the id absent, while delete-then-update stores the patch, so queue order matters |
| Store.RelationChain.To | Schema.ts:194-196 | relating always yields an error value |
| Store.RelationQuery.All | Schema.ts:216-218 | the related rows are always the empty list |
| Session.Db.constructor | Schema.ts:52-54 | `schema.db(s)`: a session over `s` with an empty queue |
| Session.Db.After | Schema.ts:113-115 | returns a fresh façade over this session |
| Session.Db.All | Schema.ts:117-121 | fails with `NoSuchTable` when the committed snapshot lacks the table; otherwise the list enumerates the committed table, with every id exactly once and each row at its id; queued steps are not seen |
| Session.Db.Queue | Schema.ts:178-180 | appends exactly one step and leaves the snapshot untouched |
| Session.Db.Update | Schema.ts:123-131 | queues the update step, leaves the snapshot untouched and returns the same session |
| Session.Db.UpdateAll | Schema.ts:134-151 | queues the `updateAll` step, leaves the snapshot untouched and returns the same session |
| Session.Db.Delete | Schema.ts:153-158 | queues the delete step, leaves the snapshot untouched and returns the same session |
| Session.Db.DeleteWhere | Schema.ts:160-166 | queues the `deleteWhere` step, leaves the snapshot untouched and returns the same session |
| Session.Db.Run | Schema.ts:168-176 | returns the fold of the queue over the snapshot, in queue order; commits the result when there is no error; keeps the queue |
| Session.SingleOperationReturningState.constructor | Schema.ts:60-65 | a façade over the given session |
| Session.SingleOperationReturningState.Update | Schema.ts:67-69 | queues exactly one update step and returns the run of the whole queue over the old snapshot |
| Session.SingleOperationReturningState.UpdateAll | Schema.ts:71-73 | queues exactly one `updateAll` step and returns the run |
| Session.SingleOperationReturningState.Insert | Schema.ts:75-77 | queues exactly `update(table, row.id, row)` and returns the run |
| Session.SingleOperationReturningState.Delete | Schema.ts:79-81 | queues exactly one delete step and returns the run |
| Session.SingleOperationReturningState.DeleteWhere | Schema.ts:84-86 | queues exactly one `deleteWhere` step and returns the run |
| Session.RunTwiceReapplies | Schema.ts:168-176 | a second `run()` applies the queued step again to the committed result, because the queue is not cleared |
| JsObjects.Assign | Schema.ts:126-127 | `Object.assign({}, v, patch)`: the keys are the union, patch fields win, and the old row's other fields are kept |
| JsObjects.AssignIdempotent | Schema.ts:126-127 | merging the same patch twice equals merging it once |
| JsObjects.AssignOverUndefined | Schema.ts:126-127 | merging over an absent row copies the patch |
| TodoMvc.NewTodo | todoMvc.test.ts:40-44 | no contract of its own: the row `{id, text, completed}`; see TodoMvc.AddTodoAddsRow |
| TodoMvc.GetInitial | todoMvc.test.ts:19-22 | the default state is the `Todo` table holding exactly `{id: 0, text: "Use Redux", completed: false}` at id 0 |
| TodoMvc.AppInitial | todoMvc.test.ts:11-15 | the application's initial table-space is one empty `Todo` table |
| TodoMvc.UpsertIntoOnly | todoMvc.test.ts:19-27 | upserting a row into a table-space that holds only the `Todo` table merges the row over whatever that table stores at the id and changes nothing else |
| TodoMvc.FromArrayOps | todoMvc.test.ts:24-27 | one queued upsert per row, in list order: as many steps as rows; see TodoMvc.FromArrayIsTableOf for what they do |
| TodoMvc.FromArray | todoMvc.test.ts:24-27 | no contract of its own: the run of those upserts over the initial table-space; see TodoMvc.FromArrayIsTableOf, TodoMvc.TableOfKeys and TodoMvc.TableOfDistinct |
| TodoMvc.FromArrayIsTableOf | todoMvc.test.ts:24-27 | running the queued upserts never fails and yields only the `Todo` table, equal to the fold that merges each row, in list order, over what is stored at its id |
| TodoMvc.TableOfKeys | todoMvc.test.ts:24-27 | the converted table is keyed by exactly the rows' ids |
| TodoMvc.TableOfLastWins | todoMvc.test.ts:24-27 | the last row listed for an id has all its fields in the stored row |
| TodoMvc.TableOfDistinct | todoMvc.test.ts:24-27 | with distinct ids every row is stored exactly as given |
| TodoMvc.TableOfIsWellKeyed | todoMvc.test.ts:24-27 | folding a list whose every id is a number stores every row under its own id, even when ids repeat, because a later row merges over an earlier one and brings its own `id` |
| TodoMvc.FromArrayIsWellKeyed | todoMvc.test.ts:24-27 | a list whose every id is a number converts without failing to a table in which every row is stored under its own id |
| TodoMvc.MaxOf | todoMvc.test.ts:39 | the `reduce` with `Math.max` from the floor: at least the floor, at least every element, and equal to the floor or to an element |
| TodoMvc.NextId | todoMvc.test.ts:39 | no contract of its own: one more than the largest numeric id, from the floor -1; see TodoMvc.NextIdIsFresh, TodoMvc.NextIdOfEmpty, TodoMvc.NextIdAboveLargest and TodoMvc.MaxIdOf |
| TodoMvc.MaxIdOf | todoMvc.test.ts:39 | the loop that folds `Math.max` over a list of rows from -1 returns the maximum of the list's numeric ids with floor -1 |
| TodoMvc.MaxOfUnique | todoMvc.test.ts:39 | a value at least the floor, at least every element, and equal to the floor or to an element is the maximum |
| TodoMvc.EnumeratedIds | todoMvc.test.ts:39 | the list `db.all` returns carries exactly the table's numeric ids, so the fold over it gives the next id whatever the list's order |
| TodoMvc.NextIdIsFresh | todoMvc.test.ts:39 | the id `ADD_TODO` assigns is not negative, exceeds every numeric id present, and is no key of a well-keyed table |
| TodoMvc.NextIdOfEmpty | todoMvc.test.ts:39 | on an empty table the next id is 0 |
| TodoMvc.NextIdAboveLargest | todoMvc.test.ts:39 | on a well-keyed table whose largest id is `m` the next id is `m + 1` |
| TodoMvc.ToggleCompleted | todoMvc.test.ts:53 | no contract of its own: the updater that negates the stored row's `completed` and fails on an absent row; see TodoMvc.CompleteTodoToggles and TodoMvc.DispatchFailsExactly |
| TodoMvc.AllCompleted | todoMvc.test.ts:56 | no contract of its own: every row of the table is completed; see TodoMvc.EveryCompleted and TodoMvc.EnumeratedAllCompleted |
| TodoMvc.EveryCompleted | todoMvc.test.ts:56 | the loop `every(t => t.completed)` returns true exactly when every row of the list is completed |
| TodoMvc.EnumeratedAllCompleted | todoMvc.test.ts:56 | every row of the list `db.all` returns is completed exactly when every row of the table is |
| TodoMvc.IsCompleted | todoMvc.test.ts:60 | no contract of its own: the predicate `t => t.completed`; see TodoMvc.ClearCompletedKeepsActive |
| TodoMvc.StateOf | todoMvc.test.ts:29-32 | no contract of its own: the default state, the converted list, or the snapshot as given; see TodoMvc.GetInitial and TodoMvc.FromArrayIsTableOf |
| TodoMvc.Dispatch | todoMvc.test.ts:34-64 | no contract of its own: each action as one queued step run on the state; see the action lemmas below and TodoMvc.DispatchOnSession |
| TodoMvc.Todos | todoMvc.test.ts:29-65 | no contract of its own: `Dispatch` on the converted state; see TodoMvc.TodosOnSession |
| TodoMvc.AddIsOneInsert | todoMvc.test.ts:38-44 | unfolds `Dispatch`'s `ADD_TODO` branch: on a state with the table it is one insert of the new todo under the next id; it serves TodoMvc.AddOnSession |
| TodoMvc.AddOnSession | todoMvc.test.ts:38-44 | reading the committed table, folding its ids and inserting through the façade gives the reducer's result for `ADD_TODO` |
| TodoMvc.CompleteAllIsOneUpdate | todoMvc.test.ts:55-57 | unfolds `Dispatch`'s `COMPLETE_ALL` branch: on a state with the table it is one `updateAll` of `completed` to "not all were completed"; it serves TodoMvc.CompleteAllOnSession |
| TodoMvc.CompleteAllOnSession | todoMvc.test.ts:55-57 | reading the committed table, testing every row and updating all through the façade gives the reducer's result for `COMPLETE_ALL` |
| TodoMvc.DispatchOnSession | todoMvc.test.ts:34-64 | the `switch` run on a session opened over the state, each action through the façade, returns exactly the reducer's result |
| TodoMvc.GetInitialOnSession | todoMvc.test.ts:19-22 | inserting the "Use Redux" todo through the façade of a session over `initial()` returns exactly the default state |
| TodoMvc.FromArrayOnSession | todoMvc.test.ts:24-27 | the loop that queues one upsert per row on a session over `initial()` and then runs it returns exactly the conversion `FromArray` |
| TodoMvc.InitialStateOnSession | todoMvc.test.ts:29 | the default state computed on a session is exactly the state the reducer starts from without one |
| TodoMvc.ListStateOnSession | todoMvc.test.ts:30-32 | a list converted on a session is exactly the state the reducer starts from for that list |
| TodoMvc.StateOnSession | todoMvc.test.ts:29-32 | the state computed on sessions is exactly the converted state the reducer starts from |
| TodoMvc.TodosOnSession | todoMvc.test.ts:29-65 | `todos(state, action)` with the state converted on sessions and the `switch` run on a session returns exactly the reducer's result |
| TodoMvc.AddTodoAddsRow | todoMvc.test.ts:38-44 | `ADD_TODO` adds the key `Num(n)` for the next id `n` when it is absent, or merges the new todo into the row stored there; either way that row then has id `n`, the action's text and `completed` false, and every other row and table is unchanged |
| TodoMvc.AddTodoOnWellKeyed | todoMvc.test.ts:38-44 | on a well-keyed table the result is exactly the table plus the new todo under a fresh key, and it stays well-keyed |
| TodoMvc.DeleteTodoRemoves | todoMvc.test.ts:46-47 | `DELETE_TODO` removes exactly the row with the action's id and never fails |
| TodoMvc.EditTodoChangesText | todoMvc.test.ts:49-50 | `EDIT_TODO` on a present row changes only its `text` |
| TodoMvc.EditAbsentTodoInsertsTextOnly | todoMvc.test.ts:49-50 | `EDIT_TODO` on an absent id stores a row that holds only `text` |
| TodoMvc.EditAbsentKeepsNextId | todoMvc.test.ts:39-50 | the row an edit of an absent id stores has no numeric `id`, so the model's next id is unchanged by it |
| TodoMvc.EditAbsentBreaksKeysAreIds | todoMvc.test.ts:49-50 | that stored row has no `id`, so the table stops being well-keyed |
| TodoMvc.CompleteTodoToggles | todoMvc.test.ts:52-53 | `COMPLETE_TODO` negates `completed` of the target row only |
| TodoMvc.CompleteAllSetsEvery | todoMvc.test.ts:55-57 | `COMPLETE_ALL` keeps the id set and sets every row's `completed` to the negation of "all were completed" |
| TodoMvc.CompleteAllToggles | todoMvc.test.ts:55-57 | on a non-empty table, all rows are completed afterwards exactly when they were not all completed before |
| TodoMvc.ClearCompletedKeepsActive | todoMvc.test.ts:59-60 | `CLEAR_COMPLETED` keeps a row exactly when it is not completed, and leaves the kept rows unchanged |
| TodoMvc.UnrecognisedKeepsState | todoMvc.test.ts:62-63 | an unknown action returns the (converted) state unchanged |
| TodoMvc.DispatchFailsExactly | todoMvc.test.ts:29-65 | the reducer raises exactly when it reads or filters a missing `Todo` table, or when `COMPLETE_TODO` targets an absent row |
| TodoMvc.DispatchKeepsKeysAreIds | todoMvc.test.ts:29-65 | every successful action except an edit of an absent id keeps every row stored under its own id |
| TodoMvc.CompleteAllKeepsKeysAreIds | todoMvc.test.ts:55-57 | `COMPLETE_ALL` keeps every row under its own id |
| TodoMvc.SetFieldKeepsKeysAreIds | todoMvc.test.ts:49-53 | changing a field other than `id` in one row keeps the table well-keyed |
| TodoMvc.AddToNoRows | todoMvc.test.ts:38-44 | adding to an empty list stores the new todo, not completed, at id 0 |
| TodoMvc.AddAfterRow | todoMvc.test.ts:38-44 | adding after a single todo with id `m` stores the new todo at `m + 1` and keeps the old one |
| TodoMvc.AddAfterTwoRows | todoMvc.test.ts:38-44 | adding after todos with ids `m` and `k < m` stores the new todo at `m + 1` and keeps both |
| TodoMvc.DeleteFromTwo | todoMvc.test.ts:46-47 | deleting either of two todos with different ids leaves exactly the other one |
| TodoMvc.EditInTwo | todoMvc.test.ts:49-50 | editing one of two todos replaces its `text` and keeps the other todo |
| TodoMvc.CompleteInTwo | todoMvc.test.ts:52-53 | toggling one of two todos negates its `completed` and keeps the other todo |
| TodoMvc.CompleteAllOnTwo | todoMvc.test.ts:55-57 | `COMPLETE_ALL` on two todos sets both `completed` fields to "not both were completed" |
| TodoMvc.ClearOnTwo | todoMvc.test.ts:59-60 | clearing two todos of which only the second is active leaves exactly the second |
| TodoMvc.InitialStateExample | todoMvc.test.ts:73-83 | with no state, the result is the single "Use Redux" todo at id 0 |
| TodoMvc.AddToEmptyExample | todoMvc.test.ts:86-98 | adding to `[]` stores "Run the tests" at id 0 |
| TodoMvc.AddAfterOneExample | todoMvc.test.ts:99-121 | adding after todo 0 stores the new todo at id 1 |
| TodoMvc.AddAfterTwoExample | todoMvc.test.ts:122-151 | adding after todos 1 and 0 stores "Fix the tests" at id 2 |
| TodoMvc.DeleteExample | todoMvc.test.ts:154-177 | deleting id 1 leaves only todo 0 |
| TodoMvc.EditExample | todoMvc.test.ts:179-207 | editing id 1 changes only its text |
| TodoMvc.CompleteExample | todoMvc.test.ts:209-236 | completing id 1 marks only that todo |
| TodoMvc.CompleteAllMarksExample | todoMvc.test.ts:239-265 | with one todo active, `COMPLETE_ALL` marks both |
| TodoMvc.CompleteAllUnmarksExample | todoMvc.test.ts:266-290 | with both completed, `COMPLETE_ALL` unmarks both |
| TodoMvc.ClearCompletedExample | todoMvc.test.ts:293-315 | clearing removes the completed todo 1 and keeps todo 0 |
| TodoMvc.NoDuplicateAfterClearExample | todoMvc.test.ts:317-351 | completing todo 0 marks it, clearing then leaves only todo 1, and adding then stores the new todo at id 2 beside it |
| TodoMvc.DeletedIdIsReissuedExample | todoMvc.test.ts:39 | deleting todo 1 leaves only todo 0, and the next add issues id 1 again |

## Left out

- Immutable.js internals, structural sharing and iteration order. Tables are Dafny maps. `Db.all` promises only that its list enumerates the table (each id once), not in which order.
- `Store.UpdateAllRows`: the function branch of `updateAll` (Schema.ts:137) is not modelled. It calls `updateIn` with a table-space path on a table and does not merge, and nothing uses it. Only the patch branch is modelled.
- `TodoMvc.NextId`: the source's `Math.max` converts each id to a number. Numeric strings and booleans take part (`"3"` counts as 3, `true` as 1, `""` and `false` as 0). Other values, such as `undefined` or `"abc"`, give `NaN`. The model has no such conversion and no `NaN`: only `Num` ids take part in the maximum, and every other id is skipped. Such rows can be reached. `EDIT_TODO` of an absent id stores a row with no `id` (`EditAbsentTodoInsertsTextOnly`), and a `StateArg.List` row may carry any id, which `fromArray` stores as given. From `[{id: "3", ...}]` the source issues id 4, where the model issues 0. After a row whose id converts to `NaN`, the source's `ADD_TODO` stores `{id: NaN}` under the key `NaN`, and every later add merges into that one row. The model issues one more than the largest `Num` id (`EditAbsentKeepsNextId`).
- `TodoMvc.NextIdIsFresh`: states freshness over `Num` ids only. On a table holding a row whose id is not a `Num`, the source's next id is the converted maximum plus one or `NaN`, as described for `TodoMvc.NextId`, while the model's is the `Num` maximum plus one.
- `TodoMvc.AddTodoAddsRow`: on a table holding a row whose id is not a `Num`, it describes the model's add, not the source's. Even in the model an add does not always create a row: it adds the key `Num(n)` when that key is absent, or merges the new todo into the row stored there (a row that an edit of an absent id stored).
- `TodoMvc.MaxIdOf`: the loop skips every id that is not a `Num`, where the source's `Math.max` converts it as described for `TodoMvc.NextId`. It agrees with the source when every id is a `Num`.
- Class reflection (`ClassOf`, `x.name`, `new Todo(...)`) is reduced to a collection holding its name and to rows as field maps.
- `SingleOperationOverDb` (Schema.ts:92-100) is an interface without an implementation, so there is nothing to model.
- The Todo row datatype is a field map, so a class instance and a plain object with the same fields are the same row.
- JavaScript numbers are unbounded integers here. No arithmetic in the core goes near the safe-integer limit.
- The `typeof state.length === 'number'` test (todoMvc.test.ts:30-31) is modelled as a separate list entry point, `StateArg.List`, next to `Missing` and `Snapshot`.
- issuesTest.ts, relations.test.ts, builder.ts and manual-typings.d.ts are not part of this model. The first two are scratch files that do not compile. The other two are one-line constructor wrappers and type declarations.
- `prepareState` (todoMvc.test.ts:354-356) sorts rows by id only to compare them. The examples compare the `Todo` table as a map instead.

Five behaviours of the code a reader may not expect; the model follows the code:

- `update` of an absent row is an upsert. It creates the row, and even the table, rather than failing.
- `insert` at an id that is present merges the new row over the stored one rather than replacing it, because it is `update` with the row as a patch (`InsertOverExistingMerges`).
- The queue is never cleared after `run()`, so a second run applies every step again.
- Deleted ids can be reissued: the next id is one more than the largest id still present (`DeletedIdIsReissuedExample`).
- `EDIT_TODO` on an absent id stores a row that has only a `text` field (`EditAbsentTodoInsertsTextOnly`).
