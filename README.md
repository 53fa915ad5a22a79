# To-do list data source, modelled in Dafny

This project models the local list of to-do items kept by the to-do table
screen of the iOS to-do tutorial app (`TodoTableViewController`). The list is
the `todoItems` array. The screen changes it in place in five places and
reads its length in a sixth:

- the initial `find`, which replaces it wholesale;
- the add dialog, which appends a new unchecked item optimistically and calls
  `removeLast()` if `insertOne` fails;
- the leading swipe action, which reads a copy of a row's item and later
  writes it back with its `checked` flag flipped;
- the delete commit, which calls `remove(at: row)` once `deleteOne` succeeds;
- `didReceive(event:)`, which merges watch events: a full document is upserted
  by identifier (first match replaced in place, otherwise appended), and a
  delete removes every item with the document key's identifier;
- `numberOfRowsInSection`, which reports the list's length.

`todo_items.dfy` (module `TodoItems`) holds the values: `TodoItem`, `ChangeEvent`,
and an opaque `ObjectId`. It also holds the functions that say what each
operation computes on a `seq<TodoItem>` (`FirstIndexOf`, `Upserted`,
`RemovedAll`, `RemovedAt`, `SwipeWritten`, `WithoutLast`, `Merged`). Its
lemmas cover idempotence, unique identifiers, order preservation, and how the
operations compose.

`todo_table.dfy` (module `TodoTable`) holds the class
`TodoTableViewController`, whose field `todoItems: seq<TodoItem>` the
methods reassign. Each method that changes the list is proved against
those functions or directly against its inputs. The methods that only read (`NumberOfRows`,
`LeadingSwipeAction`, `CommitEditing`) state directly what they return.
The `firstIndex(where:)` and `removeAll(where:)` scans are loops with
invariants.

Each asynchronous step is split at the point where the source splits it.
The swipe toggle reads the row's item at line 126 and writes it back at
line 130, and the delete reads the row at line 144 and removes it at line 150.
Other handlers may run between those two steps. So each half is its own method,
and lemmas state both what happens when nothing intervenes and what happens
when something does:

- a stale toggle write undoes an intervening update of that document;
- a stale toggle write after a delete event for an earlier row overwrites
  the next item, which disappears, and the toggled identifier then occurs
  twice;
- the swipe handler also flips the action's captured copy, so invoking the
  same action again writes the original copy back;
- a delete event that arrives before the `deleteOne` completion makes
  `remove(at: row)` also remove the next item;
- for the last row, the same order leaves the list one shorter, so
  `remove(at: row)` is out of range and traps;
- a delete event for any item (or a delete completion for another row)
  between the swipe read of the last row and the write leaves the list one
  shorter, so the write at line 130 is out of range and traps;
- `removeLast()` after another client's item was appended removes that item
  and keeps the failed one.

The model states the traps as preconditions. `InsertCompleted` requires a
non-empty list on failure, `DeleteCompleted` requires the row to be in range
on success, and `SwipeActionHandler` requires the row to be in range. All
three can be violated by reachable orders:

- the initial `find` result (line 28) can arrive after an optimistic add and
  replace the list, possibly with an empty one;
- delete events can empty the list before the insert fails;
- the two last-row cases above, for the delete completion and the swipe
  write.

The code works by position in three places:

- Rollback of a failed add is `removeLast()`, by position.
  `RollbackAfterOwnEchoStillRemoves` shows that an echoed upsert of the same
  document does not protect the item.
- The toggle is addressed by row and has no "not found" result. A row out of
  range traps, so the methods require the row to be in range.
- The confirmed delete is `remove(at: row)`. `RemovedAtIsRemovedAllOfItsId`
  shows that it agrees with removing by identifier when identifiers are
  unique and nothing has intervened.

The code does not enforce unique identifiers. The model states them as
`UniqueIds()` and proves that the load (of unique documents), the insert
completion, the delete completion and `didReceive(event:)` keep them. The
add keeps them when the new identifier is fresh. The swipe write keeps them
when the row still holds the read copy's identifier.

## Model

| member | source | states |
|---|---|---|
| TodoItems.FirstIndexOf | Todo/Todo/TodoTableViewController.swift:190 | the result is a position holding the identifier with no earlier position holding it, and it is None exactly when no item has the identifier |
| TodoItems.FirstIndexOfIsFirst | Todo/Todo/TodoTableViewController.swift:190 | the first position holding the identifier is the one the search reports |
| TodoItems.Upserted | Todo/Todo/TodoTableViewController.swift:190-196 | after the upsert the document is in the list; the length is unchanged when the identifier was present and grows by one otherwise |
| TodoItems.UpsertReplacesFirstMatch | Todo/Todo/TodoTableViewController.swift:190-192 | when the identifier first occurs at position i, the upsert writes the document at i and leaves the length and every other position unchanged |
| TodoItems.UpsertAppendsWhenAbsent | Todo/Todo/TodoTableViewController.swift:193-196 | when the identifier is absent, the document is appended at the end and the existing prefix is unchanged |
| TodoItems.UpsertIdempotent | Todo/Todo/TodoTableViewController.swift:186-196 | applying the same upsert twice gives the same list as applying it once |
| TodoItems.UpsertKeepsIdsUnique | Todo/Todo/TodoTableViewController.swift:186-196 | a list without duplicate identifiers has none after an upsert |
| TodoItems.RemovedAll | Todo/Todo/TodoTableViewController.swift:206 | no item with the identifier survives; every survivor was in the list; every item with another identifier survives |
| TodoItems.RemovedAllConcat | Todo/Todo/TodoTableViewController.swift:206 | removal distributes over concatenation, so survivors keep their relative order |
| TodoItems.RemovedAllMultiplicity | Todo/Todo/TodoTableViewController.swift:206 | each item with another identifier keeps its exact multiplicity, and items with the identifier drop to zero |
| TodoItems.RemovedAllAbsent | Todo/Todo/TodoTableViewController.swift:200-206 | deleting an identifier no item has leaves the list unchanged |
| TodoItems.RemovedAllIdempotent | Todo/Todo/TodoTableViewController.swift:200-206 | applying a delete twice gives the same list as applying it once |
| TodoItems.RemovedAllKeepsIdsUnique | Todo/Todo/TodoTableViewController.swift:206 | a list without duplicate identifiers has none after a removal by identifier |
| TodoItems.RemovedAt | Todo/Todo/TodoTableViewController.swift:150 | removing a row shortens the list by one and removes exactly that row's item from the multiset of items |
| TodoItems.RemovedAtShifts | Todo/Todo/TodoTableViewController.swift:150 | rows before the removed one stay in place, and rows after it move up by one in order |
| TodoItems.RemovedAtIsRemovedAllOfItsId | Todo/Todo/TodoTableViewController.swift:144-150 | with unique identifiers, removing the row equals removing every item with that row's identifier |
| TodoItems.DeleteEchoAfterRowDeleteIsNoOp | Todo/Todo/TodoTableViewController.swift:143-155 | with unique identifiers, the delete event that follows a confirmed row delete changes nothing |
| TodoItems.DeleteEchoBeforeCompletionDropsNeighbour | Todo/Todo/TodoTableViewController.swift:143-155 | if the delete event is merged before the completion's remove(at:), the item after the row is removed too |
| TodoItems.DeleteEchoBeforeCompletionOnLastRowIsOutOfRange | Todo/Todo/TodoTableViewController.swift:143-155 | if the delete event for the last row is merged first, the list is one shorter, so the completion's remove(at:) on that row is out of range |
| TodoItems.Toggled | Todo/Todo/TodoTableViewController.swift:129 | the toggled item differs only in its done flag, which is negated |
| TodoItems.SwipeWritten | Todo/Todo/TodoTableViewController.swift:126-130 | the write-back keeps the length and every other row, and the row then holds the read copy toggled: its identifier, owner and task, with the done flag negated |
| TodoItems.ToggleFlipsOnlyThatRow | Todo/Todo/TodoTableViewController.swift:126-130 | with nothing between read and write, the row becomes its old item with only the done flag flipped |
| TodoItems.ToggleTwiceRestores | Todo/Todo/TodoTableViewController.swift:126-130 | two toggles of a row, each reading the current item, restore the original list |
| TodoItems.StaleToggleUndoesInterveningUpdate | Todo/Todo/TodoTableViewController.swift:125-135 | an update of the row's document merged between read and write is lost: the result equals the toggle without the update |
| TodoItems.StaleToggleAfterEarlierDeleteDuplicatesId | Todo/Todo/TodoTableViewController.swift:125-135 | a delete of any earlier row merged between read and write makes the stale copy overwrite the next item, which disappears, and leaves a duplicate identifier |
| TodoItems.StaleToggleOnLastRowIsOutOfRange | Todo/Todo/TodoTableViewController.swift:126-130 | a delete of any listed item merged between the read of the last row and the write leaves the list one shorter, so the write at that row is out of range |
| TodoItems.SwipeActionTwiceWritesOriginalBack | Todo/Todo/TodoTableViewController.swift:126-130 | since the handler also flips the captured copy, a second invocation of the same action writes the original copy back at the row |
| TodoItems.NewTodo | Todo/Todo/TodoTableViewController.swift:94-97 | the new item carries the given identifier, owner and task, and is not checked |
| TodoItems.WithoutLast | Todo/Todo/TodoTableViewController.swift:107 | removeLast shortens the list by one and keeps every element except the last |
| TodoItems.AddThenRollbackRestores | Todo/Todo/TodoTableViewController.swift:98-109 | an append followed by removeLast with nothing in between restores the list before the add |
| TodoItems.RollbackAfterForeignAppendRemovesWrongItem | Todo/Todo/TodoTableViewController.swift:98-109 | if another client's new item is appended first, removeLast removes that item and keeps the failed one |
| TodoItems.RollbackAfterOwnEchoStillRemoves | Todo/Todo/TodoTableViewController.swift:98-109 | an upsert echo of the optimistic item does not stop removeLast from removing it |
| TodoItems.Merged | Todo/Todo/TodoTableViewController.swift:183-212 | after a full-document event the document is present; after a delete event no item has the key's identifier; an event with neither leaves the list unchanged |
| TodoItems.MergeIdempotent | Todo/Todo/TodoTableViewController.swift:183-212 | merging the same change event twice gives the same list as merging it once |
| TodoItems.MergeKeepsIdsUnique | Todo/Todo/TodoTableViewController.swift:183-212 | merging any change event keeps identifiers unique |
| TodoItems.RemovedAllIgnoresSameIdSwap | Todo/Todo/TodoTableViewController.swift:206 | replacing one item by another with the same identifier does not change what removal of that identifier leaves |
| TodoItems.UpsertThenDelete | Todo/Todo/TodoTableViewController.swift:186-206 | an upsert followed by a delete of the same identifier gives the same list as the delete alone |
| TodoItems.DeleteThenUpsert | Todo/Todo/TodoTableViewController.swift:186-206 | a delete followed by an upsert of the same identifier leaves the survivors followed by the upserted document |
| TodoItems.AddEchoIsNoOp | Todo/Todo/TodoTableViewController.swift:190-196 | the upsert echo of an optimistically appended item with a fresh identifier leaves the list unchanged, with no duplicate |
| TodoItems.AddKeepsIdsUnique | Todo/Todo/TodoTableViewController.swift:94-99 | appending an item with a fresh identifier keeps identifiers unique |
| TodoTable.TodoTableViewController.constructor | Todo/Todo/TodoTableViewController.swift:16 | the list starts empty |
| TodoTable.TodoTableViewController.LoadFetched | Todo/Todo/TodoTableViewController.swift:25-31 | a successful initial find replaces the whole list with the fetched items |
| TodoTable.TodoTableViewController.NumberOfRows | Todo/Todo/TodoTableViewController.swift:158-160 | the row count equals the list length |
| TodoTable.TodoTableViewController.AddTodoItem | Todo/Todo/TodoTableViewController.swift:92-100 | with text, appends exactly one unchecked item with the given identifier, owner and task and returns it; without text, nothing changes; a fresh identifier keeps identifiers unique |
| TodoTable.TodoTableViewController.InsertCompleted | Todo/Todo/TodoTableViewController.swift:101-109 | on success the list is unchanged; on failure the last element is removed, which requires a non-empty list |
| TodoTable.TodoTableViewController.LeadingSwipeAction | Todo/Todo/TodoTableViewController.swift:125-127 | the action captures a copy of the item at the row, which must be in range |
| TodoTable.TodoTableViewController.SwipeActionHandler | Todo/Todo/TodoTableViewController.swift:128-130 | the captured copy is toggled, returned as the action's new capture and written at the row; nothing else changes |
| TodoTable.TodoTableViewController.CommitEditing | Todo/Todo/TodoTableViewController.swift:142-145 | a delete commit yields the row's identifier as the delete filter; any other editing style yields nothing |
| TodoTable.TodoTableViewController.DeleteCompleted | Todo/Todo/TodoTableViewController.swift:145-155 | on success exactly the row is removed, which requires the row to be in range; on failure the list is untouched |
| TodoTable.TodoTableViewController.FirstIndex | Todo/Todo/TodoTableViewController.swift:190 | the scan returns the first position holding the identifier, or None exactly when none does |
| TodoTable.TodoTableViewController.RemoveAll | Todo/Todo/TodoTableViewController.swift:206 | the list becomes the in-order survivors of removing the identifier |
| TodoTable.TodoTableViewController.DidReceive | Todo/Todo/TodoTableViewController.swift:183-212 | the list becomes the merge of the old list with the event, and unique identifiers are kept |

## Left out

- UIKit presentation: cells (`cellForRowAt`), swipe titles and colours, alerts, bar buttons, navigation, `reloadData`, logout. They hold no list logic.
- The database calls `find`, `insertOne`, `deleteOne` and `watch`, and `ObjectId()` generation. Their outcomes are `bool` parameters or the arguments of the handlers. Identifiers are an opaque type with equality only.
- `DispatchQueue.main.async`, `[weak self]` and the stream callbacks `didOpen`, `didClose` and `didReceive(streamError:)`. Each handler body is one atomic step. The case where the controller is already gone, so a `[weak self]` handler does nothing, is not modelled.
- `fatalError` when the initial load fails, and the logging. A failed load is simply not a call to `LoadFetched`.
- The current user (`userId!`, which traps when nobody is logged in). It is the `ownerId` parameter of `AddTodoItem`.
- The `TodoItem` type is declared elsewhere in the app. Its four fields are taken from the initializer call at lines 94-97.
- WelcomeViewController.swift: login flows and navigation, with no list state.
