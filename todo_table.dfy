/**
 The to-do table screen's data source: the `todoItems` list and the handlers
 that change it in place. Remote calls (find, insertOne, deleteOne, watch) are
 not modelled; their outcomes arrive as parameters, and every completion or
 event handler body runs as one atomic step on the object.
 */
module TodoTable {
  import opened TodoItems

  /** The table view's editing styles; only a delete commit touches the list. */
  datatype EditingStyle = NoEditing | Insert | Delete

  class TodoTableViewController {
    /** The table view's data source, in display order. */
    var todoItems: seq<TodoItem>

    /**
     Identifiers are unique. True after a load of unique documents; kept by
     every handler below, with conditions for the add (a fresh identifier) and
     the swipe write (the row still holds the read copy's identifier).
     */
    ghost predicate UniqueIds()
      reads this
    {
      NoDuplicateIds(todoItems)
    }

    /** A new controller starts with no items. */
    constructor ()
      ensures todoItems == []
      ensures UniqueIds()
    {
      todoItems := [];
    }

    /** Initial load: a successful `find` replaces the whole list with the fetched documents. */
    method LoadFetched(todos: seq<TodoItem>)
      modifies this
      ensures todoItems == todos
      ensures NoDuplicateIds(todos) ==> UniqueIds()
    {
      todoItems := todos;
    }

    /** `numberOfRowsInSection`: the number of rows shown is the number of items. */
    method NumberOfRows() returns (n: nat)
      ensures n == |todoItems|
    {
      n := |todoItems|;
    }

    /**
     The OK action of the add dialog. When the text field has text, a new
     unchecked item with the caller's identifier and owner is appended before
     the insert is sent; it is returned for the insert call.
     */
    method AddTodoItem(id: ObjectId, ownerId: string, text: Option<string>) returns (added: Option<TodoItem>)
      modifies this
      ensures text.None? ==> added.None? && todoItems == old(todoItems)
      ensures text.Some? ==> added == Some(NewTodo(id, ownerId, text.value))
      ensures text.Some? ==> todoItems == old(todoItems) + [added.value]
      ensures old(UniqueIds()) && !HasId(old(todoItems), id) ==> UniqueIds()
    {
      match text
      case None =>
        added := None;
      case Some(task) =>
        var item := NewTodo(id, ownerId, task);
        if UniqueIds() && !HasId(todoItems, id) {
          AddKeepsIdsUnique(todoItems, item);
        }
        todoItems := todoItems + [item];
        added := Some(item);
    }

    /**
     Completion of `insertOne`: success changes nothing; failure drops the last
     element, whatever it is by then. `removeLast()` traps on an empty list.
     */
    method InsertCompleted(inserted: bool)
      requires !inserted ==> |todoItems| > 0
      modifies this
      ensures inserted ==> todoItems == old(todoItems)
      ensures !inserted ==> todoItems == WithoutLast(old(todoItems))
      ensures old(UniqueIds()) ==> UniqueIds()
    {
      if !inserted {
        todoItems := todoItems[..|todoItems| - 1];
      }
    }

    /** Building the leading swipe action reads a copy of the row's item. */
    method LeadingSwipeAction(row: nat) returns (item: TodoItem)
      requires row < |todoItems|
      ensures item == todoItems[row]
    {
      item := todoItems[row];
    }

    /**
     The swipe action's handler: the action's captured copy is toggled in place
     and written back at the same row. The toggled copy is returned, because the
     action keeps it for any later invocation.
     */
    method SwipeActionHandler(row: nat, item: TodoItem) returns (captured: TodoItem)
      requires row < |todoItems|
      modifies this
      ensures captured == Toggled(item)
      ensures todoItems == SwipeWritten(old(todoItems), row, item)
      ensures old(UniqueIds()) && item.id == old(todoItems)[row].id ==> UniqueIds()
    {
      captured := item.(checked := !item.checked);
      todoItems := todoItems[row := captured];
    }

    /**
     Committing an edit: for a delete, the row's identifier is read and becomes
     the `deleteOne` filter; any other style does nothing.
     */
    method CommitEditing(style: EditingStyle, row: nat) returns (key: Option<ObjectId>)
      requires style == Delete ==> row < |todoItems|
      ensures style != Delete ==> key.None?
      ensures style == Delete ==> key == Some(todoItems[row].id)
    {
      if style != Delete {
        return None;
      }
      var item := todoItems[row];
      key := Some(item.id);
    }

    /**
     Completion of `deleteOne`: on success the element at the row is removed
     (which traps if the row is out of range by then); on failure nothing changes.
     */
    method DeleteCompleted(row: nat, deleted: bool)
      requires deleted ==> row < |todoItems|
      modifies this
      ensures deleted ==> todoItems == RemovedAt(old(todoItems), row)
      ensures !deleted ==> todoItems == old(todoItems)
      ensures old(UniqueIds()) ==> UniqueIds()
    {
      if deleted {
        ghost var before := todoItems;
        todoItems := todoItems[..row] + todoItems[row + 1..];
        if NoDuplicateIds(before) {
          RemovedAtIsRemovedAllOfItsId(before, row);
          RemovedAllKeepsIdsUnique(before, before[row].id);
        }
      }
    }

    /** `firstIndex(where:)`: a linear scan for the first item with identifier `id`. */
    method FirstIndex(id: ObjectId) returns (index: Option<nat>)
      ensures index.Some? ==> index.value < |todoItems| && todoItems[index.value].id == id
      ensures index.Some? ==> forall j :: 0 <= j < index.value ==> todoItems[j].id != id
      ensures index.None? <==> !HasId(todoItems, id)
    {
      var i := 0;
      while i < |todoItems|
        invariant 0 <= i <= |todoItems|
        invariant forall j :: 0 <= j < i ==> todoItems[j].id != id
      {
        if todoItems[i].id == id {
          return Some(i);
        }
        i := i + 1;
      }
      index := None;
    }

    /** `removeAll(where:)`: keeps, in order, the items whose identifier differs from `id`. */
    method RemoveAll(id: ObjectId)
      modifies this
      ensures todoItems == RemovedAll(old(todoItems), id)
    {
      var kept := [];
      var i := 0;
      while i < |todoItems|
        invariant 0 <= i <= |todoItems|
        invariant todoItems == old(todoItems)
        invariant kept == RemovedAll(todoItems[..i], id)
      {
        assert todoItems[..i + 1] == todoItems[..i] + [todoItems[i]];
        RemovedAllConcat(todoItems[..i], [todoItems[i]], id);
        assert RemovedAll([todoItems[i]], id) == if todoItems[i].id == id then [] else [todoItems[i]];
        if todoItems[i].id != id {
          kept := kept + [todoItems[i]];
        }
        i := i + 1;
      }
      assert todoItems[..i] == todoItems;
      todoItems := kept;
    }

    /**
     `didReceive(event:)`: a full document is upserted by identifier (replacing
     the first match in place, or appended); otherwise a document key that is an
     ObjectId removes every item with that identifier.
     */
    method DidReceive(event: ChangeEvent)
      modifies this
      ensures todoItems == Merged(old(todoItems), event)
      ensures old(UniqueIds()) ==> UniqueIds()
    {
      ghost var before := todoItems;
      if event.fullDocument.Some? {
        var item := event.fullDocument.value;
        var index := FirstIndex(item.id);
        if index.Some? {
          FirstIndexOfIsFirst(todoItems, item.id, index.value);
          todoItems := todoItems[index.value := item];
        } else {
          todoItems := todoItems + [item];
        }
      } else if event.documentKeyId.Some? {
        RemoveAll(event.documentKeyId.value);
      }
      if NoDuplicateIds(before) {
        MergeKeepsIdsUnique(before, event);
      }
    }
  }
}
