/**
 The values held by the to-do list screen: to-do items, the change events
 delivered by the collection watch, and the pure functions that say what each
 in-place operation on the list of items computes. The class in todo_table.dfy
 is proved against these functions; the lemmas here state what the operations
 promise and how they compose.
 */
module TodoItems {

  datatype Option<T> = None | Some(value: T)

  /** A document identifier generated by the database driver; only equality is observable. */
  type ObjectId(==)

  /** One to-do document: its identifier, the owning user, the task text and the done flag. */
  datatype TodoItem = TodoItem(id: ObjectId, ownerId: string, task: string, checked: bool)

  /**
   A change event as the watch delivers it. Inserts and updates carry the whole
   document; a delete carries only the document key, whose `_id` may fail to be
   an ObjectId (then `documentKeyId` is None).
   */
  datatype ChangeEvent = ChangeEvent(fullDocument: Option<TodoItem>, documentKeyId: Option<ObjectId>)

  /** Some item of `s` has identifier `id`. */
  predicate HasId(s: seq<TodoItem>, id: ObjectId) {
    exists j :: 0 <= j < |s| && s[j].id == id
  }

  /** No two positions of `s` hold items with the same identifier. */
  predicate NoDuplicateIds(s: seq<TodoItem>) {
    forall i, j :: 0 <= i < j < |s| ==> s[i].id != s[j].id
  }

  // ---------------------------------------------------------------------------
  // Searching: firstIndex(where: { $0.id == id })

  /** The position of the first item of `s` whose identifier is `id`, if any. */
  function FirstIndexOf(s: seq<TodoItem>, id: ObjectId): (r: Option<nat>)
    ensures r.Some? ==> r.value < |s| && s[r.value].id == id
    ensures r.Some? ==> forall j :: 0 <= j < r.value ==> s[j].id != id
    ensures r.None? <==> !HasId(s, id)
  {
    if |s| == 0 then None
    else if s[0].id == id then Some(0)
    else
      match FirstIndexOf(s[1..], id)
      case None =>
        assert forall j :: 1 <= j < |s| ==> s[j] == s[1..][j - 1];
        None
      case Some(i) => Some(i + 1)
  }

  /** Any position holding `id` with no earlier `id` is the one FirstIndexOf reports. */
  lemma FirstIndexOfIsFirst(s: seq<TodoItem>, id: ObjectId, i: nat)
    requires i < |s| && s[i].id == id
    requires forall j :: 0 <= j < i ==> s[j].id != id
    ensures FirstIndexOf(s, id) == Some(i)
  {
  }

  // ---------------------------------------------------------------------------
  // Upsert of a full document (change event with fullDocument)

  /** Replace the first item with the same identifier, or append when there is none. */
  function Upserted(s: seq<TodoItem>, item: TodoItem): (r: seq<TodoItem>)
    ensures item in r
    ensures HasId(r, item.id)
    ensures |r| == if HasId(s, item.id) then |s| else |s| + 1
  {
    match FirstIndexOf(s, item.id)
    case Some(i) =>
      assert s[i := item][i] == item;
      s[i := item]
    case None => s + [item]
  }

  /**
   When `i` is the first position holding the item's identifier, the upsert
   overwrites exactly position `i`: same length, every other position unchanged.
   */
  lemma UpsertReplacesFirstMatch(s: seq<TodoItem>, item: TodoItem, i: nat)
    requires i < |s| && s[i].id == item.id
    requires forall j :: 0 <= j < i ==> s[j].id != item.id
    ensures |Upserted(s, item)| == |s|
    ensures Upserted(s, item)[i] == item
    ensures forall j :: 0 <= j < |s| && j != i ==> Upserted(s, item)[j] == s[j]
  {
    FirstIndexOfIsFirst(s, item.id, i);
  }

  /** When no item has the identifier, the upsert appends and keeps the existing prefix. */
  lemma UpsertAppendsWhenAbsent(s: seq<TodoItem>, item: TodoItem)
    requires !HasId(s, item.id)
    ensures |Upserted(s, item)| == |s| + 1
    ensures Upserted(s, item)[..|s|] == s
    ensures Upserted(s, item)[|s|] == item
  {
  }

  /** Applying the same upsert twice gives the list that applying it once gives. */
  lemma UpsertIdempotent(s: seq<TodoItem>, item: TodoItem)
    ensures Upserted(Upserted(s, item), item) == Upserted(s, item)
  {
    var r := Upserted(s, item);
    match FirstIndexOf(s, item.id)
    case Some(i) =>
      assert r == s[i := item];
      FirstIndexOfIsFirst(r, item.id, i);
    case None =>
      assert r == s + [item];
      FirstIndexOfIsFirst(r, item.id, |s|);
  }

  /** An upsert never introduces a duplicate identifier. */
  lemma UpsertKeepsIdsUnique(s: seq<TodoItem>, item: TodoItem)
    requires NoDuplicateIds(s)
    ensures NoDuplicateIds(Upserted(s, item))
  {
    var r := Upserted(s, item);
    match FirstIndexOf(s, item.id)
    case Some(i) =>
      assert forall j :: 0 <= j < |s| ==> r[j].id == s[j].id;
    case None =>
      assert r == s + [item];
      forall a, b | 0 <= a < b < |r|
        ensures r[a].id != r[b].id
      {
        if b == |s| {
          assert r[a] == s[a];
        }
      }
  }

  // ---------------------------------------------------------------------------
  // Removal by identifier: removeAll(where: { $0.id == id })

  /** The items of `s` whose identifier is not `id`, in their original order. */
  function RemovedAll(s: seq<TodoItem>, id: ObjectId): (r: seq<TodoItem>)
    ensures !HasId(r, id)
    ensures forall x :: x in r ==> x in s
    ensures forall x :: x in s && x.id != id ==> x in r
    ensures |r| <= |s|
  {
    if |s| == 0 then []
    else if s[0].id == id then RemovedAll(s[1..], id)
    else [s[0]] + RemovedAll(s[1..], id)
  }

  /** Removal distributes over concatenation: the surviving items keep their relative order. */
  lemma {:induction false} RemovedAllConcat(a: seq<TodoItem>, b: seq<TodoItem>, id: ObjectId)
    ensures RemovedAll(a + b, id) == RemovedAll(a, id) + RemovedAll(b, id)
  {
    if |a| == 0 {
      assert a + b == b;
    } else {
      assert (a + b)[0] == a[0];
      assert (a + b)[1..] == a[1..] + b;
      RemovedAllConcat(a[1..], b, id);
    }
  }

  /** Each item keeps its multiplicity unless its identifier is the removed one, which drops to zero. */
  lemma {:induction false} RemovedAllMultiplicity(s: seq<TodoItem>, id: ObjectId, x: TodoItem)
    ensures multiset(RemovedAll(s, id))[x] == if x.id == id then 0 else multiset(s)[x]
  {
    if |s| == 0 {
    } else {
      RemovedAllMultiplicity(s[1..], id, x);
      assert s == [s[0]] + s[1..];
      assert multiset(s) == multiset{s[0]} + multiset(s[1..]);
      if s[0].id != id {
        assert multiset(RemovedAll(s, id)) == multiset{s[0]} + multiset(RemovedAll(s[1..], id));
      }
    }
  }

  /** Removing an identifier that no item has leaves the list unchanged. */
  lemma {:induction false} RemovedAllAbsent(s: seq<TodoItem>, id: ObjectId)
    requires !HasId(s, id)
    ensures RemovedAll(s, id) == s
  {
    if |s| > 0 {
      assert s[0].id != id;
      assert !HasId(s[1..], id) by {
        forall j | 0 <= j < |s[1..]| ensures s[1..][j].id != id {
          assert s[1..][j] == s[j + 1];
        }
      }
      RemovedAllAbsent(s[1..], id);
      assert s == [s[0]] + s[1..];
    }
  }

  /** Removing by identifier twice gives the list that removing once gives. */
  lemma RemovedAllIdempotent(s: seq<TodoItem>, id: ObjectId)
    ensures RemovedAll(RemovedAll(s, id), id) == RemovedAll(s, id)
  {
    RemovedAllAbsent(RemovedAll(s, id), id);
  }

  /** Removal by identifier never introduces a duplicate identifier. */
  lemma {:induction false} RemovedAllKeepsIdsUnique(s: seq<TodoItem>, id: ObjectId)
    requires NoDuplicateIds(s)
    ensures NoDuplicateIds(RemovedAll(s, id))
  {
    if |s| > 0 {
      var t := s[1..];
      assert NoDuplicateIds(t) by {
        forall a, b | 0 <= a < b < |t| ensures t[a].id != t[b].id {
          assert t[a] == s[a + 1] && t[b] == s[b + 1];
        }
      }
      RemovedAllKeepsIdsUnique(t, id);
      if s[0].id != id {
        var rt := RemovedAll(t, id);
        assert forall j :: 0 <= j < |rt| ==> rt[j].id != s[0].id by {
          forall j | 0 <= j < |rt| ensures rt[j].id != s[0].id {
            assert rt[j] in t;
            var k :| 0 <= k < |t| && t[k] == rt[j];
            assert t[k] == s[k + 1];
          }
        }
        var r := [s[0]] + rt;
        forall a, b | 0 <= a < b < |r| ensures r[a].id != r[b].id {
          assert r[b] == rt[b - 1];
          if a > 0 {
            assert r[a] == rt[a - 1];
          }
        }
      }
    }
  }

  // ---------------------------------------------------------------------------
  // Removal at a row: remove(at: row)

  /** `s` without the element at `row`. */
  function RemovedAt(s: seq<TodoItem>, row: nat): (r: seq<TodoItem>)
    requires row < |s|
    ensures |r| == |s| - 1
    ensures multiset(r) + multiset{s[row]} == multiset(s)
  {
    assert s == s[..row] + [s[row]] + s[row + 1..];
    s[..row] + s[row + 1..]
  }

  /** The elements before `row` stay where they were and those after it move up by one. */
  lemma RemovedAtShifts(s: seq<TodoItem>, row: nat)
    requires row < |s|
    ensures forall j :: 0 <= j < row ==> RemovedAt(s, row)[j] == s[j]
    ensures forall j :: row <= j < |s| - 1 ==> RemovedAt(s, row)[j] == s[j + 1]
  {
  }

  /**
   With unique identifiers, removing the row is the same as removing every item
   with that row's identifier, which is what the delete event does.
   */
  lemma RemovedAtIsRemovedAllOfItsId(s: seq<TodoItem>, row: nat)
    requires NoDuplicateIds(s) && row < |s|
    ensures RemovedAt(s, row) == RemovedAll(s, s[row].id)
  {
    var id := s[row].id;
    var pre, mid, post := s[..row], [s[row]], s[row + 1..];
    assert s == (pre + mid) + post;
    assert !HasId(pre, id) by {
      forall j | 0 <= j < |pre| ensures pre[j].id != id { assert pre[j] == s[j]; }
    }
    assert !HasId(post, id) by {
      forall j | 0 <= j < |post| ensures post[j].id != id { assert post[j] == s[row + 1 + j]; }
    }
    assert RemovedAll(mid, id) == [];
    RemovedAllAbsent(pre, id);
    RemovedAllAbsent(post, id);
    RemovedAllConcat(pre, mid, id);
    assert RemovedAll(pre + mid, id) == pre;
    RemovedAllConcat(pre + mid, post, id);
  }

  /**
   With unique identifiers, the delete event that echoes a confirmed row delete
   finds nothing left to remove.
   */
  lemma DeleteEchoAfterRowDeleteIsNoOp(s: seq<TodoItem>, row: nat)
    requires NoDuplicateIds(s) && row < |s|
    ensures RemovedAll(RemovedAt(s, row), s[row].id) == RemovedAt(s, row)
  {
    RemovedAtIsRemovedAllOfItsId(s, row);
    RemovedAllIdempotent(s, s[row].id);
  }

  /**
   When the delete event is merged before the delete completion runs, the
   completion's `remove(at: row)` removes the row's successor as well: two items
   disappear for one delete.
   */
  lemma DeleteEchoBeforeCompletionDropsNeighbour(s: seq<TodoItem>, row: nat)
    requires NoDuplicateIds(s) && row + 1 < |s|
    ensures row < |RemovedAll(s, s[row].id)|
    ensures RemovedAt(RemovedAll(s, s[row].id), row) == s[..row] + s[row + 2..]
  {
    RemovedAtIsRemovedAllOfItsId(s, row);
    var t := RemovedAt(s, row);
    assert t == s[..row] + s[row + 1..];
    assert RemovedAt(t, row) == t[..row] + t[row + 1..];
    assert t[..row] == s[..row];
    assert t[row + 1..] == s[row + 2..];
  }

  /**
   When the delete event for the last row is merged before the delete
   completion runs, the list is one shorter, so the completion's
   `remove(at: row)` indexes past the end: the completion would trap.
   */
  lemma DeleteEchoBeforeCompletionOnLastRowIsOutOfRange(s: seq<TodoItem>)
    requires NoDuplicateIds(s) && |s| > 0
    ensures |RemovedAll(s, s[|s| - 1].id)| == |s| - 1
  {
    RemovedAtIsRemovedAllOfItsId(s, |s| - 1);
  }

  // ---------------------------------------------------------------------------
  // Swipe toggle: the item read when the action is built is flipped and written back

  /** `item` with its done flag flipped and everything else kept. */
  function Toggled(item: TodoItem): (r: TodoItem)
    ensures r.id == item.id && r.ownerId == item.ownerId && r.task == item.task
    ensures r.checked == !item.checked
    ensures r != item
  {
    item.(checked := !item.checked)
  }

  /** What the swipe handler writes: the copy read earlier, toggled, at the same row. */
  function SwipeWritten(s: seq<TodoItem>, row: nat, read: TodoItem): (r: seq<TodoItem>)
    requires row < |s|
    ensures |r| == |s|
    ensures r[row] == Toggled(read)
    ensures forall j :: 0 <= j < |s| && j != row ==> r[j] == s[j]
  {
    s[row := Toggled(read)]
  }

  /**
   With no change between the read and the write, the toggle flips exactly the
   done flag of that row.
   */
  lemma ToggleFlipsOnlyThatRow(s: seq<TodoItem>, row: nat)
    requires row < |s|
    ensures SwipeWritten(s, row, s[row])[row] == s[row].(checked := !s[row].checked)
    ensures SwipeWritten(s, row, s[row])[row].checked != s[row].checked
  {
  }

  /** Two toggles of the same row, each reading the current item, restore the list. */
  lemma ToggleTwiceRestores(s: seq<TodoItem>, row: nat)
    requires row < |s|
    ensures var t := SwipeWritten(s, row, s[row]); SwipeWritten(t, row, t[row]) == s
  {
    var t := SwipeWritten(s, row, s[row]);
    assert Toggled(t[row]) == s[row];
  }

  /**
   If a change event updates the row's document between the read and the write,
   the write-back puts the stale copy back: the list ends as if the update had
   never arrived.
   */
  lemma StaleToggleUndoesInterveningUpdate(s: seq<TodoItem>, row: nat, update: TodoItem)
    requires NoDuplicateIds(s) && row < |s|
    requires update.id == s[row].id
    ensures row < |Upserted(s, update)|
    ensures SwipeWritten(Upserted(s, update), row, s[row]) == SwipeWritten(s, row, s[row])
  {
    assert forall j :: 0 <= j < row ==> s[j].id != update.id;
    UpsertReplacesFirstMatch(s, update, row);
  }

  /**
   If a delete event for an earlier row `k` is merged between the read and the
   write, the rows below move up and the stale copy overwrites the next item:
   that item disappears and the copy's identifier occurs twice.
   */
  lemma StaleToggleAfterEarlierDeleteDuplicatesId(s: seq<TodoItem>, k: nat, row: nat)
    requires NoDuplicateIds(s) && k < row && row + 1 < |s|
    ensures row < |RemovedAll(s, s[k].id)|
    ensures !NoDuplicateIds(SwipeWritten(RemovedAll(s, s[k].id), row, s[row]))
    ensures s[row + 1] !in SwipeWritten(RemovedAll(s, s[k].id), row, s[row])
  {
    var t := RemovedAt(s, k);
    assert RemovedAll(s, s[k].id) == t by {
      RemovedAtIsRemovedAllOfItsId(s, k);
    }
    RemovedAtShifts(s, k);
    var w := SwipeWritten(t, row, s[row]);
    assert w[row - 1].id == w[row].id by {
      assert w[row - 1] == t[row - 1] == s[row];
    }
    assert s[row + 1] !in w by {
      var next := s[row + 1];
      forall j | 0 <= j < |w| ensures w[j] != next {
        if j == row {
          assert w[j].id == s[row].id;
        } else if j < k {
          assert w[j] == s[j];
          assert s[j].id != next.id;
        } else {
          assert w[j] == s[j + 1];
          assert s[j + 1].id != next.id;
        }
      }
    }
  }

  /**
   A delete event for any item of the list, merged between the read of the
   last row and the write, leaves the list one shorter, so the write at that
   row is out of range: the handler would trap.
   */
  lemma StaleToggleOnLastRowIsOutOfRange(s: seq<TodoItem>, k: nat)
    requires NoDuplicateIds(s) && k < |s|
    ensures |RemovedAll(s, s[k].id)| == |s| - 1
  {
    RemovedAtIsRemovedAllOfItsId(s, k);
  }

  /**
   The handler also flips the action's captured copy, so invoking the same
   action a second time writes the original copy back at that row.
   */
  lemma SwipeActionTwiceWritesOriginalBack(s: seq<TodoItem>, row: nat, read: TodoItem)
    requires row < |s|
    ensures SwipeWritten(SwipeWritten(s, row, read), row, Toggled(read)) == s[row := read]
  {
    assert Toggled(Toggled(read)) == read;
  }

  // ---------------------------------------------------------------------------
  // Optimistic add and its rollback

  /** The item the add dialog builds: a fresh identifier, the current user, the text, not done. */
  function NewTodo(id: ObjectId, ownerId: string, task: string): (r: TodoItem)
    ensures r.id == id && r.ownerId == ownerId && r.task == task && !r.checked
  {
    TodoItem(id, ownerId, task, false)
  }

  /** `removeLast()`: the list without its final element. */
  function WithoutLast(s: seq<TodoItem>): (r: seq<TodoItem>)
    requires |s| > 0
    ensures |r| == |s| - 1
    ensures r + [s[|s| - 1]] == s
  {
    s[..|s| - 1]
  }

  /** A failed insert rolled back with nothing in between restores the list before the add. */
  lemma AddThenRollbackRestores(s: seq<TodoItem>, item: TodoItem)
    ensures WithoutLast(s + [item]) == s
  {
    assert WithoutLast(s + [item]) + [item] == s + [item];
  }

  /**
   If another client's new item is appended by a change event before the failed
   insert is rolled back, `removeLast()` removes that item and the failed one stays.
   */
  lemma RollbackAfterForeignAppendRemovesWrongItem(s: seq<TodoItem>, added: TodoItem, foreign: TodoItem)
    requires !HasId(s + [added], foreign.id)
    ensures WithoutLast(Upserted(s + [added], foreign)) == s + [added]
    ensures !HasId(WithoutLast(Upserted(s + [added], foreign)), foreign.id)
  {
    UpsertAppendsWhenAbsent(s + [added], foreign);
    AddThenRollbackRestores(s + [added], foreign);
  }

  /**
   The echo of the optimistic item (same document) does not protect it: a later
   rollback still removes it, because removal is by position.
   */
  lemma RollbackAfterOwnEchoStillRemoves(s: seq<TodoItem>, added: TodoItem)
    requires !HasId(s, added.id)
    ensures WithoutLast(Upserted(s + [added], added)) == s
  {
    AddEchoIsNoOp(s, added);
    AddThenRollbackRestores(s, added);
  }

  // ---------------------------------------------------------------------------
  // didReceive(event:)

  /** The list after merging one change event. */
  function Merged(s: seq<TodoItem>, e: ChangeEvent): (r: seq<TodoItem>)
    ensures e.fullDocument.Some? ==> e.fullDocument.value in r
    ensures e.fullDocument.None? && e.documentKeyId.Some? ==> !HasId(r, e.documentKeyId.value)
    ensures e.fullDocument.None? && e.documentKeyId.None? ==> r == s
  {
    match e.fullDocument
    case Some(item) => Upserted(s, item)
    case None =>
      match e.documentKeyId
      case Some(id) => RemovedAll(s, id)
      case None => s
  }

  /** Merging the same event twice gives the list that merging it once gives. */
  lemma MergeIdempotent(s: seq<TodoItem>, e: ChangeEvent)
    ensures Merged(Merged(s, e), e) == Merged(s, e)
  {
    match e.fullDocument
    case Some(item) => UpsertIdempotent(s, item);
    case None =>
      match e.documentKeyId
      case Some(id) => RemovedAllIdempotent(s, id);
      case None =>
  }

  /** Merging any event keeps identifiers unique. */
  lemma MergeKeepsIdsUnique(s: seq<TodoItem>, e: ChangeEvent)
    requires NoDuplicateIds(s)
    ensures NoDuplicateIds(Merged(s, e))
  {
    match e.fullDocument
    case Some(item) => UpsertKeepsIdsUnique(s, item);
    case None =>
      match e.documentKeyId
      case Some(id) => RemovedAllKeepsIdsUnique(s, id);
      case None =>
  }

  /** Swapping one item for another with the same identifier does not change what removal of that identifier leaves. */
  lemma RemovedAllIgnoresSameIdSwap(pre: seq<TodoItem>, x: TodoItem, y: TodoItem, post: seq<TodoItem>)
    requires x.id == y.id
    ensures RemovedAll(pre + [x] + post, x.id) == RemovedAll(pre + [y] + post, x.id)
  {
    RemovedAllConcat(pre + [x], post, x.id);
    RemovedAllConcat(pre, [x], x.id);
    RemovedAllConcat(pre + [y], post, x.id);
    RemovedAllConcat(pre, [y], x.id);
    assert RemovedAll([x], x.id) == [] == RemovedAll([y], x.id);
  }

  /** An upsert followed by a delete of the same identifier: the delete wins, as if the upsert never came. */
  lemma UpsertThenDelete(s: seq<TodoItem>, item: TodoItem)
    ensures RemovedAll(Upserted(s, item), item.id) == RemovedAll(s, item.id)
  {
    match FirstIndexOf(s, item.id)
    case Some(i) =>
      assert s == s[..i] + [s[i]] + s[i + 1..];
      assert Upserted(s, item) == s[..i] + [item] + s[i + 1..];
      RemovedAllIgnoresSameIdSwap(s[..i], item, s[i], s[i + 1..]);
    case None =>
      RemovedAllConcat(s, [item], item.id);
      assert RemovedAll([item], item.id) == [];
  }

  /** A delete followed by an upsert of the same identifier: the upserted document ends up last. */
  lemma DeleteThenUpsert(s: seq<TodoItem>, item: TodoItem)
    ensures Upserted(RemovedAll(s, item.id), item) == RemovedAll(s, item.id) + [item]
  {
  }

  /** The echo of an optimistically added item with a fresh identifier changes nothing. */
  lemma AddEchoIsNoOp(s: seq<TodoItem>, item: TodoItem)
    requires !HasId(s, item.id)
    ensures Upserted(s + [item], item) == s + [item]
  {
    var t := s + [item];
    forall j | 0 <= j < |s| ensures t[j].id != item.id {
      assert t[j] == s[j];
    }
    FirstIndexOfIsFirst(t, item.id, |s|);
  }

  /** A fresh optimistic add keeps identifiers unique. */
  lemma AddKeepsIdsUnique(s: seq<TodoItem>, item: TodoItem)
    requires NoDuplicateIds(s) && !HasId(s, item.id)
    ensures NoDuplicateIds(s + [item])
  {
    var t := s + [item];
    forall a, b | 0 <= a < b < |t| ensures t[a].id != t[b].id {
      assert t[a] == s[a];
    }
  }
}
