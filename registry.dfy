/**
 * The global `todoList` of main.go with the two list operations around it: `saveCallback`
 * of the new-task window, which validates and appends, and `clearDoneTasks`, which keeps the
 * unchecked items and deletes the checked ones from the table by their task text.
 */
module Registry {
  import opened Wrappers
  import opened Durations
  import opened Timer
  import AdapterStore
  import MainItem

  type Item = MainItem.TodoItem

  /** The checkbox of each item. */
  function Checks(items: seq<Item>): (r: seq<bool>)
    reads items
    ensures |r| == |items| && forall i :: 0 <= i < |items| ==> r[i] == items[i].checked
  {
    seq(|items|, i requires 0 <= i < |items| reads items => items[i].checked)
  }

  /** The first `n` items whose box is not checked, in their order: what `clearDoneTasks` keeps. */
  function Kept(items: seq<Item>, checks: seq<bool>, n: nat): seq<Item>
    requires |checks| == |items| && n <= |items|
  {
    if n == 0 then []
    else Kept(items, checks, n - 1) + if checks[n - 1] then [] else [items[n - 1]]
  }

  /** The task texts of the checked items among the first `n`, in their order: the deletes. */
  function Deleted(items: seq<Item>, checks: seq<bool>, n: nat): seq<string>
    requires |checks| == |items| && n <= |items|
  {
    if n == 0 then []
    else Deleted(items, checks, n - 1) + if checks[n - 1] then [items[n - 1].task] else []
  }

  /** Every item is either kept or named by a delete. */
  lemma {:induction false} ClearCounts(items: seq<Item>, checks: seq<bool>, n: nat)
    requires |checks| == |items| && n <= |items|
    ensures |Kept(items, checks, n)| + |Deleted(items, checks, n)| == n
  {
    if n > 0 {
      ClearCounts(items, checks, n - 1);
    }
  }

  /** Only unchecked items are kept. */
  lemma {:induction false} KeptUnchecked(items: seq<Item>, checks: seq<bool>, n: nat)
    requires |checks| == |items| && n <= |items|
    ensures forall x :: x in Kept(items, checks, n) ==> exists j :: 0 <= j < n && !checks[j] && x == items[j]
  {
    if n > 0 {
      KeptUnchecked(items, checks, n - 1);
      forall x | x in Kept(items, checks, n)
        ensures exists j :: 0 <= j < n && !checks[j] && x == items[j]
      {
        if x !in Kept(items, checks, n - 1) {
          assert !checks[n - 1] && x == items[n - 1];
        }
      }
    }
  }

  /** Every unchecked item is kept. */
  lemma {:induction false} UncheckedKept(items: seq<Item>, checks: seq<bool>, n: nat)
    requires |checks| == |items| && n <= |items|
    ensures forall j :: 0 <= j < n && !checks[j] ==> items[j] in Kept(items, checks, n)
  {
    if n > 0 {
      UncheckedKept(items, checks, n - 1);
    }
  }

  /** The deletes name exactly the task texts of the checked items. */
  lemma {:induction false} DeletedChecked(items: seq<Item>, checks: seq<bool>, n: nat)
    requires |checks| == |items| && n <= |items|
    ensures forall t :: t in Deleted(items, checks, n) <==> exists j :: 0 <= j < n && checks[j] && items[j].task == t
  {
    if n > 0 {
      DeletedChecked(items, checks, n - 1);
      forall t
        ensures t in Deleted(items, checks, n) <==> exists j :: 0 <= j < n && checks[j] && items[j].task == t
      {
        if t in Deleted(items, checks, n) && t !in Deleted(items, checks, n - 1) {
          assert checks[n - 1] && items[n - 1].task == t;
        }
      }
    }
  }

  /** The rows left after one `deleteTodoItem(task)` per task text, in order. */
  function DeleteAll(rows: seq<AdapterStore.Row>, tasks: seq<string>): (r: seq<AdapterStore.Row>)
    ensures forall row :: row in r <==> row in rows && row.task !in tasks
    decreases |tasks|
  {
    if tasks == [] then rows
    else
      var init := tasks[..|tasks| - 1];
      assert forall t :: t in tasks <==> t in init || t == tasks[|tasks| - 1];
      AdapterStore.RemoveTask(DeleteAll(rows, init), tasks[|tasks| - 1])
  }

  /** One more task text: one more delete after the others. */
  lemma DeleteAllSnoc(rows: seq<AdapterStore.Row>, tasks: seq<string>, t: string)
    ensures DeleteAll(rows, tasks + [t]) == AdapterStore.RemoveTask(DeleteAll(rows, tasks), t)
  {
    assert (tasks + [t])[..|tasks|] == tasks;
  }

  /** Deleting rows keeps the autoincrement ids in order. */
  lemma {:induction false} DeleteAllKeepsAscending(rows: seq<AdapterStore.Row>, tasks: seq<string>)
    requires AdapterStore.IdsAscending(rows)
    ensures AdapterStore.IdsAscending(DeleteAll(rows, tasks))
    decreases |tasks|
  {
    if tasks != [] {
      var init := tasks[..|tasks| - 1];
      DeleteAllKeepsAscending(rows, init);
      AdapterStore.RemoveKeepsAscending(DeleteAll(rows, init), tasks[|tasks| - 1]);
    }
  }

  /**
   * An unchecked item that shares its task text with a checked one loses its rows too,
   * although it stays in the list.
   */
  lemma ClearHitsNamesakes(items: seq<Item>, checks: seq<bool>, rows: seq<AdapterStore.Row>, k: nat, g: nat)
    requires |checks| == |items| && k < |items| && g < |items|
    requires !checks[k] && checks[g] && items[k].task == items[g].task
    ensures items[k] in Kept(items, checks, |items|)
    ensures forall row :: row in DeleteAll(rows, Deleted(items, checks, |items|)) ==> row.task != items[k].task
  {
    UncheckedKept(items, checks, |items|);
    DeletedChecked(items, checks, |items|);
  }

  class TodoList {
    var todoList: seq<Item>
    /** The table behind `saveTodoItem` and `deleteTodoItem`. */
    const db: AdapterStore.Store

    ghost predicate Valid()
      reads this, db, todoList
    {
      db.Valid() && forall i :: 0 <= i < |todoList| ==> todoList[i].Valid()
    }

    /** Start-up: `todoList, _ = getTodoItems()`, so a load error leaves the list empty. */
    constructor (db: AdapterStore.Store)
      requires db.Valid()
      ensures Valid() && this.db == db
      ensures AdapterStore.LoadRows(db.rows).Err? ==> todoList == []
      ensures AdapterStore.LoadRows(db.rows).Ok? ==>
                |todoList| == |db.rows| &&
                forall i :: 0 <= i < |todoList| ==> todoList[i].State() == AdapterStore.LoadRows(db.rows).value[i]
      ensures forall item :: item in todoList ==> fresh(item)
    {
      var loaded := db.GetTodoItems();
      var list: seq<Item> := [];
      if loaded.Ok? {
        forall j | 0 <= j < |loaded.value|
          ensures Guarded(loaded.value[j])
        {
          assert AdapterStore.LoadRow(db.rows[j]) == Some(loaded.value[j]);
        }
        list := Build(loaded.value);
      }
      todoList := list;
      this.db := db;
    }

    /**
     * `saveCallback`: an empty description or a duration that does not parse changes nothing;
     * otherwise one new stopped item goes to the end of the list and its row into the table.
     */
    method SaveCallback(description: string, selected: string) returns (added: bool)
      requires Valid()
      modifies this, db
      ensures Valid()
      ensures added <==> description != "" && ParseDuration(selected).Some?
      ensures !added ==> todoList == old(todoList) && db.rows == old(db.rows) && db.nextId == old(db.nextId)
      ensures added ==>
                var item := Created(description, selected, ParseDuration(selected).value);
                |todoList| == |old(todoList)| + 1 && todoList[..|old(todoList)|] == old(todoList) &&
                fresh(todoList[|old(todoList)|]) && todoList[|old(todoList)|].State() == item &&
                db.rows == old(db.rows) + [AdapterStore.RowOf(item, old(db.nextId))]
    {
      if description == "" {
        return false;
      }
      var parsed := ParseDuration(selected);
      if parsed.None? {
        return false;
      }
      var item := new MainItem.TodoItem(Created(description, selected, parsed.value));
      todoList := todoList + [item];
      db.SaveTodoItem(item.State());
      return true;
    }

    /**
     * `clearDoneTasks`: the list becomes its unchecked items, in order, with one delete by task
     * text per checked item. No item is changed: a removed item's timer is not stopped.
     */
    method ClearDoneTasks()
      requires Valid()
      modifies this, db
      ensures Valid()
      ensures todoList == Kept(old(todoList), old(Checks(todoList)), |old(todoList)|)
      ensures db.rows == DeleteAll(old(db.rows), Deleted(old(todoList), old(Checks(todoList)), |old(todoList)|))
      ensures db.nextId == old(db.nextId)
      ensures forall item :: item in old(todoList) ==> item.State() == old(item.State())
    {
      ghost var checks := Checks(todoList);
      var remaining := Sweep(todoList, checks, db);
      KeptUnchecked(todoList, checks, |todoList|);
      forall k | 0 <= k < |remaining|
        ensures remaining[k].Valid()
      {
        assert remaining[k] in remaining;
        var j :| 0 <= j < |todoList| && !checks[j] && remaining[k] == todoList[j];
      }
      todoList := remaining;
    }
  }

  /** The loop of `getTodoItems` that builds one widget item per loaded state. */
  method Build(states: seq<ItemState>) returns (list: seq<Item>)
    requires forall j :: 0 <= j < |states| ==> Guarded(states[j])
    ensures |list| == |states|
    ensures forall j :: 0 <= j < |list| ==> list[j].State() == states[j] && list[j].Valid()
    ensures forall item :: item in list ==> fresh(item)
  {
    list := [];
    var i := 0;
    while i < |states|
      invariant 0 <= i <= |states| && |list| == i
      invariant forall j :: 0 <= j < i ==> list[j].State() == states[j] && list[j].Valid()
      invariant forall item :: item in list ==> fresh(item)
    {
      var item := new MainItem.TodoItem(states[i]);
      list := list + [item];
      i := i + 1;
    }
  }

  /** The loop of `clearDoneTasks`: collect the unchecked items, delete the checked ones' rows. */
  method Sweep(items: seq<Item>, ghost checks: seq<bool>, db: AdapterStore.Store) returns (remaining: seq<Item>)
    requires db.Valid()
    requires |checks| == |items| && forall j :: 0 <= j < |items| ==> checks[j] == items[j].checked
    modifies db
    ensures db.Valid() && db.nextId == old(db.nextId)
    ensures remaining == Kept(items, checks, |items|)
    ensures db.rows == DeleteAll(old(db.rows), Deleted(items, checks, |items|))
  {
    ghost var deleted: seq<string> := [];
    remaining := [];
    var i := 0;
    while i < |items|
      invariant 0 <= i <= |items|
      invariant db.Valid() && db.nextId == old(db.nextId)
      invariant remaining == Kept(items, checks, i) && deleted == Deleted(items, checks, i)
      invariant db.rows == DeleteAll(old(db.rows), deleted)
    {
      var item := items[i];
      assert item.checked == checks[i];
      if !item.checked {
        remaining := remaining + [item];
        assert deleted + [] == deleted;
      } else {
        assert remaining + [] == remaining;
        DeleteNext(db, old(db.rows), deleted, item.task);
        deleted := deleted + [item.task];
      }
      i := i + 1;
    }
  }

  /** One `deleteTodoItem(t)` after the deletes of `tasks`. */
  method DeleteNext(db: AdapterStore.Store, ghost rows0: seq<AdapterStore.Row>, ghost tasks: seq<string>, t: string)
    requires db.Valid() && db.rows == DeleteAll(rows0, tasks)
    modifies db
    ensures db.Valid() && db.nextId == old(db.nextId)
    ensures db.rows == DeleteAll(rows0, tasks + [t])
  {
    DeleteAllSnoc(rows0, tasks, t);
    db.DeleteTodoItem(t);
  }
}
