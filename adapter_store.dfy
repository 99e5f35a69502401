/**
 * The task table of sqlite_db_adapter.go, the store main.go calls: rows carry an
 * autoincrement id, but deletes and updates pick rows by their task text.
 */
module AdapterStore {
  import opened Wrappers
  import opened Durations
  import opened Timer

  /** One row of the `todos` table. */
  datatype Row = Row(id: nat, task: string, duration: string, remainingTime: string, completed: bool)

  /** The one failure of `getTodoItems` the model keeps: a remaining time that does not parse. */
  datatype StoreError = BadRemainingTime(text: string)

  /** Autoincrement ids: in insertion order, strictly increasing. */
  predicate IdsAscending(rows: seq<Row>) {
    forall i, j :: 0 <= i < j < |rows| ==> rows[i].id < rows[j].id
  }

  /** The row `saveTodoItem` inserts for an item, under the id the table hands out. */
  function RowOf(item: ItemState, id: nat): (row: Row)
    ensures row.id == id && row.task == item.task && row.duration == item.duration
    ensures row.completed == item.checked
    ensures -MaxSeconds <= item.remaining <= MaxSeconds ==>
              ParseDuration(row.remainingTime) == Some(item.remaining)
  {
    var row := Row(id, item.task, item.duration, DurationString(item.remaining), item.checked);
    if -MaxSeconds <= item.remaining <= MaxSeconds then DurationRoundTrip(item.remaining); row else row
  }

  /** The item `getTodoItems` builds from one row, or None when its remaining time does not parse. */
  function LoadRow(row: Row): (r: Option<ItemState>)
    ensures r.Some? <==> ParseDuration(row.remainingTime).Some?
    ensures r.Some? ==> !r.value.running && r.value.done.Some? && r.value.checked == row.completed
    ensures r.Some? ==> r.value.task == row.task && r.value.duration == row.duration
    ensures r.Some? ==> r.value.remaining == r.value.shown == ParseDuration(row.remainingTime).value
  {
    match ParseDuration(row.remainingTime)
    case None => None
    case Some(d) => Some(Loaded(row.completed, row.task, row.duration, d))
  }

  /**
   * The Duration label holds the text chosen in the new-task window (main.go:96), and the
   * `duration` column stores that same text (sqlite_db_adapter.go:38). So reloading the
   * remaining time from the label, as a start after expiry and a reset do (main.go:142, 180),
   * restores the chosen duration, both on the new item and on the item loaded back from its row.
   */
  lemma LabelReloads(task: string, selected: string, id: nat)
    requires ParseDuration(selected).Some?
    ensures Reload(Created(task, selected, ParseDuration(selected).value)) == ParseDuration(selected).value
    ensures LoadRow(RowOf(Created(task, selected, ParseDuration(selected).value), id)).Some?
    ensures Reload(LoadRow(RowOf(Created(task, selected, ParseDuration(selected).value), id)).value)
              == ParseDuration(selected).value
  {
    var d := ParseDuration(selected).value;
    var row := RowOf(Created(task, selected, d), id);
    assert ParseDuration(row.remainingTime) == Some(d);
  }

  /**
   * `getTodoItems`: one item per row, in row order, or the error of the first row whose
   * remaining time does not parse, and then no items at all.
   */
  function LoadRows(rows: seq<Row>): (r: Result<seq<ItemState>, StoreError>)
    ensures r.Ok? <==> forall i :: 0 <= i < |rows| ==> LoadRow(rows[i]).Some?
    ensures r.Ok? ==> |r.value| == |rows|
    ensures r.Ok? ==> forall i :: 0 <= i < |rows| ==> LoadRow(rows[i]) == Some(r.value[i])
    ensures r.Err? ==> exists i :: 0 <= i < |rows| && LoadRow(rows[i]).None? &&
                                   r.error == BadRemainingTime(rows[i].remainingTime) &&
                                   forall j :: 0 <= j < i ==> LoadRow(rows[j]).Some?
    decreases |rows|
  {
    if rows == [] then Ok([])
    else
      var init, last := rows[..|rows| - 1], rows[|rows| - 1];
      assert forall i :: 0 <= i < |init| ==> init[i] == rows[i];
      match LoadRows(init)
      case Err(e) => Err(e)
      case Ok(items) =>
        match LoadRow(last)
        case None => Err(BadRemainingTime(last.remainingTime))
        case Some(item) => Ok(items + [item])
  }

  /** `DELETE FROM todos WHERE task = ?`: every row with that text goes, the rest keep their order. */
  function RemoveTask(rows: seq<Row>, task: string): (r: seq<Row>)
    ensures forall row :: row in r <==> row in rows && row.task != task
    ensures |r| <= |rows|
    ensures (forall row :: row in rows ==> row.task != task) ==> r == rows
    decreases |rows|
  {
    if rows == [] then []
    else (if rows[0].task == task then [] else [rows[0]]) + RemoveTask(rows[1..], task)
  }

  /**
   * `UPDATE todos SET remaining_time = ? WHERE task = ?`: the remaining time of every row with
   * that text is overwritten; nothing else changes.
   */
  function SetRemaining(rows: seq<Row>, task: string, text: string): (r: seq<Row>)
    ensures |r| == |rows|
    ensures forall i :: 0 <= i < |rows| && rows[i].task == task ==> r[i] == rows[i].(remainingTime := text)
    ensures forall i :: 0 <= i < |rows| && rows[i].task != task ==> r[i] == rows[i]
    decreases |rows|
  {
    if rows == [] then []
    else
      var first := if rows[0].task == task then rows[0].(remainingTime := text) else rows[0];
      [first] + SetRemaining(rows[1..], task, text)
  }

  /** The table. */
  class Store {
    var rows: seq<Row>
    /** The id the next insert receives. */
    var nextId: nat

    ghost predicate Valid()
      reads this
    {
      IdsAscending(rows) && forall row :: row in rows ==> row.id < nextId
    }

    /** The table as `initDB` finds it on disk: some rows and the next id to hand out. */
    constructor (existing: seq<Row>, next: nat)
      requires IdsAscending(existing) && forall row :: row in existing ==> row.id < next
      ensures Valid() && rows == existing && nextId == next
    {
      rows := existing;
      nextId := next;
    }

    /** `saveTodoItem`: a new row under a fresh id, even when another row has the same task text. */
    method SaveTodoItem(item: ItemState)
      requires Valid()
      modifies this
      ensures Valid()
      ensures rows == old(rows) + [RowOf(item, old(nextId))] && nextId == old(nextId) + 1
    {
      rows := rows + [RowOf(item, nextId)];
      nextId := nextId + 1;
    }

    /** `getTodoItems`: reads the rows in order, failing on the first bad remaining time. */
    method GetTodoItems() returns (r: Result<seq<ItemState>, StoreError>)
      ensures r == LoadRows(rows)
    {
      var items: seq<ItemState> := [];
      var i := 0;
      while i < |rows|
        invariant 0 <= i <= |rows|
        invariant LoadRows(rows[..i]) == Ok(items)
      {
        var row := rows[i];
        assert rows[..i + 1][..i] == rows[..i];
        match ParseDuration(row.remainingTime) {
          case None =>
            ErrorPersists(rows, i + 1);
            return Err(BadRemainingTime(row.remainingTime));
          case Some(d) =>
            items := items + [Loaded(row.completed, row.task, row.duration, d)];
        }
        i := i + 1;
      }
      assert rows[..i] == rows;
      r := Ok(items);
    }

    /** `deleteTodoItem(task)`. */
    method DeleteTodoItem(task: string)
      requires Valid()
      modifies this
      ensures Valid()
      ensures rows == RemoveTask(old(rows), task) && nextId == old(nextId)
    {
      RemoveKeepsAscending(rows, task);
      rows := RemoveTask(rows, task);
    }

    /** `updateRemainingTime(item)`: the item's remaining time into every row with its task text. */
    method UpdateRemainingTime(item: ItemState)
      requires Valid()
      modifies this
      ensures Valid()
      ensures rows == SetRemaining(old(rows), item.task, DurationString(item.remaining))
      ensures nextId == old(nextId)
    {
      var updated := SetRemaining(rows, item.task, DurationString(item.remaining));
      assert forall i :: 0 <= i < |rows| ==> updated[i].id == rows[i].id;
      assert forall row :: row in updated ==> row.id < nextId by {
        forall row | row in updated
          ensures row.id < nextId
        {
          var i :| 0 <= i < |updated| && updated[i] == row;
          assert rows[i] in rows;
        }
      }
      rows := updated;
    }
  }

  // ---------------------------------------------------------------------------------------
  // Properties

  /** Once a prefix of the rows fails to load, the whole table fails the same way. */
  lemma {:induction false} ErrorPersists(rows: seq<Row>, k: nat)
    requires k <= |rows| && LoadRows(rows[..k]).Err?
    ensures LoadRows(rows) == LoadRows(rows[..k])
    decreases |rows| - k
  {
    if k == |rows| {
      assert rows[..k] == rows;
    } else {
      var init := rows[..|rows| - 1];
      assert init[..k] == rows[..k];
      ErrorPersists(init, k);
    }
  }

  /** Deleting rows keeps the ids in increasing order. */
  lemma {:induction false} RemoveKeepsAscending(rows: seq<Row>, task: string)
    requires IdsAscending(rows)
    ensures IdsAscending(RemoveTask(rows, task))
    decreases |rows|
  {
    if rows != [] {
      var rest := RemoveTask(rows[1..], task);
      assert rows == [rows[0]] + rows[1..];
      AscendingCons(rows[0], rows[1..]);
      RemoveKeepsAscending(rows[1..], task);
      if rows[0].task == task {
        assert RemoveTask(rows, task) == rest;
      } else {
        assert RemoveTask(rows, task) == [rows[0]] + rest;
        AscendingCons(rows[0], rest);
      }
    }
  }

  lemma AscendingCons(x: Row, xs: seq<Row>)
    ensures IdsAscending([x] + xs) <==> (forall y :: y in xs ==> x.id < y.id) && IdsAscending(xs)
  {
    var all := [x] + xs;
    if IdsAscending(all) {
      forall y | y in xs
        ensures x.id < y.id
      {
        var i :| 0 <= i < |xs| && xs[i] == y;
        assert all[0].id < all[i + 1].id;
      }
      forall i, j | 0 <= i < j < |xs|
        ensures xs[i].id < xs[j].id
      {
        assert all[i + 1].id < all[j + 1].id;
      }
    }
    if (forall y :: y in xs ==> x.id < y.id) && IdsAscending(xs) {
      forall i, j | 0 <= i < j < |all|
        ensures all[i].id < all[j].id
      {
        if i == 0 {
          assert all[j] == xs[j - 1];
        } else {
          assert all[i] == xs[i - 1] && all[j] == xs[j - 1];
        }
      }
    }
  }

  /** What `saveTodoItem` writes, `getTodoItems` reads back as a stopped copy of the item. */
  lemma SaveThenLoad(rows: seq<Row>, item: ItemState, id: nat)
    requires LoadRows(rows).Ok? && -MaxSeconds <= item.remaining <= MaxSeconds
    ensures LoadRows(rows + [RowOf(item, id)]) ==
            Ok(LoadRows(rows).value + [Loaded(item.checked, item.task, item.duration, item.remaining)])
  {
    var all := rows + [RowOf(item, id)];
    assert all[..|all| - 1] == rows;
  }

  /**
   * After `updateRemainingTime`, every loaded item with that task text reports the new
   * remaining time, and every other item loads as before.
   */
  lemma UpdateThenLoad(rows: seq<Row>, task: string, d: int)
    requires LoadRows(rows).Ok? && -MaxSeconds <= d <= MaxSeconds
    ensures LoadRows(SetRemaining(rows, task, DurationString(d))).Ok?
    ensures forall i :: 0 <= i < |rows| && rows[i].task == task ==>
              LoadRows(SetRemaining(rows, task, DurationString(d))).value[i].remaining == d
    ensures forall i :: 0 <= i < |rows| && rows[i].task != task ==>
              LoadRows(SetRemaining(rows, task, DurationString(d))).value[i] == LoadRows(rows).value[i]
  {
    DurationRoundTrip(d);
  }

  /**
   * Two items saved with the same task text: deleting "one" of them by its text deletes the
   * rows of both, and updating "one" rewrites both.
   */
  lemma NamesakesCollide(rows: seq<Row>, a: ItemState, b: ItemState, id: nat)
    requires a.task == b.task
    ensures RowOf(b, id + 1) !in RemoveTask(rows + [RowOf(a, id), RowOf(b, id + 1)], a.task)
    ensures SetRemaining(rows + [RowOf(a, id), RowOf(b, id + 1)], a.task, DurationString(a.remaining))[|rows| + 1].remainingTime
            == DurationString(a.remaining)
  {
  }
}
