/**
 * The task table of sqlite_db_repository.go: each row is keyed by the item's UUID, the
 * PRIMARY KEY of the table, and deletes and updates pick the row by that id.
 */
module RepositoryStore {
  import opened Wrappers
  import opened Durations
  import opened Timer

  /** A UUID in its text form, as `ID.String()` writes it. */
  type Uuid = string

  /** One row of the `todos` table. */
  datatype Row = Row(id: Uuid, task: string, duration: string, remainingTime: string, completed: bool)

  /** An item of this variant: the timer fields and the `ID` the table is keyed by. */
  datatype Record = Record(id: Uuid, item: ItemState)

  datatype StoreError =
    | DuplicateId(id: Uuid)           // the INSERT violates the PRIMARY KEY
    | BadRemainingTime(text: string)  // a stored remaining time does not parse

  /** The PRIMARY KEY constraint. */
  predicate IdsDistinct(rows: seq<Row>) {
    forall i, j :: 0 <= i < j < |rows| ==> rows[i].id != rows[j].id
  }

  predicate HasId(rows: seq<Row>, id: Uuid) {
    exists i :: 0 <= i < |rows| && rows[i].id == id
  }

  /** The row `saveTodoItem` inserts for an item. */
  function RowOf(rec: Record): (row: Row)
    ensures row.id == rec.id && row.task == rec.item.task && row.duration == rec.item.duration
    ensures row.completed == rec.item.checked
    ensures -MaxSeconds <= rec.item.remaining <= MaxSeconds ==>
              ParseDuration(row.remainingTime) == Some(rec.item.remaining)
  {
    var row := Row(rec.id, rec.item.task, rec.item.duration, DurationString(rec.item.remaining), rec.item.checked);
    if -MaxSeconds <= rec.item.remaining <= MaxSeconds then DurationRoundTrip(rec.item.remaining); row else row
  }

  /** The INSERT: refused when the id is taken, otherwise one more row at the end. */
  function Insert(rows: seq<Row>, row: Row): (r: Result<seq<Row>, StoreError>)
    requires IdsDistinct(rows)
    ensures r.Err? <==> HasId(rows, row.id)
    ensures r.Err? ==> r.error == DuplicateId(row.id)
    ensures r.Ok? ==> IdsDistinct(r.value) && HasId(r.value, row.id) && |r.value| == |rows| + 1
    ensures r.Ok? ==> r.value[..|rows|] == rows && r.value[|rows|] == row
  {
    if HasId(rows, row.id) then Err(DuplicateId(row.id))
    else
      var all := rows + [row];
      assert all[|rows|].id == row.id;
      Ok(all)
  }

  /** The record `getTodoItems` builds from one row, or None when its remaining time does not parse. */
  function LoadRow(row: Row): (r: Option<Record>)
    ensures r.Some? <==> ParseDuration(row.remainingTime).Some?
    ensures r.Some? ==> r.value.id == row.id && r.value.item.task == row.task
    ensures r.Some? ==> r.value.item.duration == row.duration && r.value.item.checked == row.completed
    ensures r.Some? ==> !r.value.item.running && r.value.item.done.Some?
    ensures r.Some? ==> r.value.item.remaining == r.value.item.shown == ParseDuration(row.remainingTime).value
  {
    match ParseDuration(row.remainingTime)
    case None => None
    case Some(d) => Some(Record(row.id, Loaded(row.completed, row.task, row.duration, d)))
  }

  /** `getTodoItems`: one record per row, or the error of the first row that does not parse. */
  function LoadRows(rows: seq<Row>): (r: Result<seq<Record>, StoreError>)
    ensures r.Ok? <==> forall i :: 0 <= i < |rows| ==> LoadRow(rows[i]).Some?
    ensures r.Ok? ==> |r.value| == |rows|
    ensures r.Ok? ==> forall i :: 0 <= i < |rows| ==> LoadRow(rows[i]) == Some(r.value[i])
    ensures r.Err? ==> exists i :: 0 <= i < |rows| && LoadRow(rows[i]).None? &&
                                   r.error == BadRemainingTime(rows[i].remainingTime) &&
                                   forall j :: 0 <= j < i ==> LoadRow(rows[j]).Some?
    decreases |rows|
  {
    if rows == [] then Ok([])
    else
      var init, last := rows[..|rows| - 1], rows[|rows| - 1];
      assert forall i :: 0 <= i < |init| ==> init[i] == rows[i];
      match LoadRows(init)
      case Err(e) => Err(e)
      case Ok(records) =>
        match LoadRow(last)
        case None => Err(BadRemainingTime(last.remainingTime))
        case Some(rec) => Ok(records + [rec])
  }

  /** `DELETE FROM todos WHERE id = ?`: only the row with that id goes; a missing id is no error. */
  function RemoveId(rows: seq<Row>, id: Uuid): (r: seq<Row>)
    ensures forall row :: row in r <==> row in rows && row.id != id
    ensures !HasId(rows, id) ==> r == rows
    decreases |rows|
  {
    if rows == [] then []
    else (if rows[0].id == id then [] else [rows[0]]) + RemoveId(rows[1..], id)
  }

  /** `UPDATE todos SET remaining_time = ? WHERE id = ?`: one column of at most one row changes. */
  function SetRemaining(rows: seq<Row>, id: Uuid, text: string): (r: seq<Row>)
    ensures |r| == |rows|
    ensures forall i :: 0 <= i < |rows| && rows[i].id == id ==> r[i] == rows[i].(remainingTime := text)
    ensures forall i :: 0 <= i < |rows| && rows[i].id != id ==> r[i] == rows[i]
    decreases |rows|
  {
    if rows == [] then []
    else
      var first := if rows[0].id == id then rows[0].(remainingTime := text) else rows[0];
      [first] + SetRemaining(rows[1..], id, text)
  }

  /** The table. */
  class Store {
    var rows: seq<Row>

    ghost predicate Valid()
      reads this
    {
      IdsDistinct(rows)
    }

    /** The table as `initDB` finds it on disk. */
    constructor (existing: seq<Row>)
      requires IdsDistinct(existing)
      ensures Valid() && rows == existing
    {
      rows := existing;
    }

    /** `saveTodoItem`: inserts the record's row, or reports the id already taken. */
    method SaveTodoItem(rec: Record) returns (err: Option<StoreError>)
      requires Valid()
      modifies this
      ensures Valid()
      ensures Insert(old(rows), RowOf(rec)).Ok? ==> err.None? && rows == Insert(old(rows), RowOf(rec)).value
      ensures Insert(old(rows), RowOf(rec)).Err? ==> err == Some(DuplicateId(rec.id)) && rows == old(rows)
    {
      match Insert(rows, RowOf(rec)) {
        case Err(e) =>
          err := Some(e);
        case Ok(updated) =>
          rows := updated;
          err := None;
      }
    }

    /** `getTodoItems`: reads the rows in order, failing on the first bad remaining time. */
    method GetTodoItems() returns (r: Result<seq<Record>, StoreError>)
      ensures r == LoadRows(rows)
    {
      var records: seq<Record> := [];
      var i := 0;
      while i < |rows|
        invariant 0 <= i <= |rows|
        invariant LoadRows(rows[..i]) == Ok(records)
      {
        var row := rows[i];
        assert rows[..i + 1][..i] == rows[..i];
        match ParseDuration(row.remainingTime) {
          case None =>
            ErrorPersists(rows, i + 1);
            return Err(BadRemainingTime(row.remainingTime));
          case Some(d) =>
            records := records + [Record(row.id, Loaded(row.completed, row.task, row.duration, d))];
        }
        i := i + 1;
      }
      assert rows[..i] == rows;
      r := Ok(records);
    }

    /** `deleteTodoItem(item)`. */
    method DeleteTodoItem(rec: Record)
      requires Valid()
      modifies this
      ensures Valid()
      ensures rows == RemoveId(old(rows), rec.id)
    {
      RemoveKeepsDistinct(rows, rec.id);
      rows := RemoveId(rows, rec.id);
    }

    /** `updateRemainingTime(item)`. */
    method UpdateRemainingTime(rec: Record)
      requires Valid()
      modifies this
      ensures Valid()
      ensures rows == SetRemaining(old(rows), rec.id, DurationString(rec.item.remaining))
    {
      var updated := SetRemaining(rows, rec.id, DurationString(rec.item.remaining));
      assert forall i :: 0 <= i < |rows| ==> updated[i].id == rows[i].id;
      rows := updated;
    }
  }

  // ---------------------------------------------------------------------------------------
  // Properties

  /** Once a prefix of the rows fails to load, the whole table fails the same way. */
  lemma {:induction false} ErrorPersists(rows: seq<Row>, k: nat)
    requires k <= |rows| && LoadRows(rows[..k]).Err?
    ensures LoadRows(rows) == LoadRows(rows[..k])
    decreases |rows| - k
  {
    if k == |rows| {
      assert rows[..k] == rows;
    } else {
      var init := rows[..|rows| - 1];
      assert init[..k] == rows[..k];
      ErrorPersists(init, k);
    }
  }

  /** Deleting rows keeps the ids distinct. */
  lemma {:induction false} RemoveKeepsDistinct(rows: seq<Row>, id: Uuid)
    requires IdsDistinct(rows)
    ensures IdsDistinct(RemoveId(rows, id))
    decreases |rows|
  {
    if rows != [] {
      var rest := RemoveId(rows[1..], id);
      assert rows == [rows[0]] + rows[1..];
      DistinctCons(rows[0], rows[1..]);
      RemoveKeepsDistinct(rows[1..], id);
      if rows[0].id == id {
        assert RemoveId(rows, id) == rest;
      } else {
        assert RemoveId(rows, id) == [rows[0]] + rest;
        DistinctCons(rows[0], rest);
      }
    }
  }

  lemma DistinctCons(x: Row, xs: seq<Row>)
    ensures IdsDistinct([x] + xs) <==> (forall y :: y in xs ==> x.id != y.id) && IdsDistinct(xs)
  {
    var all := [x] + xs;
    if IdsDistinct(all) {
      forall y | y in xs
        ensures x.id != y.id
      {
        var i :| 0 <= i < |xs| && xs[i] == y;
        assert all[0].id != all[i + 1].id;
      }
      forall i, j | 0 <= i < j < |xs|
        ensures xs[i].id != xs[j].id
      {
        assert all[i + 1].id != all[j + 1].id;
      }
    }
    if (forall y :: y in xs ==> x.id != y.id) && IdsDistinct(xs) {
      forall i, j | 0 <= i < j < |all|
        ensures all[i].id != all[j].id
      {
        if i == 0 {
          assert all[j] == xs[j - 1];
        } else {
          assert all[i] == xs[i - 1] && all[j] == xs[j - 1];
        }
      }
    }
  }

  /** Saving a record and deleting it again leaves the table as it was. */
  lemma {:induction false} SaveThenDelete(rows: seq<Row>, rec: Record)
    requires IdsDistinct(rows) && Insert(rows, RowOf(rec)).Ok?
    ensures RemoveId(Insert(rows, RowOf(rec)).value, rec.id) == rows
  {
    assert Insert(rows, RowOf(rec)).value == rows + [RowOf(rec)];
    assert forall i :: 0 <= i < |rows| ==> rows[i].id != rec.id;
    RemoveAppended(rows, RowOf(rec));
  }

  lemma {:induction false} RemoveAppended(rows: seq<Row>, row: Row)
    requires forall i :: 0 <= i < |rows| ==> rows[i].id != row.id
    ensures RemoveId(rows + [row], row.id) == rows
    decreases |rows|
  {
    var all := rows + [row];
    if rows == [] {
      assert all[1..] == [];
    } else {
      assert all[0] == rows[0] && all[1..] == rows[1..] + [row];
      assert RemoveId(all, row.id) == [rows[0]] + RemoveId(rows[1..] + [row], row.id);
      RemoveAppended(rows[1..], row);
      assert rows == [rows[0]] + rows[1..];
    }
  }

  /**
   * The delete keeps the order of the rows it leaves: deleting from a table with one more row
   * at the end gives the shorter table's result, with that row after it unless it is the one
   * deleted.
   */
  lemma {:induction false} RemoveIdSnoc(rows: seq<Row>, row: Row, id: Uuid)
    ensures RemoveId(rows + [row], id) == RemoveId(rows, id) + if row.id == id then [] else [row]
    decreases |rows|
  {
    var last := if row.id == id then [] else [row];
    if rows == [] {
      assert rows + [row] == [row] + [];
      RemoveIdCons(row, [], id);
    } else {
      var x, xs := rows[0], rows[1..];
      assert rows == [x] + xs && rows + [row] == [x] + (xs + [row]);
      RemoveIdCons(x, xs + [row], id);
      RemoveIdCons(x, xs, id);
      RemoveIdSnoc(xs, row, id);
      Associative(if x.id == id then [] else [x], RemoveId(xs, id), last);
    }
  }

  /** The delete looks at the first row, then at the rest. */
  lemma RemoveIdCons(x: Row, xs: seq<Row>, id: Uuid)
    ensures RemoveId([x] + xs, id) == (if x.id == id then [] else [x]) + RemoveId(xs, id)
  {
    assert ([x] + xs)[0] == x && ([x] + xs)[1..] == xs;
  }

  lemma Associative(a: seq<Row>, b: seq<Row>, c: seq<Row>)
    ensures a + (b + c) == (a + b) + c
  {
  }

  /** Loading one more row that parses adds one more record at the end. */
  lemma LoadAppended(rows: seq<Row>, row: Row)
    requires LoadRows(rows).Ok? && LoadRow(row).Some?
    ensures LoadRows(rows + [row]) == Ok(LoadRows(rows).value + [LoadRow(row).value])
  {
    var all := rows + [row];
    assert all[..|all| - 1] == rows && all[|all| - 1] == row;
  }

  /** A saved record loads back, stopped, under its own id. */
  lemma SaveThenLoad(rows: seq<Row>, rec: Record)
    requires IdsDistinct(rows) && Insert(rows, RowOf(rec)).Ok? && LoadRows(rows).Ok?
    requires -MaxSeconds <= rec.item.remaining <= MaxSeconds
    ensures LoadRows(Insert(rows, RowOf(rec)).value) ==
            Ok(LoadRows(rows).value +
               [Record(rec.id, Loaded(rec.item.checked, rec.item.task, rec.item.duration, rec.item.remaining))])
  {
    var row := RowOf(rec);
    assert Insert(rows, row).value == rows + [row];
    LoadAppended(rows, row);
  }

  /**
   * After `updateRemainingTime`, the record with that id loads with the new remaining time,
   * and every other record loads as before.
   */
  lemma UpdateThenLoad(rows: seq<Row>, id: Uuid, d: int)
    requires LoadRows(rows).Ok? && -MaxSeconds <= d <= MaxSeconds
    ensures LoadRows(SetRemaining(rows, id, DurationString(d))).Ok?
    ensures forall i :: 0 <= i < |rows| && rows[i].id == id ==>
              LoadRows(SetRemaining(rows, id, DurationString(d))).value[i].item.remaining == d
    ensures forall i :: 0 <= i < |rows| && rows[i].id != id ==>
              LoadRows(SetRemaining(rows, id, DurationString(d))).value[i] == LoadRows(rows).value[i]
  {
    DurationRoundTrip(d);
  }

  /** A second save under the same id is refused and changes nothing. */
  lemma SaveTwiceRefused(rows: seq<Row>, rec: Record, other: Record)
    requires IdsDistinct(rows) && Insert(rows, RowOf(rec)).Ok? && other.id == rec.id
    ensures Insert(Insert(rows, RowOf(rec)).value, RowOf(other)) == Err(DuplicateId(rec.id))
  {
  }

  /**
   * Two records with the same task text but different ids are independent: deleting or
   * updating one leaves the other's row as it was.
   */
  lemma NamesakesIndependent(rows: seq<Row>, a: Record, b: Record, text: string)
    requires a.item.task == b.item.task && a.id != b.id
    requires RowOf(b) in rows
    ensures RowOf(b) in RemoveId(rows, a.id)
    ensures RowOf(b) in SetRemaining(rows, a.id, text)
  {
    var i :| 0 <= i < |rows| && rows[i] == RowOf(b);
    assert SetRemaining(rows, a.id, text)[i] == rows[i];
  }
}
