# GoDo timer and task table, modelled in Dafny

GoDo is a desktop to-do list in which every task has a countdown timer. This project models
the part of it that is not GUI code:

- the `formatTime` display of a duration (`HH:MM:SS`, modules `Decimal` and `Durations`);
- the whole-second subset of the two Go library calls the program depends on,
  `time.ParseDuration` and `time.Duration.String` (module `Durations`);
- the per-item countdown, with `StartTimer`, one tick of the `runTimer` goroutine, `StopTimer`
  and `ResetTimer`:
  - once as a state machine on values (module `Timer`), where its properties are proved;
  - twice as classes that update their fields in place, the `TodoItem` of main.go (module
    `MainItem`, whose `StopTimer` writes to the task table) and the `TodoItem` of todo.go
    (module `DraftItem`, which never writes);
- the two drafts of the task table:
  - sqlite_db_adapter.go (module `AdapterStore`): autoincrement ids, with deletes and updates
    matched by task text. main.go calls this one.
  - sqlite_db_repository.go (module `RepositoryStore`): rows keyed by a UUID primary key.
- the global `todoList` of main.go with startup loading, `saveCallback` and `clearDoneTasks`
  (module `Registry`).

Durations are whole seconds (`int`). A `chan bool` is modelled as `Option<Token>`, where `None`
is a nil channel. Each item counts the channels it has made, so "a fresh channel" can be
stated. The Timer label is the duration it shows (`shown`). Its text is always
`FormatTime(shown)`, because every `SetText` in the source passes `formatTime` of a duration.
The sound played at expiry is a ghost counter `alerts`.

Behaviour of the code worth knowing, which the model keeps:

- `StopTimer` in main.go writes the remaining time to the table every time it runs, even on a
  stopped item (main.go:170).
- `ResetTimer` writes to the table only through its `StopTimer`, so the value written is the
  one before the reset; the reloaded duration is not written (main.go:178-182).
- When the countdown reaches zero, the label keeps its last text, "00:00:01"; the countdown
  never sets it to "00:00:00" (main.go:156-162). An item loaded from a row whose remaining
  time is "0s" does show "00:00:00" (sqlite_db_adapter.go:67). There is no terminal expired
  state: a stopped item at zero reloads its full duration on the next start (main.go:141-143).
- `clearDoneTasks` deletes rows by task text (main.go:206), so it also removes the rows of
  unchecked items that share a checked item's text. It does not stop the timers of the items
  it removes.
- The store main.go calls matches rows by task text, not by an id; only the UUID draft of the
  store (sqlite_db_repository.go) keys its rows by an id.

## Model

| member | source | states |
|---|---|---|
| Decimal.ValueOfDec | main.go:185 | the digits `%d` prints for a non-negative number read back to that number |
| Durations.Rem | main.go:185 | Go's `%`: equal to Euclidean `%` for a non-negative dividend; for a negative dividend the negated remainder of its magnitude (so `-1 % 60` is `-1`, not 59); strictly between `-b` and `b` |
| Durations.Pad2 | main.go:185 | `%02d` of a non-negative number is all digits with that value; exactly two characters below 100, and from 10 on no leading zero; a negative number is '-' and the digits of its magnitude, without leading zero |
| Durations.FormatTime | main.go:184-186 | for every non-negative duration, the display reads back (hours, minutes mod 60, seconds mod 60) to exactly that duration |
| Durations.FormatTimeWidth | main.go:184-186 | the display of a non-negative duration is exactly 8 characters iff the duration is under 360000 s (100 hours); from 100 hours on it does not start with '0' |
| Durations.FormatOneSecond | main.go:184-186 | one second displays as "00:00:01" |
| Durations.ParseDuration | main.go:85-89 | the empty string is rejected; every accepted duration lies within the int64 nanosecond range |
| Durations.DurationString | sqlite_db_adapter.go:38 | `Duration.String` ends in 's', starts with '-' iff the duration is negative, and otherwise starts with a digit that is '0' only for the zero duration |
| Durations.DurationRoundTrip | sqlite_db_adapter.go:38-58 | `ParseDuration(Duration.String(d)) == d` for every whole-second duration in the int64 range |
| Durations.SelectOptions | main.go:75 | the six choices "10s", "1m", "15m", "30m", "1h" and "3h" all parse, to 10, 60, 900, 1800, 3600 and 10800 s |
| Timer.Start | main.go:131-147 | a running item is unchanged; otherwise the item runs, gets a new channel only if it had none, and reloads its remaining time from the Duration label only when that time is ≤ 0 |
| Timer.Stop | main.go:171-175 | the item ends stopped; a running item loses its channel; a stopped item is unchanged; the remaining time and the label are kept |
| Timer.Tick | main.go:155-162 | exactly one second off; the item keeps running iff time is left; if it keeps running the label shows the new time, and otherwise the item stops and the label keeps its old value |
| Timer.Reset | main.go:178-182 | the item ends stopped, with the remaining time and the label both equal to the reparsed Duration label |
| Timer.Created | main.go:91-99 | a new item is guarded, stopped, and has the parsed duration as both its remaining time and its label |
| Timer.Loaded | sqlite_db_adapter.go:63-72 | a loaded item is guarded and stopped, holds a channel, and has the stored remaining time as its remaining time and its label |
| Timer.Run | main.go:149-167 | after `ticks` tick events at most `ticks` seconds are gone, exactly `ticks` if the item still runs; a stopped item is unchanged; the guard and the checkbox, task and duration are kept |
| Timer.GuardPreserved | main.go:137-175 | start, stop, reset and tick keep "running implies a channel", so `StopTimer` never closes a nil channel |
| Timer.Idempotent | todo.go:21-65 | starting twice equals starting once, and stopping twice equals stopping once |
| Timer.StopStartResumes | main.go:137-145 | stop then start resumes with the same remaining time, on a channel different from the old one |
| Timer.ResetStartRestarts | main.go:178-182 | after a reset, starting runs the full duration from the label again |
| Timer.LastTickKeepsLabel | main.go:156-162 | the tick on the last second stops the item at 0 while the label still reads "00:00:01" |
| Timer.Countdown | main.go:153-166 | while time is left, n ticks take off exactly n seconds; the item keeps running and keeps the same channel, task and duration |
| Timer.Expires | main.go:153-166 | once `remaining` ticks have arrived the item is stopped at 0 with no channel |
| Timer.StoppedStays | main.go:157-160 | ticks do nothing to a stopped item (its goroutine has returned) |
| Timer.RunStopped | main.go:157-160 | once the loop has stopped, further tick events change nothing |
| MainItem.TodoItem.constructor | main.go:91-99 | builds an item whose fields are the given guarded state |
| MainItem.TodoItem.SetChecked | main.go:92-94 | only the checkbox changes |
| MainItem.TodoItem.StartTimer | main.go:131-147 | the fields become `Timer.Start` of the old fields |
| MainItem.TodoItem.StopTimer | main.go:169-176 | writes the remaining time to every row with the item's task text, whether or not the item runs; then the fields become `Timer.Stop` of the old fields |
| MainItem.TodoItem.Tick | main.go:155-162 | the fields become `Timer.Tick` of the old fields; on expiry the table gets the final remaining time and one sound plays; otherwise the table is untouched |
| MainItem.TodoItem.ResetTimer | main.go:178-182 | the fields become `Timer.Reset` of the old fields; the table gets the remaining time from before the reset |
| MainItem.TodoItem.RunTimer | main.go:149-167 | after n tick events the fields equal `Timer.Run` of the old fields; the table and the sound change only if the item expired |
| DraftItem.TodoItem.constructor | todo.go:10-19 | builds an item whose fields are the given guarded state |
| DraftItem.TodoItem.StartTimer | todo.go:21-37 | the fields become `Timer.Start` of the old fields |
| DraftItem.TodoItem.StopTimer | todo.go:59-65 | the fields become `Timer.Stop` of the old fields; nothing is written anywhere |
| DraftItem.TodoItem.Tick | todo.go:45-52 | the fields become `Timer.Tick` of the old fields; one sound on expiry |
| DraftItem.TodoItem.ResetTimer | todo.go:67-71 | the fields become `Timer.Reset` of the old fields |
| DraftItem.TodoItem.RunTimer | todo.go:39-57 | after n tick events the fields equal `Timer.Run` of the old fields |
| AdapterStore.RowOf | sqlite_db_adapter.go:36-40 | the inserted row carries the id it is given, the task, the duration and the completed flag, and its remaining-time text parses back to the item's remaining time |
| AdapterStore.LoadRow | sqlite_db_adapter.go:51-73 | a row loads iff its remaining time parses; the loaded item is stopped, holds a channel, and has the checkbox = completed and remaining time = label = the parsed value |
| AdapterStore.LoadRows | sqlite_db_adapter.go:42-76 | all or nothing: Ok iff every row loads, then one item per row in row order; otherwise the error names the first row that does not parse |
| AdapterStore.LabelReloads | main.go:141-143 | for a duration text chosen in the new-task window (the Duration label of main.go:96, stored as the `duration` column at sqlite_db_adapter.go:38), reloading the remaining time from the Duration label gives the chosen duration, on the new item and on the item loaded back from its saved row |
| AdapterStore.RemoveTask | sqlite_db_adapter.go:78-81 | exactly the rows with that task text go, including the rows of other items with the same text |
| AdapterStore.SetRemaining | sqlite_db_adapter.go:83-86 | every row with that task text gets the new remaining time; every other row is unchanged |
| AdapterStore.Store.constructor | sqlite_db_adapter.go:20-28 | the table starts with the given rows and next id |
| AdapterStore.Store.SaveTodoItem | sqlite_db_adapter.go:36-40 | appends one row under the next autoincrement id, even when the task text is already present |
| AdapterStore.Store.GetTodoItems | sqlite_db_adapter.go:42-76 | the row loop returns exactly `LoadRows` of the table |
| AdapterStore.Store.DeleteTodoItem | sqlite_db_adapter.go:78-81 | the rows become `RemoveTask` of the old rows; ids stay ascending |
| AdapterStore.Store.UpdateRemainingTime | sqlite_db_adapter.go:83-86 | the rows become `SetRemaining` of the old rows with the item's `Duration.String` |
| AdapterStore.ErrorPersists | sqlite_db_adapter.go:53-61 | once a prefix of the rows fails to load, the whole table fails with the same error |
| AdapterStore.RemoveKeepsAscending | sqlite_db_adapter.go:78-81 | deleting by text keeps the autoincrement ids in increasing order |
| AdapterStore.SaveThenLoad | sqlite_db_adapter.go:36-76 | a saved item loads back, after the earlier items, as a stopped copy with the same task, duration, checkbox and remaining time |
| AdapterStore.UpdateThenLoad | sqlite_db_adapter.go:83-86 | after an update, every item with that text loads with the new remaining time, and every other item loads as before |
| AdapterStore.NamesakesCollide | sqlite_db_adapter.go:78-86 | with two saved items sharing a task text, a delete for one removes the other's row, and an update for one rewrites the other's row |
| RepositoryStore.RowOf | sqlite_db_repository.go:36-40 | the inserted row carries the record's id, task, duration and completed flag, and its remaining-time text parses back |
| RepositoryStore.Insert | sqlite_db_repository.go:22-39 | an insert fails iff the id is already present (the PRIMARY KEY); otherwise exactly one row is appended and ids stay distinct |
| RepositoryStore.LoadRow | sqlite_db_repository.go:56-76 | a row loads iff its remaining time parses; the record keeps the row's id and is stopped with a channel and checkbox = completed |
| RepositoryStore.LoadRows | sqlite_db_repository.go:42-80 | all or nothing: one record per row in row order, or the error of the first row that does not parse |
| RepositoryStore.RemoveId | sqlite_db_repository.go:82-85 | exactly the row with that id goes; a missing id leaves the table unchanged |
| RepositoryStore.RemoveIdSnoc | sqlite_db_repository.go:82-85 | the delete keeps the order of the rows it leaves: a row appended to the table stays last, unless it is the one deleted |
| RepositoryStore.SetRemaining | sqlite_db_repository.go:87-90 | only the row with that id changes, and only in its remaining time |
| RepositoryStore.Store.constructor | sqlite_db_repository.go:21-28 | the table starts with the given rows, which have distinct ids |
| RepositoryStore.Store.SaveTodoItem | sqlite_db_repository.go:36-40 | inserts the record's row, or returns the duplicate-id error and leaves the table unchanged |
| RepositoryStore.Store.GetTodoItems | sqlite_db_repository.go:42-80 | the row loop returns exactly `LoadRows` of the table |
| RepositoryStore.Store.DeleteTodoItem | sqlite_db_repository.go:82-85 | the rows become `RemoveId` of the old rows |
| RepositoryStore.Store.UpdateRemainingTime | sqlite_db_repository.go:87-90 | the rows become `SetRemaining` of the old rows with the record's `Duration.String` |
| RepositoryStore.ErrorPersists | sqlite_db_repository.go:56-64 | once a prefix of the rows fails to load, the whole table fails with the same error |
| RepositoryStore.RemoveKeepsDistinct | sqlite_db_repository.go:82-85 | deleting keeps the ids distinct |
| RepositoryStore.SaveThenDelete | sqlite_db_repository.go:36-85 | saving a record and deleting it again restores the table |
| RepositoryStore.SaveThenLoad | sqlite_db_repository.go:36-80 | a saved record loads back, after the earlier ones, as a stopped copy under the same id |
| RepositoryStore.SaveTwiceRefused | sqlite_db_repository.go:22-39 | a second save under the same id is refused |
| RepositoryStore.UpdateThenLoad | sqlite_db_repository.go:87-90 | after an update, the record with that id loads with the new remaining time, and the others load as before |
| RepositoryStore.NamesakesIndependent | sqlite_db_repository.go:82-90 | records sharing a task text but not an id are deleted and updated independently |
| Registry.ClearCounts | main.go:202-208 | every item is either kept or named by exactly one delete |
| Registry.KeptUnchecked | main.go:202-208 | only unchecked items are kept |
| Registry.UncheckedKept | main.go:202-208 | every unchecked item is kept |
| Registry.DeletedChecked | main.go:202-208 | the deletes name exactly the task texts of the checked items |
| Registry.DeleteAll | main.go:206 | after the deletes, a row survives iff it was there and its text is not among the deleted texts |
| Registry.DeleteAllKeepsAscending | main.go:206 | a series of deletes keeps the autoincrement ids ascending |
| Registry.ClearHitsNamesakes | main.go:200-209 | an unchecked item sharing its text with a checked one stays in the list but loses its rows |
| Registry.TodoList.constructor | main.go:50 | startup loads one item per row in order; a load error leaves the list empty |
| Registry.Build | sqlite_db_adapter.go:63-73 | one new item object per loaded state, in order |
| Registry.TodoList.SaveCallback | main.go:79-105 | an empty description or an unparsable duration changes nothing; otherwise exactly one new stopped item goes at the end and its row into the table |
| Registry.TodoList.ClearDoneTasks | main.go:200-211 | the list becomes exactly its unchecked items in order; there is one delete per checked item; no item's state changes, so no timer is stopped |
| Registry.Sweep | main.go:201-208 | the loop's kept items and table equal `Kept` and `DeleteAll` of the deleted texts |
| Registry.DeleteNext | main.go:206 | one more delete, after the earlier ones |

## Left out

- The Fyne GUI (`main` apart from its load, `makeGUI`, `buildTodoList`, the toolbar, the
  logo, the theme), util.go, theme.go and new_todo_window.go are not part of this model. The
  window builder's only logic repeats `saveCallback` without the save.
- Concurrency: the goroutine, the ticker and the `select` are left out. `RunTimer` runs the
  loop body once per tick event, in sequence. The `Done` case is the caller stopping the item.
  Races between a tick and a stop, and unsynchronised writes to `RemainingTime`, are not modelled.
- `close(Done)` is modelled as dropping the token, at a point where the item classes assert
  that a token is held. A goroutine blocked on the channel is not modelled.
- `playSound` runs an external process. It is the ghost counter `alerts`.
- The SQL engine, `sql.Open`, `initDB` and the table DDL are not modelled. The adapter's
  `CREATE TABLE` (sqlite_db_adapter.go:20-28) declares `remaining_time` twice and misses a
  comma. The model assumes the table it was evidently meant to create.
- Row order: `getTodoItems` reads with a `SELECT` that has no `ORDER BY`
  (sqlite_db_adapter.go:43, sqlite_db_repository.go:43), so SQL promises no order. The model
  fixes the read order to insertion order, the order SQLite scans a rowid table in. `LoadRows`,
  both `SaveThenLoad` lemmas and the item order of `Registry.TodoList.constructor` rely on it.
- The diagnostics the source prints are not modelled: "TIMER ALREADY STARTED" (main.go:133,
  todo.go:23) and the two `saveCallback` messages (main.go:80, main.go:86). The operations
  that print them return without changing anything, and the model keeps that.
- Query, scan and `Exec` errors (I/O) are not modelled. The errors returned by the store calls
  are ignored in main.go, as the model does. Only the duration-parse failure of
  `getTodoItems` is kept.
- Durations.ParseDuration: accepts only whole-second input (optional sign, "0", or components
  with the units h, m and s). Go also accepts fractions and the units ns, us, µs and ms; those
  inputs are rejected here.
- Durations.DurationString: prints whole seconds only. Go's sub-second forms such as "1.5s" and
  "300ms" cannot arise.
- The `float64` conversions in `formatTime` (`d.Hours()`, `d.Minutes()`, `d.Seconds()`) are
  replaced by Go's truncating integer division. For whole seconds this gives the same fields:
  each of those methods adds a fraction below one to an exact integer part, and `int()`
  truncates toward zero.
- The int64 range of `time.Duration`: it bounds what `ParseDuration` accepts. The wrap-around
  of `RemainingTime -= time.Second` below the int64 minimum is not modelled. Remaining times
  are unbounded integers.
- The `Stopwatch` field is never used by either draft.
- The UUID draft reads `item.ID`, which neither shown `TodoItem` declares. The model pairs
  each item state with an id in `RepositoryStore.Record`. Scanning that id from its text form
  is not modelled; ids are strings.
