/**
 * The `TodoItem` of main.go: its timer methods change the item in place, and `StopTimer`
 * writes the remaining time to the task table (sqlite_db_adapter.go) every time it runs.
 */
module MainItem {
  import opened Wrappers
  import opened Durations
  import opened Timer
  import AdapterStore

  class TodoItem {
    /** The checkbox. */
    var checked: bool
    /** The Task and Duration labels, which no code changes after the item is built. */
    const task: string
    const duration: string
    /** The duration the Timer label shows; its text is `FormatTime(shown)`. */
    var shown: int
    var running: bool
    var done: Option<Token>
    var remaining: int
    var channelsMade: nat
    /** How many times the finished sound has been played for this item. */
    ghost var alerts: nat

    function State(): ItemState
      reads this
    {
      ItemState(checked, task, duration, shown, running, done, remaining, channelsMade)
    }

    ghost predicate Valid()
      reads this
    {
      Guarded(State())
    }

    /** The item `saveCallback` or `getTodoItems` has just built. */
    constructor (s: ItemState)
      requires Guarded(s)
      ensures Valid() && State() == s && alerts == 0
    {
      checked, task, duration, shown := s.checked, s.task, s.duration, s.shown;
      running, done, remaining, channelsMade := s.running, s.done, s.remaining, s.channelsMade;
      alerts := 0;
    }

    /** The user ticks or unticks the checkbox. */
    method SetChecked(b: bool)
      requires Valid()
      modifies this
      ensures Valid() && State() == old(State()).(checked := b) && alerts == old(alerts)
    {
      checked := b;
    }

    /** `StartTimer`; the goroutine it launches is `RunTimer`. */
    method StartTimer()
      requires Valid()
      modifies this
      ensures Valid() && State() == Start(old(State())) && alerts == old(alerts)
    {
      if running {
        return;
      }
      if done.None? {
        done := Some(Token(channelsMade));
        channelsMade := channelsMade + 1;
      }
      if remaining <= 0 {
        remaining := ParseOrZero(duration);
      }
      running := true;
    }

    /** `StopTimer`: the store write first, whether or not the item runs; then the stop. */
    method StopTimer(db: AdapterStore.Store)
      requires Valid() && db.Valid()
      modifies this, db
      ensures Valid() && db.Valid() && State() == Stop(old(State())) && alerts == old(alerts)
      ensures db.rows == AdapterStore.SetRemaining(old(db.rows), task, DurationString(old(remaining)))
      ensures db.nextId == old(db.nextId)
    {
      db.UpdateRemainingTime(State());
      if running {
        // close(Done): the channel being closed is never nil
        assert done.Some?;
        running := false;
        done := None;
      }
    }

    /**
     * The body of `runTimer`'s ticker case. When the time is used up the item stops (which
     * writes to the store), the sound plays and `expired` tells the loop to return.
     */
    method Tick(db: AdapterStore.Store) returns (expired: bool)
      requires Valid() && db.Valid() && running
      modifies this, db
      ensures Valid() && db.Valid() && State() == Timer.Tick(old(State()))
      ensures expired <==> !running
      ensures expired ==> db.rows == AdapterStore.SetRemaining(old(db.rows), task, DurationString(remaining))
      ensures expired ==> alerts == old(alerts) + 1
      ensures !expired ==> db.rows == old(db.rows) && alerts == old(alerts)
      ensures db.nextId == old(db.nextId)
    {
      remaining := remaining - 1;
      if remaining <= 0 {
        StopTimer(db);
        alerts := alerts + 1;
        return true;
      }
      shown := remaining;
      return false;
    }

    /** `ResetTimer`: stop (writing the remaining time before the reset), reload, show. */
    method ResetTimer(db: AdapterStore.Store)
      requires Valid() && db.Valid()
      modifies this, db
      ensures Valid() && db.Valid() && State() == Reset(old(State())) && alerts == old(alerts)
      ensures db.rows == AdapterStore.SetRemaining(old(db.rows), task, DurationString(old(remaining)))
      ensures db.nextId == old(db.nextId)
    {
      StopTimer(db);
      remaining := ParseOrZero(duration);
      shown := remaining;
    }

    /**
     * `runTimer` for `ticks` ticker events: it ticks until the time is used up or the
     * events run out (the `Done` case, which returns at once, is the caller stopping it).
     */
    method RunTimer(db: AdapterStore.Store, ticks: nat)
      requires Valid() && db.Valid() && running
      modifies this, db
      ensures Valid() && db.Valid() && State() == Run(old(State()), ticks)
      ensures running ==> db.rows == old(db.rows) && alerts == old(alerts)
      ensures !running ==> db.rows == AdapterStore.SetRemaining(old(db.rows), task, DurationString(remaining))
      ensures !running ==> alerts == old(alerts) + 1
    {
      var i := 0;
      while i < ticks && running
        invariant 0 <= i <= ticks
        invariant Valid() && db.Valid()
        invariant State() == Run(old(State()), i)
        invariant running ==> db.rows == old(db.rows) && alerts == old(alerts)
        invariant !running ==> db.rows == AdapterStore.SetRemaining(old(db.rows), task, DurationString(remaining))
        invariant !running ==> alerts == old(alerts) + 1
        decreases ticks - i
      {
        RunStep(old(State()), i);
        var expired := Tick(db);
        i := i + 1;
      }
      if i < ticks {
        RunStopped(old(State()), i, ticks);
      }
    }
  }
}
