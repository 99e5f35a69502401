/**
 * The `TodoItem` of todo.go: the same timer methods as main.go's, but nothing is written to
 * a store, so stopping a stopped item changes nothing at all.
 */
module DraftItem {
  import opened Wrappers
  import opened Durations
  import opened Timer

  class TodoItem {
    var checked: bool
    const task: string
    const duration: string
    /** The duration the Timer label shows; its text is `FormatTime(shown)`. */
    var shown: int
    var running: bool
    var done: Option<Token>
    var remaining: int
    var channelsMade: nat
    /** How many times the finished sound has been played for this item. */
    ghost var alerts: nat

    function State(): ItemState
      reads this
    {
      ItemState(checked, task, duration, shown, running, done, remaining, channelsMade)
    }

    ghost predicate Valid()
      reads this
    {
      Guarded(State())
    }

    constructor (s: ItemState)
      requires Guarded(s)
      ensures Valid() && State() == s && alerts == 0
    {
      checked, task, duration, shown := s.checked, s.task, s.duration, s.shown;
      running, done, remaining, channelsMade := s.running, s.done, s.remaining, s.channelsMade;
      alerts := 0;
    }

    /** `StartTimer`; the goroutine it launches is `RunTimer`. */
    method StartTimer()
      requires Valid()
      modifies this
      ensures Valid() && State() == Start(old(State())) && alerts == old(alerts)
    {
      if running {
        return;
      }
      if done.None? {
        done := Some(Token(channelsMade));
        channelsMade := channelsMade + 1;
      }
      if remaining <= 0 {
        remaining := ParseOrZero(duration);
      }
      running := true;
    }

    /** `StopTimer`: only a running item changes; it stops and drops its channel. */
    method StopTimer()
      requires Valid()
      modifies this
      ensures Valid() && State() == Stop(old(State())) && alerts == old(alerts)
    {
      if running {
        // close(Done): the channel being closed is never nil
        assert done.Some?;
        running := false;
        done := None;
      }
    }

    /** The body of `runTimer`'s ticker case; `expired` tells the loop to return. */
    method Tick() returns (expired: bool)
      requires Valid() && running
      modifies this
      ensures Valid() && State() == Timer.Tick(old(State()))
      ensures expired <==> !running
      ensures alerts == if expired then old(alerts) + 1 else old(alerts)
    {
      remaining := remaining - 1;
      if remaining <= 0 {
        StopTimer();
        alerts := alerts + 1;
        return true;
      }
      shown := remaining;
      return false;
    }

    /** `ResetTimer`: stop, reload the remaining time from the Duration label, show it. */
    method ResetTimer()
      requires Valid()
      modifies this
      ensures Valid() && State() == Reset(old(State())) && alerts == old(alerts)
    {
      StopTimer();
      remaining := ParseOrZero(duration);
      shown := remaining;
    }

    /** `runTimer` for `ticks` ticker events, until the time is used up or the events run out. */
    method RunTimer(ticks: nat)
      requires Valid() && running
      modifies this
      ensures Valid() && State() == Run(old(State()), ticks)
      ensures alerts == if running then old(alerts) else old(alerts) + 1
    {
      var i := 0;
      while i < ticks && running
        invariant 0 <= i <= ticks
        invariant Valid()
        invariant State() == Run(old(State()), i)
        invariant alerts == if running then old(alerts) else old(alerts) + 1
        decreases ticks - i
      {
        RunStep(old(State()), i);
        var expired := Tick();
        i := i + 1;
      }
      if i < ticks {
        RunStopped(old(State()), i, ticks);
      }
    }
  }
}
