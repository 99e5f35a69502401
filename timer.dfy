/**
 * The per-item countdown of GoDo as a state machine on values. `StartTimer`, one tick of the
 * `runTimer` goroutine, `StopTimer` and `ResetTimer` change the same fields in main.go and in
 * todo.go; the two item classes (modules MainItem and DraftItem) are proved to follow these
 * transitions, and the properties of the transitions are proved here once.
 */
module Timer {
  import opened Wrappers
  import opened Durations

  /** A `chan bool` made by `make`: the serial number says which one. */
  datatype Token = Token(serial: nat)

  /**
   * The fields of a `TodoItem` that the timer code reads or writes: the checkbox, the texts of
   * the Task and Duration labels, the duration the Timer label shows (its text is always
   * `formatTime` of one, see `TimerText`), `Running`, `Done` (None is a nil channel),
   * `RemainingTime` in whole seconds, and how many channels the item has made so far.
   */
  datatype ItemState = ItemState(
    checked: bool,
    task: string,
    duration: string,
    shown: int,
    running: bool,
    done: Option<Token>,
    remaining: int,
    channelsMade: nat)

  /** The text of the Timer label. */
  function TimerText(s: ItemState): string {
    FormatTime(s.shown)
  }

  /**
   * What the timer code relies on: a running item has a channel to close, and the channel an
   * item holds is one it made (so a channel it makes next is new).
   */
  predicate Guarded(s: ItemState) {
    (s.running ==> s.done.Some?) && (s.done.Some? ==> s.done.value.serial < s.channelsMade)
  }

  /** `time.ParseDuration(Duration.Text)` with the error discarded. */
  function Reload(s: ItemState): int {
    ParseOrZero(s.duration)
  }

  /**
   * `StartTimer`: nothing happens to a running item; otherwise a channel is made if there is
   * none, the remaining time is reloaded from the Duration label only when it is used up,
   * and the item runs.
   */
  function Start(s: ItemState): (r: ItemState)
    ensures s.running ==> r == s
    ensures !s.running ==> r.running && r.done.Some?
    ensures !s.running && s.done.None? ==> r.done == Some(Token(s.channelsMade)) && r.channelsMade == s.channelsMade + 1
    ensures !s.running && s.done.Some? ==> r.done == s.done && r.channelsMade == s.channelsMade
    ensures !s.running ==> r.remaining == if s.remaining <= 0 then Reload(s) else s.remaining
    ensures r.checked == s.checked && r.task == s.task && r.duration == s.duration && r.shown == s.shown
  {
    if s.running then s
    else
      var made := if s.done.None? then s.channelsMade + 1 else s.channelsMade;
      var done := if s.done.None? then Some(Token(s.channelsMade)) else s.done;
      var remaining := if s.remaining <= 0 then Reload(s) else s.remaining;
      s.(running := true, done := done, channelsMade := made, remaining := remaining)
  }

  /**
   * The state part of `StopTimer`: a running item stops and closes and drops its channel; a
   * stopped one is left alone. (main.go also writes the remaining time to the store every time.)
   */
  function Stop(s: ItemState): (r: ItemState)
    ensures !r.running
    ensures s.running ==> r.done.None?
    ensures !s.running ==> r == s
    ensures r.remaining == s.remaining && r.shown == s.shown && r.channelsMade == s.channelsMade
    ensures r.checked == s.checked && r.task == s.task && r.duration == s.duration
  {
    if s.running then s.(running := false, done := None) else s
  }

  /**
   * One tick of `runTimer`: one second off the remaining time; once nothing is left the item
   * stops (the label keeps its old text), otherwise the label shows what is left.
   */
  function Tick(s: ItemState): (r: ItemState)
    requires s.running
    ensures r.remaining == s.remaining - 1
    ensures r.running <==> r.remaining > 0
    ensures r.running ==> r.shown == r.remaining && r.done == s.done
    ensures !r.running ==> r.shown == s.shown && r.done.None?
    ensures r.checked == s.checked && r.task == s.task && r.duration == s.duration
    ensures r.channelsMade == s.channelsMade
  {
    var left := s.remaining - 1;
    if left <= 0 then Stop(s.(remaining := left))
    else s.(remaining := left, shown := left)
  }

  /** `ResetTimer`: stop, reload the remaining time from the Duration label and show it. */
  function Reset(s: ItemState): (r: ItemState)
    ensures !r.running && (s.running ==> r.done.None?) && (!s.running ==> r.done == s.done)
    ensures r.remaining == Reload(s) && r.shown == Reload(s)
    ensures r.checked == s.checked && r.task == s.task && r.duration == s.duration
  {
    var stopped := Stop(s);
    stopped.(remaining := Reload(s), shown := Reload(s))
  }

  /**
   * The goroutine's loop for `ticks` ticker events: it ticks until the item is stopped. It
   * takes off at most one second per event, keeps the guard and the labels, and leaves a
   * stopped item alone.
   */
  function Run(s: ItemState, ticks: nat): (r: ItemState)
    ensures s.remaining - ticks <= r.remaining <= s.remaining
    ensures !s.running ==> r == s
    ensures r.running ==> r.remaining == s.remaining - ticks
    ensures Guarded(s) ==> Guarded(r)
    ensures r.checked == s.checked && r.task == s.task && r.duration == s.duration
    decreases ticks
  {
    if ticks == 0 || !s.running then s else Run(Tick(s), ticks - 1)
  }

  /** An item as `saveCallback` builds it: unchecked, stopped, no channel, the full duration. */
  function Created(task: string, duration: string, d: int): (r: ItemState)
    ensures Guarded(r) && !r.running && r.remaining == d && r.shown == d
  {
    ItemState(false, task, duration, d, false, None, d, 0)
  }

  /** An item as `getTodoItems` builds it from a row: stopped, but holding a fresh channel. */
  function Loaded(checked: bool, task: string, duration: string, d: int): (r: ItemState)
    ensures Guarded(r) && !r.running && r.done.Some? && r.remaining == d && r.shown == d
  {
    ItemState(checked, task, duration, d, false, Some(Token(0)), d, 1)
  }

  // ---------------------------------------------------------------------------------------
  // Properties

  /** Every transition keeps the guard, so `StopTimer` never closes a nil channel. */
  lemma GuardPreserved(s: ItemState)
    requires Guarded(s)
    ensures Guarded(Start(s)) && Guarded(Stop(s)) && Guarded(Reset(s))
    ensures s.running ==> Guarded(Tick(s))
  {
  }

  /** Starting twice is starting once; stopping twice is stopping once. */
  lemma Idempotent(s: ItemState)
    ensures Start(Start(s)) == Start(s)
    ensures Stop(Stop(s)) == Stop(s)
  {
  }

  /**
   * Stopping a running item and starting it again resumes where it was, on a channel that
   * differs from every channel the item held before.
   */
  lemma StopStartResumes(s: ItemState)
    requires Guarded(s) && s.running && s.remaining > 0
    ensures Start(Stop(s)).running && Start(Stop(s)).remaining == s.remaining
    ensures Start(Stop(s)).done == Some(Token(s.channelsMade)) && Start(Stop(s)).done != s.done
  {
  }

  /** After a reset, starting runs the whole Duration label again, when it is a positive duration. */
  lemma ResetStartRestarts(s: ItemState)
    requires Reload(s) > 0
    ensures Start(Reset(s)).running && Start(Reset(s)).remaining == Reload(s)
    ensures Start(Reset(s)).shown == Reload(s)
  {
  }

  /** A tick on the last second stops the item with the label still showing one second left. */
  lemma LastTickKeepsLabel(s: ItemState)
    requires s.running && s.remaining == 1 && s.shown == 1
    ensures !Tick(s).running && Tick(s).remaining == 0 && TimerText(Tick(s)) == "00:00:01"
  {
    FormatOneSecond();
  }

  /** While time is left, `n` ticks take off exactly `n` seconds and keep the item running. */
  lemma {:induction false} Countdown(s: ItemState, n: nat)
    requires s.running && n < s.remaining
    ensures Run(s, n).running && Run(s, n).remaining == s.remaining - n
    ensures Run(s, n).shown == if n == 0 then s.shown else s.remaining - n
    ensures Run(s, n).done == s.done && Run(s, n).channelsMade == s.channelsMade
    ensures Run(s, n).task == s.task && Run(s, n).duration == s.duration && Run(s, n).checked == s.checked
    decreases n
  {
    if n > 0 {
      var t := Tick(s);
      assert Run(s, n) == Run(t, n - 1);
      Countdown(t, n - 1);
    }
  }

  /** Once `remaining` ticks have arrived the item has stopped at zero, and later ticks change nothing. */
  lemma {:induction false} Expires(s: ItemState, m: nat)
    requires s.running && 1 <= s.remaining <= m
    ensures !Run(s, m).running && Run(s, m).remaining == 0 && Run(s, m).done.None?
    ensures Run(s, m).shown == if s.remaining == 1 then s.shown else 1
    ensures Run(s, m).task == s.task && Run(s, m).duration == s.duration && Run(s, m).checked == s.checked
    decreases m
  {
    var t := Tick(s);
    assert Run(s, m) == Run(t, m - 1);
    if s.remaining == 1 {
      StoppedStays(t, m - 1);
    } else {
      Expires(t, m - 1);
    }
  }

  /** Ticks do nothing to a stopped item: its goroutine has returned. */
  lemma StoppedStays(s: ItemState, ticks: nat)
    requires !s.running
    ensures Run(s, ticks) == s
  {
  }

  /** One more tick event ticks the state the earlier events left, while it still runs. */
  lemma {:induction false} RunStep(s: ItemState, i: nat)
    requires Run(s, i).running
    ensures Run(s, i + 1) == Tick(Run(s, i))
    decreases i
  {
    if i > 0 {
      RunStep(Tick(s), i - 1);
    }
  }

  /** Once the item has stopped, further tick events change nothing. */
  lemma {:induction false} RunStopped(s: ItemState, i: nat, n: nat)
    requires i <= n && !Run(s, i).running
    ensures Run(s, n) == Run(s, i)
    decreases i
  {
    if i == 0 {
      StoppedStays(s, n);
    } else if s.running {
      RunStopped(Tick(s), i - 1, n - 1);
    }
  }
}
