/** Properties of the timer state machine: what a run of ticks does, what each
    phase completion changes and keeps, how pause and reset settle the state,
    how the stored record loads back, and how a focus completion feeds the
    streak. */
module TimerFacts {

  import opened Wrappers
  import opened Timer
  import Streak

  /** n runs of the interval callback; the interval is cleared once the timer
      stops, so a stopped timer receives no further ticks. A timer still
      running after n ticks has only counted down: nothing has completed. */
  function Run(s: TimerState, n: nat, today: Day): (r: TimerState)
    requires WellFormed(s)
    ensures WellFormed(r)
    ensures !s.isRunning ==> r == s
    ensures r.isRunning ==> r == s.(timeLeft := s.timeLeft - n)
    decreases n
  {
    if n == 0 || !s.isRunning then s else Run(Tick(s, today), n - 1, today)
  }

  /** Up to timeLeft ticks only count down: nothing completes early. */
  lemma {:induction false} CountdownRuns(s: TimerState, k: nat, today: Day)
    requires WellFormed(s) && s.isRunning && k <= s.timeLeft
    ensures Run(s, k, today) == s.(timeLeft := s.timeLeft - k)
    decreases k
  {
    if k > 0 {
      var next := Tick(s, today);
      assert next == s.(timeLeft := s.timeLeft - 1);
      CountdownRuns(next, k - 1, today);
    }
  }

  /** A running countdown at t >= 0 completes its phase on tick t + 1: the
      tick that finds 0 runs the completion. */
  lemma {:induction false} CountdownCompletes(s: TimerState, today: Day)
    requires WellFormed(s) && s.isRunning && s.timeLeft >= 0
    ensures Run(s, s.timeLeft + 1, today) == Complete(s.(timeLeft := 0), today)
    decreases s.timeLeft
  {
    if s.timeLeft > 0 {
      var next := Tick(s, today);
      CountdownCompletes(next, today);
      assert next.(timeLeft := 0) == s.(timeLeft := 0);
    } else {
      assert s == s.(timeLeft := 0);
    }
  }

  /** A tick keeps a non-negative countdown non-negative when the durations are. */
  lemma CountdownStaysNonNegative(s: TimerState, today: Day)
    requires WellFormed(s) && s.isRunning && s.timeLeft >= 0
    requires s.focusMinutes.value >= 0 && s.breakMinutes.value >= 0
    ensures Tick(s, today).timeLeft >= 0
  {
  }

  /** A focus completion stops the timer, credits focus * 60 seconds, sets the
      completed-today flag, saves the record dated today, marks today and
      switches to a break of break * 60 seconds. Nothing else changes; in
      particular the session count does not. */
  lemma FocusCompletion(s: TimerState, today: Day)
    requires WellFormed(s) && !s.inputsEditable && s.isFocusSession
    ensures var total := s.totalFocusSeconds + s.focusMinutes.value * 60;
      Complete(s, today) == s.(
        isRunning := false,
        totalFocusSeconds := total,
        completedToday := true,
        timerData := Some(StoredTimerData(Some(s.sessionCount), Some(total), Some(true), Some(today))),
        streaks := s.streaks[today := true],
        isFocusSession := false,
        timeLeft := s.breakMinutes.value * 60)
  {
  }

  /** A break completion stops the timer, counts one more session and returns
      to focus with focus * 60 seconds. The total, the stored record and the
      day map stay as they are: there is no save on this path. */
  lemma BreakCompletion(s: TimerState, today: Day)
    requires WellFormed(s) && !s.inputsEditable && !s.isFocusSession
    ensures Complete(s, today) == s.(
      isRunning := false,
      sessionCount := s.sessionCount + 1,
      isFocusSession := true,
      timeLeft := s.focusMinutes.value * 60)
  {
  }

  /** Counters only grow across a tick (given a non-negative focus
      duration), and no day leaves the map and no marked day is unmarked. */
  lemma TickMonotone(s: TimerState, today: Day)
    requires WellFormed(s) && s.isRunning && s.focusMinutes.value >= 0
    ensures var t := Tick(s, today);
      && s.totalFocusSeconds <= t.totalFocusSeconds
      && s.sessionCount <= t.sessionCount
      && s.streaks.Keys <= t.streaks.Keys
      && forall d :: Streak.Marked(s.streaks, d) ==> Streak.Marked(t.streaks, d)
  {
    if s.timeLeft <= 0 {
      if s.isFocusSession {
        FocusCompletion(s, today);
      } else {
        BreakCompletion(s, today);
      }
    }
  }

  /** The total changes only on a focus completion, and then by exactly focus * 60. */
  lemma TotalOnlyOnFocusCompletion(s: TimerState, today: Day)
    requires WellFormed(s) && s.isRunning
    ensures var t := Tick(s, today);
      t.totalFocusSeconds ==
        if s.timeLeft <= 0 && s.isFocusSession then s.totalFocusSeconds + s.focusMinutes.value * 60
        else s.totalFocusSeconds
    ensures var t := Tick(s, today);
      t.sessionCount == if s.timeLeft <= 0 && !s.isFocusSession then s.sessionCount + 1 else s.sessionCount
  {
    if s.timeLeft <= 0 {
      if s.isFocusSession {
        FocusCompletion(s, today);
      } else {
        BreakCompletion(s, today);
      }
    }
  }

  /** startTimer on a running timer does nothing; otherwise any two numbers,
      zero and negatives included, start it, and only a NaN input is refused. */
  lemma StartGuards(s: TimerState)
    requires WellFormed(s)
    ensures s.isRunning ==> Start(s) == s
    ensures !s.isRunning && s.focusMinutes.Some? && s.breakMinutes.Some? ==>
      Start(s) == s.(isRunning := true, inputsEditable := false)
    ensures !s.isRunning && (s.focusMinutes.None? || s.breakMinutes.None?) ==>
      Start(s) == s && StartOutcomeOf(s) == InvalidInput
  {
  }

  /** Pausing twice is pausing once. */
  lemma PauseIdempotent(s: TimerState)
    ensures Pause(Pause(s)) == Pause(s)
  {
  }

  /** Reset settles the timer: stopped, in focus, focus * 60 on the clock,
      inputs editable, and the statistics untouched, from any phase and
      countdown. A second reset changes nothing. */
  lemma ResetSettles(s: TimerState)
    requires s.focusMinutes.Some?
    ensures var t := Reset(s);
      && !t.isRunning && t.isFocusSession && t.inputsEditable
      && t.timeLeft == s.focusMinutes.value * 60
      && t.sessionCount == s.sessionCount && t.totalFocusSeconds == s.totalFocusSeconds
      && t.completedToday == s.completedToday && t.streaks == s.streaks
      && t.timerData == s.timerData
      && Reset(t) == t
  {
  }

  /** Toggling a running timer pauses it; toggling a stopped one starts it. */
  lemma ToggleIsPauseOrStart(s: TimerState)
    requires WellFormed(s)
    ensures s.isRunning ==> Toggle(s) == Pause(s)
    ensures !s.isRunning ==> Toggle(s) == Start(s)
  {
  }

  /** Each counter of a stored record falls back to its default when missing
      or zero; the missing record changes nothing. */
  lemma LoadDefaults(s: TimerState)
    ensures s.timerData.None? ==> Load(s) == s
    ensures s.timerData == Some(StoredTimerData(None, None, None, None)) ==>
      Load(s) == s.(sessionCount := 1, totalFocusSeconds := 0, completedToday := false)
    ensures s.timerData.Some? && s.timerData.value.sessionCount == Some(0) ==> Load(s).sessionCount == 1
    ensures forall total: int, flag: Option<bool>, date: Option<Day> ::
      s.timerData == Some(StoredTimerData(None, Some(total), flag, date)) ==>
        Load(s).sessionCount == 1 && Load(s).totalFocusSeconds == total
  {
  }

  /** A saved record loads back: the counters and the flag return, except a
      session count of 0, which the falsy fallback turns into 1. */
  lemma LoadAfterSave(s: TimerState, today: Day)
    ensures var t := Load(Save(s, today));
      && t.sessionCount == (if s.sessionCount == 0 then 1 else s.sessionCount)
      && t.totalFocusSeconds == s.totalFocusSeconds
      && t.completedToday == s.completedToday
  {
  }

  /** The completed-today flag survives a reload on the day of the completion
      and is cleared on any other day. */
  lemma CompletedTodayAcrossDays(s: TimerState, today: Day, later: Day)
    requires WellFormed(s) && !s.inputsEditable && s.isFocusSession
    ensures var t := Complete(s, today);
      && CheckDaily(Load(t), today).completedToday
      && (later != today ==> !CheckDaily(Load(t), later).completedToday)
  {
    FocusCompletion(s, today);
  }

  /** The day map stores today only once: marking again changes nothing, and
      no other key is touched. */
  lemma MarkDayIdempotent(streaks: map<Day, bool>, today: Day)
    ensures MarkDay(MarkDay(streaks, today), today) == MarkDay(streaks, today)
    ensures streaks.Keys <= MarkDay(streaks, today).Keys
  {
  }

  /** After a focus completion today, the current streak is one more than the
      streak that ended yesterday. */
  lemma StreakAfterFocusCompletion(s: TimerState, today: Day)
    requires WellFormed(s) && !s.inputsEditable && s.isFocusSession
    ensures Streak.StreakFrom(Complete(s, today).streaks, today) ==
      1 + Streak.StreakFrom(s.streaks, today - 1)
  {
    FocusCompletion(s, today);
    var m := s.streaks;
    var m' := m[today := true];
    var k := Streak.StreakFrom(m, today - 1);
    Streak.StreakFromMeaning(m, today - 1);
    assert Streak.MarkedRun(m', today, k + 1) by {
      forall x | today - (k + 1) < x <= today
        ensures Streak.Marked(m', x)
      {
        if x < today {
          assert Streak.Marked(m, x);
        }
      }
    }
    assert !Streak.Marked(m', today - (k + 1)) by {
      assert !Streak.Marked(m, today - 1 - k);
    }
    Streak.StreakFromUnique(m', today, k + 1);
  }

  /** From a fresh page with 25 and 5 in the inputs: start, then 1500 ticks
      reach 00:00 still in focus, and tick 1501 completes the phase into a
      five-minute break with 1500 focus seconds credited and today recorded. */
  lemma FreshSessionScenario(today: Day)
    ensures var s := Start(Initial(Some(25), Some(5), None, map[]));
      && Run(s, 1500, today).timeLeft == 0
      && Run(s, 1500, today).isFocusSession && Run(s, 1500, today).isRunning
      && var t := Run(s, 1501, today);
      && !t.isRunning && !t.isFocusSession && t.timeLeft == 300
      && t.totalFocusSeconds == 1500 && t.sessionCount == 1
      && t.streaks == map[today := true]
      && t.timerData == Some(StoredTimerData(Some(1), Some(1500), Some(true), Some(today)))
  {
    var s := Start(Initial(Some(25), Some(5), None, map[]));
    CountdownRuns(s, 1500, today);
    CountdownCompletes(s, today);
    FocusCompletion(s.(timeLeft := 0), today);
  }
}
