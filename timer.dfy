/** The timer state machine of script.js and the bookkeeping around it.

    The module-level variables of the page (countdown, running flag, phase,
    session count, total focus seconds, completed-today flag) together with the
    two duration inputs, whether those inputs can be edited, and the two
    records of the durable store make up one state. TimerState is that state as
    a value and the functions below are the operations on it; class TimerApp
    holds the same state in fields and its methods update them step by step as
    the page's functions do, each specified by the matching function.

    A parsed input is an Option<int>: None is parseInt's NaN. The clock gives
    the current day as an ordinal, passed to the operations that read it. */
module Timer {

  import opened Wrappers
  import Streak

  type Day = Streak.Day

  /** The record stored under "timerData". A field read back from the store
      may be missing. */
  datatype StoredTimerData = StoredTimerData(
    sessionCount: Option<int>,
    totalFocusSeconds: Option<int>,
    completedToday: Option<bool>,
    lastCompletionDate: Option<Day>)

  datatype TimerState = TimerState(
    timeLeft: int,
    isRunning: bool,
    isFocusSession: bool,
    sessionCount: int,
    totalFocusSeconds: int,
    completedToday: bool,
    focusMinutes: Option<int>,
    breakMinutes: Option<int>,
    inputsEditable: bool,
    timerData: Option<StoredTimerData>,
    streaks: map<Day, bool>)

  /** What startTimer did: returned early because the timer runs, returned
      early with an alert because an input is not a number, or started. */
  datatype StartOutcome = AlreadyRunning | InvalidInput | Started

  /** The countdown the page starts with, 25 minutes, whatever the inputs say. */
  const InitialTimeLeft := 25 * 60

  /** The state when the page has loaded its script: stopped, in focus, a
      25-minute countdown, the first session, nothing focused or completed
      yet, the inputs editable, and the store as it was found. */
  function Initial(focusMinutes: Option<int>, breakMinutes: Option<int>,
                   timerData: Option<StoredTimerData>, streaks: map<Day, bool>): (s: TimerState)
    ensures WellFormed(s) && !s.isRunning && s.isFocusSession && s.inputsEditable
    ensures s.timeLeft == 1500 && s.sessionCount == 1 && s.totalFocusSeconds == 0 && !s.completedToday
    ensures s.focusMinutes == focusMinutes && s.breakMinutes == breakMinutes
    ensures s.timerData == timerData && s.streaks == streaks
  {
    TimerState(InitialTimeLeft, false, true, 1, 0, false,
               focusMinutes, breakMinutes, true, timerData, streaks)
  }

  /** While the interval runs the inputs are disabled, and disabled inputs
      hold the numbers startTimer validated. */
  predicate WellFormed(s: TimerState)
  {
    && (s.isRunning ==> !s.inputsEditable)
    && (!s.inputsEditable ==> s.focusMinutes.Some? && s.breakMinutes.Some?)
  }

  /** The user typing into the inputs: a disabled input does not change. */
  function EditInputs(s: TimerState, focusMinutes: Option<int>, breakMinutes: Option<int>): (t: TimerState)
    requires WellFormed(s)
    ensures WellFormed(t)
    ensures !s.inputsEditable ==> t == s
    ensures s.inputsEditable ==> t == s.(focusMinutes := focusMinutes, breakMinutes := breakMinutes)
    ensures s.isRunning ==> t == s
  {
    if s.inputsEditable then s.(focusMinutes := focusMinutes, breakMinutes := breakMinutes) else s
  }

  /** Which way startTimer goes: the running check comes first, then the
      check that both inputs parsed. */
  function StartOutcomeOf(s: TimerState): (r: StartOutcome)
    ensures r == AlreadyRunning <==> s.isRunning
    ensures r == InvalidInput <==> !s.isRunning && (s.focusMinutes.None? || s.breakMinutes.None?)
    ensures r == Started <==> !s.isRunning && s.focusMinutes.Some? && s.breakMinutes.Some?
  {
    if s.isRunning then AlreadyRunning
    else if s.focusMinutes.None? || s.breakMinutes.None? then InvalidInput
    else Started
  }

  /** startTimer: sets the timer running and locks the inputs; the countdown
      is left as it is. */
  function Start(s: TimerState): (t: TimerState)
    requires WellFormed(s)
    ensures WellFormed(t) && t.timeLeft == s.timeLeft
    ensures t.isRunning <==> StartOutcomeOf(s) != InvalidInput
    ensures StartOutcomeOf(s) != Started ==> t == s
  {
    if StartOutcomeOf(s) == Started then s.(isRunning := true, inputsEditable := false) else s
  }

  /** pauseTimer: only the running flag changes, to false; the inputs stay
      as they are (disabled after a start). */
  function Pause(s: TimerState): (t: TimerState)
    ensures !t.isRunning && t.(isRunning := s.isRunning) == s
    ensures WellFormed(s) ==> WellFormed(t)
  {
    s.(isRunning := false)
  }

  /** resetTimer. The focus input is read without a check, so it must hold a number. */
  function Reset(s: TimerState): (t: TimerState)
    requires s.focusMinutes.Some?
    ensures WellFormed(t)
  {
    Pause(s).(isFocusSession := true, timeLeft := s.focusMinutes.value * 60, inputsEditable := true)
  }

  /** The record saveToLocalStorage writes. */
  function SavedRecord(s: TimerState, today: Day): StoredTimerData
  {
    StoredTimerData(Some(s.sessionCount), Some(s.totalFocusSeconds), Some(s.completedToday), Some(today))
  }

  /** saveToLocalStorage: the stored record holds every field, each the
      current value, dated today; nothing else changes. */
  function Save(s: TimerState, today: Day): (t: TimerState)
    ensures t == s.(timerData := t.timerData)
    ensures t.timerData.Some?
    ensures var r := t.timerData.value;
      && r.sessionCount == Some(s.sessionCount)
      && r.totalFocusSeconds == Some(s.totalFocusSeconds)
      && r.completedToday == Some(s.completedToday)
      && r.lastCompletionDate == Some(today)
  {
    s.(timerData := Some(SavedRecord(s, today)))
  }

  /** recordDailyCompletion on the day map: today maps to true, every other
      key keeps its marker. */
  function MarkDay(streaks: map<Day, bool>, today: Day): (r: map<Day, bool>)
    ensures r.Keys == streaks.Keys + {today} && Streak.Marked(r, today)
    ensures forall d :: d in streaks && d != today ==> d in r && r[d] == streaks[d]
  {
    streaks[today := true]
  }

  /** completeSession: pause, then credit a focus phase (and record the day)
      or count a finished break, and switch phase. */
  function Complete(s: TimerState, today: Day): (t: TimerState)
    requires WellFormed(s) && !s.inputsEditable
    ensures WellFormed(t) && !t.isRunning && t.isFocusSession == !s.isFocusSession
  {
    var paused := Pause(s);
    if paused.isFocusSession then
      var credited := paused.(totalFocusSeconds := paused.totalFocusSeconds + paused.focusMinutes.value * 60,
                              completedToday := true);
      var saved := Save(credited, today);
      var recorded := saved.(streaks := MarkDay(saved.streaks, today));
      recorded.(isFocusSession := false, timeLeft := recorded.breakMinutes.value * 60)
    else
      var switched := paused.(isFocusSession := true);
      var counted := switched.(sessionCount := switched.sessionCount + 1);
      counted.(timeLeft := counted.focusMinutes.value * 60)
  }

  /** The body of the one-second interval. */
  function Tick(s: TimerState, today: Day): (t: TimerState)
    requires WellFormed(s) && s.isRunning
    ensures WellFormed(t)
    ensures s.timeLeft > 0 ==> t == s.(timeLeft := s.timeLeft - 1)
    ensures s.timeLeft <= 0 ==> !t.isRunning && t.isFocusSession == !s.isFocusSession
  {
    if s.timeLeft > 0 then s.(timeLeft := s.timeLeft - 1) else Complete(s, today)
  }

  /** toggleTimer. */
  function Toggle(s: TimerState): (t: TimerState)
    requires WellFormed(s)
    ensures WellFormed(t)
    ensures s.isRunning ==> !t.isRunning
  {
    if s.isRunning then Pause(s) else Start(s)
  }

  /** JavaScript's `v || fallback` for a stored number: a missing value and 0
      are falsy. */
  function NumberOr(v: Option<int>, fallback: int): (r: int)
    ensures r == fallback || (v == Some(r) && r != 0)
    ensures v.Some? && v.value != 0 ==> r == v.value
  {
    if v.Some? && v.value != 0 then v.value else fallback
  }

  /** JavaScript's `v || false` for a stored flag. */
  function FlagOr(v: Option<bool>): (r: bool)
    ensures r <==> v == Some(true)
  {
    if v.Some? then v.value else false
  }

  /** loadFromLocalStorage: with a stored record, each counter takes the
      stored value or its default; without one nothing changes. */
  function Load(s: TimerState): (t: TimerState)
    ensures s.timerData.None? ==> t == s
    ensures s.timerData.Some? ==>
      && t.sessionCount == NumberOr(s.timerData.value.sessionCount, 1)
      && t.totalFocusSeconds == NumberOr(s.timerData.value.totalFocusSeconds, 0)
      && t.completedToday == FlagOr(s.timerData.value.completedToday)
    ensures t == s.(sessionCount := t.sessionCount, totalFocusSeconds := t.totalFocusSeconds,
                    completedToday := t.completedToday)
  {
    match s.timerData
    case None => s
    case Some(stored) =>
      s.(sessionCount := NumberOr(stored.sessionCount, 1),
         totalFocusSeconds := NumberOr(stored.totalFocusSeconds, 0),
         completedToday := FlagOr(stored.completedToday))
  }

  /** checkDailyCompletion: a stored record from another day clears the
      completed-today flag. */
  function CheckDaily(s: TimerState, today: Day): (t: TimerState)
    ensures t.completedToday <==>
      s.completedToday && (s.timerData.None? || s.timerData.value.lastCompletionDate == Some(today))
    ensures t == s.(completedToday := t.completedToday)
  {
    if s.timerData.Some? && s.timerData.value.lastCompletionDate != Some(today) then
      s.(completedToday := false)
    else
      s
  }

  /** The page's state, held in fields that the page's functions reassign. */
  class TimerApp {
    var timeLeft: int
    var isRunning: bool
    var isFocusSession: bool
    var sessionCount: int
    var totalFocusSeconds: int
    var completedToday: bool
    var focusMinutes: Option<int>
    var breakMinutes: Option<int>
    var inputsEditable: bool
    var timerData: Option<StoredTimerData>
    var streaks: map<Day, bool>

    function State(): TimerState
      reads this
    {
      TimerState(timeLeft, isRunning, isFocusSession, sessionCount, totalFocusSeconds,
                 completedToday, focusMinutes, breakMinutes, inputsEditable, timerData, streaks)
    }

    ghost predicate Valid()
      reads this
    {
      WellFormed(State())
    }

    constructor (focus: Option<int>, brk: Option<int>,
                 stored: Option<StoredTimerData>, storedStreaks: map<Day, bool>)
      ensures Valid() && State() == Initial(focus, brk, stored, storedStreaks)
    {
      timeLeft := InitialTimeLeft;
      isRunning := false;
      isFocusSession := true;
      sessionCount := 1;
      totalFocusSeconds := 0;
      completedToday := false;
      focusMinutes := focus;
      breakMinutes := brk;
      inputsEditable := true;
      timerData := stored;
      streaks := storedStreaks;
    }

    method EditTimeInputs(focus: Option<int>, brk: Option<int>)
      requires Valid()
      modifies this
      ensures Valid() && State() == EditInputs(old(State()), focus, brk)
    {
      if inputsEditable {
        focusMinutes := focus;
        breakMinutes := brk;
      }
    }

    method StartTimer() returns (outcome: StartOutcome)
      requires Valid()
      modifies this
      ensures Valid() && State() == Start(old(State()))
      ensures outcome == StartOutcomeOf(old(State()))
    {
      if isRunning {
        return AlreadyRunning;
      }
      if focusMinutes.None? || breakMinutes.None? {
        return InvalidInput;
      }
      isRunning := true;
      inputsEditable := false;
      outcome := Started;
    }

    /** One run of the interval callback; the interval exists only while running. */
    method OnTick(today: Day)
      requires Valid() && isRunning
      modifies this
      ensures Valid() && State() == Tick(old(State()), today)
    {
      if timeLeft > 0 {
        timeLeft := timeLeft - 1;
      } else {
        CompleteSession(today);
      }
    }

    method PauseTimer()
      modifies this
      ensures State() == Pause(old(State()))
      ensures old(Valid()) ==> Valid()
    {
      isRunning := false;
    }

    method ResetTimer()
      requires focusMinutes.Some?
      modifies this
      ensures Valid() && State() == Reset(old(State()))
    {
      PauseTimer();
      isFocusSession := true;
      timeLeft := focusMinutes.value * 60;
      inputsEditable := true;
    }

    method CompleteSession(today: Day)
      requires Valid() && !inputsEditable
      modifies this
      ensures Valid() && State() == Complete(old(State()), today)
    {
      PauseTimer();
      if isFocusSession {
        totalFocusSeconds := totalFocusSeconds + focusMinutes.value * 60;
        completedToday := true;
        SaveToLocalStorage(today);
        RecordDailyCompletion(today);
        isFocusSession := false;
        timeLeft := breakMinutes.value * 60;
      } else {
        isFocusSession := true;
        sessionCount := sessionCount + 1;
        timeLeft := focusMinutes.value * 60;
      }
    }

    method ToggleTimer()
      requires Valid()
      modifies this
      ensures Valid() && State() == Toggle(old(State()))
    {
      if isRunning {
        PauseTimer();
      } else {
        var _ := StartTimer();
      }
    }

    method SaveToLocalStorage(today: Day)
      modifies this
      ensures State() == Save(old(State()), today)
      ensures old(Valid()) ==> Valid()
    {
      timerData := Some(StoredTimerData(Some(sessionCount), Some(totalFocusSeconds),
                                        Some(completedToday), Some(today)));
    }

    method LoadFromLocalStorage()
      modifies this
      ensures State() == Load(old(State()))
      ensures old(Valid()) ==> Valid()
    {
      if timerData.Some? {
        var parsed := timerData.value;
        sessionCount := NumberOr(parsed.sessionCount, 1);
        totalFocusSeconds := NumberOr(parsed.totalFocusSeconds, 0);
        completedToday := FlagOr(parsed.completedToday);
      }
    }

    method CheckDailyCompletion(today: Day)
      modifies this
      ensures State() == CheckDaily(old(State()), today)
      ensures old(Valid()) ==> Valid()
    {
      if timerData.Some? {
        var parsed := timerData.value;
        if parsed.lastCompletionDate != Some(today) {
          completedToday := false;
        }
      }
    }

    method RecordDailyCompletion(today: Day)
      modifies this
      ensures State() == old(State()).(streaks := MarkDay(old(streaks), today))
      ensures old(Valid()) ==> Valid()
    {
      streaks := streaks[today := true];
    }

    /** getStreakCount: the same walk back from today as the streak panel's. */
    method GetStreakCount(today: Day) returns (currentStreak: nat)
      ensures currentStreak == Streak.StreakFrom(streaks, today)
      ensures Streak.MarkedRun(streaks, today, currentStreak)
      ensures !Streak.Marked(streaks, today - currentStreak)
    {
      currentStreak := 0;
      var checkDate := today;
      ghost var unseen := streaks;
      while Streak.Marked(streaks, checkDate)
        invariant checkDate == today - currentStreak
        invariant forall x :: x <= checkDate ==> (Streak.Marked(unseen, x) <==> Streak.Marked(streaks, x))
        invariant currentStreak + Streak.StreakFrom(unseen, checkDate) == Streak.StreakFrom(streaks, today)
        decreases |unseen.Keys|
      {
        assert Streak.Marked(unseen, checkDate);
        assert (unseen - {checkDate}).Keys == unseen.Keys - {checkDate};
        unseen := unseen - {checkDate};
        currentStreak := currentStreak + 1;
        checkDate := checkDate - 1;
      }
      assert !Streak.Marked(unseen, checkDate);
      Streak.StreakFromMeaning(streaks, today);
    }
  }
}
