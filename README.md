# Focus timer and streak tracker, in Dafny

This project models the core of a browser Pomodoro timer with a daily-streak
tracker. It has two parts.

- **The timer state machine.** It owns a countdown, a running flag, a phase
  (focus or break), a session count, a total of focused seconds and a
  completed-today flag. The one-second tick counts the countdown down. The
  tick that finds it at zero completes the phase. A focus completion credits
  the focus time, saves the statistics record and marks today in the
  day-completion map. A break completion counts one more session. Neither
  restarts the timer.
- **The streak engine.** The current streak is the walk back from today over
  completed days. The longest streak is a run scan over the sorted days. Two
  days are consecutive when they are exactly one day apart. The calendar
  panel lays out 42 cells: the tail of the previous month, the month, then
  the head of the next month.

Modules:

- `Wrappers` (wrappers.dfy): `Option`.
- `Streak` (streak.dfy): the streak engine. `UpdateStreakStats` holds both
  loops of `updateStreakStats`. They are proved against the recursive
  specifications `StreakFrom` and `MaxRun`, and the longest streak is also
  characterised as the longest run of consecutive keys.
- `Calendar` (calendar.dfy): the cell layout of `renderCalendar`.
- `Display` (display.dfy): the arithmetic and text of `updateDisplay` and
  `updateStreakDisplay`, with read-back lemmas.
- `Timer` (timer.dfy): the state as a value (`TimerState`), one function
  per operation, and the class `TimerApp`. Its fields are the page's
  module-level variables plus:
  - the two duration inputs;
  - whether the inputs are editable;
  - the two stored records.

  Each method updates the fields step by step, as the page does. Its
  `ensures` ties the new `State()` to the matching function of the old one.
- `TimerFacts` (timer_facts.dfy): lemmas about the timer functions:
  - runs of ticks;
  - the exact effect of each phase completion;
  - monotone counters;
  - pause idempotence and what reset settles;
  - load defaults and the save/load round trip;
  - the daily check;
  - the streak after a focus completion;
  - the fresh-page scenario.

Representation choices:

- A calendar day is an integer ordinal, so "the day before d" is `d - 1`.
- The day-completion map is `map<Day, bool>`. The walk back counts a day
  only when its marker is truthy. The calendar asks only whether the key is
  present. The longest-streak scan looks only at the keys.
- A parsed duration input is `Option<int>`, where `None` stands for `NaN`.
- The store is two fields of the state: `timerData`, a record whose fields
  may each be missing, and `streaks`.
- The clock is a `today` parameter of the operations that read it.

Where the code and its design description differ, the model follows the code:

- `startTimer` rejects only a `NaN` input. Zero and negative durations
  start the timer. So with a negative focus duration the total focus time
  goes down (`TickMonotone` needs a focus duration of 0 or more).
- `startTimer` never sets the countdown. A fresh page counts down 1500
  seconds whatever the focus input says, and a completion still credits
  focus × 60 seconds.
- A phase completes on tick `timeLeft + 1`, not tick `timeLeft`. The tick
  that finds 0 runs the completion. So the fresh 25/5 scenario needs 1501
  ticks (`FreshSessionScenario`).
- The session count is not guaranteed to be at least 1. A stored negative
  count loads as it is. Only a missing count or 0 becomes 1.

## Model

| member | source | states |
|---|---|---|
| Streak.IsConsecutive | streak.js:116-122 | true exactly when the second day is one after the first or one before it; never true for the same day |
| Streak.IsConsecutiveSymmetric | streak.js:116-122 | the test gives the same answer with its arguments swapped |
| Streak.StreakFrom | streak.js:80-90 | the walk back from a day ends, after at most as many steps as the map has keys |
| Streak.StreakFromMeaning | streak.js:80-90 | the k days ending at the start day are all marked, and the day before them is not |
| Streak.StreakFromUnique | streak.js:80-90 | any k with a marked run of k days ending at the start day and an unmarked day before it is the walk's result |
| Streak.StreakFromIgnoresLater | script.js:204-214 | the walk depends only on the start day and earlier days |
| Streak.CurrentStreakExamples | streak.js:80-90 | no record gives 0; today alone gives 1; today plus the two days before give 3; today and two days ago give 1 |
| Streak.Insert | streak.js:95 | inserting a new day into an ascending list keeps it ascending, adds exactly that day, and lengthens it by one |
| Streak.SortKeys | streak.js:95 | the sorted key list is strictly ascending, holds exactly the map's keys, and has one entry per key |
| Streak.RunEnd | streak.js:97-104 | the scan's running count at index i is between 1 and i + 1 |
| Streak.MaxRun | streak.js:97-105 | the largest count over the first n positions is at most n, and at least 1 when n > 0 |
| Streak.LongestRun | streak.js:93-105 | the longest streak of a sorted key list is at most its length, and 0 exactly when the list is empty |
| Streak.RunEndSpan | streak.js:97-104 | in an ascending list, the run counted at index i is the days s[i] - r + 1 .. s[i], so a gap resets the count |
| Streak.RunEndCovers | streak.js:97-104 | every day of the run counted at index i is a key |
| Streak.AdjacentIndex | streak.js:95-99 | in an ascending list, the day after s[a] can only sit at index a + 1 |
| Streak.RunEndAtLeast | streak.js:97-104 | if the k days ending at s[j] are all keys, the count at j is at least k |
| Streak.MaxRunAtLeast | streak.js:101-105 | the maximum is at least every count seen |
| Streak.MaxRunAttained | streak.js:101-105 | the maximum is the count at some index |
| Streak.LongestRunBound | streak.js:93-105 | no run of consecutive keys is longer than the longest streak |
| Streak.LongestRunWitness | streak.js:93-105 | a non-empty key list has a run of consecutive keys exactly as long as the longest streak |
| Streak.LongestRunExample | streak.js:97-105 | five consecutive days, a gap, then two consecutive days give 5, not 7 |
| Streak.CurrentAtMostLongest | streak.js:78-105 | the current streak never exceeds the longest streak |
| Streak.UpdateStreakStats | streak.js:75-114 | the current streak equals the recursive walk: the marked run ending today, with the day before it unmarked. The longest streak is 0 exactly for an empty map, at most the number of keys, at least the current streak, at least every run of consecutive keys, and equal to the length of one such run |
| Calendar.RenderCalendar | streak.js:16-53 | the first firstDay cells are the previous month's days daysInPrevMonth - firstDay + 1 .. daysInPrevMonth, ascending. Then come days 1 .. daysInMonth; such a cell is "today" exactly when its day is today, and "completed" exactly when its day is a key. Then come days 1, 2, ... of the next month. There are 42 cells whenever firstDay + daysInMonth <= 42 (so for every real month) |
| Display.NatToString | script.js:123 | the decimal text of a number is all digits, one character below 10 and at most two below 100 |
| Display.NatToStringReadsBack | script.js:123 | the decimal text of n denotes n |
| Display.IntToString | script.js:123 | String(n) of a non-negative n is one or more digits; of a negative n it is '-' followed by digits |
| Display.IntToStringReadsBack | script.js:123 | the text of n reads back as n: its digits denote n, after the '-' when n is negative |
| Display.PadStart2 | script.js:123 | padStart(2, '0') gives at least two characters, ends with the original text, and adds only '0's in front |
| Display.PadKeepsValue | script.js:123 | padding a digit string keeps the number it denotes |
| Display.JsRem | script.js:122 | JavaScript's % with a positive divisor: a = q × b + r for some whole q, the remainder has the sign of the dividend, and it is smaller than the divisor in size |
| Display.ClockParts | script.js:121-122 | the minutes are Math.floor(timeLeft / 60): minutes × 60 <= timeLeft < minutes × 60 + 60. For a non-negative countdown, minutes × 60 + seconds = timeLeft with 0 <= seconds < 60; for a negative one the minutes are negative and the seconds are between -59 and 0 |
| Display.ClockTextReadsBack | script.js:121-123 | a non-negative countdown's text reads back: the digits before the ':' denote Math.floor(timeLeft / 60), the two digits after it denote timeLeft % 60 (below 60), and minutes × 60 + seconds = timeLeft |
| Display.ClockReadsBack | script.js:123 | whole minutes and seconds below 60 give text that splits at the ':' back into them, and that is exactly five characters below 100 minutes |
| Display.ClockTextIsFiveChars | script.js:121-123 | below 100 minutes the countdown text is exactly "MM:SS": five characters with the ':' in the middle |
| Display.FocusParts | script.js:126-127 | for a non-negative total, hours × 3600 + minutes × 60 <= total < that + 60, with 0 <= minutes < 60 |
| Display.FocusText | script.js:126-128 | the total focus text has at least five characters and ends in 'm' |
| Display.FocusTextReadsBack | script.js:126-128 | for a non-negative total the text reads back: the digits before "h " are the hours, the digits between it and the final 'm' the minutes (below 60), and hours × 3600 + minutes × 60 <= total < that + 60 |
| Display.StreakUnit | script.js:135 | the unit is "day" exactly when the streak is 1, and "days" otherwise |
| Display.StreakText | script.js:133-136 | the streak text has at least five characters and ends with the unit word |
| Display.StreakTextReadsBack | script.js:133-136 | the streak text is the digits of the streak, a space, then "day" exactly when the streak is 1 |
| Timer.Initial | script.js:3-9 | the page starts stopped, in focus, with 1500 seconds, session 1, no focus time, not completed today and the inputs editable, whatever the inputs hold; the state is well-formed and the store is as found |
| Timer.EditInputs | script.js:55-83 | an edit changes nothing while the inputs are disabled (from startTimer's lock until resetTimer's unlock, so also while paused); while they are enabled it sets exactly the two inputs; the inputs-locked invariant is kept |
| Timer.StartOutcomeOf | script.js:40-49 | startTimer returns early exactly when the timer runs; it alerts exactly when it is stopped and an input is NaN; it starts exactly when it is stopped and both inputs are numbers |
| Timer.Start | script.js:39-57 | startTimer keeps the inputs-locked invariant and never changes the countdown. The timer is running afterwards unless an input is NaN. When it is already running or an input is NaN, the state does not change |
| Timer.Pause | script.js:69-76 | pauseTimer clears the running flag and changes nothing else, so the inputs stay disabled; it keeps a well-formed state well-formed |
| Timer.Reset | script.js:78-88 | resetTimer leaves a well-formed state |
| Timer.Save | script.js:177-185 | saveToLocalStorage stores a record with every field present: the session count, the total, the flag and today; nothing else changes |
| Timer.MarkDay | script.js:219-224 | recordDailyCompletion adds today as a truthy key and keeps every other key and marker |
| Timer.Complete | script.js:90-118 | completeSession leaves the timer stopped (no automatic restart), in the other phase, and well-formed |
| Timer.Tick | script.js:59-66 | with timeLeft > 0 the tick only decrements it by 1; otherwise the tick completes the phase and stops the timer |
| Timer.Toggle | script.js:31-37 | toggleTimer stops a running timer and keeps the state well-formed |
| Timer.NumberOr | script.js:191-192 | a stored number replaces the default unless it is missing or 0 |
| Timer.FlagOr | script.js:193 | the stored flag is true exactly when it is stored as true |
| Timer.Load | script.js:187-196 | with a stored record, the session count becomes the stored one unless missing or 0 (then 1), the total the stored one unless missing or 0 (then 0), the flag the stored one unless missing (then false). With no record, nothing changes. Every other field is kept |
| Timer.CheckDaily | script.js:226-236 | completedToday becomes false exactly when a stored record exists and its lastCompletionDate is not today; nothing else changes |
| Timer.TimerApp.constructor | script.js:3-9 | the page starts stopped, in focus, with 1500 seconds, session 1, no focus time and not completed today |
| Timer.TimerApp.EditTimeInputs | script.js:55-56 | typing into the inputs changes them only while they are enabled |
| Timer.TimerApp.StartTimer | script.js:39-57 | the fields become Start of the old state; the outcome says whether it returned early (running, or a NaN input) or started |
| Timer.TimerApp.OnTick | script.js:59-66 | the fields become Tick of the old state |
| Timer.TimerApp.PauseTimer | script.js:69-76 | only the running flag changes, to false; a valid state stays valid |
| Timer.TimerApp.ResetTimer | script.js:78-88 | the fields become Reset of the old state |
| Timer.TimerApp.CompleteSession | script.js:90-118 | the fields become Complete of the old state, reached by the source's own sequence of steps |
| Timer.TimerApp.ToggleTimer | script.js:31-37 | the fields become Toggle of the old state |
| Timer.TimerApp.SaveToLocalStorage | script.js:177-185 | the stored record becomes the session count, total, flag and today; a valid state stays valid |
| Timer.TimerApp.LoadFromLocalStorage | script.js:187-196 | the fields become Load of the old state; a valid state stays valid |
| Timer.TimerApp.CheckDailyCompletion | script.js:226-236 | the fields become CheckDaily of the old state; a valid state stays valid |
| Timer.TimerApp.RecordDailyCompletion | script.js:219-224 | only the day map changes: today is set to true; a valid state stays valid |
| Timer.TimerApp.GetStreakCount | script.js:199-217 | the loop's count equals the recursive walk: the marked run ending today, with the day before it unmarked; the same value as the streak panel's |
| TimerFacts.Run | script.js:59-66 | n ticks of the interval keep the state well-formed; a stopped timer gets no ticks; a timer still running after n ticks has only counted down by n |
| TimerFacts.CountdownRuns | script.js:59-62 | k ticks with k <= timeLeft only count down by k, and nothing completes early |
| TimerFacts.CountdownCompletes | script.js:59-66 | a running countdown at t >= 0 completes its phase on tick t + 1 |
| TimerFacts.CountdownStaysNonNegative | script.js:59-66 | with non-negative durations, a non-negative countdown stays non-negative |
| TimerFacts.FocusCompletion | script.js:90-105 | a focus completion sets these and nothing else: running false; total + focus × 60; completedToday true; the record saved with today; today marked; phase break; countdown break × 60. The session count is unchanged |
| TimerFacts.BreakCompletion | script.js:106-118 | a break completion sets these and nothing else: running false; session count + 1; phase focus; countdown focus × 60. The total, the record and the day map are untouched |
| TimerFacts.TickMonotone | script.js:59-118 | across a tick, the total (for focus >= 0) and the session count do not decrease; no day leaves the map and no marked day loses its mark |
| TimerFacts.TotalOnlyOnFocusCompletion | script.js:59-118 | the total changes only on a focus completion, by exactly focus × 60; the session count only on a break completion, by exactly 1 |
| TimerFacts.StartGuards | script.js:39-51 | start is a no-op while running; any two numbers (zero and negatives too) start the timer; a NaN input leaves everything unchanged |
| TimerFacts.PauseIdempotent | script.js:69-76 | pausing twice equals pausing once |
| TimerFacts.ResetSettles | script.js:78-88 | reset always yields: stopped; focus; focus × 60; inputs editable. The session count, total, flag, day map and record are unchanged, and a second reset changes nothing |
| TimerFacts.ToggleIsPauseOrStart | script.js:31-37 | toggle pauses a running timer and starts a stopped one |
| TimerFacts.LoadDefaults | script.js:187-196 | nothing stored changes nothing; an empty record loads as session 1, no focus time, not completed; a stored session count of 0 loads as 1; a record with a total and no count loads the total and session 1 |
| TimerFacts.LoadAfterSave | script.js:177-196 | a saved record loads back its total and flag, and its session count unless it was 0 |
| TimerFacts.CompletedTodayAcrossDays | script.js:226-236 | after a focus completion, a reload the same day keeps completedToday; a reload on any other day clears it |
| TimerFacts.MarkDayIdempotent | script.js:219-224 | recording today twice equals recording it once, and the map only grows |
| TimerFacts.StreakAfterFocusCompletion | script.js:94-99 | after a focus completion today, the current streak is one more than the streak that ended yesterday |
| TimerFacts.FreshSessionScenario | script.js:3-66 | fresh page with 25 and 5: start, then 1500 ticks reach 0 still in focus and running. Tick 1501 gives a stopped break of 300 seconds, 1500 focus seconds, session 1, today marked, and the record saved |

## Left out

- Page updates are not modelled. This covers button text and disabled state, CSS classes, `textContent` writes, `createDayElement`, the month label, the streak modal with its Escape handler, and the `window` exports. They are presentation only. The texts they show are modelled in `Display`.
- The Web Audio beep and the Notification API are not modelled. They are fire-and-forget side effects, and the timer bookkeeping does not depend on them.
- `setInterval` and `clearInterval` become an explicit tick, `TimerApp.OnTick`. It requires the running flag, because the interval exists only while the timer runs. There is no concurrency to model.
- `localStorage` and JSON are modelled as two fields of the state. Malformed JSON, which would throw, is not modelled. Neither are stored fields of other JSON types.
- The `Date` library is replaced by integer day ordinals. This leaves out `toISOString`, parsing a date string, the local `setDate` step back from a UTC-midnight date, and the millisecond difference with `Math.ceil` in `isConsecutiveDate`. Their time-zone and daylight-saving behaviour is therefore not modelled.
- Streak.SortKeys: sorting the string keys is modelled as sorting day ordinals. The two orders agree for well-formed ISO dates with four-digit years.
- Calendar.RenderCalendar: a month day's key is taken to be the first of the month plus day - 1. The source builds it from a local-midnight `Date` converted to UTC, which can shift by one day east of UTC.
- Calendar.RenderCalendar: the weekday of the first of the month, the month's length and the previous month's length are parameters. They come from `getDay` and `getDate`.
- Month navigation (`previousMonth`, `nextMonth`) is not modelled. It relies on `setMonth` overflow, which is library behaviour.
- `parseInt` is not modelled. An input is given as its parsed value.
- Timer.Reset: requires the focus input to hold a number. `resetTimer` multiplies an unchecked parse, which gives `NaN` for a non-number. The model has no `NaN` countdown.
- A focus completion reads the clock twice in the source, once for the saved record and once for the day map. Both reads are one `today` parameter here, so a completion exactly at midnight is not modelled.
- TimerFacts.TickMonotone: assumes a focus duration of 0 or more. The source accepts negative durations, and with one a focus completion lowers the total.
- TimerFacts.CountdownStaysNonNegative: assumes non-negative durations, for the same reason.
- Numbers are unbounded integers here, while JavaScript numbers are IEEE doubles. The model is exact only where those agree: integers below 2^53 in magnitude. parseInt of a longer digit string loses precision or gives Infinity, and String(n) switches to exponent notation from 1e21. None of that is modelled.
