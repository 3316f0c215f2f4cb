# Task list and single-timer state engine of ActionBoard's TodoApp

This project models the state engine of the `TodoApp` component of the
ActionBoard task manager (`task-managing/src/App.jsx`). Its state is an
ordered list of tasks plus one nullable id naming the task whose timer
runs. Five handlers replace that state:

- `addTask` appends a trimmed, open task with zero time, or does nothing for blank input.
- `toggleTask` flips `completed`.
- `deleteTask` filters a task out.
- `toggleTimer` pauses the running task or moves the single timer slot to another task.
- `resetTimer` zeroes a task's time.

A one-second interval advances the time of the task whose timer runs. The
header shows derived statistics: active, completed and total counts, total
time, and a rounded progress percentage. Durations are rendered by
`formatTime` as `H:MM:SS` or `M:SS`.

Layout:

- `wrappers.dfy`: module `Wrappers`, the `Option` type used for the running timer.
- `text.dfy`: module `Text`, the white-space trimming of `String.prototype.trim`.
- `time_format.dfy`: module `TimeFormat`, `formatTime`, with `toString` and `padStart(2, '0')`. It also has a parser for the clock string, used as its inverse.
- `task_list.dfy`: module `TaskList`, the task record and each handler's list transform. It also holds the tick and the derived values, as functions.
- `task_list_facts.dfy`: module `TaskListFacts`, lemmas relating the transforms. These cover double toggles, idempotent reset, filter order, N ticks, totals, progress, and the invariant that the timer runs only on an open task.
- `todo_app.dfy`: module `TodoAppState`, class `TodoApp`. It has the two state fields and one method per handler plus `Tick`. Each method's contract gives the new state in terms of the old state through the `TaskList` functions.

Modelling decisions:

- Ids are `Date.now()` values, so they are positive. The model uses the subset type `TaskId` (positive integers). With positive ids, the truthiness test `if (activeTimer)` at line 21 is the same as testing the `Option` for `Some`. `addTask` takes the fresh id as a parameter, and its method requires that no task already has that id. Under that requirement the class keeps ids unique.
- A tick might be expected to advance only a task that exists and is not completed. The code (lines 21-27) adds one second to every task whose id matches the running timer and never looks at `completed`. The model follows the code: lemma `TickIgnoresCompletion` shows a completed task accruing time. "The running timer is on an open task" (`TimerOnOpenTask`) is kept by `addTask`, `toggleTask`, `deleteTask`, `resetTimer` and the tick. `toggleTimer` keeps it only when it is pressed on an open task, which is the only place the rendering shows the timer button (line 259). Lemma `ToggleTimerOnCompletedTask` shows the handler itself does not check.
- The wider ActionBoard application's archive, star, category, tags, subtasks, Pomodoro, achievements and persistence are not in `App.jsx` and are not part of this model.

## Model

| member | source | states |
|---|---|---|
| Text.Trim | task-managing/src/App.jsx:36 | the trimmed text is empty or starts and ends with a non-white-space character, and is no longer than the input |
| Text.TrimFramed | task-managing/src/App.jsx:43 | the input is the trimmed text with only white space before and after it |
| Text.TrimEmptyIff | task-managing/src/App.jsx:36 | `trim() === ''` holds exactly when every character of the input is white space |
| Text.TrimIdempotent | task-managing/src/App.jsx:43 | trimming the stored text again changes nothing |
| TaskList.UpdateMatching | task-managing/src/App.jsx:54-56 | the `map(task => task.id === id ? ... : task)` pattern: same length; each task whose id matches is replaced by f of it, every other task is kept |
| TaskList.Flip | task-managing/src/App.jsx:55 | `{ ...task, completed: !task.completed }` negates `completed` and keeps every other field |
| TaskList.Zeroed | task-managing/src/App.jsx:79 | `{ ...task, timeSpent: 0 }` sets `timeSpent` to 0 and keeps every other field |
| TaskList.Advanced | task-managing/src/App.jsx:25 | `{ ...task, timeSpent: task.timeSpent + 1 }` adds one to `timeSpent` and keeps every other field |
| TaskList.AddTask | task-managing/src/App.jsx:35-49 | all-white-space input leaves the list unchanged; otherwise the old list is an unchanged prefix and exactly one task is appended, with the given id, the trimmed text, `completed = false` and `timeSpent = 0` |
| TaskList.ToggleCompleted | task-managing/src/App.jsx:53-56 | same length; `completed` is negated on exactly the tasks with the id; id, text and time are unchanged everywhere |
| TaskList.DeleteTask | task-managing/src/App.jsx:62-63 | the length drops by exactly the number of tasks that carry the id |
| TaskList.ResetTime | task-managing/src/App.jsx:77-80 | same length; `timeSpent` becomes 0 on exactly the tasks with the id; the other fields and all other tasks are unchanged |
| TaskList.AdvanceTime | task-managing/src/App.jsx:22-27 | same length; `timeSpent` grows by exactly 1 on the tasks with the id; the other fields and all other tasks are unchanged |
| TaskList.Tick | task-managing/src/App.jsx:21-29 | the interval callback keeps the length and every field but `timeSpent`, which grows by one exactly on the tasks whose id the running timer holds; with no running timer nothing changes |
| TaskList.StopIf | task-managing/src/App.jsx:57-59 | the running timer after toggleTask, deleteTask or resetTimer: cleared iff it was the id (or already empty), otherwise unchanged |
| TaskList.ToggleTimer | task-managing/src/App.jsx:69-75 | the running timer becomes empty when it was the id, and otherwise becomes the id, replacing any other running task |
| TaskList.Occurrences | task-managing/src/App.jsx:63 | the number of tasks with an id is at most the list length |
| TaskList.NoOccurrencesIff | task-managing/src/App.jsx:63 | no task carries the id exactly when its number of occurrences is zero |
| TaskList.CompletedCount | task-managing/src/App.jsx:102 | the completed count is at most the list length |
| TaskList.ActiveCount | task-managing/src/App.jsx:144 | the active count is at most the list length |
| TaskList.CountsPartition | task-managing/src/App.jsx:144 | every task is counted as either active or completed, so the two counts add up to the list length |
| TaskList.TotalCount | task-managing/src/App.jsx:103 | `tasks.length` equals the active count plus the completed count |
| TaskList.TotalTimeSpent | task-managing/src/App.jsx:104 | the `reduce` sum is 0 for an empty list and is at least the time of every single task |
| TaskList.Percent | task-managing/src/App.jsx:157 | the integer reading of `Math.round(completed / total * 100)`: the nearest whole percent with halves rounded up, i.e. `2·t·p <= 200·c + t < 2·t·(p+1)` |
| TaskList.Progress | task-managing/src/App.jsx:157 | progress is 0 for an empty list, otherwise the rounded percent of completed tasks, and always lies in [0,100] |
| TaskList.ActiveTask | task-managing/src/App.jsx:105 | `find` yields a task iff the running timer is set and some task has its id; the task found has that id and is the first task in the list with it; with unique ids it is the only such task |
| TaskList.FirstMatchCons | task-managing/src/App.jsx:105 | a first match in the tail, after a head with another id, is the first match in the whole list |
| TaskList.UniqueOccurrences | task-managing/src/App.jsx:42 | with unique ids, each task's id occurs exactly once |
| TaskListFacts.ToggleTwiceRestores | task-managing/src/App.jsx:53-56 | toggling the same id twice gives back the original list |
| TaskListFacts.ResetIdempotent | task-managing/src/App.jsx:77-84 | a second resetTimer on the same id changes neither the list nor the running timer |
| TaskListFacts.DeleteDistributes | task-managing/src/App.jsx:63 | filtering a concatenation is the concatenation of the filtered parts, so the kept tasks stay in their relative order |
| TaskListFacts.DeleteCons | task-managing/src/App.jsx:63 | the filter keeps or drops the first task by its id and filters the rest |
| TaskListFacts.DeleteMembers | task-managing/src/App.jsx:63 | a task is kept iff it was in the list and its id differs |
| TaskListFacts.DeleteSingle | task-managing/src/App.jsx:63 | a one-task list loses its task exactly when the task has the id |
| TaskListFacts.DeleteUnknownId | task-managing/src/App.jsx:62-67 | deleting an id that no task has leaves the list unchanged |
| TaskListFacts.DeleteRemovesOne | task-managing/src/App.jsx:62-63 | with unique ids, deleting a present id shortens the list by exactly one |
| TaskListFacts.SwitchTimer | task-managing/src/App.jsx:69-75 | toggleTimer(a) and then toggleTimer(b) for another task leaves exactly b running |
| TaskListFacts.ToggleTimerTwice | task-managing/src/App.jsx:69-75 | pressing the timer button twice from idle leaves it idle |
| TaskListFacts.UpdateKeepsUnique | task-managing/src/App.jsx:54-56 | a transform that keeps every task's id keeps ids unique |
| TaskListFacts.AddKeepsUnique | task-managing/src/App.jsx:41-49 | appending a task with a fresh id keeps ids unique |
| TaskListFacts.DeleteKeepsUnique | task-managing/src/App.jsx:63 | filtering keeps ids unique |
| TaskListFacts.TickTouchesOnlyActive | task-managing/src/App.jsx:21-27 | a tick keeps the length; a task gains exactly one second iff the running timer names its id, and otherwise is unchanged |
| TaskListFacts.AtMostOneAccrues | task-managing/src/App.jsx:21-26 | with unique ids, two tasks changed by the same tick are the same task |
| TaskListFacts.TickIgnoresCompletion | task-managing/src/App.jsx:21-27 | a completed task under the running timer still accrues a second |
| TaskListFacts.Ticks | task-managing/src/App.jsx:20-30 | N ticks with no command in between keep the list length |
| TaskListFacts.TicksAccumulate | task-managing/src/App.jsx:20-30 | N ticks without an intervening command add exactly N seconds to the task under the running timer and nothing to any other task |
| TaskListFacts.TickOneMore | task-managing/src/App.jsx:22-27 | one more tick on a task that has accrued m ticks gives m + 1 ticks, and nothing to a task off the running timer |
| TaskListFacts.TotalTimeAppend | task-managing/src/App.jsx:104 | the time sum of a concatenation is the sum of the parts' time sums |
| TaskListFacts.CountsAppend | task-managing/src/App.jsx:102 | the completed and active counts of a concatenation are the sums of the parts' counts |
| TaskListFacts.TotalTimeAfterAdvance | task-managing/src/App.jsx:22-27 | advancing id adds to the total time exactly the number of tasks with that id |
| TaskListFacts.TickTotalTime | task-managing/src/App.jsx:20-30 | total time never decreases across a tick; with unique ids it grows by exactly one iff the running timer names a task of the list |
| TaskListFacts.AddTaskStatistics | task-managing/src/App.jsx:35-49 | adding a task raises the total and the active count by one and leaves the completed count and total time unchanged |
| TaskListFacts.ProgressExtremes | task-managing/src/App.jsx:157 | progress is 100 when every task is completed and 0 when none is |
| TaskListFacts.TimerOnOpenTask | task-managing/src/App.jsx:259-263 | the invariant of the running timer: empty, or naming an open task of the list, which is where the rendering offers the timer button |
| TaskListFacts.OpenTimerIsShown | task-managing/src/App.jsx:174-180 | with unique ids and the timer on an open task, `find` locates a task and it is open, so the "Working on" panel shows an open task |
| TaskListFacts.AddKeepsTimerOnOpenTask | task-managing/src/App.jsx:35-49 | addTask keeps the running timer on an open task |
| TaskListFacts.ToggleKeepsTimerOnOpenTask | task-managing/src/App.jsx:53-60 | toggleTask keeps the running timer on an open task, because it clears the running timer when it completes the running task |
| TaskListFacts.DeleteKeepsTimerOnOpenTask | task-managing/src/App.jsx:62-67 | deleteTask keeps the running timer on an open task, because it clears a timer running on the deleted task |
| TaskListFacts.ResetKeepsTimerOnOpenTask | task-managing/src/App.jsx:77-84 | resetTimer keeps the running timer on an open task |
| TaskListFacts.TickKeepsTimerOnOpenTask | task-managing/src/App.jsx:20-30 | the tick keeps the running timer on an open task |
| TaskListFacts.ToggleTimerKeepsTimerOnOpenTask | task-managing/src/App.jsx:259-268 | toggleTimer pressed on an open task, the only place the rendering offers the button, keeps the running timer on an open task |
| TaskListFacts.ToggleTimerOnCompletedTask | task-managing/src/App.jsx:69-75 | toggleTimer on a completed task makes the running timer name a completed task: the handler has no guard of its own |
| TaskListFacts.PercentOfAll | task-managing/src/App.jsx:157 | the rounded percent of t out of t is 100 |
| TaskListFacts.PercentOfNone | task-managing/src/App.jsx:157 | the rounded percent of 0 out of t is 0 |
| TimeFormat.NatToString | task-managing/src/App.jsx:91 | `toString` of a count is never empty |
| TimeFormat.NatToStringDigits | task-managing/src/App.jsx:91 | `toString` writes only decimal digits, one digit iff the count is below 10, and no leading zero except for 0 itself |
| TimeFormat.DecimalOfNatToString | task-managing/src/App.jsx:91 | reading the decimal digits back gives the original count |
| TimeFormat.DigitChar | task-managing/src/App.jsx:91 | a digit value below 10 becomes the decimal digit character of that value |
| TimeFormat.PadStart2 | task-managing/src/App.jsx:91-93 | `padStart(2, '0')` gives at least two characters, ends with the input and adds only zeros in front |
| TimeFormat.PadStartIsTwoDigits | task-managing/src/App.jsx:91-93 | for a value below 100, padding its decimal form gives its tens digit followed by its units digit |
| TimeFormat.PaddedFields | task-managing/src/App.jsx:91-93 | minutes and seconds below 100 both pad to their two digits |
| TimeFormat.Split | task-managing/src/App.jsx:87-89 | hours·3600 + minutes·60 + seconds equals the input, with minutes < 60 and seconds < 60 |
| TimeFormat.Clock | task-managing/src/App.jsx:90-93 | for minutes and seconds below 100: at least one hour renders as `H:MM:SS` and less as `M:SS`, with the minutes and seconds after a colon always as two digits |
| TimeFormat.FormatTime | task-managing/src/App.jsx:86-94 | `formatTime` loses nothing: its clock string reads back as exactly the original number of seconds |
| TimeFormat.FormatTimeInjective | task-managing/src/App.jsx:86-94 | different durations never render as the same string |
| TimeFormat.TwoDigitsValue | task-managing/src/App.jsx:91 | a two-digit field reads back as its value |
| TimeFormat.FieldSplit | task-managing/src/App.jsx:91-93 | in `front:XY` the last colon stands three characters from the end, with front before it and the two-character field after it |
| TimeFormat.ParseLastField | task-managing/src/App.jsx:91-93 | the seconds field after the last colon is read first, then what stands in front of it |
| TimeFormat.ParseHoursField | task-managing/src/App.jsx:91 | `H:MM` in front of the seconds contributes H·3600 + MM·60 |
| TimeFormat.ParseHoursLayout | task-managing/src/App.jsx:91 | an `H:MM:SS` string reads back as hours·3600 + minutes·60 + seconds |
| TimeFormat.ParseMinutesLayout | task-managing/src/App.jsx:93 | an `M:SS` string with minutes below 60 reads back as minutes·60 + seconds |
| TimeFormat.ParseClockOfClock | task-managing/src/App.jsx:90-93 | the string `Clock` assembles from h, m < 60 and s < 60 reads back as h·3600 + m·60 + s |
| TodoAppState.TodoApp.Valid | task-managing/src/App.jsx:42 | the class invariant: no two tasks share an id, as distinct `Date.now()` values give |
| TodoAppState.TodoApp.constructor | task-managing/src/App.jsx:5-7 | the component starts with no tasks and no running timer |
| TodoAppState.TodoApp.AddTask | task-managing/src/App.jsx:35-51 | the new list is addTask's transform of the old one; the running timer is unchanged; ids stay unique and a running timer on an open task stays on one |
| TodoAppState.TodoApp.ToggleTask | task-managing/src/App.jsx:53-60 | the new list is the old one with `completed` toggled on the id; the running timer is cleared iff it was the id; invariants kept |
| TodoAppState.TodoApp.DeleteTask | task-managing/src/App.jsx:62-67 | the new list is the old one filtered on the id; the running timer is cleared iff it was the id; invariants kept |
| TodoAppState.TodoApp.ToggleTimer | task-managing/src/App.jsx:69-75 | the list is untouched; the running timer toggles between empty and the id, replacing any other running task |
| TodoAppState.TodoApp.ResetTimer | task-managing/src/App.jsx:77-84 | the new list is the old one with time zeroed on the id; the running timer is cleared iff it was the id; invariants kept |
| TodoAppState.TodoApp.Tick | task-managing/src/App.jsx:19-33 | the new list is the old one advanced on the running timer; the running timer and length are unchanged; at most one task changes; total time does not decrease |
| TodoAppState.TodoApp.Statistics | task-managing/src/App.jsx:102-104 | the statistics panel: active plus completed is the total, which is the list length; progress lies in [0,100]; an empty list shows 0% and no time |

## Left out

- React plumbing is not modelled: `useState`, `useEffect`, and scheduling by `setInterval`/`clearInterval`, including re-registering the interval when `activeTimer` changes. The tick is the explicit method `TodoApp.Tick`, applied to the current state. The interleaving of a handler with an interval callback that still holds an old `activeTimer` is a scheduling artefact and is not modelled.
- The wall clock and locale formatting are not modelled: `currentTime`, `formatCurrentTime`, the date line and `createdAt`. The task record has no creation timestamp.
- Id generation by `Date.now()` is not modelled. The fresh id is a parameter of `AddTask`.
- The `alert` for blank input is not modelled; only its "no change" outcome is.
- The input buffer, clearing it after an add, and the Enter-key handler are not modelled.
- Rendering, icons and CSS are not modelled. This includes the floating-point width of the progress bar. The hiding of the timer buttons on completed tasks is not a code invariant; it appears only as the hypothesis of `ToggleTimerKeepsTimerOnOpenTask` and of the corresponding clause in the ensures of `TodoApp.ToggleTimer`.
- TaskList.AdvanceTime: `timeSpent` is a `nat` in the model. The source's `(task.timeSpent || 0)` fallback for a missing value has no case here. Every task is created with `timeSpent: 0` and no handler removes the field, so the fallback never applies.
- TaskList.Percent: `Math.round((completed / total) * 100)` uses floating point. The model uses the exact integer `(200·c + t) / (2·t)`, the exact quotient rounded with halves up. The two differ where binary rounding of the quotient crosses a half: with 23 of 40 tasks completed, `(23 / 40) * 100` is 57.49999999999999 in floating point and the source shows 57%, while `Percent(23, 40)` is 58.
- JavaScript numbers are doubles; the model uses unbounded `int` and `nat` for ids, `timeSpent`, the counts and the statistics. In the source, `timeSpent + 1` stops changing past 2^53 seconds and `toString` switches to exponent notation from 1e21, which would reach formatTime's hours field; neither is reachable in practice.
- Text.Trim: the white-space set is the fixed list of ECMAScript WhiteSpace and LineTerminator code points as single `char` values. The model has no notion of UTF-16 surrogate pairs.
