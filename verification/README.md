# Productivity Master, modelled in Dafny

A model of the logic behind a small React productivity app. The app has two
task lists with a due-date and priority order, a Pomodoro countdown timer,
and two statistics views. The React state setters are modelled as pure
functions from the old state to the new one. Rendering is not modelled.

| file | module | what it models |
|---|---|---|
| `wrappers.dfy` | `Wrappers` | `Option`, for a value that may be absent |
| `tasks.dfy` | `Tasks` | the task record, the three priority levels, both sort comparators, both one-step priority changes, `map` and `filter` by id |
| `sorting.dfy` | `Sorting` | the stable comparator sort that both lists use, characterised without its algorithm |
| `task_store.dfy` | `TaskStore` | the task list kept by `App.jsx`; every change re-sorts it |
| `task_manager.dfy` | `TaskManager` | the `TaskManager` component; it keeps insertion order and sorts a copy for display |
| `timer.dfy` | `Timer` | the countdown state machine; `App.jsx` and `PomodoroTimer` share it |
| `format.dfy` | `Format` | `formatTime` ("MM:SS"), `toString`, `padStart`, and a reader for the clock text |
| `statistics.dfy` | `Statistics` | the per-priority counts and percentages, and the completion percentage and completion rate |

Modelling choices:

- **Task ids.** `Date.now()` becomes a `freshId` parameter.
- **Due dates.** A due date becomes an integer key. This assumes the date strings compare the way the dates they denote do.
- **Priorities.** A priority is one of the three values the Select widgets offer.
- **Sort.** JavaScript's sort is stable. So `sortTasks` and `sortedTasks` are modelled by one insertion sort over the order "due date ascending, then high before medium before low".
  - `Tasks.ComparatorsAgree` proves that both comparators of the source induce this order.
  - `Sorting.SortCharacterized` proves the sort is the one ordered arrangement that keeps every tie class, i.e. the tasks with the same date and priority, in input order.
- **Timer effect.** The effect is split into `Tick` and `Settle`.
  - `Tick` is the interval callback. It exists only while the timer is running with time left.
  - `Settle` is the `timeLeft === 0` branch. It runs after every change of state.

The code validates less than a reader might expect; the model follows the code:

- **Adding a task.** `addTask` ignores a blank text or a missing date without raising anything.
- **Custom time.** `setCustomTime` does not validate its argument:
  - zero minutes immediately counts a session (`Timer.SetCustomTime`);
  - negative minutes stall the timer (`Timer.NegativeTimeStalls`).
- **TaskManager descriptions.** The `TaskManager` component accepts a description made only of spaces (`TaskManager.BlankDescriptionAccepted`).

## Model

| member | source | states |
|---|---|---|
| Tasks.Level | src/App.jsx:288-289 | the index of a priority in `["low", "medium", "high"]` is a valid index that points back at that priority |
| Tasks.Rank | src/App.jsx:263 | `priorityOrder` reverses the level order: rank plus level is always 2 |
| Tasks.ComparatorsAgree | src/App.jsx:256-265 | `App.jsx`'s comparator is non-positive exactly when the first task precedes the second in the due-date-then-priority order, and zero exactly on equal date and priority. It is antisymmetric, and it agrees in sign with `TaskManager.jsx`'s comparator |
| Tasks.AppStep | src/App.jsx:288-294 | the priority moves by at most one level. "up" never lowers it and stays put only at high; "down" never raises it and stays put only at low |
| Tasks.StepsAgree | src/components/TaskManager.jsx:36-46 | `TaskManager`'s conditional priority change computes the same level as `App.jsx`'s clamped index |
| Tasks.StepRoundTrip | src/App.jsx:290-293 | raising then lowering a priority restores it unless it was already high, and symmetrically |
| Tasks.MapTasks | src/App.jsx:271-273 | `map` keeps the length and transforms each position independently |
| Tasks.WithoutIdMembers | src/App.jsx:280 | the id filter keeps a task exactly when its id differs, with its full multiplicity |
| Tasks.WithoutIdKeepsOrder | src/components/TaskManager.jsx:27 | the id filter keeps the surviving tasks in their relative order |
| Tasks.WithoutAbsentId | src/App.jsx:280 | filtering out an id no task carries changes nothing |
| Sorting.Insert | src/App.jsx:257-265 | inserting into an ordered list adds exactly that task and keeps the list ordered |
| Sorting.Sort | src/App.jsx:256-266 | the sort returns an ordered permutation of its input |
| Sorting.SortStable | src/App.jsx:256-266 | the sort is stable: every tie class of equal date and priority keeps its input order |
| Sorting.SortedUnique | src/App.jsx:256-266 | two ordered lists with the same tie classes are equal |
| Sorting.SortCharacterized | src/App.jsx:256-266 | a list is the sort's result exactly when it is ordered and has the input's tie classes |
| Sorting.SortSorted | src/App.jsx:256-266 | sorting a list that is already ordered changes nothing |
| Sorting.InsertMap | src/App.jsx:270-273 | inserting commutes with any per-task update that keeps dates and priorities |
| Sorting.SortAppended | src/App.jsx:248-249 | sorting an ordered list with one task appended inserts that task right after the tasks that precede or tie with it |
| Sorting.SortMap | src/App.jsx:270-273 | sorting commutes with any per-task update that keeps dates and priorities |
| TaskStore.TrimStart | src/App.jsx:239 | leading white space is removed: the result is a suffix, everything dropped before it is white space, and it starts with a non-space. It is empty exactly for blank text |
| TaskStore.TrimEnd | src/App.jsx:239 | trailing white space is removed: the result is a prefix, everything dropped after it is white space, and it ends with a non-space. It is empty exactly for blank text |
| TaskStore.Trim | src/App.jsx:239 | the trimmed text is a slice of the input with only white space cut off on either side, and it neither starts nor ends with white space |
| TaskStore.TrimEmptyIffBlank | src/App.jsx:239 | `newTask.trim()` is falsy exactly when the text is all white space |
| TaskStore.AddTask | src/App.jsx:238-254 | blank text or an empty date leaves the list unchanged. Otherwise the list gains exactly the new, not completed, task and is ordered |
| TaskStore.Submit | src/App.jsx:238-253 | the add button updates the list as `addTask` does. A rejected add leaves the form alone; a successful one clears the text and date fields and keeps the selected priority |
| TaskStore.SubmitClears | src/App.jsx:251-252 | right after a successful add, pressing the button again changes nothing, because the cleared form is rejected |
| TaskStore.AddTaskStable | src/App.jsx:248-249 | the new task goes after every task with its date and priority, and every tie class of the other tasks keeps its order |
| TaskStore.AddKeepsOrder | src/App.jsx:248-249 | on a list in canonical order, an accepted add puts the new task right after the tasks that precede or tie with it, and every existing task keeps its relative order |
| TaskStore.ToggleComplete | src/App.jsx:268-276 | the result is ordered. On an ordered list, position by position, only the completion flag of the tasks with that id flips |
| TaskStore.ToggleTwice | src/App.jsx:268-276 | toggling the same id twice gives back the sorted list; on an ordered list it is the identity |
| TaskStore.DeleteTask | src/App.jsx:278-282 | the result is ordered and holds every task without that id, as often as before. On an ordered list it is an order-preserving sublist, and an absent id changes nothing |
| TaskStore.DeleteUndoesAdd | src/App.jsx:278-282 | on an ordered list, deleting the fresh id an add has just stamped restores the list, whether or not the add went through |
| TaskStore.ChangePriority | src/App.jsx:284-300 | the result is ordered and has the same length. Tasks with other ids are kept as often as before. Every task with the id in the result is an original one with its priority stepped, every original with the id appears stepped, and the result is a permutation of the mapped list |
| TaskStore.Replay | src/App.jsx:214 | from the empty initial list, any history of adds, deletes, toggles and priority changes leaves the list ordered |
| TaskStore.SameDateHighFirst | src/App.jsx:256-265 | two tasks on one date, added low first and then high, are listed high first, whatever their texts and ids |
| TaskManager.AddTask | src/components/TaskManager.jsx:20-25 | an empty description changes nothing; otherwise exactly the new task is appended at the end |
| TaskManager.RemoveUndoesAdd | src/components/TaskManager.jsx:27 | removing the fresh id an add has just stamped gives back the original list |
| TaskManager.BlankDescriptionAccepted | src/components/TaskManager.jsx:21 | a description of one space is appended here, while `App.jsx`'s `addTask` rejects it |
| TaskManager.RemoveTask | src/components/TaskManager.jsx:27 | a task survives exactly when its id differs, as often as before and in its relative order |
| TaskManager.ChangePriority | src/components/TaskManager.jsx:29-51 | position by position, only the priority of tasks with that id changes. It moves one step in the requested direction and is clamped at high and at low |
| TaskManager.SortedTasks | src/components/TaskManager.jsx:53-60 | the displayed list is an ordered, stable permutation of the stored one |
| TaskManager.RemoveMatchesApp | src/components/TaskManager.jsx:27 | removing a task and sorting for display gives the list `App.jsx`'s `deleteTask` holds |
| TaskManager.ChangePriorityMatchesApp | src/components/TaskManager.jsx:29-51 | changing a priority and sorting for display gives the list `App.jsx`'s `changePriority` holds |
| Timer.Settle | src/App.jsx:230-234 | after the effect the time left is never zero. A state with time left is not touched |
| Timer.Step | src/App.jsx:224-236 | one second on a running timer with time left takes one second off. At one second left it stops, counts a session and reloads 25 minutes. A stopped timer stays as it is |
| Timer.Toggle | src/App.jsx:302-304 | on a state with time left, toggling flips the running flag and nothing else |
| Timer.Reset | src/App.jsx:306-309 | a reset stops the timer with 25 minutes and keeps the sessions and the goal |
| Timer.SetCustomTime | src/App.jsx:311-314 | the timer stops. Non-zero minutes set the time to minutes times 60; zero minutes reload 25 minutes and count a session |
| Timer.SetGoal | src/components/PomodoroTimer.jsx:53 | the goal takes the new value and nothing else changes |
| Timer.ToggleTwice | src/components/PomodoroTimer.jsx:24 | on a state with time left, toggling twice is the identity |
| Timer.StoppedIsFrozen | src/components/PomodoroTimer.jsx:10-22 | a stopped timer never changes, however long one waits |
| Timer.CountingDown | src/components/PomodoroTimer.jsx:12-15 | before reaching zero, k seconds take exactly k seconds off and change nothing else |
| Timer.Countdown | src/components/PomodoroTimer.jsx:10-22 | a timer running with n seconds left completes one session after exactly n seconds, then stops with 25 minutes reloaded |
| Timer.FullSession | src/components/PomodoroTimer.jsx:5-22 | started from the initial state, 1500 seconds later one session is counted and the timer is otherwise as it started |
| Timer.ThreeSecondsLeft | src/App.jsx:224-236 | a running timer with three seconds left is, three seconds later, stopped with one more session and 25 minutes |
| Timer.HealthPreserved | src/App.jsx:302-314 | ticks, toggles, resets and goal changes keep the time left positive. A custom time keeps it positive exactly when the minutes are not negative |
| Timer.NegativeTimeStalls | src/App.jsx:311-314 | after a negative custom time the started timer never moves and never completes a session |
| Format.Digits | src/components/PomodoroTimer.jsx:31-32 | `toString` of a non-negative integer is a non-empty digit string; it is one digit exactly below 10 and at most two below 100 |
| Format.PadStart2 | src/components/PomodoroTimer.jsx:33 | text shorter than two characters gets zeros prepended up to length two; longer text is left alone |
| Format.ValueOfDigits | src/components/PomodoroTimer.jsx:31-32 | the digits `toString` writes denote the number |
| Format.PaddedValue | src/components/PomodoroTimer.jsx:33-34 | zero-padding keeps a digit string's value |
| Format.FormatTime | src/components/PomodoroTimer.jsx:30-35 | below 100 minutes the text is five characters: two digits, a colon, two digits |
| Format.FormatTimeRoundTrip | src/components/PomodoroTimer.jsx:30-35 | reading the clock text back gives the number of seconds, for every non-negative time |
| Format.FixedTwo | src/components/Statistics.jsx:11-13 | `toFixed(2)` of hundredths h writes digits, a point and two digits; the whole part denotes h / 100 and the two digits h % 100, and a whole part of more than one digit does not start with '0' |
| Format.FixedTwoRoundTrip | src/components/Statistics.jsx:11-13 | reading the `toFixed(2)` text back gives the hundredths it was written from |
| Format.FixedTwoUnique | src/components/Statistics.jsx:11-13 | the `toFixed(2)` text is the only text that reads back as those hundredths and has no leading zero in its whole part |
| Format.DigitsOfValue | src/components/PomodoroTimer.jsx:31-32 | every digit string without a leading zero is the `toString` of the number it denotes |
| Statistics.CountPriority | src/components/Statistics.jsx:19-21 | a per-priority count never exceeds the number of tasks |
| Statistics.TallyCounts | src/components/Statistics.jsx:5-8 | the `reduce` adds to each priority's entry the number of tasks with that priority |
| Statistics.PriorityDistribution | src/components/Statistics.jsx:4-8 | the displayed counts are the per-priority counts of the tasks, and zeros when there is no task list |
| Statistics.DistributionTotal | src/App.jsx:150-156 | the three counts add up to the number of tasks |
| Statistics.DistributionPermutation | src/App.jsx:150-154 | the counts do not depend on the order of the tasks |
| Statistics.CompletedCount | src/App.jsx:188 | the completed count is at most the number of tasks. It equals it exactly when every task is completed, and is zero exactly when none is |
| Statistics.RoundHalfUp | src/App.jsx:191 | the rounded value is within one half of the exact quotient, halves going up |
| Statistics.CompletionPercent | src/App.jsx:187-191 | the percentage is 0 without tasks and never above 100. It is the completed share rounded to the nearest integer, 100 when all are done and 0 when none is |
| Statistics.PriorityPercent | src/App.jsx:179 | a priority's percentage is absent exactly for an empty list. Otherwise it is at most 100 and is the count's share rounded to the nearest integer |
| Statistics.PercentsNearHundred | src/App.jsx:161-179 | the three priority percentages add up to between 99 and 101 |
| Statistics.CompletionHundredths | src/components/Statistics.jsx:11-13 | the rate in hundredths of a percent is at most 10000 and is the completed share rounded to the nearest hundredth. It is 10000 when all are done and 0 when none is |
| Statistics.CompletionRate | src/components/Statistics.jsx:10-14 | the rate reads "0.00" for an absent or empty list. For a non-empty list the text reads back as the completed share in hundredths of a percent, rounded, and has no leading zero, so `Format.FixedTwoUnique` makes it exactly the `toFixed(2)` text; it is "0.00" when nothing is done and "100.00" when everything is done |
| Statistics.StatisticsWithoutTasks | src/components/Statistics.jsx:4-14 | rendered without a task list, the view shows zero counts and a "0.00" rate |

## Left out

- Rendering, JSX, CSS classes and the UI widget library are not modelled. React's batching and scheduling of state updates are not modelled either; each handler is one atomic transition.
- Wall-clock time is not modelled. `Date.now()` becomes the `freshId` parameter; its freshness is a precondition where a lemma needs it.
- `setInterval` timing is not modelled. One call to `Timer.Step` is one second of elapsed time.
- Date parsing (`new Date(...)`) is not modelled. A due date is an integer key, so invalid dates, which compare as `NaN`, are not represented.
- The TaskManager empty due date is not represented. Its `addTask` accepts an empty due date, and `new Date("")` is an invalid date; the model's `Draft.dueDate` is always an integer.
- Priority strings other than "low", "medium" and "high" are not represented. The Select widgets offer only these three.
- `parseInt` of a non-numeric custom time is not modelled. It yields `NaN`, which would leave the timer showing "NaN:NaN"; minutes are integers.
- Floating-point arithmetic is not modelled. The percentages are computed in exact rational arithmetic with the rounding rules of `Math.round` and `toFixed(2)`. Results that floating-point representation error would push across a rounding boundary may therefore differ.
- The progress-bar widths (`ProgressBar`, the priority bars) are only CSS widths and are not modelled.
- `Statistics.PriorityPercent` stands for the `NaN` that an empty list produces with `None`.
- The goal inputs are not modelled as widgets. `App.jsx` sets the goal from a slider (`value[0]`, line 410). `PomodoroTimer` reads a number field with `Number(e.target.value)` (line 53), which gives 0 for an empty field and can give a fraction or `NaN`. The model's goal is an integer, so `SetGoal` covers only integer goals.
- The TaskManager form reset is not modelled. After an add, `TaskManager` resets the description to "", the due date to "" and the priority to "medium" (`TaskManager.jsx` line 23). The empty due date has no integer to stand for it. `App.jsx`'s form reset is modelled by `TaskStore.Submit`.
- `Model B.jsx` is an alternative single-file version of the app and is not part of this model. `Model A.jsx` only arranges the three components in tabs; its one observable consequence is covered by `Statistics.StatisticsWithoutTasks`.
- TaskStore.ToggleComplete: the position-by-position statement is made only for a list already in canonical order. Every list `App.jsx` holds is in that order (`TaskStore.Replay`); for any other input, `TaskStore.ToggleTwice` relates the result to the sorted input.
