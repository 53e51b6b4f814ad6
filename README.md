# Habit tracker: the habit list and its streak rule

This project models the core of a command-line habit tracker. The tracker keeps an
ordered list of habit records in memory. Each record has a name, a streak counter and
the time the habit was last done. The user refers to a record by its 1-based serial
number. The modelled operations are:

- add a habit, refusing a name that is already present;
- mark a habit done, which applies the streak rule;
- rename a habit;
- delete a habit.

The streak rule compares whole calendar dates. A gap of more than one day restarts the
streak at 1. A gap of exactly one day adds one. The same day changes nothing and reports
"already logged today". A negative gap (the clock moved backwards) matches none of these
branches. In that case the code keeps the streak, still sets `last_done` to now, and
reports success.

Layout:

- `habits.dfy` (module `Habits`): the `Timestamp` and `Habit` values, the streak rule
  `Checked` with its status `CheckStatus`, and lemmas about repeated marking.
- `habit_list.dfy` (module `HabitList`): what each operation makes of the list, as
  functions on `seq<Habit>`. It also holds the lemmas that add, mark and delete keep names
  unique, that edit need not, and that every operation keeps streaks non-negative.
- `tracker.dfy` (module `Tracker`): class `Tracker`. It owns the list as a field, and
  its methods change that field in place the way the source functions change the global
  list. Each list operation's `ensures` ties the new list to the matching `HabitList` function.

A timestamp is a calendar day number plus a time of day. The time of day is stored but
never compared. The source reads the clock twice inside `check_streak`. Here both reads
are one `now` parameter, passed to every operation that needs the time.

A negative day difference could be read as a no-op. The code does not do that: it
falls through to the update of `last_done`. The model follows the code
(`Habits.CheckedByDayDifference`, last clause).

## Model

| member | source | states |
|---|---|---|
| `Habits.Checked` | habit_tracker.py:71-79 | The gap is `DayDiff`, the whole-calendar-day difference of line 73. check_streak keeps the name. Afterwards the habit counts as done on the day of `now`. A non-negative streak stays non-negative, and is at least 1 after a forward gap. Any change to the record sets `last_done` to `now`. |
| `Habits.CheckStatus` | habit_tracker.py:78-80 | The message is "already logged" exactly when the habit was last done on the same calendar date. Otherwise it is success, carrying the updated streak. |
| `Habits.CheckedByDayDifference` | habit_tracker.py:73-80 | Gap > 1: streak becomes 1. Gap == 1: streak goes up by 1. In both cases `last_done` becomes `now`. Gap == 0: the record is unchanged and the result is "already logged". Gap < 0: the streak is kept, `last_done` becomes `now`, and success is reported. |
| `Habits.CheckedTwiceSameDay` | habit_tracker.py:73-79 | Marking a second time on the same date changes nothing and reports "already logged", whatever the first mark did. |
| `Habits.CheckedAtEach` | habit_tracker.py:62-80 | Marking at a series of times keeps the name and a non-negative streak. Afterwards the habit counts as done on the date of the last mark. |
| `Habits.ConsecutiveDaysExtendStreak` | habit_tracker.py:74-79 | Marking on each of the k days after the last completion, with no day skipped, adds exactly k to the streak. `last_done` ends at the last mark. |
| `Habits.SkippedDayRestartsStreak` | habit_tracker.py:74-79 | A first mark after a skipped day, followed by k-1 consecutive days, leaves the streak at exactly k, whatever it was before. |
| `HabitList.AfterAdd` | habit_tracker.py:31-36 | After add_habit the name is present. The length grows by one exactly when the name was new, and then the new last record is `{name, streak 0, last_done now}`. Earlier records are untouched. |
| `HabitList.AfterMark` | habit_tracker.py:45-47 | Guarded by `InRange`, the test `0 < index <= len(habits)` of line 45. mark_habit_done changes only the record at `index-1`, and the length stays the same. The marked record keeps its name and counts as done today. |
| `HabitList.MarkResult` | habit_tracker.py:45-50 | The result is NotFound exactly when the index is outside [1, length]. It is "already logged" exactly when the indexed habit was last done today. |
| `HabitList.AfterEdit` | habit_tracker.py:83-84 | Guarded by `InRange`, the same test at line 83. edit_habit keeps every streak and `last_done`, every other record, and the length. Only the name at `index-1` changes, to the new name. |
| `HabitList.AfterDelete` | habit_tracker.py:91-92 | Guarded by `InRange`, the same test at line 91. delete_habit in range removes exactly element `index-1`. The length drops by one. The records before and after keep their order, the later ones shifted down one place. Out of range, the list is unchanged. |
| `HabitList.OutOfRangeChangesNothing` | habit_tracker.py:45-96 | For an index <= 0 or > length, including on the empty list, mark, edit and delete leave the list unchanged, and mark reports NotFound. |
| `HabitList.AddTwiceRejectsSecond` | habit_tracker.py:31-34 | Adding the same name a second time leaves the list as the first add left it. |
| `HabitList.AddKeepsNamesUnique` | habit_tracker.py:31-36 | Adding keeps names unique. |
| `HabitList.DeleteKeepsNamesUnique` | habit_tracker.py:91-92 | Deleting keeps names unique. |
| `HabitList.MarkKeepsNamesUnique` | habit_tracker.py:45-47 | Marking keeps names unique, since the streak rule never changes a name. |
| `HabitList.EditCanDuplicateName` | habit_tracker.py:83-84 | Renaming does not check other names: from a list with unique names, one edit can produce two records with the same name. |
| `HabitList.EditToOtherNameDuplicates` | habit_tracker.py:83-84 | For every list, renaming a record to the name of any other record produces two records with the same name. |
| `HabitList.OperationsKeepStreaksNonNegative` | habit_tracker.py:35-84 | If every streak is >= 0 before add, mark, edit or delete, every streak is >= 0 after it. |
| `Tracker.Tracker.constructor` | habit_tracker.py:116 | The tracker starts with the records loaded at start-up. |
| `Tracker.Tracker.HasHabit` | habit_tracker.py:31-34 | The duplicate scan returns true exactly when some record has that exact name. |
| `Tracker.Tracker.AddHabit` | habit_tracker.py:26-38 | Returns false and leaves the list unchanged when the name exists. Otherwise appends `{name, streak 0, last_done now}` and returns true. Keeps names unique and streaks non-negative. |
| `Tracker.Tracker.CheckStreak` | habit_tracker.py:62-80 | Updates only the record at `i`, in place, to `Checked` of the old record, and returns `CheckStatus`. |
| `Tracker.Tracker.MarkHabitDone` | habit_tracker.py:40-50 | Reports NotFound and changes nothing when the index is outside [1, length]. Otherwise applies the streak rule to record `index-1` only. Keeps names unique and streaks non-negative. |
| `Tracker.Tracker.EditHabit` | habit_tracker.py:82-88 | Returns whether the index was in range. If it was, replaces only the name of record `index-1`. If not, changes nothing. |
| `Tracker.Tracker.DeleteHabit` | habit_tracker.py:90-96 | Returns whether the index was in range. If it was, removes record `index-1` and shifts later records down. If not, changes nothing. Keeps names unique. |

## Left out

- `load_habits` and `save_habits` (habit_tracker.py:9-24, 98-113): reading and writing the JSON file, and the ISO-8601 text form of timestamps. These are file I/O and library calls. The constructor takes the loaded list as a parameter, and the save after each change is not modelled.
- `view_habits` (habit_tracker.py:52-60): printing and date formatting only.
- The menu loop, console input, integer parsing errors, the empty-name check and `exit()` (habit_tracker.py:116-180): console handling. The operations take already-parsed integers and strings.
- `current_time` (habit_tracker.py:5-7): the clock becomes a `now` parameter. `check_streak` reads the clock twice; both reads are the same `now`.
- Printed messages: they are reduced to the returned status (`MarkStatus`, a boolean for add, edit and delete). The success message of check_streak keeps the streak it reports.
- Calendar arithmetic: a date is a day number, so the difference of two dates is a subtraction. Python's conversion of a datetime to its date is not modelled.
