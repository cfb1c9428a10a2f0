# HabitFast: habit form, habit list and day grid

This project models the two pieces of sequential logic in the HabitFast app.

The first is the main screen (`app/index.tsx`). It holds an in-memory, ordered list of habits and an add/edit form. The form has a title, a description, an optional color, an optional reminder time, a list of selected weekdays and an optional edit index. The model covers:

- the save gate;
- opening the form to add or edit a habit;
- saving, which appends or replaces one entry;
- the confirmed delete;
- the weekday chips.

Each React state update is a pure function from the old state to the new one.

The second is the day grid of the habit tracker (`components/HabitTracker.tsx`). It has seven rows, one per weekday, Monday first. The columns are `ceil(totalDays / 7)` weeks counted from 1 July 2024. The cell in row `r` and column `c` stands for the day `7c + r` days after the start date. Cells whose offset is not below `totalDays` are not rendered. A cell's text is the row's fixed Spanish weekday initial followed by the day of the month of its date.

The modules are:

- `Optional`: the `Option` type used for `T | undefined` and `T | null`.
- `Decimal`: the decimal text of a non-negative integer (what `${n}` prints) and its inverse.
- `Calendar`: proleptic Gregorian dates, day numbers counted from 1 January of year 1 (a Monday), the next-day roll-over and adding days. This is what `Date.setDate` does.
- `Habits`: the form and the list.
- `Tracker`: elapsed days, columns, cell offsets, labels and the render loop.

The source's `Habit` record has two optional fields, `reminderTime?` and `days?`. The model keeps them as `Option`. A JavaScript truthiness test on a `string | undefined` becomes "present and non-empty".

## Model

| member | source | states |
|---|---|---|
| Habits.OpenModal | app/index.tsx:57-75 | With no index the title and description are empty, no color, time or day is selected, the edit index is cleared and the form cannot be saved; with index `i` every field is loaded from `habits[i]` (missing days read as none), the edit index is `i`, the form is saveable exactly when that habit is complete, and then it rebuilds exactly `habits[i]` |
| Habits.AddOrEdit | app/index.tsx:77-103 | With the gate closed the list is unchanged; in add mode one habit built from the form is appended and all earlier entries are kept; in edit mode only the entry at the edit index is replaced, and the length and all other entries are kept |
| Habits.RemoveAt | app/index.tsx:113 | Filtering out index `i` shortens the list by one when `i` is in range and keeps it whole otherwise; earlier entries keep their index, later ones move down by one, and the multiset loses exactly `s[i]` |
| Habits.DeleteHabit | app/index.tsx:105-119 | With no edit index nothing happens; otherwise the result is the prefix before the index followed by the suffix after it, or the list unchanged when the index is past the end |
| Habits.RemoveAll | app/index.tsx:123 | Every occurrence of the day is removed and every other day keeps its count; a day that is absent leaves the list unchanged |
| Habits.ToggleDay | app/index.tsx:121-125 | Afterwards the toggled day is selected exactly when it was not before, and no other day's membership changes; an absent day is appended at the end; a present day loses all its occurrences |
| Habits.SaveEnabled | app/index.tsx:51-55 | The save button is enabled exactly when a color is chosen and the habit the form would build is complete: non-empty title, at least one day, a reminder time and a color |
| Habits.ClearingAnyFieldDisablesSave | app/index.tsx:51-55 | Emptying the title, the days, the time or the color each closes the save gate |
| Habits.DeselectingLastDayDisablesSave | app/index.tsx:53 | Deselecting the only selected day closes the save gate |
| Habits.AddOrEditKeepsHabitsComplete | app/index.tsx:77-103 | If every stored habit is complete, saving keeps it so |
| Habits.DeleteKeepsHabitsComplete | app/index.tsx:105-119 | If every stored habit is complete, deleting keeps it so |
| Habits.ReopenAndSaveIsNoOp | app/index.tsx:57-89 | Opening habit `i` for editing and saving the form unchanged leaves the list exactly as it was |
| Habits.RemoveAllAppend | app/index.tsx:123 | Removing a day from a concatenation is the same as removing it from each part, as for any filter |
| Habits.ToggleTwiceRestoresAbsent | app/index.tsx:121-125 | Toggling an unselected day twice gives back exactly the original list |
| Habits.ToggleTwiceKeepsSelection | app/index.tsx:121-125 | Toggling a selected day twice keeps the set of selected days and leaves that day once, at the end |
| Habits.ToggleKeepsNoDuplicates | app/index.tsx:121-125 | A selection without repeated days keeps that property under a toggle |
| Tracker.TotalDays | components/HabitTracker.tsx:6-8 | The elapsed days are the integer ceiling of the absolute millisecond difference divided by the length of a day |
| Tracker.TotalDaysSymmetric | components/HabitTracker.tsx:7 | Swapping the start and the current instant gives the same day count |
| Tracker.Columns | components/HabitTracker.tsx:26 | `columns * 7 >= totalDays`, `(columns - 1) * 7 < totalDays` when days have elapsed, and there are no columns exactly when no days have elapsed |
| Tracker.DayOffset | components/HabitTracker.tsx:15 | The offset of cell (row, col) has remainder `row` and quotient `col` when divided by 7 |
| Tracker.OffsetBijection | components/HabitTracker.tsx:42 | Each offset `d` is the offset of the cell `(d % 7, d / 7)` and of no other cell |
| Tracker.OffsetInjective | components/HabitTracker.tsx:42 | Two cells with the same offset are the same cell |
| Tracker.OffsetWithinColumns | components/HabitTracker.tsx:26 | Every offset below `totalDays` falls in one of the `columns` columns |
| Tracker.RenderGrid | components/HabitTracker.tsx:39-59 | The rendered cells come in row-major order, lie inside the grid, have an offset below `totalDays` and carry their label; their offsets are exactly `0 .. totalDays-1`, each appearing once, so there are `totalDays` cells |
| Tracker.StartIsMonday | components/HabitTracker.tsx:5 | 1 July 2024 is a valid date and a Monday |
| Tracker.CellDayNumber | components/HabitTracker.tsx:14-16 | The day number of a cell's date, counted from a Monday, is `row` modulo 7 |
| Tracker.CellDate | components/HabitTracker.tsx:13-16 | The date of cell (row, col) is a valid calendar date whose day number is the start date's plus the cell's offset `col * 7 + row` |
| Tracker.DayLabel | components/HabitTracker.tsx:13-21 | A cell's text is the row's fixed initial followed by the day of the month of the cell's date in decimal without a leading zero: digits that read back as that day |
| Tracker.RowLetterMatchesWeekday | components/HabitTracker.tsx:10-18 | Row `r` always shows the weekday `r` days after Monday, and its fixed initial is the Spanish initial of its date's real weekday |
| Tracker.RowInitials | components/HabitTracker.tsx:10 | The row initials are, in order, the initials of Monday to Sunday |
| Tracker.LetterIndependentOfColumn | components/HabitTracker.tsx:18 | The initial in a label depends on the row only, never on the column |
| Tracker.LabelNumberIsDayOfMonth | components/HabitTracker.tsx:14-21 | The digits after the initial read back as the day of the month of the cell's date, a day between 1 and the length of that month |
| Tracker.FirstCellIsStartDate | components/HabitTracker.tsx:13-21 | Cell (0, 0) shows the start date itself, labelled `L1` |
| Calendar.DaysInMonth | components/HabitTracker.tsx:19 | A month has 28 to 31 days, and February has 29 exactly in leap years |
| Calendar.YearStartClosedForm | components/HabitTracker.tsx:16 | Counting the lengths of all earlier years gives 365 days a year, plus a leap day every fourth year, minus one every hundredth, plus one every four-hundredth |
| Calendar.NextDay | components/HabitTracker.tsx:16 | The day after a valid date is a valid date, rolling over month and year ends |
| Calendar.NextDayNumber | components/HabitTracker.tsx:16 | The day after has a day number exactly one more, including across month and year ends |
| Calendar.AddDays | components/HabitTracker.tsx:14-16 | Adding days to a valid date yields a valid date |
| Calendar.AddDaysNumber | components/HabitTracker.tsx:14-16 | Adding `n` days moves the day number forward by exactly `n` |
| Decimal.Show | components/HabitTracker.tsx:21 | The decimal text of a number is non-empty, all digits, has no leading zero, and is one digit long exactly for numbers below 10 |
| Decimal.ParseShow | components/HabitTracker.tsx:21 | Reading the decimal text back gives the number again |

## Left out

- The screen, modal and grid markup, the style sheets, the icons, the modal and time-picker visibility flags and `getInputStyle`: these are presentation only.
- `Alert.alert` and its cancel button: only the effect of the confirm button is modelled, as `DeleteHabit`. Cancelling has no effect on the list.
- `handleTimeConfirm`: the reminder time is an opaque optional string. The time picker and `toLocaleTimeString` are locale-dependent library code.
- The palette `colors` and the chip labels `daysOfWeek` in `app/index.tsx`: the form only offers those values. The model accepts any string for a color or a day.
- Habits.AddOrEdit: requires the edit index to be inside the list. The form is only opened for an edit with the index of a rendered habit. The list cannot change while the form is open: delete closes the form, and reopening it resets the index. The source's out-of-range array write is therefore never reached and is not modelled.
- Habits.OpenModal: requires an index inside the list, which is how the screen calls it. With any other index, the source would read a field of `undefined` and throw.
- `new Date()` and the clock: the current instant is a parameter of `TotalDays`, in integer milliseconds.
- Tracker.TotalDays: computes the ceiling on integers. It does not model the floating-point division of the source. For any realistic span of days the two agree.
- Local time zones and daylight-saving shifts: dates are plain calendar dates. `setDate` also works on local calendar days.
- The horizontal scroll offset `columns * 24 - 300`: this is pixel layout.
- The props that `app/index.tsx` passes to `HabitTracker`: the component declares none and shows a fixed title. As a consequence `onEdit={() => openModal(index)}` is never called, so in these files the edit branch of `openModal` and the delete button inside the edit form can never be reached. The model still covers both, as the screen defines them.
- Completion marks, their persistence, the month calendar, the celebration effect and a stable habit identity: app/index.tsx and components/HabitTracker.tsx contain no such code.
- If the current date comes before the start date, the code does not clamp the column count to zero. It takes the absolute difference. The model follows the code: `TotalDays` is symmetric.
