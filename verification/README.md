# Habit tracker: streak engine, habit store and top-3 ranking

This project models the logic of the `HabitTracker` React component of the
good_habits repository (`main.js`). The model covers the state transitions
that component performs on its list of habits, each habit being
`{id, name, streak, lastCompleted, completedDates}`:

- **Habit store.** `addHabit` refuses a name that trims to nothing and otherwise
  appends a fresh habit with no progress. `deleteHabit` filters the list by id.
  `isCompletedToday` tests whether today is among the completed days.
- **Streak engine.** `toggleHabitCompletion` works on the habit(s) carrying the
  given id. If today is already recorded, it un-completes: it removes today,
  lowers the streak by one but not below 0, and sets `lastCompleted` to the
  latest remaining day. Otherwise it completes: it appends today, extends the
  streak if yesterday is recorded or restarts it at 1, and sets
  `lastCompleted` to today.
- **Ranking.** `getTopHabits` stably sorts a copy of the list by descending
  streak and keeps the first three.

The source reads the wall clock. Here day keys are integers (day numbers)
that the caller passes in as `today`, so "yesterday" is `today - 1`. The
source's `YYYY-MM-DD` strings sort chronologically, so `.sort().pop()` is the
chronological maximum; the model states this as `MaxOf`. `lastCompleted` is an
`Option<int>`; JavaScript's `null` is `None`. Every operation is a pure
function on `seq<Habit>`. This matches the source, which never mutates the
list in place: it builds new arrays with `map`, `filter`, spread and a sorted
copy.

Modules: `Wrappers` (Option), `Seqs` (filter, maximum), `Habits` (record, trim,
add, delete, membership), `Streak` (the toggle), `Ranking` (stable sort, top 3)
and `Session`. `Session` replays the page's three button handlers, each run on
the day it reads. It proves what holds across any run of them.

Where the code differs from the behaviour one might expect, the model follows the code:

- The stored name is the name as typed. Only the blank test trims it.
- A blank name is a silent no-op, not an error.
- Toggling twice on the same day is not an identity (`DoubleToggleIsNotIdentity`).
  Complete-then-uncomplete restores the days but leaves streak 0 unless
  yesterday was recorded (`CompleteThenUncompleteRestoresIff`).
- Un-completing only decrements the streak and never recomputes it. With a
  clock that never goes back, the streak never exceeds the real run of
  consecutive days ending at `lastCompleted` (`ReplayKeepsWellFormed`). It can
  fall below that run (`StreakCanUnderReport`).

## Model

| member | source | states |
|---|---|---|
| Seqs.Filter | main.js:32 | `Array.prototype.filter`: a value is in the result iff it is in the input and passes the test; the result is never longer |
| Seqs.FilterAppend | main.js:32 | filtering a concatenation filters each part, so kept elements keep their relative order |
| Seqs.FilterKeepsAll | main.js:32 | filtering returns the input unchanged exactly when every element passes |
| Seqs.FilterShrinks | main.js:32 | the filtered list is as long as the input exactly when every element passes |
| Seqs.FilterCount | main.js:48 | every occurrence of a passing value is kept and no occurrence of a failing one |
| Seqs.MaxOf | main.js:47 | `.sort().pop()` falling back to null, on day keys: None iff there are no days, otherwise a recorded day no smaller than any other |
| Habits.TrimStartIndex | main.js:17 | the leading stretch skipped by `trim` is all whitespace and stops at a non-whitespace character or the end |
| Habits.TrimEndIndex | main.js:17 | the trailing stretch dropped by `trim` is all whitespace and stops after a non-whitespace character or at the start |
| Habits.Trim | main.js:17 | `trim()` is empty iff every character is ECMAScript whitespace; a non-empty result starts and ends with non-whitespace |
| Habits.TrimIsCore | main.js:17 | `trim()` is a contiguous stretch of the name and only whitespace is cut on either side |
| Habits.AddHabit | main.js:16-27 | a name that trims to empty leaves the collection unchanged; otherwise exactly one habit is appended at the end with the given id, the untrimmed name, streak 0, no `lastCompleted` and no days, and the earlier habits are untouched |
| Habits.AddThenDelete | main.js:16-33 | adding under an id no habit has and then deleting that id gives back the original collection |
| Habits.DeleteHabit | main.js:31-33 | a habit survives iff it was present and its id differs from the deleted id |
| Habits.DeletePreservesOrder | main.js:32 | survivors keep their original relative order |
| Habits.DeleteAbsentIsNoOp | main.js:32 | deleting is a no-op exactly when no habit carries the id, and when some habit carries it the collection gets shorter |
| Habits.DeleteIdempotent | main.js:32 | deleting the same id twice equals deleting it once |
| Habits.IsCompletedToday | main.js:71-74 | true iff today is among the habit's completed days (`includes`) |
| Streak.AtLeastZero | main.js:46 | `Math.max(0, n)`: never negative, never below `n`, and equal to `n` or 0 |
| Streak.ToggleHabit | main.js:39-65 | id and name are kept; membership of today flips; un-completing removes today and nothing else, gives streak max(0, streak-1) and the latest remaining day (None if none remain); completing appends exactly today, sets `lastCompleted` to today and the streak to streak+1 if yesterday is recorded, else 1; a non-negative streak stays non-negative |
| Streak.Toggle | main.js:38-68 | same length; ids and names are kept in place; habits with another id are unchanged; each habit with the id flips its completion of today and is transformed as in ToggleHabit |
| Streak.ToggleUnknownIdIsNoOp | main.js:38-68 | toggling an id that no habit carries leaves the collection unchanged |
| Streak.UncompleteRemovesOnlyToday | main.js:42-49 | un-completing is the order-keeping filter of today, and every other day keeps its multiplicity |
| Streak.ToggleKeepsDatesDistinct | main.js:40-63 | if the days had no duplicates before a toggle, they have none after it, since completing appends only an absent day |
| Streak.CompleteThenUncomplete | main.js:40-63 | complete then un-complete on the same day: the days come back exactly, `lastCompleted` becomes their maximum, and the streak comes back (floored at 0) only if yesterday was recorded, else it is 0 |
| Streak.CompleteThenUncompleteRestoresIff | main.js:40-63 | for a habit with a non-negative streak and `lastCompleted` equal to its latest day, complete-then-uncomplete is the identity iff yesterday is recorded or the streak is 0 |
| Streak.UncompleteThenComplete | main.js:40-63 | un-complete then complete on the same day: the same days (the same multiset if there were no duplicates), `lastCompleted` is today, and the streak is max(0, streak-1)+1 if yesterday is recorded, else 1 |
| Streak.DoubleToggleIsNotIdentity | main.js:46-61 | a concrete habit whose streak drops from 2 to 0 under a double toggle |
| Streak.ToggleScenarios | main.js:42-64 | first completion gives streak 1; a contiguous day gives 2; a day after a gap restarts at 1; un-completing the only day gives streak 0, no `lastCompleted`, no days |
| Ranking.InsertByStreak | main.js:78 | inserting into a streak-ordered list keeps it ordered and adds exactly that habit |
| Ranking.SortByStreak | main.js:77-78 | the sorted copy is in non-increasing streak order and is a permutation of the input |
| Ranking.InsertKeepsTies | main.js:78 | insertion puts the new habit ahead of the habits that tie with it and changes no other streak class |
| Ranking.SortKeepsTies | main.js:78 | for every streak value, the habits with that streak appear in the sorted copy in exactly their input order (stability) |
| Ranking.StableArrangementIsUnique | main.js:78 | two ordered arrangements with identical per-streak subsequences are equal |
| Ranking.SortIsTheStableSort | main.js:77-78 | a list is ordered by descending streak with every tie class in input order iff it is SortByStreak of the input, so it is what a stable `Array.prototype.sort` returns |
| Ranking.TopHabits | main.js:76-80 | min(3, n) habits drawn from the input (as a sub-multiset), in non-increasing streak order, and no habit left out has a higher streak than the last one kept |
| Ranking.PrefixIsTop | main.js:79 | cutting an ordered list keeps it ordered, and everything cut off ranks no higher than the last habit kept |
| Ranking.TopHabitsKeepTies | main.js:76-80 | for every streak value, the ranked habits with that streak are the first ones of that streak in input order |
| Ranking.TopHabitsScenario | main.js:76-80 | two habits tied at 5 keep their input order and both rank ahead of a habit at 2 |
| Session.ToggleKeepsWellFormed | main.js:40-64 | with today no earlier than any recorded day, a toggle keeps a habit well formed: distinct days, `lastCompleted` equal to the latest day, and 0 <= streak <= the run of consecutive days ending at `lastCompleted` |
| Session.UncompleteKeepsRun | main.js:42-49 | un-completing today keeps `lastCompleted` equal to the latest remaining day and keeps the streak within the remaining run |
| Session.CompleteKeepsRun | main.js:50-64 | completing today makes today the latest day and keeps 0 <= streak <= the run of consecutive days ending at today |
| Session.ToggleAllKeepsWellFormed | main.js:38-68 | toggling the collection keeps every habit well formed |
| Session.StreaksStayNonNegative | main.js:16-68 | after any sequence of add, delete and toggle handlers, on any days, every streak is still non-negative |
| Session.ApplyKeepsWellFormed | main.js:16-68 | each handler run on a day no earlier than the last keeps every habit well formed |
| Session.ReplayKeepsWellFormed | main.js:16-68 | while the clock never goes back, any run of handlers keeps every habit well formed |
| Session.FreshSessionWellFormed | main.js:16-68 | starting from an empty list with a clock that never goes back, every habit is always well formed |
| Session.StreakCanUnderReport | main.js:42-63 | with a clock that never goes back, complete day 1, complete day 3, un-complete day 3 leaves streak 0, while day 1 is still recorded as `lastCompleted`, a run of 1 |
| Session.ClockGoingBackBreaksLastCompleted | main.js:50-63 | completing on a day earlier than a recorded day sets `lastCompleted` below the latest recorded day |

## Left out

- Persistence (main.js:4-7, main.js:12-14): `localStorage` and JSON encoding are browser I/O. The model starts from a given list. The source does not recover from a corrupt stored payload (`JSON.parse` throws), and the model adds no recovery.
- Id generation (main.js:20): `Date.now()` reads the clock and does not guarantee unique ids. The id is an input to `AddHabit`, and `Toggle` and `DeleteHabit` act on every habit with that id, as the source's `map` and `filter` do.
- Clock and time zones (main.js:36, main.js:52-54, main.js:72): `today` is an injected day number and yesterday is `today - 1`.
- Streak.ToggleHabit: yesterday is `today - 1`, which is weaker than the source's clock handling. The source takes today's UTC date, but steps back one local calendar day before formatting yesterday in UTC. On a day when the local offset changes, that string can be a day off. The model does not reproduce this.
- Day keys as strings: the source compares `YYYY-MM-DD` strings, and the model uses integers, whose order agrees with chronological order. The `|| null` in `.sort().pop() || null` differs from plain `.pop()` only for an empty-string date, which a formatted date never is.
- React state plumbing (`useState`, `useEffect`, `setHabits`) and clearing the input field after an add (main.js:28): framework glue with no effect on the collection.
- Rendering (main.js:82-186): the JSX, emoji, plural text, and the `streakView` and `showLeaderboard` flags are presentation only.
- main_v2_Calendar_LeaderBoard.js: static display fixtures, a CSS class picker and third-party UI components, with no transition logic.
- Non-numeric or fractional streaks from a hand-edited store: streaks are integers here.
