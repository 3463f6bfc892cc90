/**
 * The streak transition of `toggleHabitCompletion` (main.js:35-69) with the
 * wall clock replaced by a caller-supplied day number `today`.
 */
module Streak {
  import opened Wrappers
  import opened Seqs
  import opened Habits

  /** The filter test `date => date !== today`. */
  function IsNotDay(today: Day): Day -> bool {
    (d: Day) => d != today
  }

  /** `Math.max(0, n)`. */
  function AtLeastZero(n: int): (r: int)
    ensures r >= 0 && r >= n
    ensures r == n || r == 0
  {
    if n > 0 then n else 0
  }

  /**
   * The transition of one habit. Done today: drop every occurrence of today,
   * decrement the streak (never below 0) and take the latest remaining day
   * as `lastCompleted`. Not done today: append today, and extend the streak
   * when yesterday is recorded or restart it at 1 otherwise.
   */
  function ToggleHabit(h: Habit, today: Day): (r: Habit)
    ensures r.id == h.id && r.name == h.name
    ensures IsCompletedToday(r, today) <==> !IsCompletedToday(h, today)
    ensures IsCompletedToday(h, today) ==>
      && (forall d :: d in r.completedDates <==> d in h.completedDates && d != today)
      && r.streak >= 0 && r.streak == AtLeastZero(h.streak - 1)
      && (r.lastCompleted.None? <==> r.completedDates == [])
      && (r.lastCompleted.Some? ==>
            r.lastCompleted.value in r.completedDates
            && forall d :: d in r.completedDates ==> d <= r.lastCompleted.value)
    ensures !IsCompletedToday(h, today) ==>
      && r.completedDates == h.completedDates + [today]
      && r.streak == (if today - 1 in h.completedDates then h.streak + 1 else 1)
      && r.lastCompleted == Some(today)
    ensures h.streak >= 0 ==> r.streak >= 0
  {
    if today in h.completedDates then
      var rest := Filter(IsNotDay(today), h.completedDates);
      assert today !in rest;
      h.(streak := AtLeastZero(h.streak - 1),
         lastCompleted := MaxOf(rest),
         completedDates := rest)
    else
      var newStreak := if today - 1 in h.completedDates then h.streak + 1 else 1;
      h.(streak := newStreak,
         lastCompleted := Some(today),
         completedDates := h.completedDates + [today])
  }

  /**
   * `toggleHabitCompletion` over the collection: every habit carrying `id`
   * is toggled in place, all others pass through, and the order and length
   * of the collection are kept.
   */
  function Toggle(habits: seq<Habit>, id: Id, today: Day): (r: seq<Habit>)
    ensures |r| == |habits|
    ensures forall i :: 0 <= i < |habits| ==> r[i].id == habits[i].id && r[i].name == habits[i].name
    ensures forall i :: 0 <= i < |habits| && habits[i].id != id ==> r[i] == habits[i]
    ensures forall i :: 0 <= i < |habits| && habits[i].id == id ==>
      (IsCompletedToday(r[i], today) <==> !IsCompletedToday(habits[i], today))
    ensures forall i :: 0 <= i < |habits| && habits[i].id == id ==> r[i] == ToggleHabit(habits[i], today)
  {
    if habits == [] then []
    else
      var first := if habits[0].id == id then ToggleHabit(habits[0], today) else habits[0];
      [first] + Toggle(habits[1..], id, today)
  }

  /** Toggling an id that no habit carries leaves the collection as it is. */
  lemma ToggleUnknownIdIsNoOp(habits: seq<Habit>, id: Id, today: Day)
    requires forall i :: 0 <= i < |habits| ==> habits[i].id != id
    ensures Toggle(habits, id, today) == habits
  {
  }

  /**
   * Un-completing removes every occurrence of today and nothing else:
   * the other days keep their multiplicities and their relative order.
   */
  lemma UncompleteRemovesOnlyToday(h: Habit, today: Day)
    requires IsCompletedToday(h, today)
    ensures ToggleHabit(h, today).completedDates == Filter(IsNotDay(today), h.completedDates)
    ensures forall d :: d != today ==>
      multiset(ToggleHabit(h, today).completedDates)[d] == multiset(h.completedDates)[d]
  {
    forall d | d != today
      ensures multiset(ToggleHabit(h, today).completedDates)[d] == multiset(h.completedDates)[d]
    {
      FilterCount(IsNotDay(today), h.completedDates, d);
    }
  }

  /** A toggle never introduces a repeated day: completing only appends a day that is absent. */
  lemma ToggleKeepsDatesDistinct(h: Habit, today: Day)
    requires NoDuplicates(h.completedDates)
    ensures NoDuplicates(ToggleHabit(h, today).completedDates)
  {
    var r := ToggleHabit(h, today);
    if IsCompletedToday(h, today) {
      forall d
        ensures multiset(r.completedDates)[d] <= 1
      {
        FilterCount(IsNotDay(today), h.completedDates, d);
      }
    } else {
      assert multiset(r.completedDates) == multiset(h.completedDates) + multiset{today};
    }
  }

  /**
   * Completing and then un-completing on the same day restores the days
   * exactly, but the streak only when yesterday was recorded: otherwise
   * the complete step restarted it at 1 and the un-complete step leaves 0.
   */
  lemma CompleteThenUncomplete(h: Habit, today: Day)
    requires !IsCompletedToday(h, today)
    ensures var h2 := ToggleHabit(ToggleHabit(h, today), today);
      && h2.id == h.id && h2.name == h.name
      && h2.completedDates == h.completedDates
      && h2.streak == (if today - 1 in h.completedDates then AtLeastZero(h.streak) else 0)
      && h2.lastCompleted == MaxOf(h.completedDates)
  {
    var cd := h.completedDates;
    FilterAppend(IsNotDay(today), cd, [today]);
    assert Filter(IsNotDay(today), [today]) == [];
    FilterKeepsAll(IsNotDay(today), cd);
    assert forall i :: 0 <= i < |cd| ==> cd[i] in cd;
  }

  /**
   * For a habit whose `lastCompleted` is its latest day and whose streak is
   * not negative, a double toggle starting from "not done today" is the
   * identity exactly when yesterday is recorded or the streak is already 0.
   */
  lemma CompleteThenUncompleteRestoresIff(h: Habit, today: Day)
    requires !IsCompletedToday(h, today)
    requires h.streak >= 0 && h.lastCompleted == MaxOf(h.completedDates)
    ensures ToggleHabit(ToggleHabit(h, today), today) == h
        <==> (today - 1 in h.completedDates || h.streak == 0)
  {
    CompleteThenUncomplete(h, today);
  }

  /**
   * Un-completing and then completing again on the same day keeps the same
   * days (today moves to the end) and sets `lastCompleted` to today; the
   * streak comes back only when it was positive and yesterday is recorded.
   */
  lemma UncompleteThenComplete(h: Habit, today: Day)
    requires IsCompletedToday(h, today)
    ensures var h2 := ToggleHabit(ToggleHabit(h, today), today);
      && h2.id == h.id && h2.name == h.name
      && (forall d :: d in h2.completedDates <==> d in h.completedDates)
      && (NoDuplicates(h.completedDates) ==> multiset(h2.completedDates) == multiset(h.completedDates))
      && h2.lastCompleted == Some(today)
      && h2.streak == (if today - 1 in h.completedDates then AtLeastZero(h.streak - 1) + 1 else 1)
  {
    var h1 := ToggleHabit(h, today);
    var h2 := ToggleHabit(h1, today);
    assert today - 1 in h1.completedDates <==> today - 1 in h.completedDates;
    if NoDuplicates(h.completedDates) {
      UncompleteRemovesOnlyToday(h, today);
      assert multiset(h.completedDates)[today] == 1;
      forall d
        ensures multiset(h2.completedDates)[d] == multiset(h.completedDates)[d]
      {
        assert multiset(h2.completedDates) == multiset(h1.completedDates) + multiset{today};
      }
    }
  }

  /** A concrete habit on which a double toggle does not restore the streak. */
  lemma DoubleToggleIsNotIdentity()
    ensures var h := Habit(1, "read", 2, Some(5), [4, 5]);
      && h.lastCompleted == MaxOf(h.completedDates)
      && ToggleHabit(ToggleHabit(h, 7), 7).streak == 0
      && ToggleHabit(ToggleHabit(h, 7), 7) != h
  {
  }

  /** Worked transitions on day numbers: a first completion, a contiguous one, one after a gap, and undoing the only day. */
  lemma ToggleScenarios()
    ensures ToggleHabit(NewHabit(1, "run"), 100) == Habit(1, "run", 1, Some(100), [100])
    ensures ToggleHabit(Habit(1, "run", 1, Some(100), [100]), 101) == Habit(1, "run", 2, Some(101), [100, 101])
    ensures ToggleHabit(Habit(1, "run", 1, Some(100), [100]), 104) == Habit(1, "run", 1, Some(104), [100, 104])
    ensures ToggleHabit(Habit(1, "run", 1, Some(100), [100]), 100) == Habit(1, "run", 0, None, [])
  {
  }
}
