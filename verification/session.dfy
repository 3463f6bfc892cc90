/**
 * A session of the tracker: the three handlers the page wires to its buttons
 * (add, delete, toggle), each reading the day when it runs, replayed over
 * the collection. This is where the streak engine's state-level guarantees live.
 */
module Session {
  import opened Wrappers
  import opened Seqs
  import opened Habits
  import opened Streak

  /** The days of a date list, as a set. */
  function DaySet(ds: seq<Day>): set<Day> {
    set d | d in ds
  }

  /** How many consecutive days `d, d - 1, d - 2, ...` all lie in `ds`. */
  function RunEndingAt(ds: set<Day>, d: Day): nat
    decreases |ds|
  {
    if d in ds then 1 + RunEndingAt(ds - {d}, d - 1) else 0
  }

  /** The true length of the run of consecutive days ending at the habit's `lastCompleted`. */
  function CurrentRun(h: Habit): nat {
    match h.lastCompleted
    case None => 0
    case Some(d) => RunEndingAt(DaySet(h.completedDates), d)
  }

  /**
   * The state a habit is in when every day it records is no later than
   * `now`: no day twice, `lastCompleted` is the latest day (absent exactly
   * when there is none), and the streak is between 0 and the real run.
   */
  ghost predicate WellFormed(h: Habit, now: Day) {
    && h.streak >= 0
    && NoDuplicates(h.completedDates)
    && (forall d :: d in h.completedDates ==> d <= now)
    && h.lastCompleted == MaxOf(h.completedDates)
    && h.streak <= CurrentRun(h)
  }

  ghost predicate AllWellFormed(habits: seq<Habit>, now: Day) {
    forall h :: h in habits ==> WellFormed(h, now)
  }

  /**
   * Toggling on a day no earlier than any recorded day keeps a habit well
   * formed: the streak never goes negative and never over-reports the run
   * of consecutive days ending at `lastCompleted`.
   */
  lemma ToggleKeepsWellFormed(h: Habit, now: Day, today: Day)
    requires WellFormed(h, now) && now <= today
    ensures WellFormed(ToggleHabit(h, today), today)
  {
    ToggleKeepsDatesDistinct(h, today);
    if IsCompletedToday(h, today) {
      UncompleteKeepsRun(h, now, today);
    } else {
      CompleteKeepsRun(h, now, today);
    }
  }

  /** Un-completing today: the streak drops by one, and so does the run ending at the new latest day (or it vanishes). */
  lemma UncompleteKeepsRun(h: Habit, now: Day, today: Day)
    requires WellFormed(h, now) && now <= today && IsCompletedToday(h, today)
    ensures var r := ToggleHabit(h, today);
      r.lastCompleted == MaxOf(r.completedDates) && 0 <= r.streak <= CurrentRun(r)
  {
    var r := ToggleHabit(h, today);
    var ds := DaySet(h.completedDates);
    assert MaxOf(h.completedDates) == Some(today);
    assert DaySet(r.completedDates) == ds - {today};
    assert RunEndingAt(ds, today) == 1 + RunEndingAt(ds - {today}, today - 1);
    if today - 1 in h.completedDates {
      assert today - 1 in r.completedDates;
      assert r.lastCompleted == Some(today - 1);
    } else {
      assert RunEndingAt(ds - {today}, today - 1) == 0;
    }
  }

  /** Completing today: the streak grows by one only when yesterday, the latest day so far, is recorded. */
  lemma CompleteKeepsRun(h: Habit, now: Day, today: Day)
    requires WellFormed(h, now) && now <= today && !IsCompletedToday(h, today)
    ensures var r := ToggleHabit(h, today);
      r.lastCompleted == MaxOf(r.completedDates) && 0 <= r.streak <= CurrentRun(r)
  {
    var r := ToggleHabit(h, today);
    var ds := DaySet(h.completedDates);
    assert today in r.completedDates;
    assert MaxOf(r.completedDates) == Some(today);
    var ds' := DaySet(r.completedDates);
    assert ds' == ds + {today};
    assert ds' - {today} == ds;
    assert RunEndingAt(ds', today) == 1 + RunEndingAt(ds, today - 1);
    if today - 1 in h.completedDates {
      assert MaxOf(h.completedDates) == Some(today - 1);
    }
  }

  /** Toggling the collection keeps every habit well formed under a clock that does not go back. */
  lemma ToggleAllKeepsWellFormed(habits: seq<Habit>, id: Id, now: Day, today: Day)
    requires AllWellFormed(habits, now) && now <= today
    ensures AllWellFormed(Toggle(habits, id, today), today)
  {
    var r := Toggle(habits, id, today);
    forall h | h in r
      ensures WellFormed(h, today)
    {
      var i :| 0 <= i < |r| && r[i] == h;
      assert habits[i] in habits;
      if habits[i].id == id {
        ToggleKeepsWellFormed(habits[i], now, today);
      }
    }
  }

  /** What the page does when a button is pressed. */
  datatype Action =
    | OnAdd(name: string, id: Id)
    | OnDelete(id: Id)
    | OnToggle(id: Id)

  /** An action together with the day the handler reads when it runs. */
  datatype Event = Event(today: Day, action: Action)

  /** One handler run (main.js:16-33 and main.js:35-69). */
  function Apply(habits: seq<Habit>, e: Event): seq<Habit> {
    match e.action
    case OnAdd(name, id) => AddHabit(habits, name, id)
    case OnDelete(id) => DeleteHabit(habits, id)
    case OnToggle(id) => Toggle(habits, id, e.today)
  }

  /** The collection after the events, in order. */
  function Replay(habits: seq<Habit>, events: seq<Event>): seq<Habit>
    decreases |events|
  {
    if events == [] then habits else Replay(Apply(habits, events[0]), events[1..])
  }

  /** No handler runs on an earlier day than `now` or than a handler before it. */
  ghost predicate ClockNeverGoesBack(now: Day, events: seq<Event>) {
    && (forall i :: 0 <= i < |events| ==> now <= events[i].today)
    && (forall i, j :: 0 <= i < j < |events| ==> events[i].today <= events[j].today)
  }

  /** The day the clock shows after the events. */
  function LastDay(now: Day, events: seq<Event>): (r: Day)
    requires ClockNeverGoesBack(now, events)
    ensures now <= r
    ensures forall i :: 0 <= i < |events| ==> events[i].today <= r
  {
    if events == [] then now else events[|events| - 1].today
  }

  /** Every handler keeps each streak non-negative, whatever the days. */
  lemma {:induction false} StreaksStayNonNegative(habits: seq<Habit>, events: seq<Event>)
    requires forall h :: h in habits ==> h.streak >= 0
    ensures forall h :: h in Replay(habits, events) ==> h.streak >= 0
    decreases |events|
  {
    if events != [] {
      var next := Apply(habits, events[0]);
      forall h | h in next
        ensures h.streak >= 0
      {
        var i :| 0 <= i < |next| && next[i] == h;
        if events[0].action.OnToggle? {
          assert habits[i] in habits;
        } else if events[0].action.OnAdd? {
          if i < |habits| {
            assert habits[i] in habits;
          }
        }
      }
      StreaksStayNonNegative(next, events[1..]);
    }
  }

  /** One handler run keeps the collection well formed. */
  lemma ApplyKeepsWellFormed(habits: seq<Habit>, e: Event, now: Day)
    requires AllWellFormed(habits, now) && now <= e.today
    ensures AllWellFormed(Apply(habits, e), e.today)
  {
    var next := Apply(habits, e);
    match e.action
    case OnAdd(name, id) =>
      forall h | h in next
        ensures WellFormed(h, e.today)
      {
        var i :| 0 <= i < |next| && next[i] == h;
        if i < |habits| {
          assert habits[i] in habits;
        }
      }
    case OnDelete(id) =>
    case OnToggle(id) =>
      ToggleAllKeepsWellFormed(habits, id, now, e.today);
  }

  /**
   * While the clock never goes back, every habit stays well formed across
   * any run of handlers.
   */
  lemma {:induction false} ReplayKeepsWellFormed(habits: seq<Habit>, events: seq<Event>, now: Day)
    requires AllWellFormed(habits, now)
    requires ClockNeverGoesBack(now, events)
    ensures AllWellFormed(Replay(habits, events), LastDay(now, events))
    decreases |events|
  {
    if events != [] {
      ApplyKeepsWellFormed(habits, events[0], now);
      var rest := events[1..];
      assert ClockNeverGoesBack(events[0].today, rest) by {
        assert forall i :: 0 <= i < |rest| ==> rest[i] == events[i + 1];
      }
      ReplayKeepsWellFormed(Apply(habits, events[0]), rest, events[0].today);
    }
  }

  /** A page opened on an empty collection only ever holds well-formed habits. */
  lemma FreshSessionWellFormed(events: seq<Event>, start: Day)
    requires ClockNeverGoesBack(start, events)
    ensures AllWellFormed(Replay([], events), LastDay(start, events))
  {
    ReplayKeepsWellFormed([], events, start);
  }

  /** The single habit of the under-reporting example, toggled on days 1, 3 and 3. */
  lemma UnderReportToggles()
    ensures ToggleHabit(NewHabit(7, "walk"), 1) == Habit(7, "walk", 1, Some(1), [1])
    ensures ToggleHabit(Habit(7, "walk", 1, Some(1), [1]), 3) == Habit(7, "walk", 1, Some(3), [1, 3])
    ensures ToggleHabit(Habit(7, "walk", 1, Some(3), [1, 3]), 3) == Habit(7, "walk", 0, Some(1), [1])
  {
    assert [] + [1] == [1];
    assert [1] + [3] == [1, 3];
    FilterAppend(IsNotDay(3), [1], [3]);
    assert Filter(IsNotDay(3), [1, 3]) == [1];
  }

  /** A habit that records day 1 only has a current run of one day. */
  lemma SingleDayRun()
    ensures CurrentRun(Habit(7, "walk", 0, Some(1), [1])) == 1
  {
  }

  /** Toggling a one-habit collection toggles that habit. */
  lemma ToggleSingle(h: Habit, today: Day)
    ensures Toggle([h], h.id, today) == [ToggleHabit(h, today)]
  {
  }

  /** Complete on day 1, complete on day 3, un-complete on day 3. */
  const UnderReportEvents: seq<Event> :=
    [Event(1, OnAdd("walk", 7)), Event(1, OnToggle(7)), Event(3, OnToggle(7)), Event(3, OnToggle(7))]

  /** Each handler run of the under-reporting example, one at a time. */
  lemma UnderReportSteps()
    ensures Apply([], UnderReportEvents[0]) == [NewHabit(7, "walk")]
    ensures Apply([NewHabit(7, "walk")], UnderReportEvents[1]) == [Habit(7, "walk", 1, Some(1), [1])]
    ensures Apply([Habit(7, "walk", 1, Some(1), [1])], UnderReportEvents[2]) == [Habit(7, "walk", 1, Some(3), [1, 3])]
    ensures Apply([Habit(7, "walk", 1, Some(3), [1, 3])], UnderReportEvents[3]) == [Habit(7, "walk", 0, Some(1), [1])]
  {
    assert !IsJsWhitespace('w');
    UnderReportToggles();
    ToggleSingle(NewHabit(7, "walk"), 1);
    ToggleSingle(Habit(7, "walk", 1, Some(1), [1]), 3);
    ToggleSingle(Habit(7, "walk", 1, Some(3), [1, 3]), 3);
  }

  lemma UnderReportReplay()
    ensures Replay([], UnderReportEvents) == [Habit(7, "walk", 0, Some(1), [1])]
  {
    var e := UnderReportEvents;
    UnderReportSteps();
    assert e[1..][1..][1..][1..] == [];
    assert Replay([], e) == Replay([NewHabit(7, "walk")], e[1..]);
    assert e[1..][0] == e[1] && e[1..][1..][0] == e[2] && e[1..][1..][1..][0] == e[3];
  }

  /**
   * The streak can under-report even though the clock never goes back:
   * after completing on day 1, completing on day 3 (restarting at 1) and
   * un-completing on day 3, day 1 is still recorded and is `lastCompleted`,
   * a run of one day, but the streak reads 0.
   */
  lemma StreakCanUnderReport()
    ensures ClockNeverGoesBack(1, UnderReportEvents)
    ensures Replay([], UnderReportEvents) == [Habit(7, "walk", 0, Some(1), [1])]
    ensures Replay([], UnderReportEvents)[0].streak < CurrentRun(Replay([], UnderReportEvents)[0])
  {
    assert ClockNeverGoesBack(1, UnderReportEvents);
    UnderReportReplay();
    SingleDayRun();
  }

  /**
   * Why the clock must not go back: completing on a day earlier than a
   * recorded one sets `lastCompleted` to that earlier day, which is no
   * longer the latest day recorded.
   */
  lemma ClockGoingBackBreaksLastCompleted()
    ensures var h := ToggleHabit(Habit(1, "read", 1, Some(5), [5]), 3);
      h.lastCompleted == Some(3) && MaxOf(h.completedDates) == Some(5)
  {
  }
}
