/**
 * The "Top 3" ranking of `getTopHabits` (main.js:76-80): a copy of the
 * collection sorted by descending streak with a stable sort, cut to three.
 */
module Ranking {
  import opened Wrappers
  import opened Seqs
  import opened Habits

  /** Streaks never increase from left to right. */
  ghost predicate NonIncreasing(s: seq<Habit>) {
    forall i, j :: 0 <= i < j < |s| ==> s[i].streak >= s[j].streak
  }

  function HasStreak(k: int): Habit -> bool {
    (h: Habit) => h.streak == k
  }

  /** The habits of `s` whose streak is `k`, in their order in `s`. */
  function WithStreak(s: seq<Habit>, k: int): seq<Habit> {
    Filter(HasStreak(k), s)
  }

  /**
   * What a stable sort by descending streak promises: `r` is ordered, and
   * for every streak value the habits having it appear in `r` exactly as
   * they appear in `s` (same habits, same relative order).
   */
  ghost predicate StablySortedFrom(s: seq<Habit>, r: seq<Habit>) {
    NonIncreasing(r) && forall k :: WithStreak(r, k) == WithStreak(s, k)
  }

  /** Insert `x` in front of the first habit whose streak is not larger. */
  function InsertByStreak(x: Habit, s: seq<Habit>): (r: seq<Habit>)
    requires NonIncreasing(s)
    ensures NonIncreasing(r)
    ensures multiset(r) == multiset(s) + multiset{x}
    decreases |s|
  {
    if s == [] || s[0].streak <= x.streak then
      ConsNonIncreasing(x, s);
      [x] + s
    else
      var rest := InsertByStreak(x, s[1..]);
      assert s == [s[0]] + s[1..];
      assert rest[0] in multiset(rest);
      assert rest[0].streak <= s[0].streak;
      ConsNonIncreasing(s[0], rest);
      [s[0]] + rest
  }

  /** Putting a habit in front of an ordered sequence keeps it ordered when its streak is not smaller than the head's. */
  lemma ConsNonIncreasing(y: Habit, t: seq<Habit>)
    requires NonIncreasing(t)
    requires t == [] || t[0].streak <= y.streak
    ensures NonIncreasing([y] + t)
  {
  }

  /** Stable insertion sort by descending streak (the comparator `(a, b) => b.streak - a.streak`). */
  function SortByStreak(s: seq<Habit>): (r: seq<Habit>)
    ensures NonIncreasing(r)
    ensures multiset(r) == multiset(s)
    ensures |r| == |s|
    decreases |s|
  {
    if s == [] then []
    else
      assert s == [s[0]] + s[1..];
      InsertByStreak(s[0], SortByStreak(s[1..]))
  }

  lemma {:induction false} InsertKeepsTies(x: Habit, s: seq<Habit>, k: int)
    requires NonIncreasing(s)
    ensures WithStreak(InsertByStreak(x, s), k)
         == if x.streak == k then [x] + WithStreak(s, k) else WithStreak(s, k)
    decreases |s|
  {
    if s == [] || s[0].streak <= x.streak {
      if x.streak == k && s != [] && s[0].streak < x.streak {
        assert WithStreak(s, k) == WithStreak(s[1..], k);
      }
    } else {
      InsertKeepsTies(x, s[1..], k);
      assert ([s[0]] + InsertByStreak(x, s[1..]))[1..] == InsertByStreak(x, s[1..]);
    }
  }

  /** The sort keeps habits with equal streaks in their input order. */
  lemma {:induction false} SortKeepsTies(s: seq<Habit>, k: int)
    ensures WithStreak(SortByStreak(s), k) == WithStreak(s, k)
    decreases |s|
  {
    if s != [] {
      SortKeepsTies(s[1..], k);
      InsertKeepsTies(s[0], SortByStreak(s[1..]), k);
    }
  }

  /** The first habit of a non-empty ordered sequence has the largest streak. */
  lemma FirstIsLargest(a: seq<Habit>, y: Habit)
    requires NonIncreasing(a) && y in a
    ensures a[0].streak >= y.streak
  {
  }

  /**
   * Being ordered and keeping every streak class in order determines the
   * arrangement: two such arrangements of the same habits are equal.
   */
  lemma {:induction false} StableArrangementIsUnique(a: seq<Habit>, b: seq<Habit>)
    requires NonIncreasing(a) && NonIncreasing(b)
    requires forall k :: WithStreak(a, k) == WithStreak(b, k)
    ensures a == b
    decreases |a|
  {
    if a != [] {
      assert a[0] in WithStreak(a, a[0].streak);
    }
    if b != [] {
      assert b[0] in WithStreak(b, b[0].streak);
    }
    if a == [] || b == [] {
    } else {
      assert a[0] in WithStreak(b, a[0].streak) by {
        assert a[0] in WithStreak(a, a[0].streak);
      }
      assert b[0] in WithStreak(a, b[0].streak) by {
        assert b[0] in WithStreak(b, b[0].streak);
      }
      FirstIsLargest(b, a[0]);
      FirstIsLargest(a, b[0]);
      var k := a[0].streak;
      assert b[0].streak == k;
      assert WithStreak(a, k) == [a[0]] + WithStreak(a[1..], k);
      assert WithStreak(b, k) == [b[0]] + WithStreak(b[1..], k);
      forall j
        ensures WithStreak(a[1..], j) == WithStreak(b[1..], j)
      {
        if j != k {
          assert WithStreak(a, j) == WithStreak(a[1..], j);
          assert WithStreak(b, j) == WithStreak(b[1..], j);
        } else {
          assert ([a[0]] + WithStreak(a[1..], k))[1..] == WithStreak(a[1..], k);
          assert ([b[0]] + WithStreak(b[1..], k))[1..] == WithStreak(b[1..], k);
        }
      }
      StableArrangementIsUnique(a[1..], b[1..]);
      assert a == [a[0]] + a[1..] && b == [b[0]] + b[1..];
    }
  }

  /**
   * SortByStreak is exactly what any stable sort with the descending-streak
   * comparator returns: the one arrangement meeting that promise.
   */
  lemma SortIsTheStableSort(s: seq<Habit>, r: seq<Habit>)
    ensures StablySortedFrom(s, r) <==> r == SortByStreak(s)
  {
    forall k
      ensures WithStreak(SortByStreak(s), k) == WithStreak(s, k)
    {
      SortKeepsTies(s, k);
    }
    if StablySortedFrom(s, r) {
      StableArrangementIsUnique(r, SortByStreak(s));
    }
  }

  /** `getTopHabits`: the first three habits of the stably sorted copy. */
  function TopHabits(habits: seq<Habit>): (r: seq<Habit>)
    ensures |r| == if |habits| < 3 then |habits| else 3
    ensures NonIncreasing(r)
    ensures multiset(r) <= multiset(habits)
    ensures forall h :: multiset(r)[h] < multiset(habits)[h] ==> |r| > 0 && h.streak <= r[|r| - 1].streak
  {
    var sorted := SortByStreak(habits);
    var n := if |habits| < 3 then |habits| else 3;
    PrefixIsTop(sorted, n, habits);
    sorted[..n]
  }

  /**
   * Cutting an ordered sequence after `n` habits: the prefix is ordered, and
   * every habit cut off ranks no higher than the last one kept.
   */
  lemma PrefixIsTop(sorted: seq<Habit>, n: nat, habits: seq<Habit>)
    requires NonIncreasing(sorted) && n <= |sorted| && (sorted != [] ==> n > 0)
    requires multiset(sorted) == multiset(habits)
    ensures NonIncreasing(sorted[..n])
    ensures multiset(sorted[..n]) <= multiset(habits)
    ensures var top := sorted[..n];
      forall h :: multiset(top)[h] < multiset(habits)[h] ==> |top| > 0 && h.streak <= top[|top| - 1].streak
  {
    var prefix, suffix := sorted[..n], sorted[n..];
    assert sorted == prefix + suffix;
    assert multiset(sorted) == multiset(prefix) + multiset(suffix);
    forall i, j | 0 <= i < j < n
      ensures prefix[i].streak >= prefix[j].streak
    {
      assert prefix[i] == sorted[i] && prefix[j] == sorted[j];
    }
    forall h | multiset(prefix)[h] < multiset(sorted)[h]
      ensures n > 0 && h.streak <= sorted[n - 1].streak
    {
      assert h in multiset(suffix);
      var j :| 0 <= j < |suffix| && suffix[j] == h;
      assert suffix[j] == sorted[n + j];
      assert prefix[n - 1] == sorted[n - 1];
    }
  }

  /**
   * Habits with equal streaks keep their input order in the top three:
   * for each streak value, the ranked ones are the first of that class.
   */
  lemma TopHabitsKeepTies(habits: seq<Habit>, k: int)
    ensures var t, w := WithStreak(TopHabits(habits), k), WithStreak(habits, k);
      |t| <= |w| && t == w[..|t|]
  {
    var sorted := SortByStreak(habits);
    var n := |TopHabits(habits)|;
    assert sorted == sorted[..n] + sorted[n..];
    FilterAppend(HasStreak(k), sorted[..n], sorted[n..]);
    SortKeepsTies(habits, k);
  }

  /** A worked ranking: of two tied habits the earlier one stays first, and both overtake a lower streak. */
  lemma TopHabitsScenario()
    ensures var x, y, z := Habit(1, "x", 5, None, []), Habit(2, "y", 2, None, []), Habit(3, "z", 5, None, []);
      TopHabits([x, y, z]) == [x, z, y]
  {
    var x, y, z := Habit(1, "x", 5, None, []), Habit(2, "y", 2, None, []), Habit(3, "z", 5, None, []);
    assert [x, y, z][1..] == [y, z] && [y, z][1..] == [z];
    assert SortByStreak([z]) == [z];
    assert InsertByStreak(y, [z]) == [z, y];
    assert SortByStreak([y, z]) == [z, y];
    assert InsertByStreak(x, [z, y]) == [x, z, y];
  }
}
