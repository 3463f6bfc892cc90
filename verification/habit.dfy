/**
 * The habit record and the collection operations of the tracker component:
 * adding a habit, deleting one by id, and asking whether a habit was done today.
 * Day keys are day numbers, so the day before `d` is `d - 1`; the caller supplies them.
 */
module Habits {
  import opened Wrappers
  import opened Seqs

  type Id = int
  type Day = int

  /** A tracked habit; `completedDates` keeps the order in which days were added. */
  datatype Habit = Habit(
    id: Id,
    name: string,
    streak: int,
    lastCompleted: Option<Day>,
    completedDates: seq<Day>)

  /**
   * The characters `String.prototype.trim` strips: the WhiteSpace and
   * LineTerminator code points of ECMA-262 (sections 12.2 and 12.3).
   */
  predicate IsJsWhitespace(c: char) {
    var n := c as int;
    || n == 0x09 || n == 0x0A || n == 0x0B || n == 0x0C || n == 0x0D
    || n == 0x20 || n == 0xA0 || n == 0x1680
    || (0x2000 <= n <= 0x200A)
    || n == 0x2028 || n == 0x2029 || n == 0x202F || n == 0x205F
    || n == 0x3000 || n == 0xFEFF
  }

  /** The index of the first non-whitespace character of `s` at or after `i` (or `|s|`). */
  function TrimStartIndex(s: string, i: nat): (k: nat)
    requires i <= |s|
    ensures i <= k <= |s|
    ensures forall j :: i <= j < k ==> IsJsWhitespace(s[j])
    ensures k == |s| || !IsJsWhitespace(s[k])
    decreases |s| - i
  {
    if i < |s| && IsJsWhitespace(s[i]) then TrimStartIndex(s, i + 1) else i
  }

  /** The end of `s[lo..hi]` once its trailing whitespace is dropped. */
  function TrimEndIndex(s: string, lo: nat, hi: nat): (k: nat)
    requires lo <= hi <= |s|
    ensures lo <= k <= hi
    ensures forall j :: k <= j < hi ==> IsJsWhitespace(s[j])
    ensures k == lo || !IsJsWhitespace(s[k - 1])
    decreases hi - lo
  {
    if lo < hi && IsJsWhitespace(s[hi - 1]) then TrimEndIndex(s, lo, hi - 1) else hi
  }

  /**
   * JavaScript's `s.trim()`: the stretch of `s` between its leading and its
   * trailing whitespace. It is empty exactly when `s` is all whitespace, and
   * otherwise it neither starts nor ends with whitespace.
   */
  function Trim(s: string): (r: string)
    ensures |r| <= |s|
    ensures r == [] <==> forall i :: 0 <= i < |s| ==> IsJsWhitespace(s[i])
    ensures r != [] ==> !IsJsWhitespace(r[0]) && !IsJsWhitespace(r[|r| - 1])
  {
    var a := TrimStartIndex(s, 0);
    var b := TrimEndIndex(s, a, |s|);
    assert a < b ==> s[a..b][0] == s[a] && s[a..b][b - a - 1] == s[b - 1];
    s[a..b]
  }

  /**
   * Only whitespace is cut: the trimmed name is the stretch of `s` that
   * starts after the leading whitespace, and what follows it is whitespace.
   */
  lemma TrimIsCore(s: string)
    ensures var a := TrimStartIndex(s, 0);
      && a + |Trim(s)| <= |s|
      && Trim(s) == s[a..a + |Trim(s)|]
      && (forall j :: 0 <= j < a ==> IsJsWhitespace(s[j]))
      && (forall j :: a + |Trim(s)| <= j < |s| ==> IsJsWhitespace(s[j]))
  {
  }

  /** The record `addHabit` builds: the name exactly as typed (it is not trimmed), no progress yet. */
  function NewHabit(id: Id, name: string): Habit {
    Habit(id, name, 0, None, [])
  }

  /**
   * `addHabit` (main.js:16-29): a name that trims to nothing leaves the collection as it is;
   * otherwise the fresh habit is appended at the end. The id, which the source takes
   * from the clock, is supplied by the caller.
   */
  function AddHabit(habits: seq<Habit>, name: string, id: Id): (r: seq<Habit>)
    ensures Trim(name) == [] ==> r == habits
    ensures Trim(name) != [] ==>
      && |r| == |habits| + 1
      && r[..|habits|] == habits
      && r[|habits|] == Habit(id, name, 0, None, [])
  {
    if Trim(name) == [] then habits else habits + [NewHabit(id, name)]
  }

  /** Whether habit `h` keeps the id given to `deleteHabit`. */
  function KeepsOtherId(id: Id): Habit -> bool {
    (h: Habit) => h.id != id
  }

  /** `deleteHabit` (main.js:31-33): keep the habits whose id differs from `id`, in order. */
  function DeleteHabit(habits: seq<Habit>, id: Id): (r: seq<Habit>)
    ensures forall h :: h in r <==> h in habits && h.id != id
    ensures |r| <= |habits|
  {
    Filter(KeepsOtherId(id), habits)
  }

  /** Deleting from a concatenation deletes from each part: survivors keep their relative order. */
  lemma DeletePreservesOrder(a: seq<Habit>, b: seq<Habit>, id: Id)
    ensures DeleteHabit(a + b, id) == DeleteHabit(a, id) + DeleteHabit(b, id)
  {
    FilterAppend(KeepsOtherId(id), a, b);
  }

  /** Deleting an id nobody has changes nothing, and otherwise the collection shrinks. */
  lemma DeleteAbsentIsNoOp(habits: seq<Habit>, id: Id)
    ensures DeleteHabit(habits, id) == habits <==> forall i :: 0 <= i < |habits| ==> habits[i].id != id
    ensures (exists i :: 0 <= i < |habits| && habits[i].id == id) ==> |DeleteHabit(habits, id)| < |habits|
  {
    FilterKeepsAll(KeepsOtherId(id), habits);
    FilterShrinks(KeepsOtherId(id), habits);
  }

  /** Deleting twice is the same as deleting once. */
  lemma DeleteIdempotent(habits: seq<Habit>, id: Id)
    ensures DeleteHabit(DeleteHabit(habits, id), id) == DeleteHabit(habits, id)
  {
    var r := DeleteHabit(habits, id);
    assert forall i :: 0 <= i < |r| ==> r[i] in r;
    FilterKeepsAll(KeepsOtherId(id), r);
  }

  /** Adding a habit under an id nobody has and then deleting that id gives back the collection. */
  lemma AddThenDelete(habits: seq<Habit>, name: string, id: Id)
    requires forall i :: 0 <= i < |habits| ==> habits[i].id != id
    ensures DeleteHabit(AddHabit(habits, name, id), id) == habits
  {
    DeleteAbsentIsNoOp(habits, id);
    if Trim(name) != [] {
      DeletePreservesOrder(habits, [NewHabit(id, name)], id);
      assert DeleteHabit([NewHabit(id, name)], id) == [];
    }
  }

  /** `isCompletedToday` (main.js:71-74), with the day supplied by the caller. */
  predicate IsCompletedToday(h: Habit, today: Day) {
    today in h.completedDates
  }
}
