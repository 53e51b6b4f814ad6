/** The habit list as a value: what each operation of the tracker makes of it, and
    the properties those operations keep. Indices are the 1-based serial numbers the
    user types; any integer may arrive, and one out of range changes nothing. */
module HabitList {
  import opened Habits

  /** Some record of `s` is called `name` (exact, case-sensitive match). */
  predicate HasName(s: seq<Habit>, name: string)
  {
    exists i :: 0 <= i < |s| && s[i].name == name
  }

  /** No two records share a name. */
  predicate UniqueNames(s: seq<Habit>)
  {
    forall i, j :: 0 <= i < j < |s| ==> s[i].name != s[j].name
  }

  /** Every streak is at least zero. */
  predicate StreaksNonNegative(s: seq<Habit>)
  {
    forall i :: 0 <= i < |s| ==> s[i].streak >= 0
  }

  /** `index` is the serial number of a record of `s`. */
  predicate InRange(s: seq<Habit>, index: int)
  {
    0 < index <= |s|
  }

  /** The list after add_habit(name) at time `now`. */
  function AfterAdd(s: seq<Habit>, name: string, now: Timestamp): (r: seq<Habit>)
    ensures HasName(r, name)
    ensures |r| == if HasName(s, name) then |s| else |s| + 1
    ensures forall i :: 0 <= i < |s| ==> r[i] == s[i]
    ensures !HasName(s, name) ==> r[|s|] == Habit(name, 0, now)
  {
    if HasName(s, name) then s
    else
      var r := s + [Habit(name, 0, now)];
      assert r[|s|].name == name;
      r
  }

  /** The list after mark_habit_done(index) at time `now`. */
  function AfterMark(s: seq<Habit>, index: int, now: Timestamp): (r: seq<Habit>)
    ensures |r| == |s|
    ensures forall j :: 0 <= j < |s| && j != index - 1 ==> r[j] == s[j]
    ensures InRange(s, index) ==> r[index - 1].name == s[index - 1].name &&
                                  DoneOn(r[index - 1], now)
  {
    if InRange(s, index) then s[index - 1 := Checked(s[index - 1], now)] else s
  }

  /** The status mark_habit_done(index) reports at time `now`. */
  function MarkResult(s: seq<Habit>, index: int, now: Timestamp): (r: MarkStatus)
    ensures r == NotFound <==> !InRange(s, index)
    ensures r == AlreadyLogged <==> InRange(s, index) && DoneOn(s[index - 1], now)
  {
    if InRange(s, index) then CheckStatus(s[index - 1], now) else NotFound
  }

  /** The list after edit_habit(index, name). */
  function AfterEdit(s: seq<Habit>, index: int, name: string): (r: seq<Habit>)
    ensures |r| == |s|
    ensures forall j :: 0 <= j < |s| ==>
              r[j].streak == s[j].streak && r[j].lastDone == s[j].lastDone
    ensures forall j :: 0 <= j < |s| && j != index - 1 ==> r[j] == s[j]
    ensures InRange(s, index) ==> r[index - 1].name == name
  {
    if InRange(s, index) then s[index - 1 := s[index - 1].(name := name)] else s
  }

  /** The list after delete_habit(index). */
  function AfterDelete(s: seq<Habit>, index: int): (r: seq<Habit>)
    ensures InRange(s, index) ==> |r| == |s| - 1
    ensures InRange(s, index) ==> forall j :: 0 <= j < index - 1 ==> r[j] == s[j]
    ensures InRange(s, index) ==> forall j :: index - 1 <= j < |r| ==> r[j] == s[j + 1]
    ensures !InRange(s, index) ==> r == s
  {
    if InRange(s, index) then s[..index - 1] + s[index..] else s
  }

  /** An index outside [1, |s|] leaves the list unchanged for mark, edit and delete,
      on every list including the empty one, and marking reports NotFound. */
  lemma OutOfRangeChangesNothing(s: seq<Habit>, index: int, name: string, now: Timestamp)
    requires index <= 0 || index > |s|
    ensures AfterMark(s, index, now) == s && MarkResult(s, index, now) == NotFound
    ensures AfterEdit(s, index, name) == s
    ensures AfterDelete(s, index) == s
  {
  }

  /** Adding a name that is already present changes nothing; in particular adding
      the same name twice leaves the list as the first add left it. */
  lemma AddTwiceRejectsSecond(s: seq<Habit>, name: string, t1: Timestamp, t2: Timestamp)
    ensures AfterAdd(AfterAdd(s, name, t1), name, t2) == AfterAdd(s, name, t1)
  {
  }

  /** Adding keeps the names unique. */
  lemma AddKeepsNamesUnique(s: seq<Habit>, name: string, now: Timestamp)
    requires UniqueNames(s)
    ensures UniqueNames(AfterAdd(s, name, now))
  {
  }

  /** Deleting keeps the names unique. */
  lemma DeleteKeepsNamesUnique(s: seq<Habit>, index: int)
    requires UniqueNames(s)
    ensures UniqueNames(AfterDelete(s, index))
  {
  }

  /** Marking keeps the names unique: it never touches a name. */
  lemma MarkKeepsNamesUnique(s: seq<Habit>, index: int, now: Timestamp)
    requires UniqueNames(s)
    ensures UniqueNames(AfterMark(s, index, now))
  {
  }

  /** Renaming does not re-check uniqueness: renaming the second of two habits to
      the name of the first leaves two records with one name. */
  lemma EditCanDuplicateName(t: Timestamp)
    ensures UniqueNames([Habit("Read", 0, t), Habit("Run", 0, t)])
    ensures !UniqueNames(AfterEdit([Habit("Read", 0, t), Habit("Run", 0, t)], 2, "Read"))
  {
    var r := AfterEdit([Habit("Read", 0, t), Habit("Run", 0, t)], 2, "Read");
    assert r[0].name == r[1].name;
  }

  /** The same for every list: renaming a record to the name of any other record
      leaves two records with one name. */
  lemma EditToOtherNameDuplicates(s: seq<Habit>, index: int, j: int)
    requires InRange(s, index) && 0 <= j < |s| && j != index - 1
    ensures !UniqueNames(AfterEdit(s, index, s[j].name))
  {
  }

  /** Every operation keeps all streaks non-negative: a streak starts at 0 and is
      only ever set to 1 or increased. */
  lemma OperationsKeepStreaksNonNegative(s: seq<Habit>, index: int, name: string, now: Timestamp)
    requires StreaksNonNegative(s)
    ensures StreaksNonNegative(AfterAdd(s, name, now))
    ensures StreaksNonNegative(AfterMark(s, index, now))
    ensures StreaksNonNegative(AfterEdit(s, index, name))
    ensures StreaksNonNegative(AfterDelete(s, index))
  {
  }
}
