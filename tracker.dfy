/** The habit tracker's in-memory list and the operations that edit it in place.
    The list is the program's one global; here it is the field of a Tracker object.
    The current time is a parameter instead of a read of the clock, and saving to the
    JSON file after each change is not part of this model. */
module Tracker {
  import opened Habits
  import opened HabitList

  class Tracker {
    /** The habit records in insertion order; serial number i names habits[i - 1]. */
    var habits: seq<Habit>

    /** Starts from the records read at start-up (empty when there is no file). */
    constructor (loaded: seq<Habit>)
      ensures habits == loaded
    {
      habits := loaded;
    }

    /** The duplicate scan of add_habit: is some record already called `name`? */
    method HasHabit(name: string) returns (found: bool)
      ensures found <==> HasName(habits, name)
    {
      var i := 0;
      while i < |habits|
        invariant 0 <= i <= |habits|
        invariant forall j :: 0 <= j < i ==> habits[j].name != name
      {
        if habits[i].name == name {
          return true;
        }
        i := i + 1;
      }
      return false;
    }

    /** add_habit: refuses a name already present, otherwise appends a new record
        with streak 0 completed at `now`. */
    method AddHabit(name: string, now: Timestamp) returns (added: bool)
      modifies this
      ensures added <==> !HasName(old(habits), name)
      ensures added ==> habits == old(habits) + [Habit(name, 0, now)]
      ensures !added ==> habits == old(habits)
      ensures habits == AfterAdd(old(habits), name, now)
      ensures UniqueNames(old(habits)) ==> UniqueNames(habits)
      ensures StreaksNonNegative(old(habits)) ==> StreaksNonNegative(habits)
    {
      var duplicate := HasHabit(name);
      if duplicate {
        return false;
      }
      habits := habits + [Habit(name, 0, now)];
      added := true;
    }

    /** check_streak on the record at 0-based position `i`: updates its streak and
        time of completion in place by the streak rule and returns the message. */
    method CheckStreak(i: nat, now: Timestamp) returns (status: MarkStatus)
      requires i < |habits|
      modifies this
      ensures habits == old(habits)[i := Checked(old(habits)[i], now)]
      ensures status == CheckStatus(old(habits)[i], now)
    {
      var last := habits[i].lastDone;
      var difference := DayDiff(last, now);
      if difference > 1 {
        habits := habits[i := habits[i].(streak := 1)];
      } else if difference == 1 {
        habits := habits[i := habits[i].(streak := habits[i].streak + 1)];
      } else if difference == 0 {
        return AlreadyLogged;
      }
      habits := habits[i := habits[i].(lastDone := now)];
      status := Marked(habits[i].streak);
    }

    /** mark_habit_done: a serial number outside [1, |habits|] reports NotFound and
        changes nothing; otherwise the streak rule runs on that one record. */
    method MarkHabitDone(index: int, now: Timestamp) returns (status: MarkStatus)
      modifies this
      ensures status == MarkResult(old(habits), index, now)
      ensures habits == AfterMark(old(habits), index, now)
      ensures status == NotFound <==> !InRange(old(habits), index)
      ensures !InRange(old(habits), index) ==> habits == old(habits)
      ensures UniqueNames(old(habits)) ==> UniqueNames(habits)
      ensures StreaksNonNegative(old(habits)) ==> StreaksNonNegative(habits)
    {
      if 0 < index <= |habits| {
        status := CheckStreak(index - 1, now);
      } else {
        status := NotFound;
      }
    }

    /** edit_habit: renames the record with serial number `index`, without checking
        the new name against the other records; out of range changes nothing. */
    method EditHabit(index: int, newName: string) returns (found: bool)
      modifies this
      ensures found <==> InRange(old(habits), index)
      ensures found ==> habits == old(habits)[index - 1 := old(habits)[index - 1].(name := newName)]
      ensures !found ==> habits == old(habits)
      ensures habits == AfterEdit(old(habits), index, newName)
      ensures StreaksNonNegative(old(habits)) ==> StreaksNonNegative(habits)
    {
      if 0 < index <= |habits| {
        habits := habits[index - 1 := habits[index - 1].(name := newName)];
        found := true;
      } else {
        found := false;
      }
    }

    /** delete_habit: removes the record with serial number `index`; the records
        after it move down one place. Out of range changes nothing. */
    method DeleteHabit(index: int) returns (found: bool)
      modifies this
      ensures found <==> InRange(old(habits), index)
      ensures found ==> habits == old(habits)[..index - 1] + old(habits)[index..]
      ensures !found ==> habits == old(habits)
      ensures habits == AfterDelete(old(habits), index)
      ensures UniqueNames(old(habits)) ==> UniqueNames(habits)
      ensures StreaksNonNegative(old(habits)) ==> StreaksNonNegative(habits)
    {
      if 0 < index <= |habits| {
        habits := habits[..index - 1] + habits[index..];
        found := true;
      } else {
        found := false;
      }
    }
  }

  /** A session from an empty list: adding a habit, adding it again, and marking it
      on the next day, the same day again, after a skipped day, and
      with the clock moved back. */
  method Session(t0: Timestamp)
  {
    var tracker := new Tracker([]);
    var added := tracker.AddHabit("Read", t0);
    assert added && tracker.habits == [Habit("Read", 0, t0)];
    added := tracker.AddHabit("Read", t0);
    assert !added && tracker.habits == [Habit("Read", 0, t0)];
    var status := tracker.MarkHabitDone(1, Timestamp(t0.day + 1, 0));
    assert status == Marked(1);
    status := tracker.MarkHabitDone(1, Timestamp(t0.day + 1, 5));
    assert status == AlreadyLogged;
    status := tracker.MarkHabitDone(1, Timestamp(t0.day + 4, 0));
    assert status == Marked(1);
    status := tracker.MarkHabitDone(1, Timestamp(t0.day + 2, 0));
    assert status == Marked(1) && tracker.habits[0].lastDone == Timestamp(t0.day + 2, 0);
    status := tracker.MarkHabitDone(2, Timestamp(t0.day + 5, 0));
    assert status == NotFound;
    var found := tracker.DeleteHabit(1);
    assert found && tracker.habits == [];
  }
}
