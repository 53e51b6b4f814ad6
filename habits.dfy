/** One habit record of the tracker and the rule that updates its streak when the
    habit is marked done (check_streak). Everything here is a value; the list that
    holds the records and changes in place lives in module Tracker. */
module Habits {

  /** A point in time as the tracker uses it: the calendar date as a day number
      (consecutive dates have consecutive numbers, as Python's date.toordinal) and a
      time of day that is stored and displayed but never compared. */
  datatype Timestamp = Timestamp(day: int, timeOfDay: nat)

  /** One entry of the habit list: the dictionary with keys "habit_name", "streak"
      and "last_done". The streak is a plain integer, as in the source. */
  datatype Habit = Habit(name: string, streak: int, lastDone: Timestamp)

  /** What marking a habit done reports: the index was out of range, the habit was
      already logged today, or it was marked and this is its streak now. */
  datatype MarkStatus = NotFound | AlreadyLogged | Marked(streak: int)

  /** Whole calendar days from `last` to `now`, ignoring the time of day. */
  function DayDiff(last: Timestamp, now: Timestamp): int
  {
    now.day - last.day
  }

  /** A habit is satisfied for the day of `now` when it was last done on that date.
      This is derived state: nothing in a record stores it. */
  predicate DoneOn(h: Habit, now: Timestamp)
  {
    h.lastDone.day == now.day
  }

  /** The record after check_streak runs at time `now`. A gap of more than one day
      restarts the streak at 1, a gap of exactly one day extends it, the same day
      changes nothing, and a negative gap (the clock went backwards) matches none of
      the branches: the streak is kept but the time of completion is still updated. */
  function Checked(h: Habit, now: Timestamp): (r: Habit)
    ensures r.name == h.name
    ensures DoneOn(r, now)
    ensures h.streak >= 0 ==> r.streak >= 0
    ensures DayDiff(h.lastDone, now) > 0 && h.streak >= 0 ==> r.streak >= 1
    ensures r != h ==> r.lastDone == now
  {
    var difference := DayDiff(h.lastDone, now);
    if difference == 0 then h
    else
      var streak := if difference > 1 then 1
                    else if difference == 1 then h.streak + 1
                    else h.streak;
      h.(streak := streak, lastDone := now)
  }

  /** The message check_streak returns for `h` at time `now`. */
  function CheckStatus(h: Habit, now: Timestamp): (r: MarkStatus)
    ensures r != NotFound
    ensures r == AlreadyLogged <==> DoneOn(h, now)
    ensures r.Marked? ==> r.streak == Checked(h, now).streak
  {
    if DayDiff(h.lastDone, now) == 0 then AlreadyLogged
    else Marked(Checked(h, now).streak)
  }

  /** The four cases of the streak rule, by the day difference. */
  lemma CheckedByDayDifference(h: Habit, now: Timestamp)
    ensures DayDiff(h.lastDone, now) > 1 ==>
              Checked(h, now) == h.(streak := 1, lastDone := now)
    ensures DayDiff(h.lastDone, now) == 1 ==>
              Checked(h, now) == h.(streak := h.streak + 1, lastDone := now)
    ensures DayDiff(h.lastDone, now) == 0 ==>
              Checked(h, now) == h && CheckStatus(h, now) == AlreadyLogged
    ensures DayDiff(h.lastDone, now) < 0 ==>
              Checked(h, now) == h.(lastDone := now) &&
              CheckStatus(h, now) == Marked(h.streak)
  {
  }

  /** Marking a habit a second time on the same date changes nothing more, whatever
      the first mark did. */
  lemma CheckedTwiceSameDay(h: Habit, now: Timestamp, later: Timestamp)
    requires later.day == now.day
    ensures Checked(Checked(h, now), later) == Checked(h, now)
    ensures CheckStatus(Checked(h, now), later) == AlreadyLogged
  {
  }

  /** The record after it is marked done at each of `times` in turn. */
  function CheckedAtEach(h: Habit, times: seq<Timestamp>): (r: Habit)
    ensures r.name == h.name
    ensures h.streak >= 0 ==> r.streak >= 0
    ensures times != [] ==> DoneOn(r, times[|times| - 1])
    decreases |times|
  {
    if times == [] then h
    else CheckedAtEach(Checked(h, times[0]), times[1..])
  }

  /** Marking a habit on each of the days that follow its last completion, one day
      after another, adds one to the streak per day: the streak counts consecutive
      days with no day skipped. */
  lemma {:induction false} ConsecutiveDaysExtendStreak(h: Habit, times: seq<Timestamp>)
    requires forall k :: 0 <= k < |times| ==> times[k].day == h.lastDone.day + k + 1
    ensures CheckedAtEach(h, times).streak == h.streak + |times|
    ensures times != [] ==> CheckedAtEach(h, times).lastDone == times[|times| - 1]
    decreases |times|
  {
    if times != [] {
      var h' := Checked(h, times[0]);
      assert h'.streak == h.streak + 1 && h'.lastDone == times[0];
      var rest := times[1..];
      forall k | 0 <= k < |rest|
        ensures rest[k].day == h'.lastDone.day + k + 1
      {
        assert rest[k] == times[k + 1];
      }
      ConsecutiveDaysExtendStreak(h', rest);
    }
  }

  /** After a skipped day the streak starts again from 1 and then counts the
      consecutive days that follow, whatever it was before. */
  lemma {:induction false} SkippedDayRestartsStreak(h: Habit, times: seq<Timestamp>)
    requires times != [] && times[0].day > h.lastDone.day + 1
    requires forall k :: 0 <= k < |times| ==> times[k].day == times[0].day + k
    ensures CheckedAtEach(h, times).streak == |times|
  {
    var h' := Checked(h, times[0]);
    assert h'.streak == 1 && h'.lastDone == times[0];
    var rest := times[1..];
    forall k | 0 <= k < |rest|
      ensures rest[k].day == h'.lastDone.day + k + 1
    {
      assert rest[k] == times[k + 1];
    }
    ConsecutiveDaysExtendStreak(h', rest);
    assert CheckedAtEach(h, times) == CheckedAtEach(h', rest);
  }
}
