/** How the two notions of "due" relate: the filter of `get_today_habits`
    (data/db.py:180-201) and the per-day count of `expected_occurrences`
    (bot.py:384-422). The `/week` and `/month` reports (bot.py:461-527)
    divide done days by the second
    while the `/today` list shows the first; they agree for daily habits and
    for weekly habits with a non-empty schedule, and disagree for weekly
    habits without one. */
module Consistency {
  import opened Wrappers
  import opened Calendar
  import opened Habits
  import opened Occurrences
  import opened Store

  lemma OneDay(d: int, weekdays: set<int>)
    ensures CountOn(DateRange(d, d), weekdays) == if Weekday(d) in weekdays then 1 else 0
  {
    assert DateRange(d, d) == [d];
    assert [d][..0] == [];
  }

  /** A daily habit is on the list every day and counted once per day. */
  lemma DailyAgrees(h: Habit, d: int)
    requires h.frequency == "daily"
    ensures DueToday(h, Weekday(d)) && ExpectedOccurrences(h, d, d) == 1
  {
    FrequencyNames();
  }

  /** A weekly habit with a non-empty schedule is on the list on exactly the
      days it is counted for. */
  lemma ScheduledAgrees(h: Habit, d: int)
    requires h.frequency == "weekly" && h.schedule.Some? && h.schedule.value != []
    ensures DueToday(h, Weekday(d)) <==> ExpectedOccurrences(h, d, d) == 1
    ensures !DueToday(h, Weekday(d)) <==> ExpectedOccurrences(h, d, d) == 0
  {
    FrequencyNames();
    OneDay(d, ScheduleDays(h.schedule.value));
  }

  /** A weekly habit without a schedule is on the list every day, yet it is
      counted only on the weekday it was created: on any other day the
      report expects nothing. */
  lemma UnscheduledWeeklyDisagrees(h: Habit, d: int)
    requires h.frequency == "weekly" && h.schedule.None? && h.createdAt.Some?
    requires Weekday(d) != Weekday(h.createdAt.value)
    ensures DueToday(h, Weekday(d))
    ensures ExpectedOccurrences(h, d, d) == 0
  {
    FrequencyNames();
    OneDay(d, {Weekday(h.createdAt.value)});
  }

  /** A weekly habit whose schedule is the empty list is never on the list,
      yet the reports count it on its creation weekday, or once per week
      without one. No handler stores `[]` (`parse_weekdays` rejects a text
      without days, bot.py:111-112); only a direct call of `update_habit` with
      an empty list does (`add_habit` stores an empty list as NULL). */
  lemma EmptyScheduleDisagrees(h: Habit, d: int)
    requires h.frequency == "weekly" && h.schedule == Some([])
    ensures forall wd :: !DueToday(h, wd)
    ensures h.createdAt.Some? ==> ExpectedOccurrences(h, h.createdAt.value, h.createdAt.value) == 1
    ensures h.createdAt.None? ==> ExpectedOccurrences(h, d, d) == 1
  {
    FrequencyNames();
    if h.createdAt.Some? {
      OneDay(h.createdAt.value, {Weekday(h.createdAt.value)});
    }
  }

  /** The list compares the frequency as stored and the report lowercases
      it: a habit stored as "Weekly" is on the list every day, while the
      report counts only its scheduled days. */
  lemma CapitalisedWeeklyDisagrees(h: Habit, d: int)
    requires h.frequency == "Weekly" && h.schedule.Some? && h.schedule.value != []
    requires Weekday(d) !in h.schedule.value
    ensures DueToday(h, Weekday(d))
    ensures ExpectedOccurrences(h, d, d) == 0
  {
    FrequencyNames();
    OneDay(d, ScheduleDays(h.schedule.value));
  }

  /** Removing every day from a habit's schedule with `update_habit` leaves
      a habit that reads back with the empty schedule of
      `EmptyScheduleDisagrees`. */
  lemma EmptyScheduleIsReachable(db: Db, i: int)
    requires 0 <= i < |db.habits|
    ensures var u := UpdateHabit(db, db.habits[i].id, map["schedule" := Days([])]);
      u.Success? && RowToHabit(u.value.habits[i]) .Success? &&
      RowToHabit(u.value.habits[i]).value.schedule == Some([])
  {
    var fields := map["schedule" := Days([])];
    assert "schedule" in fields.Keys * Updatable;
    assert db.habits[i] in db.habits;
    UpdateHabitReadBack(db, db.habits[i].id, fields, i);
  }
}
