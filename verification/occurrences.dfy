/** `expected_occurrences` (bot.py:384-422): how many times a habit was due
    in an inclusive range of days. */
module Occurrences {
  import opened Wrappers
  import opened Calendar
  import opened Habits

  /** ASCII `str.lower()`. */
  function LowerAscii(s: string): (r: string)
    ensures |r| == |s|
    ensures forall i :: 0 <= i < |r| ==> !('A' <= r[i] <= 'Z')
  {
    if s == [] then []
    else [if 'A' <= s[0] <= 'Z' then (s[0] as int + 32) as char else s[0]] + LowerAscii(s[1..])
  }

  /** Text without capitals is left as it is. */
  lemma {:induction false} LowerAsciiKeepsLower(s: string)
    requires forall i :: 0 <= i < |s| ==> !('A' <= s[i] <= 'Z')
    ensures LowerAscii(s) == s
  {
    if s != [] {
      LowerAsciiKeepsLower(s[1..]);
    }
  }

  /** `(habit.get("frequency") or "daily").lower()`: empty text counts as
      "daily". */
  function EffectiveFrequency(frequency: string): string {
    LowerAscii(if frequency == [] then "daily" else frequency)
  }

  lemma FrequencyNames()
    ensures EffectiveFrequency("daily") == "daily"
    ensures EffectiveFrequency("weekly") == "weekly"
    ensures EffectiveFrequency("Weekly") == "weekly"
  {
    LowerDaily();
    LowerWeekly();
    CapitalisedWeekly();
  }

  lemma LowerDaily()
    ensures LowerAscii("daily") == "daily"
  {
    LowerAsciiKeepsLower("daily");
  }

  lemma LowerWeekly()
    ensures LowerAscii("weekly") == "weekly"
  {
    LowerAsciiKeepsLower("weekly");
  }

  lemma CapitalisedWeekly()
    ensures LowerAscii("Weekly") == "weekly"
  {
    assert "Weekly"[1..] == "eekly";
    LowerAsciiKeepsLower("eekly");
    assert LowerAscii("Weekly") == "w" + LowerAscii("eekly");
  }

  /** The schedule as a set, `set(int(x) for x in sched)`. */
  function ScheduleDays(xs: seq<int>): set<int> {
    set x | x in xs
  }

  function Max(a: int, b: int): int {
    if a < b then b else a
  }

  /** Daily and unknown frequencies count every day; weekly habits count the
      days on their schedule, else on the weekday they were created, else
      fall back to one per full week with a minimum of one. The day count
      `(end - start).days + 1` is used as is, so the daily case is negative
      for a reversed range; `//` on a positive divisor is floor division,
      which Dafny's `/` agrees with. */
  function ExpectedOccurrences(h: Habit, start: int, end: int): (r: int)
    ensures start <= end ==> 0 <= r <= end - start + 1
    ensures EffectiveFrequency(h.frequency) == "weekly" ==> r >= 0
  {
    var days := end - start + 1;
    var freq := EffectiveFrequency(h.frequency);
    if freq == "daily" then days
    else if freq == "weekly" then
      if h.schedule.Some? && h.schedule.value != [] then
        CountOn(DateRange(start, end), ScheduleDays(h.schedule.value))
      else if h.createdAt.Some? then
        CountOn(DateRange(start, end), {Weekday(h.createdAt.value)})
      else
        Max(1, days / 7)
    else days
  }

  /** Every frequency other than weekly (daily, empty, or unknown) counts
      each day of the range: as many as `daterange` yields whenever the range
      is not reversed by more than one day. */
  lemma NotWeeklyCountsEveryDay(h: Habit, start: int, end: int)
    requires EffectiveFrequency(h.frequency) != "weekly"
    ensures ExpectedOccurrences(h, start, end) == end - start + 1
    ensures start <= end + 1 ==> ExpectedOccurrences(h, start, end) == |DateRange(start, end)|
  {
  }

  /** A weekly habit with a non-empty schedule counts the days of the range
      whose weekday is on the schedule. */
  lemma WeeklyScheduledCount(h: Habit, start: int, end: int)
    requires EffectiveFrequency(h.frequency) == "weekly"
    requires h.schedule.Some? && h.schedule.value != []
    ensures ExpectedOccurrences(h, start, end) == |DaysOn(start, end, ScheduleDays(h.schedule.value))|
  {
    assert ExpectedOccurrences(h, start, end) == CountOn(DateRange(start, end), ScheduleDays(h.schedule.value));
    CountOnIsCardinality(start, end, ScheduleDays(h.schedule.value));
  }

  /** Over any seven consecutive days a weekly habit with a non-empty
      schedule is due once per distinct scheduled weekday 0..6. */
  lemma WeeklyScheduledWeek(h: Habit, start: int)
    requires EffectiveFrequency(h.frequency) == "weekly"
    requires h.schedule.Some? && h.schedule.value != []
    ensures ExpectedOccurrences(h, start, start + 6) == |set x | x in h.schedule.value && 0 <= x <= 6|
  {
    var s := ScheduleDays(h.schedule.value);
    assert ExpectedOccurrences(h, start, start + 6) == CountOn(DateRange(start, start + 6), s);
    WeekWindow(start, s);
    assert s * AllWeekdays() == set x | x in h.schedule.value && 0 <= x <= 6;
  }

  /** A weekly habit without a schedule but with a known creation day counts
      the days sharing the creation weekday: exactly one in any week. */
  lemma WeeklyCreationWeekdayCount(h: Habit, start: int, end: int)
    requires EffectiveFrequency(h.frequency) == "weekly"
    requires h.schedule.None? || h.schedule.value == []
    requires h.createdAt.Some?
    ensures ExpectedOccurrences(h, start, end) == |DaysOn(start, end, {Weekday(h.createdAt.value)})|
    ensures end == start + 6 ==> ExpectedOccurrences(h, start, end) == 1
  {
    var s := {Weekday(h.createdAt.value)};
    assert ExpectedOccurrences(h, start, end) == CountOn(DateRange(start, end), s);
    CountOnIsCardinality(start, end, s);
    if end == start + 6 {
      OneWeekdayPerWeek(start, Weekday(h.createdAt.value));
    }
  }

  /** Any seven consecutive days hold one day of a given weekday. */
  lemma OneWeekdayPerWeek(start: int, w: int)
    requires 0 <= w <= 6
    ensures CountOn(DateRange(start, start + 6), {w}) == 1
  {
    WeekWindow(start, {w});
    assert {w} * AllWeekdays() == {w};
  }

  /** Without schedule and creation day the count is one per full week of
      the range, but never below one, even for an empty range. */
  lemma WeeklyFallbackCount(h: Habit, start: int, end: int)
    requires EffectiveFrequency(h.frequency) == "weekly"
    requires h.schedule.None? || h.schedule.value == []
    requires h.createdAt.None?
    ensures ExpectedOccurrences(h, start, end) >= 1
    ensures ExpectedOccurrences(h, start, end) == if end - start + 1 < 14 then 1 else (end - start + 1) / 7
  {
  }
}
