/** Calendar days as proleptic Gregorian ordinals (Python's
    `date.toordinal()`: 0001-01-01, a Monday, is day 1), the inclusive date
    range `daterange` (bot.py:372-375) and the day counting that
    `expected_occurrences` does over it. */
module Calendar {

  /** `date.weekday()`: 0 = Monday .. 6 = Sunday. */
  function Weekday(d: int): (w: int)
    ensures 0 <= w <= 6
  {
    (d + 6) % 7
  }

  /** The seven weekdays. */
  function AllWeekdays(): set<int> {
    {0, 1, 2, 3, 4, 5, 6}
  }

  /** The integers `0 .. n-1`. */
  function Below(n: nat): set<int> {
    if n == 0 then {} else Below(n - 1) + {n - 1}
  }

  /** `daterange(start, end)`: every day from `start` to `end` inclusive,
      in order; nothing when `end` comes before `start`. */
  function DateRange(start: int, end: int): (r: seq<int>)
    ensures |r| == if end < start then 0 else end - start + 1
    ensures forall i :: 0 <= i < |r| ==> r[i] == start + i
    decreases end - start
  {
    if end < start then [] else [start] + DateRange(start + 1, end)
  }

  /** How many of `days` fall on a weekday in `weekdays`: the counting loop
      `for d in daterange(...): if d.weekday() in s: cnt += 1`. */
  function CountOn(days: seq<int>, weekdays: set<int>): (n: nat)
    ensures n <= |days|
  {
    if days == [] then 0
    else CountOn(days[..|days| - 1], weekdays) + Indicator(Weekday(days[|days| - 1]) in weekdays)
  }

  lemma DateRangeSnoc(start: int, end: int)
    requires start <= end + 1
    ensures DateRange(start, end + 1) == DateRange(start, end) + [end + 1]
  {
  }

  /** Extending the range by one day adds that day's contribution. */
  lemma CountOnExtend(start: int, end: int, weekdays: set<int>)
    requires start <= end + 1
    ensures CountOn(DateRange(start, end + 1), weekdays)
         == CountOn(DateRange(start, end), weekdays) + Indicator(Weekday(end + 1) in weekdays)
  {
    DateRangeSnoc(start, end);
    var r := DateRange(start, end + 1);
    assert r[..|r| - 1] == DateRange(start, end);
  }

  function Indicator(b: bool): nat {
    if b then 1 else 0
  }

  /** Number of weekdays below `n` that lie in `weekdays`, added up one by one. */
  function CountBelow(weekdays: set<int>, n: nat): nat {
    if n == 0 then 0 else CountBelow(weekdays, n - 1) + Indicator(n - 1 in weekdays)
  }

  lemma {:induction false} CountBelowIsCardinality(weekdays: set<int>, n: nat)
    ensures CountBelow(weekdays, n) == |weekdays * Below(n)|
  {
    if n > 0 {
      CountBelowIsCardinality(weekdays, n - 1);
      assert n - 1 !in Below(n - 1) by {
        BelowBound(n - 1);
      }
      IntersectAdd(weekdays, Below(n - 1), n - 1);
    }
  }

  /** Adding a new element to `b` adds one to its overlap with `w` exactly
      when the element is in `w`. */
  lemma IntersectAdd(w: set<int>, b: set<int>, x: int)
    requires x !in b
    ensures |w * (b + {x})| == |w * b| + Indicator(x in w)
  {
    if x in w {
      assert w * (b + {x}) == w * b + {x};
    } else {
      assert w * (b + {x}) == w * b;
    }
  }

  lemma {:induction false} BelowBound(n: nat)
    ensures forall x :: x in Below(n) ==> 0 <= x < n
  {
    if n > 0 {
      BelowBound(n - 1);
    }
  }

  lemma WeekdayStep(d: int)
    ensures Weekday(d + 1) == NextWeekday(Weekday(d))
  {
  }

  function IndicatorsFrom(start: int, weekdays: set<int>): nat {
    Indicator(Weekday(start) in weekdays) + Indicator(Weekday(start + 1) in weekdays)
    + Indicator(Weekday(start + 2) in weekdays) + Indicator(Weekday(start + 3) in weekdays)
    + Indicator(Weekday(start + 4) in weekdays) + Indicator(Weekday(start + 5) in weekdays)
    + Indicator(Weekday(start + 6) in weekdays)
  }

  lemma CountBelowSeven(weekdays: set<int>)
    ensures CountBelow(weekdays, 7) ==
      Indicator(0 in weekdays) + Indicator(1 in weekdays) + Indicator(2 in weekdays) + Indicator(3 in weekdays)
      + Indicator(4 in weekdays) + Indicator(5 in weekdays) + Indicator(6 in weekdays)
  {
    assert CountBelow(weekdays, 1) == Indicator(0 in weekdays);
    assert CountBelow(weekdays, 3) == CountBelow(weekdays, 1) + Indicator(1 in weekdays) + Indicator(2 in weekdays);
    assert CountBelow(weekdays, 5) == CountBelow(weekdays, 3) + Indicator(3 in weekdays) + Indicator(4 in weekdays);
    assert CountBelow(weekdays, 7) == CountBelow(weekdays, 5) + Indicator(5 in weekdays) + Indicator(6 in weekdays);
  }

  function NextWeekday(w: int): int {
    if w == 6 then 0 else w + 1
  }

  lemma RotatedSum(w0: int, w1: int, w2: int, w3: int, w4: int, w5: int, w6: int, weekdays: set<int>)
    requires 0 <= w0 <= 6
    requires w1 == NextWeekday(w0) && w2 == NextWeekday(w1) && w3 == NextWeekday(w2)
    requires w4 == NextWeekday(w3) && w5 == NextWeekday(w4) && w6 == NextWeekday(w5)
    ensures Indicator(w0 in weekdays) + Indicator(w1 in weekdays) + Indicator(w2 in weekdays)
            + Indicator(w3 in weekdays) + Indicator(w4 in weekdays) + Indicator(w5 in weekdays)
            + Indicator(w6 in weekdays)
         == Indicator(0 in weekdays) + Indicator(1 in weekdays) + Indicator(2 in weekdays)
            + Indicator(3 in weekdays) + Indicator(4 in weekdays) + Indicator(5 in weekdays)
            + Indicator(6 in weekdays)
  {
    if w0 == 0 {
      assert w1 == 1 && w2 == 2 && w3 == 3 && w4 == 4 && w5 == 5 && w6 == 6;
    } else if w0 == 1 {
      assert w1 == 2 && w2 == 3 && w3 == 4 && w4 == 5 && w5 == 6 && w6 == 0;
    } else if w0 == 2 {
      assert w1 == 3 && w2 == 4 && w3 == 5 && w4 == 6 && w5 == 0 && w6 == 1;
    } else if w0 == 3 {
      assert w1 == 4 && w2 == 5 && w3 == 6 && w4 == 0 && w5 == 1 && w6 == 2;
    } else if w0 == 4 {
      assert w1 == 5 && w2 == 6 && w3 == 0 && w4 == 1 && w5 == 2 && w6 == 3;
    } else if w0 == 5 {
      assert w1 == 6 && w2 == 0 && w3 == 1 && w4 == 2 && w5 == 3 && w6 == 4;
    } else {
      assert w1 == 0 && w2 == 1 && w3 == 2 && w4 == 3 && w5 == 4 && w6 == 5;
    }
  }

  /** Seven consecutive days meet the weekdays in a rotated order. */
  lemma IndicatorsRotate(start: int, weekdays: set<int>)
    ensures IndicatorsFrom(start, weekdays) == CountBelow(weekdays, 7)
  {
    CountBelowSeven(weekdays);
    WeekdayStep(start);
    WeekdayStep(start + 1);
    WeekdayStep(start + 2);
    WeekdayStep(start + 3);
    WeekdayStep(start + 4);
    WeekdayStep(start + 5);
    RotatedSum(Weekday(start), Weekday(start + 1), Weekday(start + 2), Weekday(start + 3),
               Weekday(start + 4), Weekday(start + 5), Weekday(start + 6), weekdays);
  }

  lemma CountOnWindow(start: int, weekdays: set<int>)
    ensures CountOn(DateRange(start, start + 6), weekdays) == IndicatorsFrom(start, weekdays)
  {
    assert DateRange(start, start - 1) == [];
    CountOnExtend(start, start - 1, weekdays);
    CountOnExtend(start, start, weekdays);
    CountOnExtend(start, start + 1, weekdays);
    CountOnExtend(start, start + 2, weekdays);
    CountOnExtend(start, start + 3, weekdays);
    CountOnExtend(start, start + 4, weekdays);
    CountOnExtend(start, start + 5, weekdays);
  }

  /** Any seven consecutive days cover each weekday exactly once, so the
      count over them is the number of distinct weekdays 0..6 in the set. */
  lemma WeekWindow(start: int, weekdays: set<int>)
    ensures CountOn(DateRange(start, start + 6), weekdays) == |weekdays * AllWeekdays()|
  {
    CountOnWindow(start, weekdays);
    IndicatorsRotate(start, weekdays);
    CountBelowIsCardinality(weekdays, 7);
    BelowSeven();
  }

  lemma BelowSeven()
    ensures Below(7) == AllWeekdays()
  {
    assert Below(4) == {0, 1, 2, 3};
  }

  /** The days from `start` to `end` whose weekday is in `weekdays`. */
  ghost function DaysOn(start: int, end: int, weekdays: set<int>): set<int> {
    set d | start <= d <= end && Weekday(d) in weekdays
  }

  /** The counting loop counts exactly the days of the range that fall on
      one of the weekdays. */
  lemma {:induction false} CountOnIsCardinality(start: int, end: int, weekdays: set<int>)
    ensures CountOn(DateRange(start, end), weekdays) == |DaysOn(start, end, weekdays)|
    decreases end - start
  {
    if end < start {
      assert DaysOn(start, end, weekdays) == {};
    } else {
      CountOnIsCardinality(start, end - 1, weekdays);
      CountOnExtend(start, end - 1, weekdays);
      if Weekday(end) in weekdays {
        assert DaysOn(start, end, weekdays) == DaysOn(start, end - 1, weekdays) + {end};
      } else {
        assert DaysOn(start, end, weekdays) == DaysOn(start, end - 1, weekdays);
      }
    }
  }
}
