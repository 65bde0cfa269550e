/** Day columns of a month: `get_month_days` of schedule_app_patched_fixed.py
    (the same text sits in optimized_shift_scheduler.py). The calendar
    library itself is an input: `calendar.monthrange` either gives the
    weekday of the 1st and the number of days, or raises ValueError. */
module Calendar {

  /** Python's `weekday()` (0 = Monday .. 6 = Sunday), or the "(?)" label
      written when the date cannot be built. */
  datatype Weekday = Known(index: nat) | Unknown

  /** The header "m/d (weekday)" of one day column. */
  datatype DayColumn = DayColumn(month: int, day: int, weekday: Weekday)

  /** What `calendar.monthrange(year, month)` returned. */
  datatype MonthRange = Range(firstWeekday: nat, lastDay: nat) | Raised

  /** The number of days when `monthrange` raises ValueError. */
  const FallbackDays: nat := 30

  /** `get_month_days(year, month)`: the day columns, 1 .. last_day. */
  function MonthDays(month: int, range: MonthRange): (cols: seq<DayColumn>)
    requires range.Range? ==> range.firstWeekday < 7
    ensures |cols| == (if range.Range? then range.lastDay else FallbackDays)
    ensures forall i :: 0 <= i < |cols| ==> cols[i].month == month && cols[i].day == i + 1
    ensures forall i :: 0 <= i < |cols| ==> (cols[i].weekday.Known? <==> range.Range?)
    ensures range.Range? && |cols| > 0 ==> cols[0].weekday == Known(range.firstWeekday)
    ensures forall i :: 0 <= i < |cols| && range.Range? ==> cols[i].weekday.index < 7
  {
    if range.Range? then
      seq(range.lastDay, i => DayColumn(month, i + 1, Known((range.firstWeekday + i) % 7)))
    else
      seq(FallbackDays, i => DayColumn(month, i + 1, Unknown))
  }

  /** Consecutive day columns have consecutive weekdays, Sunday wrapping
      round to Monday. */
  lemma MonthDaysConsecutive(month: int, range: MonthRange, i: nat)
    requires range.Range? && range.firstWeekday < 7 && i + 1 < range.lastDay
    ensures MonthDays(month, range)[i + 1].weekday == Known((MonthDays(month, range)[i].weekday.index + 1) % 7)
  {
    var a := range.firstWeekday + i;
    var q := a / 7;
    assert a == 7 * q + a % 7;
    if a % 7 == 6 {
      assert a + 1 == 7 * (q + 1);
    } else {
      assert a + 1 == 7 * q + (a % 7 + 1);
    }
  }

  /** `'(토)' in col or '(일)' in col` */
  predicate IsWeekendColumn(c: DayColumn) {
    c.weekday == Known(5) || c.weekday == Known(6)
  }

  /** `col_str[-2] not in ['토', '일']`: "(?)" columns count as work days. */
  predicate IsWorkdayColumn(c: DayColumn) {
    !IsWeekendColumn(c)
  }

  /** `num_work_days` of the patched engine. */
  function WorkdayCount(cols: seq<DayColumn>): nat {
    if |cols| == 0 then 0
    else WorkdayCount(cols[..|cols| - 1]) + (if IsWorkdayColumn(cols[|cols| - 1]) then 1 else 0)
  }

  /** Day columns of one month are pairwise distinct, so a column name picks
      exactly one day index. */
  lemma MonthDaysDistinct(month: int, range: MonthRange, i: nat, j: nat)
    requires range.Range? ==> range.firstWeekday < 7
    requires i < j < |MonthDays(month, range)|
    ensures MonthDays(month, range)[i] != MonthDays(month, range)[j]
  {
  }
}
