/**
  `calculate_date_range` (tx_downloader.py, lines 457-490): turns a period name
  into the first and last day to download. `today` (`datetime.now().date()` in
  the source) is a parameter, and the custom bounds arrive already parsed: None
  stands for a bound that is missing or empty.
 */
module DateRange {
  import opened Results
  import opened Calendar

  /** The `ValueError` raised for a custom period without both bounds. */
  datatype DateRangeError = MissingCustomBounds

  /**
    The latest Monday-to-Friday strictly before `today`: Monday goes back to
    Friday, Sunday back to Friday, every other day to the day before.
   */
  function PreviousWeekday(today: Day): (s: Day)
    ensures s < today && IsWeekday(s)
    ensures forall d :: s < d < today ==> !IsWeekday(d)
  {
    var w := Weekday(today);
    if w == 0 then today - 3 else if w == 6 then today - 2 else today - 1
  }

  /** The range each period names, or the error for an incomplete custom range. */
  function Range(period: string, start: Option<Day>, end: Option<Day>, today: Day): Result<(Day, Day), DateRangeError>
  {
    if period == "custom" then
      if start.None? || end.None? then Err(MissingCustomBounds) else Ok((start.value, end.value))
    else if period == "last_day" then Ok((PreviousWeekday(today), PreviousWeekday(today)))
    else if period == "week" then Ok((today - Weekday(today), today))
    else if period == "month" then Ok((MonthStart(today), today))
    else if period == "6_months" then Ok((today - 180, today))
    else if period == "year" then Ok((today - 365, today))
    else if period == "5_years" then Ok((today - 365 * 5, today))
    else Ok((today - 5, today))
  }

  /**
    The `last_day` loop (lines 470-473): step back from yesterday over Saturdays
    and Sundays; the day it stops on is the latest weekday before today.
   */
  method LastTradingDay(today: Day) returns (s: Day)
    ensures s == PreviousWeekday(today)
  {
    s := today - 1;
    while Weekday(s) > 4
      invariant s < today
      invariant forall d :: s < d < today ==> !IsWeekday(d)
      decreases Weekday(s)
    {
      WeekdayOfPrevious(s);
      s := s - 1;
    }
  }

  /** `calculate_date_range`, with the `last_day` branch running its loop. */
  method CalculateDateRange(period: string, start: Option<Day>, end: Option<Day>, today: Day)
    returns (r: Result<(Day, Day), DateRangeError>)
    ensures r == Range(period, start, end, today)
  {
    if period == "custom" {
      if start.None? || end.None? {
        return Err(MissingCustomBounds);
      }
      return Ok((start.value, end.value));
    }
    var e := today;
    var s: Day;
    if period == "last_day" {
      s := LastTradingDay(today);
      return Ok((s, s));
    } else if period == "week" {
      s := today - Weekday(today);
    } else if period == "month" {
      s := MonthStart(today);
    } else if period == "6_months" {
      s := today - 180;
    } else if period == "year" {
      s := today - 365;
    } else if period == "5_years" {
      s := today - 365 * 5;
    } else {
      s := today - 5;
    }
    return Ok((s, e));
  }

  /**
    A custom period fails exactly when a bound is missing and otherwise returns
    the bounds as given; every other period succeeds.
   */
  lemma CustomRange(period: string, start: Option<Day>, end: Option<Day>, today: Day)
    ensures Range(period, start, end, today).Err?
        <==> period == "custom" && (start.None? || end.None?)
    ensures period == "custom" && start.Some? && end.Some? ==>
      Range(period, start, end, today) == Ok((start.value, end.value))
  {
  }

  /**
    The named periods: `last_day` is the single latest weekday before today;
    `week` runs from this week's Monday; `month` from the first of this month;
    `6_months`, `year` and `5_years` from 180, 365 and 1825 days back; any other
    name from 5 days back. Apart from `last_day` they all end today, and every
    range starts no later than it ends.
   */
  lemma PeriodRanges(period: string, start: Option<Day>, end: Option<Day>, today: Day)
    requires period != "custom"
    ensures Range(period, start, end, today).Ok?
    ensures var (s, e) := Range(period, start, end, today).value;
      s <= e <= today
      && (period == "last_day" <==> e < today)
      && (period == "last_day" ==> s == e && IsWeekday(s) && forall d :: s < d < today ==> !IsWeekday(d))
      && (period == "week" ==> Weekday(s) == 0 && s <= today < s + 7)
      && (period == "month" ==> ToCivil(s) == Date(ToCivil(today).year, ToCivil(today).month, 1))
      && (period == "6_months" ==> today - s == 180)
      && (period == "year" ==> today - s == 365)
      && (period == "5_years" ==> today - s == 1825)
      && (period !in ["last_day", "week", "month", "6_months", "year", "5_years"] ==> today - s == 5)
  {
    if period == "week" {
      var w := Weekday(today);
      assert Weekday(today - w) == 0 by {
        assert (today - w + 6) % 7 == ((today + 6) - w) % 7;
      }
    } else if period == "month" {
      MonthStartIsFirstOfMonth(today);
    }
  }
}
