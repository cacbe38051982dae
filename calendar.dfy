/**
  Calendar days as Python's `datetime.date` sees them. A day is its proleptic
  Gregorian ordinal (`date.toordinal()`: 0001-01-01 is day 1), so adding or
  subtracting a `timedelta(days=n)` is adding or subtracting `n`.
 */
module Calendar {
  import opened Arith

  type Day = int

  /** A civil date: year, month 1..12, day of month 1..31. */
  datatype Date = Date(year: int, month: int, day: int)

  /** `date.weekday()`: Monday is 0 and Sunday is 6 (0001-01-01 was a Monday). */
  function Weekday(d: Day): (w: int)
    ensures 0 <= w <= 6
  {
    (d + 6) % 7
  }

  /** The day before a Monday is a Sunday; otherwise the weekday number drops by one. */
  lemma WeekdayOfPrevious(d: Day)
    ensures Weekday(d - 1) == if Weekday(d) == 0 then 6 else Weekday(d) - 1
  {
  }

  /** Monday to Friday: the weekdays the source treats as trading days. */
  predicate IsWeekday(d: Day)
  {
    Weekday(d) <= 4
  }

  // Lengths of the Gregorian cycles, counted from 1 March so that the leap day
  // is the last day of its year.
  const DaysPer400Years := 146097
  const DaysPer100Years := 36524
  const DaysPer4Years := 1461
  const DaysPerYear := 365
  /** Day 0 of the March-based count is 0000-03-01, 305 days before ordinal 0. */
  const MarchShift := 305

  /** Days from 1 March to the first day of the `m`-th month counted from March (0 = March, 11 = February). */
  function MonthOffset(m: int): int
    requires 0 <= m < 12
  {
    [0, 31, 61, 92, 122, 153, 184, 214, 245, 275, 306, 337][m]
  }

  /** The month (counted from March) that holds day `doy` of a March-based year. */
  function MarchMonth(doy: int): (m: int)
    requires 0 <= doy <= 365
    ensures 0 <= m < 12
    ensures MonthOffset(m) <= doy
    ensures m < 11 ==> doy < MonthOffset(m + 1)
  {
    if doy < 31 then 0 else if doy < 61 then 1 else if doy < 92 then 2
    else if doy < 122 then 3 else if doy < 153 then 4 else if doy < 184 then 5
    else if doy < 214 then 6 else if doy < 245 then 7 else if doy < 275 then 8
    else if doy < 306 then 9 else if doy < 337 then 10 else 11
  }

  /** Position of a day inside the Gregorian cycles, counted from 1 March. */
  datatype CyclePos = CyclePos(era: int, cent: int, quad: int, yr: int, doy: int)

  /** Splits a day into 400-year era, century, 4-year cycle, year and day of year. */
  function Decompose(d: Day): (p: CyclePos)
    ensures 0 <= p.cent <= 3 && 0 <= p.quad <= 24 && 0 <= p.yr <= 3 && 0 <= p.doy <= 365
    ensures d + MarchShift
         == p.era * DaysPer400Years + p.cent * DaysPer100Years + p.quad * DaysPer4Years
            + p.yr * DaysPerYear + p.doy
  {
    var z := d + MarchShift;
    var doe := z % DaysPer400Years;
    var cent := Capped(doe, DaysPer100Years);
    InCentury(z / DaysPer400Years, cent, doe - cent * DaysPer100Years)
  }

  /** Splits day `doc` of a century into 4-year cycle, year and day of year. */
  function InCentury(era: int, cent: int, doc: int): (p: CyclePos)
    requires 0 <= doc <= DaysPer100Years
    ensures p.era == era && p.cent == cent
    ensures 0 <= p.quad <= 24 && 0 <= p.yr <= 3 && 0 <= p.doy <= 365
    ensures doc == p.quad * DaysPer4Years + p.yr * DaysPerYear + p.doy
  {
    var doq := doc % DaysPer4Years;
    var yr := Capped(doq, DaysPerYear);
    CyclePos(era, cent, doc / DaysPer4Years, yr, doq - yr * DaysPerYear)
  }

  /** The quotient of `x` by `n` capped at 3, as the century and year steps take it. */
  function Capped(x: int, n: int): int
    requires n > 0
  {
    if x / n < 4 then x / n else 3
  }

  /**
    The civil date of a day, as `date.fromordinal(d)`: ToCivilOrdinal proves it
    is the date whose proleptic Gregorian ordinal (`date.toordinal()`) is `d`.
   */
  function ToCivil(d: Day): (r: Date)
    ensures 1 <= r.month <= 12 && 1 <= r.day <= 31
  {
    CivilOf(Decompose(d))
  }

  /** The civil date at a position of the March-based cycles. */
  function CivilOf(p: CyclePos): (r: Date)
    requires 0 <= p.doy <= 365
    ensures 1 <= r.month <= 12 && 1 <= r.day <= 31
  {
    var m := MarchMonth(p.doy);
    var y := 400 * p.era + 100 * p.cent + 4 * p.quad + p.yr;
    var month := if m < 10 then m + 3 else m - 9;
    Date(if month <= 2 then y + 1 else y, month, p.doy - MonthOffset(m) + 1)
  }

  /** Days of a common year before month `m` (1..12): CPython's `_DAYS_BEFORE_MONTH`. */
  function CommonDaysBefore(m: int): int
    requires 1 <= m <= 12
  {
    [0, 31, 59, 90, 120, 151, 181, 212, 243, 273, 304, 334][m - 1]
  }

  /** Days before 1 January of year `y`: CPython's `_days_before_year`. */
  function DaysBeforeYear(y: int): int
  {
    var y1 := y - 1;
    y1 * 365 + y1 / 4 - y1 / 100 + y1 / 400
  }

  /** Days in year `y` before the first of month `m`: CPython's `_days_before_month`. */
  function DaysBeforeMonth(y: int, m: int): int
    requires 1 <= m <= 12
  {
    CommonDaysBefore(m) + (if m > 2 && IsLeapYear(y) then 1 else 0)
  }

  /** The ordinal of a civil date: CPython's `_ymd2ord`, which `date.toordinal()` returns. */
  function Ordinal(date: Date): int
    requires 1 <= date.month <= 12
  {
    DaysBeforeYear(date.year) + DaysBeforeMonth(date.year, date.month) + date.day
  }

  /** The civil date of `d` has ordinal `d`: ToCivil inverts `date.toordinal()`. */
  lemma ToCivilOrdinal(d: Day)
    ensures Ordinal(ToCivil(d)) == d
  {
    var p := Decompose(d);
    var y := 400 * p.era + 100 * p.cent + 4 * p.quad + p.yr;
    var m := MarchMonth(p.doy);
    YearStart(p.era, p.cent, p.quad, p.yr);
    MonthTable(m);
    if m < 10 {
      YearLength(y);
    }
  }

  /**
    The days before 1 January of the civil year after March-based year `y` are
    the cycle count of that year's 1 March; day `d` is `MarchShift` days later
    in that count than its ordinal.
   */
  lemma YearStart(era: int, cent: int, quad: int, yr: int)
    requires 0 <= cent <= 3 && 0 <= quad <= 24 && 0 <= yr <= 3
    ensures var y := 400 * era + 100 * cent + 4 * quad + yr;
      DaysBeforeYear(y + 1)
      == era * DaysPer400Years + cent * DaysPer100Years + quad * DaysPer4Years + yr * DaysPerYear
  {
    var y := 400 * era + 100 * cent + 4 * quad + yr;
    DivUnique(y, 4, 100 * era + 25 * cent + quad, yr);
    DivUnique(y, 100, 4 * era + cent, 4 * quad + yr);
    DivUnique(y, 400, era, 100 * cent + 4 * quad + yr);
  }

  /** Year `y` has 366 days when it is a leap year and 365 otherwise. */
  lemma YearLength(y: int)
    ensures DaysBeforeYear(y + 1) == DaysBeforeYear(y) + 365 + (if IsLeapYear(y) then 1 else 0)
  {
    DivStep(y, 4);
    DivStep(y, 100);
    DivStep(y, 400);
    if y % 400 == 0 {
      DivUnique(y, 100, 4 * (y / 400), 0);
    }
    if y % 100 == 0 {
      DivUnique(y, 4, 25 * (y / 100), 0);
    }
  }

  /** Month `m` counted from March starts the same number of days after 1 March as its civil month after 1 March. */
  lemma MonthTable(m: int)
    requires 0 <= m < 12
    ensures m < 10 ==> CommonDaysBefore(m + 3) == MonthOffset(m) + 59
    ensures m >= 10 ==> CommonDaysBefore(m - 9) == MonthOffset(m) - 306
  {
  }

  /** The day of the month, 1..31. */
  function DayOfMonth(d: Day): int
  {
    ToCivil(d).day
  }

  /** The first day of the month holding `d`: `d.replace(day=1)`. */
  function MonthStart(d: Day): (r: Day)
    ensures r <= d < r + 31
  {
    d - (DayOfMonth(d) - 1)
  }

  /**
    Stepping back to the first of the month stays in the same year and month
    and lands on day 1: MonthStart is `date.replace(day=1)`.
   */
  lemma MonthStartIsFirstOfMonth(d: Day)
    ensures ToCivil(MonthStart(d)) == Date(ToCivil(d).year, ToCivil(d).month, 1)
  {
    var p := Decompose(d);
    var k := p.doy - MonthOffset(MarchMonth(p.doy));
    assert MonthStart(d) == d - k;
    DecomposeBack(d, k);
    MonthStartOfPosition(p);
  }

  /** MonthStart is the ordinal of day 1 of the year and month holding `d`. */
  lemma MonthStartOrdinal(d: Day)
    ensures MonthStart(d) == Ordinal(Date(ToCivil(d).year, ToCivil(d).month, 1))
  {
    MonthStartIsFirstOfMonth(d);
    ToCivilOrdinal(MonthStart(d));
  }

  /** Moving a cycle position back to its month's first day gives day 1 of the same month. */
  lemma MonthStartOfPosition(p: CyclePos)
    requires 0 <= p.doy <= 365
    ensures var first := p.(doy := MonthOffset(MarchMonth(p.doy)));
      CivilOf(first) == Date(CivilOf(p).year, CivilOf(p).month, 1)
  {
    var m := MarchMonth(p.doy);
    assert MarchMonth(MonthOffset(m)) == m;
  }

  /** Stepping back by no more than what is left after the capped quotient keeps that quotient. */
  lemma CappedBack(x: int, n: int, k: int)
    requires n > 0 && 0 <= x <= 4 * n && 0 <= k <= x - Capped(x, n) * n
    ensures Capped(x - k, n) == Capped(x, n)
  {
    if x < 4 * n {
      MulAtLeast(x / n - 3, n);
      assert (x / n) * n == (x / n - 3) * n + 3 * n;
      DivBack(x, n, k);
    } else if k == 0 {
    } else {
      DivUnique(x, n, 4, 0);
      DivUnique(x - k, n, 3, n - k);
    }
  }

  /** Going back `k` days inside a March-based year changes only the day of the year. */
  lemma DecomposeBack(d: Day, k: int)
    requires 0 <= k <= Decompose(d).doy
    ensures Decompose(d - k) == Decompose(d).(doy := Decompose(d).doy - k)
  {
    var z := d + MarchShift;
    var doe := z % DaysPer400Years;
    var cent := Capped(doe, DaysPer100Years);
    var doc := doe - cent * DaysPer100Years;
    InCenturyBack(z / DaysPer400Years, cent, doc, k);
    DivBack(z, DaysPer400Years, k);
    CappedBack(doe, DaysPer100Years, k);
  }

  /** Going back `k` days inside a March-based year of a century changes only the day of the year. */
  lemma InCenturyBack(era: int, cent: int, doc: int, k: int)
    requires 0 <= doc <= DaysPer100Years && 0 <= k <= InCentury(era, cent, doc).doy
    ensures k <= doc
    ensures InCentury(era, cent, doc - k) == InCentury(era, cent, doc).(doy := InCentury(era, cent, doc).doy - k)
  {
    var doq := doc % DaysPer4Years;
    DivBack(doc, DaysPer4Years, k);
    CappedBack(doq, DaysPerYear, k);
  }

  /** Gregorian leap years: divisible by 4, except centuries not divisible by 400. */
  predicate IsLeapYear(y: int)
  {
    y % 4 == 0 && (y % 100 != 0 || y % 400 == 0)
  }

  function DaysInMonth(y: int, m: int): int
    requires 1 <= m <= 12
  {
    if m == 2 then (if IsLeapYear(y) then 29 else 28)
    else if m == 4 || m == 6 || m == 9 || m == 11 then 30
    else 31
  }

  /** Every day maps to a real calendar date: the day never exceeds its month's length. */
  lemma ToCivilIsValidDate(d: Day)
    ensures ToCivil(d).day <= DaysInMonth(ToCivil(d).year, ToCivil(d).month)
  {
    var p := Decompose(d);
    if p.doy == 365 {
      LeapDayPosition(d);
      LeapDayYear(p.era, p.cent, p.quad);
      assert ToCivil(d).year == 400 * p.era + 100 * p.cent + 4 * (p.quad + 1);
    }
  }

  /**
    The 366th day of a March-based year (29 February) only occurs in the last
    year of a 4-year cycle, and in the 25th 4-year cycle only in the last century.
   */
  lemma LeapDayPosition(d: Day)
    requires Decompose(d).doy == 365
    ensures Decompose(d).yr == 3
    ensures Decompose(d).quad == 24 ==> Decompose(d).cent == 3
  {
    var z := d + MarchShift;
    var doe := z % DaysPer400Years;
    var cent := Capped(doe, DaysPer100Years);
    var doc := doe - cent * DaysPer100Years;
    if cent < 3 {
      DivUnique(doe, DaysPer100Years, cent, doc);
    }
    var doq := doc % DaysPer4Years;
    if doq / DaysPerYear < 4 {
      DivUnique(doq, DaysPerYear, doq / DaysPerYear, doq % DaysPerYear);
    }
  }

  /** The March-based year that ends on a leap day starts a leap civil year. */
  lemma LeapDayYear(era: int, cent: int, quad: int)
    requires 0 <= cent <= 3 && 0 <= quad <= 24 && (quad == 24 ==> cent == 3)
    ensures IsLeapYear(400 * era + 100 * cent + 4 * (quad + 1))
  {
    var y := 400 * era + 100 * cent + 4 * (quad + 1);
    DivUnique(y, 4, 100 * era + 25 * cent + quad + 1, 0);
    if quad < 24 {
      DivUnique(y, 100, 4 * era + cent, 4 * (quad + 1));
    } else {
      DivUnique(y, 400, era + 1, 0);
    }
  }
}
