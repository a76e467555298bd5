/** Calendar dates as Python's `datetime.date` represents them: a year in
    1..9999, a month in 1..12 and a day valid for that month, in the
    proleptic Gregorian calendar. */
module Dates {
  import opened Wrappers

  const MinYear: int := 1
  const MaxYear: int := 9999

  datatype Date = Date(year: int, month: int, day: int)

  predicate IsLeapYear(year: int) {
    year % 4 == 0 && (year % 100 != 0 || year % 400 == 0)
  }

  function DaysInMonth(year: int, month: int): int
    requires 1 <= month <= 12
  {
    if month == 2 then (if IsLeapYear(year) then 29 else 28)
    else if month in {4, 6, 9, 11} then 30
    else 31
  }

  /** The dates a `datetime.date` object can hold. */
  predicate ValidDate(d: Date) {
    && MinYear <= d.year <= MaxYear
    && 1 <= d.month <= 12
    && 1 <= d.day <= DaysInMonth(d.year, d.month)
  }

  /** The range of a C `int`, into which `datetime.date` converts each of
      its arguments before checking anything else. */
  const CIntMin: int := -0x8000_0000
  const CIntMax: int := 0x7FFF_FFFF

  predicate FitsCInt(n: int) {
    CIntMin <= n <= CIntMax
  }

  /** Why `datetime.date(year, month, day)` refuses its arguments: an
      argument that does not fit a C `int` raises `OverflowError`; the
      range errors raise `ValueError`. */
  datatype DateError =
    | ArgumentOverflow(value: int)
    | YearOutOfRange(year: int)
    | MonthOutOfRange(month: int)
    | DayOutOfRange(day: int)

  /** The constructor `datetime.date(year, month, day)`: it converts the
      year, the month and the day to C `int`s in that order, then checks
      the year, the month and the day in that order, and reports the first
      failure. */
  function MakeDate(year: int, month: int, day: int): (r: Result<Date, DateError>)
    ensures r.Success? <==> ValidDate(Date(year, month, day))
    ensures r.Success? ==> r.value == Date(year, month, day)
    ensures !FitsCInt(year) ==> r == Failure(ArgumentOverflow(year))
    ensures FitsCInt(year) && !FitsCInt(month) ==> r == Failure(ArgumentOverflow(month))
    ensures FitsCInt(year) && FitsCInt(month) && !FitsCInt(day) ==> r == Failure(ArgumentOverflow(day))
    ensures FitsCInt(year) && FitsCInt(month) && FitsCInt(day) && !(MinYear <= year <= MaxYear) ==>
      r == Failure(YearOutOfRange(year))
    ensures FitsCInt(month) && FitsCInt(day) && MinYear <= year <= MaxYear && !(1 <= month <= 12) ==>
      r == Failure(MonthOutOfRange(month))
    ensures FitsCInt(day) && MinYear <= year <= MaxYear && 1 <= month <= 12 && !(1 <= day <= DaysInMonth(year, month)) ==>
      r == Failure(DayOutOfRange(day))
  {
    if !FitsCInt(year) then Failure(ArgumentOverflow(year))
    else if !FitsCInt(month) then Failure(ArgumentOverflow(month))
    else if !FitsCInt(day) then Failure(ArgumentOverflow(day))
    else if !(MinYear <= year <= MaxYear) then Failure(YearOutOfRange(year))
    else if !(1 <= month <= 12) then Failure(MonthOutOfRange(month))
    else if !(1 <= day <= DaysInMonth(year, month)) then Failure(DayOutOfRange(day))
    else Success(Date(year, month, day))
  }
}
