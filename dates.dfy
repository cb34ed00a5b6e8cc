/**
 * The calendar dates the roster manager stores (chrono's `NaiveDate`): a
 * proleptic Gregorian (year, month, day) triple within chrono's year range.
 */
module Dates {
  import opened Wrappers

  /** chrono's `MIN_YEAR` and `MAX_YEAR`: `i32::MIN >> 13` and `i32::MAX >> 13`. */
  const MinYear: int := -262144
  const MaxYear: int := 262143

  /** The 4/100/400 rule, applied to every year, year 0 and negative years included. */
  predicate IsLeapYear(y: int) {
    y % 4 == 0 && (y % 100 != 0 || y % 400 == 0)
  }

  function DaysInMonth(y: int, m: int): (n: int)
    requires 1 <= m <= 12
    ensures 28 <= n <= 31
    ensures m == 2 ==> (n == 29 <==> IsLeapYear(y))
  {
    if m == 2 then (if IsLeapYear(y) then 29 else 28)
    else if m == 4 || m == 6 || m == 9 || m == 11 then 30
    else 31
  }

  /** Days from the start of month `m` to the end of the year. */
  function DaysFromMonth(y: int, m: int): nat
    requires 1 <= m <= 13
    decreases 13 - m
  {
    if m == 13 then 0 else DaysInMonth(y, m) + DaysFromMonth(y, m + 1)
  }

  /** The twelve months add up to 366 days in a leap year and 365 otherwise. */
  lemma YearLength(y: int)
    ensures DaysFromMonth(y, 1) == if IsLeapYear(y) then 366 else 365
  {
  }

  predicate ValidYmd(year: int, month: int, day: int) {
    MinYear <= year <= MaxYear && 1 <= month <= 12 && 1 <= day <= DaysInMonth(year, month)
  }

  datatype Date = Date(year: int, month: int, day: int)

  /** A value of chrono's `NaiveDate` always denotes a real calendar day. */
  type NaiveDate = d: Date | ValidYmd(d.year, d.month, d.day) witness Date(1970, 1, 1)

  /** `NaiveDate::from_ymd_opt`: the date, if the triple names one. */
  function FromYmdOpt(year: int, month: int, day: int): (r: Option<NaiveDate>)
    ensures r.Some? <==> ValidYmd(year, month, day)
    ensures r.Some? ==> r.value == Date(year, month, day)
  {
    if ValidYmd(year, month, day) then Some(Date(year, month, day)) else None
  }

  /** February 29th exists exactly in leap years. */
  lemma LeapDay(y: int)
    requires MinYear <= y <= MaxYear
    ensures FromYmdOpt(y, 2, 29).Some? <==> IsLeapYear(y)
  {
  }
}
