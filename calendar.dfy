/** The Gregorian calendar rules that PHP's `checkdate` applies. */
module Calendar {

  /** Gregorian leap years: divisible by 4, except centuries not divisible by 400. */
  predicate IsLeapYear(year: int) {
    year % 4 == 0 && (year % 100 != 0 || year % 400 == 0)
  }

  /** Number of days in a month (1 = January) of the given year. */
  function DaysInMonth(month: int, year: int): (days: int)
    requires 1 <= month <= 12
    ensures 28 <= days <= 31
    ensures days == 29 <==> month == 2 && IsLeapYear(year)
    ensures days == 31 <==> month in {1, 3, 5, 7, 8, 10, 12}
  {
    if month == 2 then (if IsLeapYear(year) then 29 else 28)
    else if month == 4 || month == 6 || month == 9 || month == 11 then 30
    else 31
  }

  /** `checkdate(month, day, year)`: the triple names an existing date of year 1 to 32767. */
  predicate CheckDate(month: int, day: int, year: int) {
    1 <= month <= 12 && 1 <= day <= DaysInMonth(month, year) && 1 <= year <= 32767
  }

  /** Days in the months before `month` of `year`; `DaysBeforeMonth(13, y)` is the year's length. */
  function DaysBeforeMonth(month: int, year: int): (days: nat)
    requires 1 <= month <= 13
    ensures days <= 31 * (month - 1)
    decreases month
  {
    if month == 1 then 0 else DaysBeforeMonth(month - 1, year) + DaysInMonth(month - 1, year)
  }

  /** The twelve month lengths add up to 366 days in a leap year and 365 otherwise. */
  lemma YearLength(year: int)
    ensures DaysBeforeMonth(13, year) == if IsLeapYear(year) then 366 else 365
  {
  }

  /** February 29th passes `checkdate` exactly in leap years. */
  lemma LeapDay(year: int)
    requires 1 <= year <= 32767
    ensures CheckDate(2, 29, year) <==> IsLeapYear(year)
  {
  }
}
