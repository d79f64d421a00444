/** The calendar checks of the .NET `DateTime(year, month, day, hour,
    minute, second, millisecond)` constructor, which throws on any
    component out of range. */
module Calendar {

  datatype DateTime = DateTime(
    year: int, month: int, day: int,
    hour: int, minute: int, second: int, millisecond: int)

  /** Gregorian leap years. */
  predicate IsLeapYear(y: int)
  {
    y % 4 == 0 && (y % 100 != 0 || y % 400 == 0)
  }

  function DaysInMonth(y: int, m: int): (d: int)
    requires 1 <= m <= 12
    ensures 28 <= d <= 31
    ensures m == 2 ==> (d == 29 <==> IsLeapYear(y))
  {
    if m == 2 then (if IsLeapYear(y) then 29 else 28)
    else if m == 4 || m == 6 || m == 9 || m == 11 then 30
    else 31
  }

  /** The components the constructor accepts without throwing. */
  predicate IsValid(t: DateTime)
  {
    && 1 <= t.year <= 9999
    && 1 <= t.month <= 12
    && 1 <= t.day <= DaysInMonth(t.year, t.month)
    && ValidTime(t)
  }

  /** The time of day the constructor accepts. */
  predicate ValidTime(t: DateTime)
  {
    0 <= t.hour < 24 && 0 <= t.minute < 60 && 0 <= t.second < 60 && 0 <= t.millisecond < 1000
  }

  /** Which days the constructor accepts, by the rhyme: every day up to
      the 28th, the 29th except in February of a common year, the 30th
      except in February, and the 31st only in January, March, May, July,
      August, October and December. */
  lemma ValidDates(t: DateTime)
    requires 1 <= t.year <= 9999 && 1 <= t.month <= 12 && ValidTime(t)
    ensures IsValid(t) ==> 1 <= t.day <= 31
    ensures 1 <= t.day <= 28 ==> IsValid(t)
    ensures t.day == 29 ==> (IsValid(t) <==> t.month != 2 || IsLeapYear(t.year))
    ensures t.day == 30 ==> (IsValid(t) <==> t.month != 2)
    ensures t.day == 31 ==> (IsValid(t) <==> t.month in {1, 3, 5, 7, 8, 10, 12})
  {
  }

  /** The years a two-digit NMEA year can name, 2000 to 2099, are leap
      years exactly when divisible by four: 2000 is a century divisible by
      400, and the next exception is 2100. */
  lemma CenturyLeapYears(y: int)
    requires 2000 <= y <= 2099
    ensures IsLeapYear(y) <==> y % 4 == 0
  {
  }
}
