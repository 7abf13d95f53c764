/** The proleptic Gregorian day count of `bitloops doctor`. The loops of the program are proved
    against a closed formula, and the formula is proved to number the valid dates consecutively. */
module Calendar {
  import opened Options

  datatype Date = Date(year: int, month: nat, day: nat)

  /** Divisibility does not depend on the sign convention of the remainder operator. */
  predicate IsLeapYear(year: int) {
    (year % 4 == 0 && year % 100 != 0) || year % 400 == 0
  }

  function DaysInMonth(year: int, month: nat): nat {
    match month
    case 1 | 3 | 5 | 7 | 8 | 10 | 12 => 31
    case 4 | 6 | 9 | 11 => 30
    case 2 => if IsLeapYear(year) then 29 else 28
    case _ => 0
  }

  function DaysInYear(year: int): nat {
    if IsLeapYear(year) then 366 else 365
  }

  predicate ValidDate(d: Date) {
    1 <= d.month <= 12 && 1 <= d.day <= DaysInMonth(d.year, d.month)
  }

  // ---- The closed formula ----

  /** Leap years among the years 1 to `year`, continued below year 1 by flooring division. */
  function LeapsThrough(year: int): int {
    year / 4 - year / 100 + year / 400
  }

  /** Days from 1970-01-01 to the first of January of `year`. */
  function YearStart(year: int): int {
    365 * (year - 1970) + LeapsThrough(year - 1) - LeapsThrough(1969)
  }

  /** Days from the first of January to the first of `month`. */
  function MonthStart(year: int, month: int): int {
    (367 * month - 362) / 12 - (if month <= 2 then 0 else if IsLeapYear(year) then 1 else 2)
  }

  /** Days from 1970-01-01 to `d`. */
  function DayNumber(d: Date): int {
    YearStart(d.year) + MonthStart(d.year, d.month) + d.day - 1
  }

  /** What the program computes: the day number of a valid date, and nothing for any other. */
  function EpochDays(d: Date): Option<int> {
    if ValidDate(d) then Some(DayNumber(d)) else None
  }

  lemma YearStep(year: int)
    ensures YearStart(year + 1) == YearStart(year) + DaysInYear(year)
  {
    FourthStep(year);
    HundredthStep(year);
    FourHundredthStep(year);
    DivisorsNest(year);
    LeapCount(year);
  }

  lemma FourthStep(year: int)
    ensures year / 4 - (year - 1) / 4 == if year % 4 == 0 then 1 else 0
  {
  }

  lemma HundredthStep(year: int)
    ensures year / 100 - (year - 1) / 100 == if year % 100 == 0 then 1 else 0
  {
    var century, rest := year / 100, year % 100;
    assert year == 100 * century + rest;
    if rest == 0 {
      assert year - 1 == 100 * (century - 1) + 99;
    } else {
      assert year - 1 == 100 * century + (rest - 1);
    }
  }

  lemma FourHundredthStep(year: int)
    ensures year / 400 - (year - 1) / 400 == if year % 400 == 0 then 1 else 0
  {
    var cycle, rest := year / 400, year % 400;
    assert year == 400 * cycle + rest;
    if rest == 0 {
      assert year - 1 == 400 * (cycle - 1) + 399;
    } else {
      assert year - 1 == 400 * cycle + (rest - 1);
    }
  }

  lemma MultipleOfFour(n: int, quotient: int)
    requires n == 4 * quotient
    ensures n % 4 == 0
  {
  }

  lemma MultipleOfHundred(n: int, quotient: int)
    requires n == 100 * quotient
    ensures n % 100 == 0
  {
  }

  lemma DivisorsNest(year: int)
    ensures year % 100 == 0 ==> year % 4 == 0
    ensures year % 400 == 0 ==> year % 100 == 0
  {
    if year % 100 == 0 {
      MultipleOfFour(year, 25 * (year / 100));
    }
    if year % 400 == 0 {
      MultipleOfHundred(year, 4 * (year / 400));
    }
  }

  /** The three corrections of a year add up to its leap day. */
  lemma LeapCount(year: int)
    requires (year % 100 == 0 ==> year % 4 == 0) && (year % 400 == 0 ==> year % 100 == 0)
    ensures (if year % 4 == 0 then 1 else 0) - (if year % 100 == 0 then 1 else 0) + (if year % 400 == 0 then 1 else 0)
            == DaysInYear(year) - 365
  {
  }

  lemma MonthStep(year: int, month: nat)
    requires 1 <= month <= 12
    ensures month < 12 ==> MonthStart(year, month + 1) == MonthStart(year, month) + DaysInMonth(year, month)
    ensures month == 12 ==> MonthStart(year, 12) + 31 == DaysInYear(year)
  {
  }

  // ---- The loops of days_since_unix_epoch ----

  method DaysSinceUnixEpoch(year: int, month: nat, day: nat) returns (r: Option<int>)
    ensures r == EpochDays(Date(year, month, day))
  {
    if !(1 <= month <= 12) || day == 0 || day > DaysInMonth(year, month) {
      return None;
    }
    var days := 0;
    if year >= 1970 {
      for y := 1970 to year
        invariant days == YearStart(y)
      {
        YearStep(y);
        days := days + if IsLeapYear(y) then 366 else 365;
      }
    } else {
      for y := year to 1970
        invariant days == YearStart(year) - YearStart(y)
      {
        YearStep(y);
        days := days - if IsLeapYear(y) then 366 else 365;
      }
    }
    for m := 1 to month
      invariant days == YearStart(year) + MonthStart(year, m)
    {
      MonthStep(year, m);
      days := days + DaysInMonth(year, m);
    }
    days := days + (day - 1);
    return Some(days);
  }

  // ---- Order ----

  predicate Before(a: Date, b: Date) {
    || a.year < b.year
    || (a.year == b.year && (a.month < b.month || (a.month == b.month && a.day < b.day)))
  }

  lemma {:induction false} YearsApart(a: int, b: int)
    requires a < b
    ensures YearStart(a) + DaysInYear(a) <= YearStart(b)
    decreases b - a
  {
    YearStep(a);
    if a + 1 < b {
      YearsApart(a + 1, b);
    }
  }

  lemma {:induction false} MonthsApart(year: int, a: nat, b: nat)
    requires 1 <= a < b <= 12
    ensures MonthStart(year, a) + DaysInMonth(year, a) <= MonthStart(year, b)
    decreases b - a
  {
    MonthStep(year, a);
    if a + 1 < b {
      MonthsApart(year, a + 1, b);
    }
  }

  lemma WithinYear(d: Date)
    requires ValidDate(d)
    ensures 0 <= MonthStart(d.year, d.month) + d.day - 1 < DaysInYear(d.year)
  {
    MonthStep(d.year, d.month);
    if d.month < 12 {
      MonthsApart(d.year, d.month, 12);
      MonthStep(d.year, 12);
    }
    if 1 < d.month {
      MonthsApart(d.year, 1, d.month);
    }
  }

  lemma StrictlyIncreasing(a: Date, b: Date)
    requires ValidDate(a) && ValidDate(b) && Before(a, b)
    ensures DayNumber(a) < DayNumber(b)
  {
    WithinYear(a);
    WithinYear(b);
    if a.year < b.year {
      YearsApart(a.year, b.year);
    } else if a.month < b.month {
      MonthsApart(a.year, a.month, b.month);
    }
  }

  /** The count orders valid dates exactly as the calendar does, so no two share a number. */
  lemma OrderPreserved(a: Date, b: Date)
    requires ValidDate(a) && ValidDate(b)
    ensures Before(a, b) <==> DayNumber(a) < DayNumber(b)
    ensures a == b <==> DayNumber(a) == DayNumber(b)
  {
    if Before(a, b) {
      StrictlyIncreasing(a, b);
    } else if Before(b, a) {
      StrictlyIncreasing(b, a);
    } else {
      assert a == b;
    }
  }

  // ---- The inverse ----

  function NextDate(d: Date): Date {
    if d.day < DaysInMonth(d.year, d.month) then d.(day := d.day + 1)
    else if d.month < 12 then Date(d.year, d.month + 1, 1)
    else Date(d.year + 1, 1, 1)
  }

  function PreviousDate(d: Date): Date {
    if 1 < d.day then d.(day := d.day - 1)
    else if 1 < d.month then Date(d.year, d.month - 1, DaysInMonth(d.year, d.month - 1))
    else Date(d.year - 1, 12, 31)
  }

  /** The next valid date always adds exactly one. */
  lemma NextAddsOne(d: Date)
    requires ValidDate(d)
    ensures ValidDate(NextDate(d)) && DayNumber(NextDate(d)) == DayNumber(d) + 1
  {
    MonthStep(d.year, d.month);
    if d.day == DaysInMonth(d.year, d.month) && d.month == 12 {
      YearStep(d.year);
    }
  }

  lemma PreviousTakesOne(d: Date)
    requires ValidDate(d)
    ensures ValidDate(PreviousDate(d)) && DayNumber(PreviousDate(d)) == DayNumber(d) - 1
  {
    if 1 < d.day {
    } else if 1 < d.month {
      MonthStep(d.year, d.month - 1);
    } else {
      MonthStep(d.year - 1, 12);
      YearStep(d.year - 1);
    }
  }

  /** The date numbered `n`, reached one day at a time from the epoch. */
  function DateOf(n: int): (d: Date)
    ensures ValidDate(d) && DayNumber(d) == n
    decreases if n < 0 then -n else n
  {
    if n == 0 then Date(1970, 1, 1)
    else if n > 0 then
      NextAddsOne(DateOf(n - 1));
      NextDate(DateOf(n - 1))
    else
      PreviousTakesOne(DateOf(n + 1));
      PreviousDate(DateOf(n + 1))
  }

  /** Numbering is a bijection between the valid dates and the integers. */
  lemma DatesAreIntegers(d: Date, n: int)
    requires ValidDate(d)
    ensures DateOf(DayNumber(d)) == d
    ensures DayNumber(d) == n <==> d == DateOf(n)
  {
    OrderPreserved(d, DateOf(DayNumber(d)));
    OrderPreserved(d, DateOf(n));
  }

  /** For years of type i32 the accumulated count stays far inside i64 at every turn of the loops,
      with `y` and `month` where they have got to, so the program's arithmetic is exact. */
  lemma CountFitsInI64(year: int, y: int, month: nat, day: nat)
    requires -0x8000_0000 <= year < 0x8000_0000 && 1 <= month <= 12 && day <= 31
    requires 1970 <= y <= year || year <= y <= 1970
    ensures -0x100_0000_0000 < YearStart(y) < 0x100_0000_0000
    ensures -0x100_0000_0000 < YearStart(year) - YearStart(y) < 0x100_0000_0000
    ensures -0x100_0000_0000 < YearStart(year) + MonthStart(year, month) + day < 0x100_0000_0000
  {
  }
}
