/** The day of the week of a date, in closed form and by counting days. */
module Calendar {
  import opened Machine

  datatype Date = Date(year: nat, month: nat, day: nat)

  // ----------------------------------------------------------------------------------------
  // Counting days
  // ----------------------------------------------------------------------------------------

  predicate IsLeap(year: nat) {
    year % 4 == 0 && (year % 100 != 0 || year % 400 == 0)
  }

  function DaysInYear(year: nat): nat {
    if IsLeap(year) then 366 else 365
  }

  function DaysInMonth(year: nat, month: nat): nat {
    if month == 2 then (if IsLeap(year) then 29 else 28)
    else if month in {4, 6, 9, 11} then 30 else 31
  }

  predicate ValidDate(d: Date) {
    1 <= d.month <= 12 && 1 <= d.day <= DaysInMonth(d.year, d.month)
  }

  /** Days from the first of January 1970 to the first of January of the year. */
  function DaysBeforeYear(year: nat): nat
    requires 1970 <= year
  {
    if year == 1970 then 0 else DaysBeforeYear(year - 1) + DaysInYear(year - 1)
  }

  /** Days from the first of January to the first day of the month. */
  function DaysBeforeMonth(year: nat, month: nat): nat
    requires 1 <= month
  {
    if month == 1 then 0 else DaysBeforeMonth(year, month - 1) + DaysInMonth(year, month - 1)
  }

  /** Days since the first of January 1970. */
  function DayNumber(d: Date): nat
    requires 1970 <= d.year && ValidDate(d)
  {
    DaysBeforeYear(d.year) + DaysBeforeMonth(d.year, d.month) + (d.day - 1)
  }

  // ----------------------------------------------------------------------------------------
  // The closed form
  // ----------------------------------------------------------------------------------------

  const OFFSETS: seq<nat> := [0, 3, 2, 5, 0, 3, 5, 1, 4, 6, 2, 4]

  /** Leap days are counted in years that begin in March. */
  function LeapYearsUpTo(y: nat): int {
    y / 4 - y / 100 + y / 400
  }

  /** Sunday is zero. */
  function DayOfWeek(d: Date): (w: int)
    requires 1 <= d.month <= 12 && 1 <= d.year
  {
    var y := if d.month < 3 then d.year - 1 else d.year;
    (y + y / 4 - y / 100 + y / 400 + OFFSETS[d.month - 1] + d.day) % 7
  }

  lemma LeapYearsGrow(y: nat)
    requires y > 0
    ensures LeapYearsUpTo(y) == LeapYearsUpTo(y - 1) + if IsLeap(y) then 1 else 0
  {
    MultiplesGrow(y, 4);
    MultiplesGrow(y, 100);
    MultiplesGrow(y, 400);
    LeapMultiples(y);
  }

  lemma LeapMultiples(y: nat)
    ensures y % 400 == 0 ==> y % 100 == 0
    ensures y % 100 == 0 ==> y % 4 == 0
  {
    if y % 400 == 0 {
      QuotientIs(y, 100, 4 * (y / 400), 0);
    }
    if y % 100 == 0 {
      QuotientIs(y, 4, 25 * (y / 100), 0);
    }
  }

  lemma MultiplesGrow(y: nat, m: nat)
    requires y > 0 && m > 1
    ensures y / m == (y - 1) / m + if y % m == 0 then 1 else 0
  {
    var q, r := (y - 1) / m, (y - 1) % m;
    if r == m - 1 {
      QuotientIs(y, m, q + 1, 0);
    } else {
      QuotientIs(y, m, q, r + 1);
    }
  }

  /** Days before a year, by the number of years and of leap years. */
  lemma {:induction false} DaysBeforeYearIs(year: nat)
    requires 1970 <= year
    ensures DaysBeforeYear(year) == 365 * (year - 1970) + LeapYearsUpTo(year - 1) - LeapYearsUpTo(1969)
  {
    hide LeapYearsUpTo, IsLeap;
    if year > 1970 {
      DaysBeforeYearIs(year - 1);
      LeapYearsGrow(year - 1);
    }
  }

  /** Days before a month, added up, with the leap day where it belongs. */
  lemma DaysBeforeMonthIs(year: nat, month: nat)
    requires 1 <= month <= 12
    ensures DaysBeforeMonth(year, month) ==
            [0, 31, 59, 90, 120, 151, 181, 212, 243, 273, 304, 334][month - 1] +
            if month >= 3 && IsLeap(year) then 1 else 0
  {
    hide IsLeap;
    if month > 1 {
      DaysBeforeMonthIs(year, month - 1);
    }
  }

  /** The table stands for the days before a month, modulo seven, less one from March on. */
  lemma OffsetsAreMonths(year: nat, month: nat)
    requires 1 <= month <= 12
    ensures var late := if month < 3 then 0 else if IsLeap(year) then 2 else 1;
            (DaysBeforeMonth(year, month) - late - OFFSETS[month - 1]) % 7 == 0
  {
    DaysBeforeMonthIs(year, month);
    hide IsLeap, DaysBeforeMonth;
  }

  /** The closed form is the number of days since the epoch, which was a Thursday, modulo seven. */
  lemma DayOfWeekCountsDays(d: Date)
    requires 1970 <= d.year && ValidDate(d)
    ensures DayOfWeek(d) == (DayNumber(d) + 4) % 7
  {
    DayNumberIs(d);
    LeapYearsGrow(d.year);
    OffsetsAreMonths(d.year, d.month);
    hide IsLeap, DayNumber, DayOfWeek, DaysBeforeMonth, DaysInMonth;
    var y := if d.month < 3 then d.year - 1 else d.year;
    var t := OFFSETS[d.month - 1];
    var e := DaysBeforeMonth(d.year, d.month) - (if d.month < 3 then 0 else if IsLeap(d.year) then 2 else 1) - t;
    hide OFFSETS;
    hide LeapYearsUpTo;
    var form := y + LeapYearsUpTo(y) + t + d.day;
    ClosedForm(d, t);
    SameRemainder(DayNumber(d) + 4, form, 52 * d.year - 102789, e);
  }

  lemma DayNumberIs(d: Date)
    requires 1970 <= d.year && ValidDate(d)
    ensures DayNumber(d) ==
            365 * (d.year - 1970) + LeapYearsUpTo(d.year - 1) - 477 + DaysBeforeMonth(d.year, d.month) + (d.day - 1)
  {
    DaysBeforeYearIs(d.year);
    assert LeapYearsUpTo(1969) == 477;
    hide LeapYearsUpTo, DaysBeforeYear, DaysBeforeMonth;
  }

  lemma ClosedForm(d: Date, t: nat)
    requires 1 <= d.month <= 12 && 1 <= d.year && t == OFFSETS[d.month - 1]
    ensures var y := if d.month < 3 then d.year - 1 else d.year;
            DayOfWeek(d) == (y + LeapYearsUpTo(y) + t + d.day) % 7
  {
    hide OFFSETS;
  }

  lemma SameRemainder(a: int, b: int, k: int, e: int)
    requires a == b + 7 * k + e && e % 7 == 0
    ensures a % 7 == b % 7
  {
  }

  /** The day after a date. */
  function NextDay(d: Date): (r: Date)
    requires ValidDate(d)
    ensures ValidDate(r)
  {
    if d.day < DaysInMonth(d.year, d.month) then d.(day := d.day + 1)
    else if d.month < 12 then Date(d.year, d.month + 1, 1)
    else Date(d.year + 1, 1, 1)
  }

  lemma NextDayIsOneLater(d: Date)
    requires 1970 <= d.year && ValidDate(d)
    ensures DayNumber(NextDay(d)) == DayNumber(d) + 1
  {
    DaysBeforeMonthIs(d.year, 12);
  }

  /** The day of the week advances by one across every month, year and leap boundary. */
  lemma DayOfWeekAdvances(d: Date)
    requires 1970 <= d.year && ValidDate(d)
    ensures DayOfWeek(NextDay(d)) == (DayOfWeek(d) + 1) % 7
  {
    hide DayOfWeek, DayNumber, DaysInMonth;
    DayOfWeekCountsDays(d);
    DayOfWeekCountsDays(NextDay(d));
    NextDayIsOneLater(d);
  }
}
