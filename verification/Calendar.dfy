/**
 Day numbers and dates (`Time.cpp`).  The leap rule is that of Appendix C of RFC 3339 and the
 month lengths are those of section 5.7 of RFC 3339.
 */
module Calendar {
  import opened Bits

  const NS_PER_DAY: nat := 24 * 3600 * 1000 * 1000 * 1000

  datatype Date = Date(year: int, month: int, day: int)

  /** The quotient of C++ integer division, which truncates toward zero. */
  function TruncDiv(a: int, b: int): (q: int)
    requires b > 0
  {
    if a >= 0 then a / b else -((-a) / b)
  }

  predicate IsLeapYear(year: int) {
    (year % 4 == 0 && year % 100 != 0) || year % 400 == 0
  }

  function LeapYearsBefore(year: int): (r: int) {
    TruncDiv(year, 4) - TruncDiv(year, 100) + TruncDiv(year, 400)
  }

  function YearLength(year: int): (r: int) {
    if IsLeapYear(year) then 366 else 365
  }

  /** The length of a month: April, June, September and November have 30 days, February 28 or 29, the others 31. */
  ghost function MonthLength(leap: bool, month: int): (r: int) {
    if month == 2 then if leap then 29 else 28
    else if month in {4, 6, 9, 11} then 30
    else 31
  }

  /** The twelve month lengths of a year, as the code lists them. */
  function DaysPerMonth(leap: bool): (r: seq<int>)
    ensures |r| == 12 && forall m :: 1 <= m <= 12 ==> r[m - 1] == MonthLength(leap, m)
  {
    [31, if leap then 29 else 28, 31, 30, 31, 30, 31, 31, 30, 31, 30, 31]
  }

  ghost predicate ValidDate(d: Date) {
    1 <= d.month <= 12 && 1 <= d.day <= MonthLength(IsLeapYear(d.year), d.month)
  }

  /** The day after a date, counted on the calendar. */
  ghost function NextDay(d: Date): (r: Date)
    requires ValidDate(d)
    ensures ValidDate(r)
  {
    if d.day < MonthLength(IsLeapYear(d.year), d.month) then d.(day := d.day + 1)
    else if d.month < 12 then Date(d.year, d.month + 1, 1)
    else Date(d.year + 1, 1, 1)
  }

  /** The date `n` days after the first of January 1970. */
  ghost function DateAt(n: nat): (d: Date)
    ensures ValidDate(d)
  {
    if n == 0 then Date(1970, 1, 1) else NextDay(DateAt(n - 1))
  }

  ghost function Sum(s: seq<int>, n: nat): (r: int)
    requires n <= |s|
  {
    if n == 0 then 0 else Sum(s, n - 1) + s[n - 1]
  }

  /** The number of days from the first of January 1970 to the first of January of `year`, as the code computes it. */
  ghost function YearStart(year: int): (r: int) {
    (year - 1970) * 365 + (LeapYearsBefore(year - 1) - LeapYearsBefore(1970))
  }

  /** The day number of a date, also of a day outside its month. */
  ghost function DayNumber(d: Date): (r: int)
    requires 1 <= d.month <= 13
  {
    YearStart(d.year) + Sum(DaysPerMonth(IsLeapYear(d.year)), d.month - 1) + d.day - 1
  }

  /** `LeapYearsBefore` counts up by one at every leap year, so years follow each other without gaps. */
  lemma YearStep(year: int)
    requires year >= 1
    ensures YearStart(year + 1) == YearStart(year) + YearLength(year)
  {
    LeapStep(year);
  }

  /** How many days the day numbers of the code give a year. */
  ghost function DaysIn(year: int): (r: int) {
    YearStart(year + 1) - YearStart(year)
  }

  /**
   The years have the lengths of the Gregorian calendar: a century year is long if its century is a
   multiple of four, and any other year if it is.
   */
  lemma GregorianYears(year: int)
    requires year >= 1
    ensures DaysIn(year) == 365 || DaysIn(year) == 366
    ensures year % 100 != 0 ==> (DaysIn(year) == 366 <==> year % 4 == 0)
    ensures year % 100 == 0 ==> (DaysIn(year) == 366 <==> year / 100 % 4 == 0)
  {
    YearStep(year);
    hide YearStart;
    if year % 100 == 0 {
      var c := year / 100;
      ModUnique(year, 400, c / 4, 100 * (c % 4));
    } else if year % 400 == 0 {
      Multiple(year, 4, 100);
      assert false;
    }
  }

  /** The calendar repeats itself after 400 years, which have 146097 days. */
  lemma GregorianCycle(year: int)
    requires year >= 1
    ensures YearStart(year + 400) == YearStart(year) + 146097
  {
    var y := year - 1;
    assert (y + 400) / 4 == y / 4 + 100;
    assert (y + 400) / 100 == y / 100 + 4;
    assert (y + 400) / 400 == y / 400 + 1;
  }

  lemma CenturyYears()
    ensures DaysIn(1900) == 365 && DaysIn(2000) == 366 && DaysIn(2096) == 366 && DaysIn(2100) == 365
  {
  }

  lemma LeapStep(year: int)
    requires year >= 1
    ensures LeapYearsBefore(year) - LeapYearsBefore(year - 1) == if IsLeapYear(year) then 1 else 0
  {
    QuotientStep(year, 4);
    QuotientStep(year, 100);
    QuotientStep(year, 400);
    if year % 100 == 0 { Multiple(year, 25, 4); }
    if year % 400 == 0 { Multiple(year, 4, 100); }
  }

  /** A multiple of `a * b` is a multiple of `b`. */
  lemma Multiple(y: int, a: int, b: int)
    requires a > 0 && b > 0 && a * b > 0 && y % (a * b) == 0
    ensures y % b == 0
  {
    var q := y / (a * b);
    assert y == (a * b) * q;
    assert (a * b) * q == b * (a * q);
    ModUnique(y, b, a * q, 0);
  }

  lemma QuotientStep(y: int, b: int)
    requires y >= 1 && b > 0
    ensures y / b - (y - 1) / b == if y % b == 0 then 1 else 0
  {
    var q, r := y / b, y % b;
    assert y == b * q + r;
    if r == 0 {
      ModUnique(y - 1, b, q - 1, b - 1);
    } else {
      ModUnique(y - 1, b, q, r - 1);
    }
  }

  lemma MonthSums(leap: bool)
    ensures Sum(DaysPerMonth(leap), 12) == if leap then 366 else 365
    ensures Sum(DaysPerMonth(leap), 0) == 0
  {
    var m := DaysPerMonth(leap);
    assert Sum(m, 1) == 31;
    assert Sum(m, 3) == 31 + m[1] + 31;
    assert Sum(m, 5) == Sum(m, 3) + 61;
    assert Sum(m, 7) == Sum(m, 5) + 61;
    assert Sum(m, 9) == Sum(m, 7) + 61;
    assert Sum(m, 11) == Sum(m, 9) + 61;
  }

  /** The code's day number counts the days of the calendar, one by one. */
  lemma DayNumberStep(d: Date)
    requires ValidDate(d) && d.year >= 1
    ensures DayNumber(NextDay(d)) == DayNumber(d) + 1
  {
    hide YearStart, IsLeapYear, DaysPerMonth;
    MonthSums(IsLeapYear(d.year));
    YearStep(d.year);
  }

  lemma {:induction false} YearsMonotone(a: int, b: int)
    requires 1 <= a <= b
    ensures YearStart(a) + 365 * (b - a) <= YearStart(b) <= YearStart(a) + 366 * (b - a)
    decreases b - a
  {
    if a < b {
      hide YearStart;
      YearsMonotone(a, b - 1);
      YearStep(b - 1);
    }
  }

  lemma {:induction false} SumMonotone(s: seq<int>, a: nat, b: nat)
    requires a <= b <= |s| && forall i :: 0 <= i < |s| ==> s[i] > 0
    ensures Sum(s, a) <= Sum(s, b)
    decreases b - a
  {
    if a < b { SumMonotone(s, a, b - 1); }
  }

  /** The day number of a date lies in its year. */
  lemma InYear(d: Date)
    requires ValidDate(d) && d.year >= 1
    ensures YearStart(d.year) <= DayNumber(d) < YearStart(d.year + 1)
  {
    hide YearStart;
    var m := DaysPerMonth(IsLeapYear(d.year));
    MonthSums(IsLeapYear(d.year));
    YearStep(d.year);
    SumMonotone(m, 0, d.month - 1);
    SumMonotone(m, d.month, 12);
  }

  /** Different dates have different day numbers. */
  lemma DayNumberInjective(d: Date, e: Date)
    requires ValidDate(d) && ValidDate(e) && d.year >= 1 && e.year >= 1 && DayNumber(d) == DayNumber(e)
    ensures d == e
  {
    hide YearStart, IsLeapYear;
    InYear(d);
    InYear(e);
    if d.year < e.year {
      YearsMonotone(d.year + 1, e.year);
    } else if e.year < d.year {
      YearsMonotone(e.year + 1, d.year);
    } else {
      var m := DaysPerMonth(IsLeapYear(d.year));
      if d.month < e.month {
        SumMonotone(m, d.month, e.month - 1);
      } else if e.month < d.month {
        SumMonotone(m, e.month, d.month - 1);
      }
    }
  }

  /** The first round trip: the `n`-th day of the calendar has day number `n`. */
  lemma {:induction false} DayNumberOfDate(n: nat)
    ensures DateAt(n).year >= 1970 && DayNumber(DateAt(n)) == n
  {
    hide YearStart, IsLeapYear, DaysPerMonth, DayNumber;
    if n == 0 {
      FirstDay();
    } else {
      DayNumberOfDate(n - 1);
      DayNumberStep(DateAt(n - 1));
    }
  }

  lemma FirstDay()
    ensures DayNumber(Date(1970, 1, 1)) == 0
  {
    assert LeapYearsBefore(1969) == LeapYearsBefore(1970);
  }

  /** The second round trip: every valid date from 1970 on is the day its number says. */
  lemma DateOfDayNumber(d: Date)
    requires ValidDate(d) && d.year >= 1970
    ensures DayNumber(d) >= 0 && DateAt(DayNumber(d)) == d
  {
    InYear(d);
    YearsMonotone(1970, d.year);
    assert YearStart(1970) == 0 by { assert LeapYearsBefore(1969) == LeapYearsBefore(1970); }
    DayNumberOfDate(DayNumber(d));
    DayNumberInjective(d, DateAt(DayNumber(d)));
  }

  /** The year with which the correcting loop starts. */
  function GuessedYear(total: int): (year: int) {
    1970 + TruncDiv(total - 370, 366)
  }

  /** The guessed year never starts after the given day, although the guess for the first five days of 1970 is 1969. */
  lemma GuessBelow(days: nat)
    ensures var year := GuessedYear(days);
            && 1969 <= year && YearStart(year) <= days
            && (year == 1969 <==> days < 5)
  {
    var q := TruncDiv(days - 370, 366);
    if days >= 370 {
      assert 366 * q <= days - 370;
      YearsMonotone(1970, 1970 + q);
      assert LeapYearsBefore(1969) == LeapYearsBefore(1970);
    } else {
      assert LeapYearsBefore(1969) == LeapYearsBefore(1970) == LeapYearsBefore(1968);
    }
  }

  /** From 1962 on the guessed year does not start after the given day; the last day of 1961 is guessed as 1962. */
  lemma GuessSince1962(total: int)
    requires -2923 <= total
    ensures YearStart(GuessedYear(total)) <= total <==> total != -2923
  {
    if total >= 0 {
      GuessBelow(total);
    } else {
      var n := (370 - total) / 366;
      assert 1 <= n <= 8;
      assert YearStart(1969) == -365 && YearStart(1968) == -731 && YearStart(1967) == -1096 && YearStart(1966) == -1461;
      assert YearStart(1965) == -1826 && YearStart(1964) == -2192;
      assert YearStart(1963) == -2557 && YearStart(1962) == -2922;
    }
  }

  /** The smallest 64-bit timestamp. */
  const MIN_NS: int := -0x8000_0000_0000_0000

  /** No 64-bit timestamp is guessed to lie before the year 1678. */
  lemma GuessRange(ns: int)
    requires ns >= MIN_NS
    ensures GuessedYear(TruncDiv(ns, NS_PER_DAY)) >= 1678
  {
  }

  /**
   The result always has the day number of the timestamp, counted toward 1970; it is a date of the
   calendar if and only if the guessed year does not start after that day, which it does not from 1962 on.
   */
  method YMDFromTimestamp(ns: int) returns (date: Date)
    requires ns >= MIN_NS
    ensures var total := TruncDiv(ns, NS_PER_DAY);
            && 1 <= date.month <= 12 && DayNumber(date) == total
            && (ValidDate(date) <==> YearStart(GuessedYear(total)) <= total)
    ensures date.year >= 1 && (ns >= 0 ==> date == DateAt(ns / NS_PER_DAY))
  {
    hide YearStart, LeapYearsBefore, IsLeapYear, DateAt, Sum, DaysPerMonth;
    var total := TruncDiv(ns, NS_PER_DAY);
    GuessRange(ns);
    var year, days, isLeap := YearFromDays(total);
    var month, day := MonthFromDays(days, isLeap);
    date := Date(year, month, day);
    if ns >= 0 {
      GuessBelow(total);
      DayNumberOfDate(total);
      DayNumberInjective(date, DateAt(total));
    }
  }

  /** Guesses a year from the day number and corrects the guess upwards, but not downwards. */
  method YearFromDays(total: int) returns (year: int, days: int, isLeap: bool)
    requires GuessedYear(total) >= 1
    ensures year >= 1 && days < YearLength(year) && YearStart(year) + days == total && isLeap == IsLeapYear(year)
    ensures days >= 0 <==> YearStart(GuessedYear(total)) <= total
  {
    year := GuessedYear(total);
    var leapYears := LeapYearsBefore(year - 1) - LeapYearsBefore(1970);
    days := total - ((year - 1970) * 365 + leapYears);
    assert days == total - YearStart(year);
    hide YearStart, LeapYearsBefore, IsLeapYear;
    isLeap := false;
    while true
      invariant year >= 1 && YearStart(year) + days == total
      invariant days >= 0 <==> YearStart(GuessedYear(total)) <= total
      decreases days
    {
      isLeap := IsLeapYear(year);
      var max := 365;
      if isLeap {
        max := 366;
      }
      if days >= max {
        YearStep(year);
        days := days - max;
        year := year + 1;
      } else {
        break;
      }
    }
  }

  /**
   The month and the day of the month of the `days`-th day of a year; a negative count stays before
   the first of January.
   */
  method MonthFromDays(days: int, isLeap: bool) returns (month: int, day: int)
    requires days < if isLeap then 366 else 365
    ensures 1 <= month <= 12 && Sum(DaysPerMonth(isLeap), month - 1) + day - 1 == days
    ensures 1 <= day <= MonthLength(isLeap, month) <==> days >= 0
  {
    var daysPerMonth := DaysPerMonth(isLeap);
    MonthSums(isLeap);
    var rest := days;
    month := 0;
    while rest >= daysPerMonth[month]
      invariant 0 <= month < 12 && Sum(daysPerMonth, month) + rest == days
      invariant if days >= 0 then rest >= 0 else month == 0 && rest == days
      decreases 12 - month
    {
      assert Sum(daysPerMonth, month + 1) == Sum(daysPerMonth, month) + daysPerMonth[month];
      rest := rest - daysPerMonth[month];
      month := month + 1;
    }
    month := month + 1;
    day := rest + 1;
  }

  method TimestampFromYMD(date: Date) returns (ns: int)
    requires date.month <= 13
    ensures date.month >= 1 ==> ns == DayNumber(date) * NS_PER_DAY
  {
    var days := 0;
    var leapYears := LeapYearsBefore(date.year - 1) - LeapYearsBefore(1970);
    var daysPerMonth := DaysPerMonth(IsLeapYear(date.year));
    days := days + (date.year - 1970) * 365 + date.day - 1 + leapYears;
    assert days == YearStart(date.year) + date.day - 1;
    hide YearStart, LeapYearsBefore, IsLeapYear;
    var month := date.month - 1;
    var i := 0;
    while i < month
      invariant 0 <= i <= 12 && (month >= 0 ==> i <= month)
      invariant days == YearStart(date.year) + date.day - 1 + Sum(daysPerMonth, i)
    {
      days := days + daysPerMonth[i];
      i := i + 1;
    }
    ns := days * NS_PER_DAY;
  }

  /**
   A timestamp to its date and back: the start of its day, and so the same timestamp for whole days,
   even where the date is not one of the calendar.
   */
  method ThereAndBack(ns: int) returns (date: Date, back: int)
    requires ns >= MIN_NS
    ensures back == TruncDiv(ns, NS_PER_DAY) * NS_PER_DAY
    ensures ns >= 0 ==> back == ns - ns % NS_PER_DAY
    ensures ns % NS_PER_DAY == 0 ==> back == ns
  {
    hide DayNumber, DateAt, YearStart, ValidDate;
    date := YMDFromTimestamp(ns);
    back := TimestampFromYMD(date);
  }

  /** A count of whole days is found again in its timestamp. */
  lemma WholeDays(total: int)
    ensures TruncDiv(total * NS_PER_DAY, NS_PER_DAY) == total
  {
    if total >= 0 {
      ModUnique(total * NS_PER_DAY, NS_PER_DAY, total, 0);
    } else {
      ModUnique(-total * NS_PER_DAY, NS_PER_DAY, -total, 0);
    }
  }

  /** The days from 1678 on have 64-bit timestamps. */
  lemma DayRange(d: Date)
    requires ValidDate(d) && d.year >= 1678
    ensures DayNumber(d) * NS_PER_DAY >= MIN_NS
  {
    assert YearStart(1678) == -106650;
    InYear(d);
    YearsMonotone(1678, d.year);
    hide DayNumber, YearStart;
  }

  /** A date to its timestamp and back: the same date if and only if the guessed year does not start after its day. */
  method BackAndThere(date: Date) returns (ns: int, again: Date)
    requires ValidDate(date) && date.year >= 1678
    ensures var total := DayNumber(date); again == date <==> YearStart(GuessedYear(total)) <= total
    ensures date.year >= 1970 ==> ns >= 0 && again == date
  {
    hide DayNumber, DateAt, YearStart, LeapYearsBefore, IsLeapYear, DaysPerMonth, Sum;
    ns := TimestampFromYMD(date);
    var total := DayNumber(date);
    DayRange(date);
    WholeDays(total);
    again := YMDFromTimestamp(ns);
    if YearStart(GuessedYear(total)) <= total {
      DayNumberInjective(again, date);
    }
    if date.year >= 1970 {
      DateOfDayNumber(date);
      GuessBelow(total);
    }
  }
}
