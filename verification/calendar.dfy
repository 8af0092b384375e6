/** Calendar time and Unix seconds: include/rtc_time_guard.h. */
module Calendar {
  import opened Common

  datatype Time = Time(year: nat, month: nat, day: nat, hour: nat, minute: nat, second: nat)

  predicate IsLeapYear(year: nat) {
    year % 4 == 0 && (year % 100 != 0 || year % 400 == 0)
  }

  /** Zero for a month that does not exist. */
  function DaysInMonth(year: nat, month: nat): nat {
    if month < 1 || month > 12 then 0
    else if month == 2 && IsLeapYear(year) then 29
    else [31, 28, 31, 30, 31, 30, 31, 31, 30, 31, 30, 31][month - 1]
  }

  /** What `rtcTimeToUnixSeconds` accepts. */
  predicate Valid(c: Time) {
    && c.year >= 1970
    && 1 <= c.day <= DaysInMonth(c.year, c.month)
    && c.hour <= 23 && c.minute <= 59 && c.second <= 59
  }

  function YearLength(year: nat): nat {
    if IsLeapYear(year) then 366 else 365
  }

  /** Days from 1970 to the start of a year. */
  function DaysBeforeYear(year: nat): nat {
    if year <= 1970 then 0 else DaysBeforeYear(year - 1) + YearLength(year - 1)
  }

  /** Days from the start of a year to the start of a month. */
  function DaysBeforeMonth(year: nat, month: nat): nat {
    if month <= 1 then 0 else DaysBeforeMonth(year, month - 1) + DaysInMonth(year, month - 1)
  }

  function DayNumber(c: Time): nat
    requires c.day >= 1
  {
    DaysBeforeYear(c.year) + DaysBeforeMonth(c.year, c.month) + c.day - 1
  }

  function SecondOfDay(c: Time): nat {
    c.hour * 3600 + c.minute * 60 + c.second
  }

  function UnixSeconds(c: Time): nat
    requires c.day >= 1
  {
    DayNumber(c) * 86400 + SecondOfDay(c)
  }

  lemma {:induction false} DaysBeforeYearBound(year: nat)
    requires 1970 <= year <= 0x1_0000
    ensures DaysBeforeYear(year) <= 366 * (year - 1970)
    decreases year
  {
    if year > 1970 { DaysBeforeYearBound(year - 1); }
  }

  lemma {:induction false} DaysBeforeMonthBound(year: nat, month: nat)
    ensures DaysBeforeMonth(year, month) <= 31 * (if month <= 1 then 0 else if month <= 13 then month - 1 else 12)
    decreases month
  {
    if month > 1 { DaysBeforeMonthBound(year, month - 1); }
  }

  /** The day count by summing whole years and months; it keeps far inside its 32 bits. */
  method SumDays(toYear: nat, toMonth: nat) returns (days: u32)
    requires 1970 <= toYear < 0x1_0000 && 1 <= toMonth <= 12
    ensures days == DaysBeforeYear(toYear) + DaysBeforeMonth(toYear, toMonth)
    ensures days <= 366 * (toYear - 1970) + 31 * 11
  {
    days := 0;
    for year := 1970 to toYear
      invariant days == DaysBeforeYear(year)
    {
      DaysBeforeYearBound(year + 1);
      days := days + if IsLeapYear(year) then 366 else 365;
    }
    DaysBeforeYearBound(toYear);
    for month := 1 to toMonth
      invariant days == DaysBeforeYear(toYear) + DaysBeforeMonth(toYear, month)
    {
      DaysBeforeMonthBound(toYear, month + 1);
      days := days + DaysInMonth(toYear, month);
    }
    DaysBeforeMonthBound(toYear, toMonth);
  }

  /** The conversion by summing year and month lengths. Neither the day count nor the seconds
      leave their widths for any 16-bit year. */
  method ToUnixSeconds(c: Time) returns (ok: bool, seconds: u64)
    requires c.year < 0x1_0000 && c.month < 256
    ensures ok == Valid(c)
    ensures seconds == if ok then UnixSeconds(c) else 0
  {
    if c.year < 1970 { return false, 0; }
    var daysInMonth := DaysInMonth(c.year, c.month);
    if c.day < 1 || c.day > daysInMonth || c.hour > 23 || c.minute > 59 || c.second > 59 {
      return false, 0;
    }
    var days := SumDays(c.year, c.month);
    days := days + (c.day - 1);
    return true, ((days * 24 + c.hour) * 60 + c.minute) * 60 + c.second;
  }

  // ---------------------------------------------------------------- order isomorphism

  /** Lexicographic order on dates. */
  predicate DateBefore(c: Time, d: Time) {
    c.year < d.year || (c.year == d.year && (c.month < d.month || (c.month == d.month && c.day < d.day)))
  }

  /** Lexicographic order on calendar times. */
  predicate Before(c: Time, d: Time) {
    || DateBefore(c, d)
    || ((c.year, c.month, c.day) == (d.year, d.month, d.day) &&
        (c.hour < d.hour || (c.hour == d.hour && (c.minute < d.minute ||
         (c.minute == d.minute && c.second < d.second)))))
  }

  lemma {:induction false} YearsGrow(y: nat, z: nat)
    requires 1970 <= y < z
    ensures DaysBeforeYear(y) + YearLength(y) <= DaysBeforeYear(z)
    decreases z
  {
    if y + 1 < z { YearsGrow(y, z - 1); }
  }

  lemma {:induction false} MonthsGrow(year: nat, m: nat, n: nat)
    requires 1 <= m < n <= 13
    ensures DaysBeforeMonth(year, m) + DaysInMonth(year, m) <= DaysBeforeMonth(year, n)
    decreases n
  {
    if m + 1 < n { MonthsGrow(year, m, n - 1); }
  }

  /** The month table in closed form. */
  lemma MonthTable(year: nat, month: nat)
    requires 1 <= month <= 13
    ensures DaysBeforeMonth(year, month) ==
              [0, 31, 59, 90, 120, 151, 181, 212, 243, 273, 304, 334, 365][month - 1]
              + if month > 2 && IsLeapYear(year) then 1 else 0
  {
  }

  lemma CenturyBound(c: Time)
    requires Valid(c) && c.year <= 2099
    ensures DayNumber(c) <= 366 * 130
  {
    DaysBeforeYearBound(c.year);
    MonthTable(c.year, c.month);
  }

  lemma DatesGrow(c: Time, d: Time)
    requires Valid(c) && Valid(d) && DateBefore(c, d)
    ensures DayNumber(c) < DayNumber(d)
  {
    if c.year < d.year {
      MonthTable(c.year, 13);
      if c.month < 13 { MonthsGrow(c.year, c.month, 13); }
      YearsGrow(c.year, d.year);
    } else if c.month < d.month {
      MonthsGrow(c.year, c.month, d.month);
    }
  }

  lemma TimesGrow(c: Time, d: Time)
    requires Valid(c) && Valid(d) && Before(c, d)
    ensures UnixSeconds(c) < UnixSeconds(d)
  {
    if DateBefore(c, d) {
      DatesGrow(c, d);
      assert DayNumber(c) + 1 <= DayNumber(d);
    }
  }

  /** Unix seconds order valid times exactly as the calendar does, and tell them apart. */
  lemma UnixSecondsIsOrderEmbedding(c: Time, d: Time)
    requires Valid(c) && Valid(d)
    ensures Before(c, d) <==> UnixSeconds(c) < UnixSeconds(d)
    ensures c == d <==> UnixSeconds(c) == UnixSeconds(d)
  {
    if Before(c, d) { TimesGrow(c, d); }
    if Before(d, c) { TimesGrow(d, c); }
  }

  /** The second after `c`, with every carry written out. */
  function NextSecond(c: Time): Time {
    if c.second < 59 then c.(second := c.second + 1)
    else if c.minute < 59 then c.(minute := c.minute + 1, second := 0)
    else if c.hour < 23 then c.(hour := c.hour + 1, minute := 0, second := 0)
    else if c.day < DaysInMonth(c.year, c.month) then Time(c.year, c.month, c.day + 1, 0, 0, 0)
    else if c.month < 12 then Time(c.year, c.month + 1, 1, 0, 0, 0)
    else Time(c.year + 1, 1, 1, 0, 0, 0)
  }

  /** The day after the last day of a year or of a month. */
  lemma NextDayIsOneMore(c: Time)
    requires Valid(c) && c.hour == 23 && c.minute == 59 && c.second == 59
    ensures Valid(NextSecond(c)) && DayNumber(NextSecond(c)) == DayNumber(c) + 1
  {
    var d := NextSecond(c);
    if c.day == DaysInMonth(c.year, c.month) {
      if c.month == 12 {
        MonthTable(c.year, 12);
        assert DaysBeforeYear(d.year) == DaysBeforeYear(c.year) + YearLength(c.year);
        assert DaysBeforeMonth(d.year, 1) == 0;
      } else {
        assert DaysBeforeMonth(d.year, d.month) == DaysBeforeMonth(c.year, c.month) + DaysInMonth(c.year, c.month);
      }
    }
  }

  /** Across minutes, hours, days, months, leap days and centuries the next second is one more. */
  lemma NextSecondIsOneMore(c: Time)
    requires Valid(c)
    ensures Valid(NextSecond(c)) && UnixSeconds(NextSecond(c)) == UnixSeconds(c) + 1
  {
    var d := NextSecond(c);
    if c.hour == 23 && c.minute == 59 && c.second == 59 {
      NextDayIsOneMore(c);
      assert SecondOfDay(c) == 86399 && SecondOfDay(d) == 0;
    } else {
      assert DayNumber(d) == DayNumber(c) && SecondOfDay(d) == SecondOfDay(c) + 1;
    }
  }

  lemma Epoch() returns (c: Time)
    ensures Valid(c) && UnixSeconds(c) == 0
  {
    c := Time(1970, 1, 1, 0, 0, 0);
  }

  lemma Successor(c: Time) returns (d: Time)
    requires Valid(c)
    ensures Valid(d) && UnixSeconds(d) == UnixSeconds(c) + 1
  {
    NextSecondIsOneMore(c);
    d := NextSecond(c);
  }

  /** No gaps: every second from the epoch on is the Unix time of some valid calendar time. */
  lemma {:induction false} EverySecondHasATime(n: nat) returns (c: Time)
    ensures Valid(c) && UnixSeconds(c) == n
    decreases n
  {
    if n == 0 {
      c := Epoch();
    } else {
      var b := EverySecondHasATime(n - 1);
      c := Successor(b);
    }
  }
}
