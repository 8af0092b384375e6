/** GPS week and time of week from a calendar: `calendarToGPSTime` in src/modules/mavlink_interface.cpp. */
module GpsTime {
  import opened Common
  import opened Calendar

  /** Julian Day Number in closed form. All operands are non-negative for months 1 to 12. */
  function Jdn(year: nat, month: nat, day: nat): int
    requires 1 <= month <= 12
  {
    var a := (14 - month) / 12;
    var y := year + 4800 - a;
    var m := month + 12 * a - 3;
    day + (153 * m + 2) / 5 + 365 * y + y / 4 - y / 100 + y / 400 - 32045
  }

  const UNIX_EPOCH_JDN: int := 2440588
  const GPS_EPOCH_UNIX: nat := 315964800
  const SECONDS_PER_WEEK: nat := 604800

  datatype WeekTime = WeekTime(week: u16, towMs: u32)

  /** Week number and milliseconds of the week, reduced to their 16 and 32 bits. */
  function ToGpsTime(c: Time): WeekTime
    requires 1 <= c.month <= 12
  {
    var days := Jdn(c.year, c.month, c.day) - Jdn(1980, 1, 6);
    if days < 0 then WeekTime(0, 0)
    else WeekTime(days / 7 % 0x1_0000,
                  (days % 7 * 86400 + c.hour * 3600 + c.minute * 60 + c.second) * 1000 % 0x1_0000_0000)
  }

  /** Leap days in the years up to `y`. */
  function LeapDays(y: nat): int {
    y / 4 - y / 100 + y / 400
  }

  lemma LeapDaysStep(y: nat)
    requires y > 0
    ensures LeapDays(y) == LeapDays(y - 1) + if IsLeapYear(y) then 1 else 0
  {
    QuotientSteps(y);
    if y % 100 == 0 { CenturiesDivide(y, y / 100); }
    if y % 400 == 0 { FourCenturiesDivide(y, y / 400); }
  }

  lemma QuotientSteps(y: nat)
    requires y > 0
    ensures y / 4 == (y - 1) / 4 + if y % 4 == 0 then 1 else 0
    ensures y / 100 == (y - 1) / 100 + if y % 100 == 0 then 1 else 0
    ensures y / 400 == (y - 1) / 400 + if y % 400 == 0 then 1 else 0
  {
  }

  lemma CenturiesDivide(y: nat, q: nat)
    requires y == 100 * q
    ensures y % 4 == 0
  {
    assert y == 4 * (25 * q);
  }

  lemma FourCenturiesDivide(y: nat, q: nat)
    requires y == 400 * q
    ensures y % 100 == 0
  {
    assert y == 100 * (4 * q);
  }

  lemma {:induction false} YearsInClosedForm(year: nat)
    requires year >= 1970
    ensures DaysBeforeYear(year) == 365 * (year - 1970) + LeapDays(year - 1) - LeapDays(1969)
    decreases year
  {
    if year > 1970 {
      YearsInClosedForm(year - 1);
      LeapDaysStep(year - 1);
    }
  }

  lemma LeapDaysShift(y: nat)
    ensures LeapDays(y + 4800) == LeapDays(y) + 1164
  {
    QuotientShift(y);
  }

  lemma QuotientShift(y: nat)
    ensures (y + 4800) / 4 == y / 4 + 1200
    ensures (y + 4800) / 100 == y / 100 + 48
    ensures (y + 4800) / 400 == y / 400 + 12
  {
  }

  /** The closed form with the leap days named. */
  lemma JdnInLeapDays(year: nat, month: nat, day: nat)
    requires year >= 1 && 1 <= month <= 12
    ensures month <= 2 ==>
              Jdn(year, month, day) == day + (153 * (month + 9) + 2) / 5 + 365 * (year + 4799) + LeapDays(year - 1 + 4800) - 32045
    ensures month > 2 ==>
              Jdn(year, month, day) == day + (153 * (month - 3) + 2) / 5 + 365 * (year + 4800) + LeapDays(year + 4800) - 32045
  {
  }

  lemma JdnOfDate(year: nat, month: nat, day: nat)
    requires year >= 1970 && 1 <= month <= 12
    ensures Jdn(year, month, day) ==
              day - 1 + UNIX_EPOCH_JDN + DaysBeforeYear(year) + DaysBeforeMonth(year, month)
  {
    YearsInClosedForm(year);
    assert LeapDays(1969) == 477;
    MonthTable(year, month);
    if month <= 2 { JdnEarly(year, month, day); } else { JdnLate(year, month, day); }
  }

  lemma JdnEarly(year: nat, month: nat, day: nat)
    requires year >= 1 && 1 <= month <= 2
    ensures Jdn(year, month, day) ==
              day + 31 * (month - 1) + 365 * (year - 1970) + LeapDays(year - 1) + UNIX_EPOCH_JDN - 478
  {
    JdnInLeapDays(year, month, day);
    LeapDaysShift(year - 1);
    assert (153 * (1 + 9) + 2) / 5 == 306 && (153 * (2 + 9) + 2) / 5 == 337;
  }

  lemma JdnLate(year: nat, month: nat, day: nat)
    requires year >= 1 && 3 <= month <= 12
    ensures Jdn(year, month, day) ==
              day + [0, 31, 59, 90, 120, 151, 181, 212, 243, 273, 304, 334, 365][month - 1]
              + (if IsLeapYear(year) then 1 else 0)
              + 365 * (year - 1970) + LeapDays(year - 1) + UNIX_EPOCH_JDN - 478
  {
    JdnInLeapDays(year, month, day);
    FebruaryBased(month);
    LeapDaysShift(year);
    LeapDaysStep(year);
  }

  /** The month term of the closed form against the month table. */
  lemma FebruaryBased(month: nat)
    requires 3 <= month <= 12
    ensures (153 * (month - 3) + 2) / 5 + 59 ==
              [0, 31, 59, 90, 120, 151, 181, 212, 243, 273, 304, 334, 365][month - 1]
  {
  }

  /** The two day counts of the firmware agree on every date from 1970 on, also on the
      impossible days that run past the end of a month. */
  lemma DayCountsAgree(c: Time)
    requires c.year >= 1970 && 1 <= c.month <= 12 && c.day >= 1
    ensures Jdn(c.year, c.month, c.day) - UNIX_EPOCH_JDN == DayNumber(c)
  {
    JdnOfDate(c.year, c.month, c.day);
  }

  /** The week time in terms of the summed day count; the milliseconds fit their 32 bits. */
  lemma ToGpsTimeInDays(c: Time)
    requires Valid(c) && DayNumber(c) >= 3657
    ensures var days := DayNumber(c) - 3657;
      ToGpsTime(c) == WeekTime(days / 7 % 0x1_0000, (days % 7 * 86400 + SecondOfDay(c)) * 1000)
  {
    DayCountsAgree(c);
    assert Jdn(1980, 1, 6) == UNIX_EPOCH_JDN + 3657;
    var dow := (DayNumber(c) - 3657) % 7;
    assert dow * 86400 + SecondOfDay(c) < SECONDS_PER_WEEK;
  }

  /** GPS and Unix time agree exactly while the week number fits its 16 bits. */
  lemma GpsTimeAgreesExactly(c: Time)
    requires Valid(c) && UnixSeconds(c) >= GPS_EPOCH_UNIX
    ensures var g := ToGpsTime(c);
      && g.towMs < SECONDS_PER_WEEK * 1000 && g.towMs % 1000 == 0
      && (g.week * SECONDS_PER_WEEK + g.towMs / 1000 == UnixSeconds(c) - GPS_EPOCH_UNIX <==>
            UnixSeconds(c) - GPS_EPOCH_UNIX < 0x1_0000 * SECONDS_PER_WEEK)
  {
    var days, s := DayNumber(c) - 3657, SecondOfDay(c);
    assert UnixSeconds(c) - GPS_EPOCH_UNIX == days * 86400 + s;
    WeekSplit(days, s);
    ToGpsTimeInDays(c);
    Thousand(days % 7 * 86400 + s);
  }

  /** Dates before the GPS epoch give week zero, time zero. */
  lemma BeforeGpsEpoch(c: Time)
    requires Valid(c) && UnixSeconds(c) < GPS_EPOCH_UNIX
    ensures ToGpsTime(c) == WeekTime(0, 0)
  {
    DayCountsAgree(c);
    assert Jdn(1980, 1, 6) == UNIX_EPOCH_JDN + 3657;
  }

  lemma Thousand(x: nat)
    ensures x * 1000 / 1000 == x && x * 1000 % 1000 == 0
  {
  }

  /** Splitting seconds into weeks and the rest loses nothing but the weeks past 16 bits. */
  lemma WeekSplit(days: int, s: nat)
    requires s < 86400 && days * 86400 + s >= 0
    ensures days >= 0
    ensures var tow := days % 7 * 86400 + s;
      && tow < SECONDS_PER_WEEK
      && (days / 7 % 0x1_0000 * SECONDS_PER_WEEK + tow == days * 86400 + s <==>
            days * 86400 + s < 0x1_0000 * SECONDS_PER_WEEK)
  {
  }

  /** So they agree on every date the sender lets through. */
  lemma GpsTimeAgreesToCentury(c: Time)
    requires Valid(c) && c.year <= 2099 && UnixSeconds(c) >= GPS_EPOCH_UNIX
    ensures var g := ToGpsTime(c);
      g.week * SECONDS_PER_WEEK + g.towMs / 1000 == UnixSeconds(c) - GPS_EPOCH_UNIX
  {
    GpsTimeAgreesExactly(c);
    CenturyBound(c);
  }

  /** A day that its month does not have counts as the day that many days later. */
  lemma ImpossibleDayRollsOver(year: nat, month: nat, day: nat)
    requires year >= 1970 && 1 <= month < 12 && day > DaysInMonth(year, month)
    ensures Jdn(year, month, day) == Jdn(year, month + 1, day - DaysInMonth(year, month))
  {
    JdnOfDate(year, month, day);
    JdnOfDate(year, month + 1, day - DaysInMonth(year, month));
  }
}
