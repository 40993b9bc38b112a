/** The date arithmetic of the real-time clock library against the Gregorian calendar. */
module Calendar {

  const SECONDS_FROM_1970_TO_2000: nat := 946684800

  /** The first second whose distance from 2000 does not fit a 32-bit `long`. */
  const END: nat := SECONDS_FROM_1970_TO_2000 + 0x8000_0000

  datatype DateTime = DateTime(yOff: nat, m: nat, d: nat, hh: nat, mm: nat, ss: nat)

  function DaysInMonth(m: nat): nat
    requires 1 <= m <= 12
  {
    [31, 28, 31, 30, 31, 30, 31, 31, 30, 31, 30, 31][m - 1]
  }

  // ---------------------------------------------------------------- the calendar

  predicate GregorianLeap(year: nat) { year % 4 == 0 && (year % 100 != 0 || year % 400 == 0) }

  function MonthLength(year: nat, m: nat): (n: nat)
    requires 1 <= m <= 12
  {
    if m == 2 then (if GregorianLeap(year) then 29 else 28) else if m in {4, 6, 9, 11} then 30 else 31
  }

  predicate ValidDate(t: DateTime) { 1 <= t.m <= 12 && 1 <= t.d <= MonthLength(2000 + t.yOff, t.m) }

  predicate Valid(t: DateTime) { ValidDate(t) && t.hh < 24 && t.mm < 60 && t.ss < 60 }

  /** The same time of the following day. */
  function NextDay(t: DateTime): DateTime
    requires ValidDate(t)
  {
    if t.d < MonthLength(2000 + t.yOff, t.m) then t.(d := t.d + 1)
    else if t.m < 12 then t.(m := t.m + 1, d := 1)
    else t.(yOff := t.yOff + 1, m := 1, d := 1)
  }

  /** Chronological order, field by field. */
  predicate Before(a: DateTime, b: DateTime) {
    a.yOff < b.yOff || (a.yOff == b.yOff &&
    (a.m < b.m || (a.m == b.m &&
    (a.d < b.d || (a.d == b.d &&
    (a.hh < b.hh || (a.hh == b.hh &&
    (a.mm < b.mm || (a.mm == b.mm && a.ss < b.ss)))))))))
  }

  // ---------------------------------------------------------------- the library's arithmetic

  /** The lengths of the months before `m`, ignoring leap days. */
  function MonthSum(m: nat): nat
    requires 1 <= m <= 13
  {
    if m == 1 then 0 else MonthSum(m - 1) + DaysInMonth(m - 1)
  }

  /** The sum `date2days` adds up, before it is returned. */
  function DayNumber(y: nat, m: nat, d: nat): int
    requires 1 <= m <= 12
  {
    d + MonthSum(m) + (if m > 2 && y % 4 == 0 then 1 else 0) + 365 * y + (y + 3) / 4 - 1
  }

  /** `date2days` returns 16 bits. */
  function Date2Days(y: nat, m: nat, d: nat): (n: nat)
    requires 1 <= m <= 12
    ensures n < 65536
  {
    DayNumber(y, m, d) % 65536
  }

  function Time2Long(days: int, h: nat, m: nat, s: nat): int { ((days * 24 + h) * 60 + m) * 60 + s }

  function UnixTime(t: DateTime): int
    requires 1 <= t.m <= 12
  {
    Time2Long(Date2Days(t.yOff, t.m, t.d), t.hh, t.mm, t.ss) + SECONDS_FROM_1970_TO_2000
  }

  /** 0 is Sunday. */
  function DayOfTheWeek(t: DateTime): int
    requires 1 <= t.m <= 12
  {
    (Date2Days(t.yOff, t.m, t.d) + 6) % 7
  }

  function Leap(y: nat): nat { if y % 4 == 0 then 1 else 0 }

  /** The year, and the days left in it, `days` days after the beginning of year `y`. */
  function YearOf(y: nat, days: nat): (nat, nat)
    decreases days
  {
    if days < 365 + Leap(y) then (y, days) else YearOf(y + 1, days - (365 + Leap(y)))
  }

  function DaysPerMonth(leap: nat, m: nat): (n: nat)
    requires 1 <= m <= 12
  {
    DaysInMonth(m) + if leap == 1 && m == 2 then 1 else 0
  }

  /** The month, and the days left in it, `days` days after the beginning of month `m`. */
  function MonthOf(leap: nat, m: nat, days: nat): (nat, nat)
    requires 1 <= m <= 12
    decreases 12 - m
  {
    if days < DaysPerMonth(leap, m) || m == 12 then (m, days) else MonthOf(leap, m + 1, days - DaysPerMonth(leap, m))
  }

  /** The date of a day before 2100, counted from the first of January 2000 as day 0. */
  function DateOf(days: nat): DateTime {
    var (y, inYear) := YearOf(0, days);
    var (m, inMonth) := MonthOf(Leap(y), 1, inYear);
    DateTime(y, m, inMonth + 1, 0, 0, 0)
  }

  /** The date and time of a Unix time from 2000 on. */
  function FromUnix(t: nat): DateTime
    requires SECONDS_FROM_1970_TO_2000 <= t
  {
    var s := t - SECONDS_FROM_1970_TO_2000;
    DateOf(s / 60 / 60 / 24).(hh := s / 60 / 60 % 24, mm := s / 60 % 60, ss := s % 60)
  }

  // ---------------------------------------------------------------- days and dates

  lemma CenturyLeap(y: nat)
    requires y < 100
    ensures GregorianLeap(2000 + y) <==> Leap(y) == 1
  {
  }

  lemma LeapStep(y: nat)
    ensures (y + 1 + 3) / 4 == (y + 3) / 4 + Leap(y)
  {
  }

  lemma {:induction false} YearOfDays(y: nat, days: nat)
    ensures
      var (y', rest) := YearOf(y, days);
      y <= y' && rest < 365 + Leap(y') && rest + 365 * y' + (y' + 3) / 4 == days + 365 * y + (y + 3) / 4
    decreases days
  {
    LeapStep(y);
    hide Leap;
    if days >= 365 + Leap(y) { YearOfDays(y + 1, days - (365 + Leap(y))); }
  }

  /** The days of a leap year's or other year's months before `m`. */
  function DaysBefore(leap: nat, m: nat): nat
    requires 1 <= m <= 13
  {
    MonthSum(m) + if m > 2 && leap == 1 then 1 else 0
  }

  lemma {:induction false} MonthOfDays(leap: nat, m: nat, days: nat)
    requires 1 <= m <= 12 && leap <= 1 && days + DaysBefore(leap, m) < 365 + leap
    ensures
      var (m', rest) := MonthOf(leap, m, days);
      m <= m' <= 12 && rest < DaysPerMonth(leap, m') && rest + DaysBefore(leap, m') == days + DaysBefore(leap, m)
    decreases 12 - m
  {
    WholeYear();
    if days >= DaysPerMonth(leap, m) && m < 12 { MonthOfDays(leap, m + 1, days - DaysPerMonth(leap, m)); }
  }

  lemma WholeYear()
    ensures MonthSum(12) == 334 && MonthSum(13) == 365
  {
    assert MonthSum(4) == 90 && MonthSum(7) == 181 && MonthSum(10) == 273;
  }

  lemma JanuaryFirst(leap: nat)
    ensures DaysBefore(leap, 1) == 0
  {
  }

  // ---------------------------------------------------------------- round trips

  lemma Hours(s: nat)
    ensures Time2Long(s / 60 / 60 / 24, s / 60 / 60 % 24, s / 60 % 60, s % 60) == s
  {
  }

  lemma DateOfDays(days: nat)
    requires days < 36525
    ensures
      var t := DateOf(days);
      ValidDate(t) && t.yOff < 100 && DayNumber(t.yOff, t.m, t.d) == days
  {
    hide YearOf, MonthOf, MonthSum;
    var (y, inYear) := YearOf(0, days);
    YearOfDays(0, days);
    JanuaryFirst(Leap(y));
    MonthOfDays(Leap(y), 1, inYear);
    var (m, inMonth) := MonthOf(Leap(y), 1, inYear);
    assert y < 100;
    CenturyLeap(y);
    assert MonthLength(2000 + y, m) == DaysPerMonth(Leap(y), m);
    assert DayNumber(y, m, inMonth + 1) == days;
  }

  /** Up to 2099 the day count fits 16 bits. */
  lemma FitsWord(a: DateTime)
    requires ValidDate(a) && a.yOff < 100
    ensures 0 <= DayNumber(a.yOff, a.m, a.d) == Date2Days(a.yOff, a.m, a.d)
  {
    CenturyLeap(a.yOff);
    WithinYear(Leap(a.yOff), a.m, a.d);
    hide MonthSum, DaysInMonth;
  }

  /** Every time from 2000 on whose distance fits 31 bits becomes a valid date, and that date's Unix time again. */
  lemma RoundTrip(t: nat)
    requires SECONDS_FROM_1970_TO_2000 <= t < END
    ensures Valid(FromUnix(t)) && FromUnix(t).yOff < 100 && UnixTime(FromUnix(t)) == t
  {
    hide DayNumber, Date2Days, Time2Long, DateOf, MonthLength;
    var s := t - SECONDS_FROM_1970_TO_2000;
    DateOfDays(s / 60 / 60 / 24);
    FitsWord(DateOf(s / 60 / 60 / 24));
    Hours(s);
  }

  // ---------------------------------------------------------------- order

  /** The days of the years and months before a date, and the position in the year, order dates. */
  lemma DaysOrdered(a: DateTime, b: DateTime)
    requires ValidDate(a) && ValidDate(b)
    requires a.yOff < b.yOff || (a.yOff == b.yOff && (a.m < b.m || (a.m == b.m && a.d < b.d)))
    ensures DayNumber(a.yOff, a.m, a.d) < DayNumber(b.yOff, b.m, b.d)
  {
    LengthIff(a.yOff, a.m);
    DaysAs(a.yOff, a.m, a.d);
    DaysAs(b.yOff, b.m, b.d);
    hide DayNumber, MonthLength, LostLeapDay, DaysPerMonth;
    if a.yOff < b.yOff {
      WithinYear(Leap(a.yOff), a.m, a.d);
      YearsOrdered(a.yOff, b.yOff);
    } else if a.m < b.m {
      MonthsOrdered(Leap(a.yOff), a.m, b.m);
    }
  }

  lemma {:induction false} YearsOrdered(y: nat, z: nat)
    requires y < z
    ensures YearStart(y) + 365 + Leap(y) <= YearStart(z)
    decreases z
  {
    DaysAs(z - 1, 1, 1);
    if y < z - 1 { YearsOrdered(y, z - 1); }
    hide YearStart, Leap, DayNumber, DaysBefore;
  }

  lemma {:induction false} MonthsOrdered(leap: nat, m: nat, n: nat)
    requires leap <= 1 && 1 <= m < n <= 13
    ensures DaysBefore(leap, m) + DaysPerMonth(leap, m) <= DaysBefore(leap, n)
    decreases n
  {
    if m < n - 1 { MonthsOrdered(leap, m, n - 1); }
  }

  lemma WithinYear(leap: nat, m: nat, d: nat)
    requires leap <= 1 && 1 <= m <= 12 && 1 <= d <= DaysPerMonth(leap, m)
    ensures d + DaysBefore(leap, m) <= 365 + leap
  {
    WholeYear();
    MonthsOrdered(leap, m, 13);
  }

  lemma TimesOrdered(p: int, h: nat, m: nat, s: nat, q: int, h': nat, m': nat, s': nat)
    requires h < 24 && m < 60 && s < 60 && h' < 24 && m' < 60 && s' < 60
    requires p < q || (p == q && (h < h' || (h == h' && (m < m' || (m == m' && s < s')))))
    ensures Time2Long(p, h, m, s) < Time2Long(q, h', m', s')
  {
  }

  /** Later dates have greater Unix times. */
  lemma OrderPreserved(a: DateTime, b: DateTime)
    requires Valid(a) && Valid(b) && a.yOff < 100 && b.yOff < 100 && Before(a, b)
    ensures UnixTime(a) < UnixTime(b)
  {
    FitsWord(a);
    FitsWord(b);
    hide DayNumber, Date2Days, MonthLength, Time2Long;
    if a.yOff < b.yOff || (a.yOff == b.yOff && (a.m < b.m || (a.m == b.m && a.d < b.d))) { DaysOrdered(a, b); }
    TimesOrdered(Date2Days(a.yOff, a.m, a.d), a.hh, a.mm, a.ss,
      Date2Days(b.yOff, b.m, b.d), b.hh, b.mm, b.ss);
  }

  /** No two valid dates have the same Unix time. */
  lemma UnixTimeUnique(a: DateTime, b: DateTime)
    requires Valid(a) && Valid(b) && a.yOff < 100 && b.yOff < 100 && UnixTime(a) == UnixTime(b)
    ensures a == b
  {
    hide UnixTime, Valid;
    if Before(a, b) { OrderPreserved(a, b); }
    if Before(b, a) { OrderPreserved(b, a); }
  }

  /** Every valid date comes back from its Unix time. */
  lemma RoundTripBack(a: DateTime)
    requires Valid(a) && a.yOff < 100 && SECONDS_FROM_1970_TO_2000 <= UnixTime(a) < END
    ensures FromUnix(UnixTime(a)) == a
  {
    hide UnixTime, FromUnix, MonthLength;
    RoundTrip(UnixTime(a));
    UnixTimeUnique(FromUnix(UnixTime(a)), a);
  }

  // ---------------------------------------------------------------- the calendar, day by day

  lemma NextDayValid(a: DateTime)
    requires ValidDate(a)
    ensures ValidDate(NextDay(a))
  {
  }

  /** A year the library takes for a leap year and the calendar does not. */
  predicate LostLeapDay(y: nat) { (2000 + y) % 100 == 0 && (2000 + y) % 400 != 0 }

  lemma LeapIff(y: nat)
    ensures GregorianLeap(2000 + y) <==> Leap(y) == 1 && !LostLeapDay(y)
    ensures LostLeapDay(y) ==> Leap(y) == 1
  {
    SameQuarter(y);
    if (2000 + y) % 100 == 0 { HundredsAreQuarters(2000 + y); }
  }

  lemma SameQuarter(y: nat)
    ensures (2000 + y) % 4 == y % 4
  {
  }

  lemma HundredsAreQuarters(n: nat)
    requires n % 100 == 0
    ensures n % 4 == 0
  {
    var k := 25 * (n / 100);
    assert n == 4 * k;
  }

  /** By how much the sum grows from one day to the next. */
  lemma NextDayStep(a: DateTime)
    requires ValidDate(a)
    ensures
      var b := NextDay(a);
      ValidDate(b) && DayNumber(b.yOff, b.m, b.d) ==
        DayNumber(a.yOff, a.m, a.d) + if a.m == 2 && a.d == 28 && LostLeapDay(a.yOff) then 2 else 1
  {
    NextDayValid(a);
    hide DayNumber, MonthLength, LostLeapDay;
    if a.d < MonthLength(2000 + a.yOff, a.m) {
      DaysAs(a.yOff, a.m, a.d);
      DaysAs(a.yOff, a.m, a.d + 1);
      LengthIff(a.yOff, a.m);
    } else if a.m < 12 {
      MonthTurns(a.yOff, a.m);
    } else {
      YearTurns(a.yOff);
    }
  }

  /** The last day whose count fits 16 bits; the count of the next is 0. */
  predicate LastCounted(a: DateTime) { a.yOff == 179 && a.m == 6 && a.d == 5 }

  const LAST: DateTime := DateTime(179, 6, 5, 0, 0, 0)

  lemma LastNumber()
    ensures ValidDate(LAST) && DayNumber(179, 6, 5) == 65535
  {
    WholeYear();
    assert MonthSum(6) == MonthSum(4) + 30 + 31;
  }

  lemma SumBounds(a: DateTime)
    requires ValidDate(a) && a.yOff < 256
    ensures 0 <= DayNumber(a.yOff, a.m, a.d) < 131071
  {
    LengthIff(a.yOff, a.m);
    WithinYear(Leap(a.yOff), a.m, a.d);
    DaysAs(a.yOff, a.m, a.d);
    hide DayNumber, MonthLength, LostLeapDay, DaysPerMonth, DaysBefore, MonthSum;
  }

  lemma LastIff(a: DateTime)
    requires ValidDate(a) && a.yOff < 256
    ensures Date2Days(a.yOff, a.m, a.d) == 65535 <==> LastCounted(a)
  {
    SumBounds(a);
    LastNumber();
    hide DayNumber, MonthLength;
    if a.yOff < 179 || (a.yOff == 179 && (a.m < 6 || (a.m == 6 && a.d < 5))) {
      DaysOrdered(a, LAST);
    } else if !LastCounted(a) {
      DaysOrdered(LAST, a);
    }
  }

  /** Over all the dates the class can hold, the library counts the days as the Gregorian calendar does, except over
      the end of February in the century years that are not leap years, the first of which is 2100, and
      except from 5 June 2179, where the 16 bits wrap. */
  lemma NextDayCountsIff(a: DateTime)
    requires ValidDate(a) && NextDay(a).yOff < 256
    ensures
      var b := NextDay(a);
      ValidDate(b) && (Date2Days(b.yOff, b.m, b.d) == Date2Days(a.yOff, a.m, a.d) + 1
        <==> !(a.m == 2 && a.d == 28 && LostLeapDay(a.yOff)) && !LastCounted(a))
  {
    NextDayStep(a);
    LastIff(a);
    SumBounds(a);
    hide DayNumber, MonthLength, LostLeapDay, LastCounted;
    NextInWord(DayNumber(a.yOff, a.m, a.d), DayNumber(NextDay(a).yOff, NextDay(a).m, NextDay(a).d));
  }

  lemma NextInWord(n: nat, k: nat)
    requires k == n + 1 || k == n + 2
    ensures k % 65536 == n % 65536 + 1 <==> k == n + 1 && n % 65536 != 65535
  {
  }

  /** The first day whose count is wrong, and the day the count starts again. */
  lemma WrongDays()
    ensures
      var a, b := DateTime(100, 2, 28, 0, 0, 0), DateTime(100, 3, 1, 0, 0, 0);
      ValidDate(a) && NextDay(a) == b && Date2Days(100, 3, 1) == Date2Days(100, 2, 28) + 2
    ensures NextDay(LAST) == DateTime(179, 6, 6, 0, 0, 0) && Date2Days(179, 6, 5) == 65535 && Date2Days(179, 6, 6) == 0
  {
    LastNumber();
    MonthSum3();
  }

  lemma MonthSum3()
    ensures MonthSum(2) == 31 && MonthSum(3) == 59
  {
  }

  lemma MonthTurns(y: nat, m: nat)
    requires 1 <= m < 12
    ensures DayNumber(y, m + 1, 1) ==
      DayNumber(y, m, MonthLength(2000 + y, m)) + if m == 2 && LostLeapDay(y) then 2 else 1
    ensures m == 2 && LostLeapDay(y) ==> MonthLength(2000 + y, m) == 28
  {
    LengthIff(y, m);
    DaysAs(y, m, MonthLength(2000 + y, m));
    DaysAs(y, m + 1, 1);
    MonthStep(Leap(y), m);
    hide *;
  }

  lemma YearTurns(y: nat)
    ensures DayNumber(y + 1, 1, 1) == DayNumber(y, 12, MonthLength(2000 + y, 12)) + 1
  {
    LengthIff(y, 12);
    DaysAs(y, 12, MonthLength(2000 + y, 12));
    DaysAs(y + 1, 1, 1);
    MonthStep(Leap(y), 12);
    JanuaryFirst(Leap(y + 1));
    WholeYear();
    hide *;
  }

  lemma LengthIff(y: nat, m: nat)
    requires 1 <= m <= 12
    ensures MonthLength(2000 + y, m) == if m == 2 && LostLeapDay(y) then 28 else DaysPerMonth(Leap(y), m)
    ensures m == 2 && LostLeapDay(y) ==> DaysPerMonth(Leap(y), m) == 29
  {
    LeapIff(y);
    hide GregorianLeap, LostLeapDay, Leap;
  }

  function YearStart(y: nat): int { 365 * y + (y + 3) / 4 - 1 }

  lemma DaysAs(y: nat, m: nat, d: nat)
    requires 1 <= m <= 12
    ensures DayNumber(y, m, d) == d + DaysBefore(Leap(y), m) + YearStart(y)
    ensures YearStart(y + 1) == YearStart(y) + 365 + Leap(y)
  {
  }

  lemma MonthStep(leap: nat, m: nat)
    requires leap <= 1 && 1 <= m <= 12
    ensures DaysBefore(leap, m + 1) == DaysBefore(leap, m) + DaysPerMonth(leap, m)
    ensures DaysBefore(leap, 13) == MonthSum(13) + leap
  {
  }

  lemma CenturyKept(y: nat)
    requires y < 100
    ensures !LostLeapDay(y)
  {
  }

  lemma NextDayCounts(a: DateTime)
    requires ValidDate(a) && a.yOff < 100 && NextDay(a).yOff < 100
    ensures
      var b := NextDay(a);
      ValidDate(b) && Date2Days(b.yOff, b.m, b.d) == Date2Days(a.yOff, a.m, a.d) + 1
  {
    CenturyKept(a.yOff);
    hide Date2Days, DayNumber, NextDay, MonthLength, LostLeapDay;
    NextDayCountsIff(a);
  }

  /** The day of the week advances by one modulo seven from one day to the next exactly when the day count advances
      by one; and the first of January 2000 was a Saturday. */
  lemma WeekAdvancesIff(a: DateTime)
    requires ValidDate(a) && NextDay(a).yOff < 256
    ensures
      (DayOfTheWeek(NextDay(a)) == (DayOfTheWeek(a) + 1) % 7)
      <==> (!(a.m == 2 && a.d == 28 && LostLeapDay(a.yOff)) && !LastCounted(a))
    ensures DayOfTheWeek(DateTime(0, 1, 1, 0, 0, 0)) == 6
  {
    NextDayStep(a);
    LastIff(a);
    SumBounds(a);
    Saturday();
    hide DayNumber, MonthLength, LostLeapDay, LastCounted;
    NextWeekday(DayNumber(a.yOff, a.m, a.d), DayNumber(NextDay(a).yOff, NextDay(a).m, NextDay(a).d));
  }

  lemma NextWeekday(n: nat, k: nat)
    requires (k == n + 1 || k == n + 2) && n < 131071
    ensures (k % 65536 + 6) % 7 == ((n % 65536 + 6) % 7 + 1) % 7 <==> k == n + 1 && n % 65536 != 65535
  {
  }

  lemma Saturday()
    ensures DayNumber(0, 1, 1) == 0
  {
  }

  /** A day later is the next day of the calendar, at the same time. */
  lemma DayLater(t: nat)
    requires SECONDS_FROM_1970_TO_2000 <= t && t + 86400 < END
    ensures ValidDate(FromUnix(t)) && FromUnix(t + 86400) == NextDay(FromUnix(t))
  {
    hide DayNumber, Date2Days, MonthLength, FromUnix, Time2Long;
    RoundTrip(t);
    RoundTrip(t + 86400);
    var a, b := FromUnix(t), FromUnix(t + 86400);
    NotLastDay(a);
    NextDayCounts(a);
    OneDay(Date2Days(a.yOff, a.m, a.d), a.hh, a.mm, a.ss);
    UnixTimeUnique(b, NextDay(a));
  }

  /** One second later on the clock. */
  function NextSecond(t: DateTime): DateTime
    requires ValidDate(t)
  {
    if t.ss < 59 then t.(ss := t.ss + 1)
    else if t.mm < 59 then t.(mm := t.mm + 1, ss := 0)
    else if t.hh < 23 then t.(hh := t.hh + 1, mm := 0, ss := 0)
    else NextDay(t).(hh := 0, mm := 0, ss := 0)
  }

  /** The clock starts at midnight of the first of January 2000 and shows, one second later, one second more. */
  lemma SecondLater(t: nat)
    requires SECONDS_FROM_1970_TO_2000 <= t && t + 1 < END
    ensures FromUnix(946684800) == DateTime(0, 1, 1, 0, 0, 0)
    ensures ValidDate(FromUnix(t)) && FromUnix(t + 1) == NextSecond(FromUnix(t))
  {
    var s := t - SECONDS_FROM_1970_TO_2000;
    RoundTrip(t);
    FirstDay();
    FieldsStep(s);
    hide DateOf, NextDay, Fields, ValidDate;
    FromFields(t);
    FromFields(t + 1);
    if s % 86400 == 86399 { DateStep(Fields(s).0); }
  }

  /** Days, hours, minutes and seconds. */
  function Fields(s: nat): (nat, nat, nat, nat) { (s / 60 / 60 / 24, s / 60 / 60 % 24, s / 60 % 60, s % 60) }

  lemma FromFields(t: nat)
    requires SECONDS_FROM_1970_TO_2000 <= t
    ensures
      var (days, h, m, s) := Fields(t - SECONDS_FROM_1970_TO_2000);
      FromUnix(t) == DateOf(days).(hh := h, mm := m, ss := s)
  {
  }

  lemma FieldsStep(s: nat)
    ensures
      var (days, h, m, n) := Fields(s);
      && h < 24 && m < 60 && n < 60
      && Fields(s + 1) ==
           (if n < 59 then (days, h, m, n + 1) else if m < 59 then (days, h, m + 1, 0)
            else if h < 23 then (days, h + 1, 0, 0) else (days + 1, 0, 0, 0))
      && (h == 23 && m == 59 && n == 59 <==> s % 86400 == 86399)
      && days == s / 86400
  {
    var (minutes, hours) := (s / 60, s / 60 / 60);
    Carry60(s);
    Carry60(minutes);
    Carry24(hours);
    LastSecondIff(s, minutes, hours, hours / 24);
  }

  lemma Carry60(s: nat)
    ensures s % 60 < 59 ==> (s + 1) / 60 == s / 60 && (s + 1) % 60 == s % 60 + 1
    ensures s % 60 == 59 ==> (s + 1) / 60 == s / 60 + 1 && (s + 1) % 60 == 0
  {
  }

  lemma Carry24(s: nat)
    ensures s % 24 < 23 ==> (s + 1) / 24 == s / 24 && (s + 1) % 24 == s % 24 + 1
    ensures s % 24 == 23 ==> (s + 1) / 24 == s / 24 + 1 && (s + 1) % 24 == 0
  {
  }

  lemma LastSecondIff(s: nat, minutes: nat, hours: nat, days: nat)
    requires minutes == s / 60 && hours == minutes / 60 && days == hours / 24
    ensures hours % 24 == 23 && minutes % 60 == 59 && s % 60 == 59 <==> s % 86400 == 86399
    ensures days == s / 86400
  {
    var (h, m, n) := (hours % 24, minutes % 60, s % 60);
    assert hours == 24 * days + h && minutes == 60 * hours + m && s == 60 * minutes + n;
    InDay(s, days, 3600 * h + 60 * m + n);
  }

  lemma InDay(s: nat, days: nat, rest: nat)
    requires s == 86400 * days + rest && rest < 86400
    ensures s / 86400 == days && s % 86400 == rest
  {
  }

  lemma DateStep(days: nat)
    requires SECONDS_FROM_1970_TO_2000 + 86400 * (days + 1) < END
    ensures ValidDate(DateOf(days)) && DateOf(days + 1) == NextDay(DateOf(days))
  {
    var t := SECONDS_FROM_1970_TO_2000 + 86400 * days;
    DayLater(t);
    hide DateOf, NextDay;
    FromFields(t);
    FromFields(t + 86400);
    Midnight(days);
    Midnight(days + 1);
  }

  lemma Midnight(days: nat)
    ensures Fields(86400 * days) == (days, 0, 0, 0)
  {
    assert 86400 * days / 60 == 1440 * days && 86400 * days % 60 == 0;
    assert 1440 * days / 60 == 24 * days && 1440 * days % 60 == 0;
    assert 24 * days / 24 == days && 24 * days % 24 == 0;
  }

  lemma FirstDay()
    ensures DateOf(0) == DateTime(0, 1, 1, 0, 0, 0)
  {
  }

  lemma OneDay(days: int, h: nat, m: nat, s: nat)
    ensures Time2Long(days + 1, h, m, s) == Time2Long(days, h, m, s) + 86400
  {
  }

  lemma NotLastDay(a: DateTime)
    requires Valid(a) && a.yOff < 100 && UnixTime(a) < END
    ensures NextDay(a).yOff < 100
  {
    FitsWord(a);
    hide Date2Days;
  }

  // ---------------------------------------------------------------- the loops

  function Word(n: int): (r: nat)
    ensures r < 65536
  {
    n % 65536
  }

  lemma AddWord(a: int, b: int)
    ensures Word(Word(a) + b) == Word(a + b)
  {
  }

  /** `date2days`, every assignment in 16 bits. */
  method CountDays(y0: nat, m: nat, d: nat) returns (days: nat)
    requires 1 <= m <= 12
    ensures days == Date2Days(if y0 >= 2000 then y0 - 2000 else y0, m, d)
  {
    hide Word, DaysInMonth;
    var y := if y0 >= 2000 then y0 - 2000 else y0;
    days := Word(d);
    var i := 1;
    while i < m
      invariant 1 <= i <= m && days == Word(d + MonthSum(i))
    {
      AddWord(d + MonthSum(i), DaysInMonth(i));
      days := Word(days + DaysInMonth(i));
      i := i + 1;
    }
    ghost var sum := d + MonthSum(m);
    AddWord(sum, 1);
    if m > 2 && y % 4 == 0 {
      sum := sum + 1;
      days := Word(days + 1);
    }
    AddWord(sum, 365 * y + (y + 3) / 4 - 1);
    days := Word(days + (365 * y + (y + 3) / 4 - 1));
    AsWord(y, m, d);
  }

  lemma AsWord(y: nat, m: nat, d: nat)
    requires 1 <= m <= 12
    ensures Date2Days(y, m, d) == Word(DayNumber(y, m, d))
  {
  }

  method FindYear(days0: nat) returns (yOff: nat, days: nat)
    ensures (yOff, days) == YearOf(0, days0)
  {
    yOff, days := 0, days0;
    var leap := Leap(yOff);
    while days >= 365 + leap
      invariant leap == Leap(yOff) && YearOf(0, days0) == YearOf(yOff, days)
      decreases days
    {
      days := days - (365 + leap);
      yOff := yOff + 1;
      leap := Leap(yOff);
    }
  }

  method FindMonth(leap: nat, days0: nat) returns (m: nat, days: nat)
    requires leap <= 1 && days0 < 365 + leap
    ensures (m, days) == MonthOf(leap, 1, days0)
  {
    m, days := 1, days0;
    while days >= DaysPerMonth(leap, m)
      invariant 1 <= m <= 12 && MonthOf(leap, 1, days0) == MonthOf(leap, m, days)
      decreases 12 - m
    {
      InYear(leap, days0);
      days := days - DaysPerMonth(leap, m);
      m := m + 1;
    }
  }

  /** The days of a year end in December. */
  lemma InYear(leap: nat, days: nat)
    requires leap <= 1 && days < 365 + leap
    ensures MonthOf(leap, 1, days).1 < DaysPerMonth(leap, MonthOf(leap, 1, days).0)
  {
    JanuaryFirst(leap);
    MonthOfDays(leap, 1, days);
  }

  /** The constructor from a Unix time. */
  method Construct(unix: nat) returns (r: DateTime)
    requires SECONDS_FROM_1970_TO_2000 <= unix < END
    ensures r == FromUnix(unix)
  {
    hide YearOf, MonthOf;
    var t := unix - SECONDS_FROM_1970_TO_2000;
    var ss := t % 60;
    t := t / 60;
    var mm := t % 60;
    t := t / 60;
    var hh := t % 24;
    YearOfDays(0, t / 24);
    var yOff, days := FindYear(t / 24);
    var m;
    m, days := FindMonth(Leap(yOff), days);
    r := DateTime(yOff, m, days + 1, hh, mm, ss);
  }
}
