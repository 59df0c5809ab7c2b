/** Seconds since the Epoch: the formulas of the program against counting day by day.

    Years are counted from 1900, months from 0 and days of the month from 1.  Division in the
    program truncates towards zero, which makes its formulas wrong for some years before 1900.  What
    they give is therefore compared, for every date of the Gregorian calendar extended backwards,
    with the number of days that counting day by day gives.
  */
module Calendar {
  import opened Bits

  /** Division that truncates towards zero. */
  function Div(a: int, b: nat): int
    requires b > 0
  {
    if a >= 0 then a / b else -((-a) / b)
  }

  function Mod(a: int, b: nat): int
    requires b > 0
  {
    a - b * Div(a, b)
  }

  // ----- The program's formulas

  function IsLeapYear(year: int): bool {
    if Mod(year, 400) == 100 then true
    else if Mod(year, 100) == 0 then false
    else Mod(year, 4) == 0
  }

  function LeapYearsToEnd(year: int): int {
    Div(year, 4) - Div(year, 100) + Div(year + 300, 400)
  }

  const OFFSET: seq<int> := [1, 4, 3, 6, 1, 4, 6, 2, 5, 0, 3, 5]

  function DayOfWeek(year: int, month: int, day: int): int
    requires 0 <= month < 12
  {
    var pseudo := if month < 2 then year - 1 else year;
    Mod(pseudo + LeapYearsToEnd(pseudo) + OFFSET[month] + day, 7)
  }

  const DAYS_TO_MONTH: seq<int> := [0, 31, 59, 90, 120, 151, 181, 212, 243, 273, 304, 334]

  function DayOfYear(year: int, month: int, day: int): int
    requires 0 <= month < 12
  {
    day - 1 + DAYS_TO_MONTH[month] + (if month >= 2 && IsLeapYear(year) then 1 else 0)
  }

  function DaysSinceEpoch(year: int, month: int, day: int): int
    requires 0 <= month < 12
  {
    DayOfYear(year, month, day) + 365 * year - 25567 + LeapYearsToEnd(year - 1)
  }

  // ----- The calendar

  /** The rule of the Gregorian calendar, on the full year. */
  predicate Gregorian(year: int) {
    (year + 1900) % 4 == 0 && ((year + 1900) % 100 != 0 || (year + 1900) % 400 == 0)
  }

  function MonthLength(year: int, month: int): int
    requires 0 <= month < 12
  {
    if month == 1 then (if Gregorian(year) then 29 else 28)
    else if month == 3 || month == 5 || month == 8 || month == 10 then 30
    else 31
  }

  datatype Date = Date(year: int, month: int, day: int)

  predicate IsDate(d: Date) {
    0 <= d.month < 12 && 1 <= d.day <= MonthLength(d.year, d.month)
  }

  /** The day after. */
  function Tomorrow(d: Date): (t: Date)
    requires IsDate(d)
    ensures IsDate(t)
  {
    if d.day < MonthLength(d.year, d.month) then d.(day := d.day + 1)
    else if d.month < 11 then Date(d.year, d.month + 1, 1)
    else Date(d.year + 1, 0, 1)
  }

  /** The number of leap years since 1900, which is negative before. */
  function LeapYearsSince(year: int): int {
    year / 4 - year / 100 + (year + 300) / 400
  }

  /** Days from the start of the year. */
  function YearDay(d: Date): int
    requires 0 <= d.month < 12
  {
    d.day - 1 + DAYS_TO_MONTH[d.month] + (if d.month >= 2 && Gregorian(d.year) then 1 else 0)
  }

  /** The number of a date: zero for the Epoch, and one more each day. */
  function Number(d: Date): int
    requires 0 <= d.month < 12
  {
    YearDay(d) + 365 * d.year - 25567 + LeapYearsSince(d.year - 1)
  }

  /** The day of the week, by its number since the Epoch, a Thursday. */
  function Weekday(d: Date): (w: int)
    requires 0 <= d.month < 12
    ensures 0 <= w < 7
  {
    (Number(d) + 4) % 7
  }

  const EPOCH := Date(70, 0, 1)

  // ----- Remainders

  lemma {:induction false} ShiftMod(x: int, k: int, b: nat)
    requires b > 0
    ensures (x + k * b) % b == x % b
  {
    var q := x / b;
    assert x == q * b + x % b;
    assert (q + k) * b == q * b + k * b;
    DivModUnique(x + k * b, q + k, b, x % b);
  }

  /** Truncating division, and its remainder, in terms of the other. */
  lemma {:induction false} Truncated(x: int, b: nat)
    requires b > 0
    ensures Div(x, b) == x / b + if x < 0 && x % b != 0 then 1 else 0
    ensures Mod(x, b) == x % b - if x < 0 && x % b != 0 then b else 0
  {
    var q, r := x / b, x % b;
    assert x == q * b + r;
    MulCommutes(b, q);
    if x < 0 {
      assert (-q) * b == -(q * b);
      if r == 0 {
        DivModUnique(-x, -q, b, 0);
        Quotients(x, q, b);
      } else {
        assert (-q - 1) * b == -(q * b) - b;
        DivModUnique(-x, -q - 1, b, b - r);
        Quotients(x, q + 1, b);
      }
    }
  }

  lemma {:induction false} Quotients(x: int, q: int, b: nat)
    requires b > 0 && Div(x, b) == q
    ensures Mod(x, b) == x - q * b
  {
    MulCommutes(b, q);
  }

  /** How the divisors of leap years are related, counting from 1900. */
  lemma {:induction false} Remainders(year: int)
    ensures (year + 1900) % 4 == year % 4 && (year + 1900) % 100 == year % 100
    ensures (year + 1900) % 400 == (year + 300) % 400
    ensures (year + 300) % 400 == 0 <==> year % 400 == 100
    ensures year % 100 == 0 ==> year % 4 == 0
    ensures (year + 300) % 400 == 0 ==> year % 100 == 0
  {
    ShiftMod(year, 475, 4);
    ShiftMod(year, 19, 100);
    ShiftMod(year + 300, 4, 400);
    Hundreds(year);
    var q := (year + 300) / 400;
    if (year + 300) % 400 == 0 {
      assert year == (4 * q - 3) * 100 && year == (q - 1) * 400 + 100;
      DivModUnique(year, 4 * q - 3, 100, 0);
      DivModUnique(year, q - 1, 400, 100);
    }
    var p := year / 400;
    if year % 400 == 100 {
      assert year + 300 == (p + 1) * 400;
      DivModUnique(year + 300, p + 1, 400, 0);
    }
  }

  lemma {:induction false} Hundreds(year: int)
    ensures year % 100 == 0 ==> year % 4 == 0
  {
    if year % 100 == 0 {
      var q := year / 100;
      assert year == (25 * q) * 4;
      DivModUnique(year, 25 * q, 4, 0);
    }
  }

  // ----- Leap years

  /** The program takes for leap years exactly those of the Gregorian calendar, except that before
      1900 the years 1600, 1200 and so on are missing. */
  lemma {:induction false} LeapYearIsGregorian(year: int)
    ensures (IsLeapYear(year) <==> Gregorian(year)) <==> year >= 0 || (year + 1900) % 400 != 0
  {
    hide Mod, Div;
    Truncated(year, 400);
    Truncated(year, 100);
    Truncated(year, 4);
    Remainders(year);
  }

  /** The number of leap years grows by one with each leap year. */
  lemma {:induction false} LeapYearsGrow(year: int)
    ensures LeapYearsSince(year) == LeapYearsSince(year - 1) + (if Gregorian(year) then 1 else 0)
  {
    Quotient(year, 4);
    Quotient(year, 100);
    Quotient(year + 300, 400);
    Remainders(year);
  }

  lemma {:induction false} Quotient(x: int, b: nat)
    requires b > 1
    ensures x / b == (x - 1) / b + (if x % b == 0 then 1 else 0)
  {
    var q, r := x / b, x % b;
    assert x == q * b + r;
    if r == 0 {
      assert (q - 1) * b == q * b - b;
      DivModUnique(x - 1, q - 1, b, b - 1);
    } else {
      DivModUnique(x - 1, q, b, r - 1);
    }
  }

  /** How many leap years too many the program counts. */
  function CountError(year: int): int {
    if year >= 0 then 0
    else if year >= -300 then (if year % 4 == 0 && year % 100 != 0 then -1 else 0)
    else if Gregorian(year) then 0
    else 1
  }

  /** Leap years are counted right from 1900 on; back to 1600 one is missing in leap years that are not
      centuries, and before 1600 there is one too many in years that are not leap years. */
  lemma {:induction false} LeapYearsExactly(year: int)
    ensures LeapYearsToEnd(year) == LeapYearsSince(year) + CountError(year)
  {
    hide Div, Mod;
    Truncated(year, 4);
    Truncated(year, 100);
    Truncated(year + 300, 400);
    Remainders(year);
  }

  // ----- Day by day

  /** The next day has the next number. */
  lemma {:induction false} NextNumber(d: Date)
    requires IsDate(d)
    ensures Number(Tomorrow(d)) == Number(d) + 1
  {
    hide LeapYearsSince, Gregorian;
    LeapYearsGrow(d.year);
  }

  lemma {:induction false} EpochIsZero()
    ensures IsDate(EPOCH) && Number(EPOCH) == 0 && Weekday(EPOCH) == 4
  {
  }

  /** The Gregorian calendar in numbers: leap years, and the days of each month. */
  lemma {:induction false} Months(year: int, month: nat)
    requires month < 12
    ensures var full := year + 1900;
            && (Gregorian(year) <==> full % 400 == 0 || (full % 4 == 0 && full % 100 != 0))
            && MonthLength(year, month)
               == if month == 1 && Gregorian(year) then 29
                  else [31, 28, 31, 30, 31, 30, 31, 31, 30, 31, 30, 31][month]
  {
    Remainders(year);
  }

  /** The next day has the next weekday. */
  lemma {:induction false} NextWeekday(d: Date)
    requires IsDate(d)
    ensures Weekday(Tomorrow(d)) == (Weekday(d) + 1) % 7
  {
    hide Number, Tomorrow;
    NextNumber(d);
    NextMod(Number(d) + 4);
  }

  lemma {:induction false} NextMod(x: int)
    ensures (x + 1) % 7 == (x % 7 + 1) % 7
  {
  }

  /** The date a number of days after another. */
  function Later(d: Date, n: nat): (t: Date)
    requires IsDate(d)
    ensures IsDate(t)
  {
    if n == 0 then d else Tomorrow(Later(d, n - 1))
  }

  lemma {:induction false} LaterDays(d: Date, n: nat)
    requires IsDate(d)
    ensures Number(Later(d, n)) == Number(d) + n
  {
    hide Number, Tomorrow, IsDate;
    if n > 0 {
      LaterDays(d, n - 1);
      NextNumber(Later(d, n - 1));
    }
  }

  /** A day beyond the end of a month, such as the thirtieth of February, has the number of the date that many
      days after the first. */
  lemma {:induction false} BeyondMonth(d: Date)
    requires 0 <= d.month < 12 && d.day >= 1
    ensures Number(d) == Number(Later(Date(d.year, d.month, 1), d.day - 1))
  {
    hide Gregorian, LeapYearsSince, Later;
    LaterDays(Date(d.year, d.month, 1), d.day - 1);
  }

  /** Dates in order. */
  predicate Before(a: Date, b: Date) {
    a.year < b.year || (a.year == b.year && (a.month < b.month || (a.month == b.month && a.day < b.day)))
  }

  function Yesterday(d: Date): Date
    requires IsDate(d)
  {
    if d.day > 1 then d.(day := d.day - 1)
    else if d.month > 0 then Date(d.year, d.month - 1, MonthLength(d.year, d.month - 1))
    else Date(d.year - 1, 11, 31)
  }

  /** Every date is reached from every earlier one, day by day. */
  lemma {:induction false} Reached(a: Date, b: Date) returns (n: nat)
    requires IsDate(a) && IsDate(b) && !Before(b, a)
    ensures Later(a, n) == b && (n == 0 <==> a == b)
    decreases b.year - a.year, b.month, b.day
  {
    hide Gregorian;
    if a == b {
      n := 0;
    } else {
      var y := Yesterday(b);
      assert IsDate(y) && Tomorrow(y) == b && !Before(y, a);
      var k := Reached(a, y);
      n := k + 1;
    }
  }

  /** Later dates have larger numbers. */
  lemma {:induction false} DaysIncrease(a: Date, b: Date)
    requires IsDate(a) && IsDate(b)
    ensures Number(a) < Number(b) <==> Before(a, b)
    ensures Number(a) == Number(b) <==> a == b
  {
    hide Number, Later, IsDate;
    if Before(b, a) {
      var n := Reached(b, a);
      LaterDays(b, n);
    } else {
      var n := Reached(a, b);
      LaterDays(a, n);
    }
  }

  // ----- What the program computes

  /** How far the program's day of the year is off. */
  function LeapError(d: Date): int {
    if d.year < 0 && d.month >= 2 && (d.year + 1900) % 400 == 0 then -1 else 0
  }

  lemma {:induction false} YearDayExactly(d: Date)
    requires 0 <= d.month < 12
    ensures DayOfYear(d.year, d.month, d.day) == YearDay(d) + LeapError(d)
  {
    hide IsLeapYear, Gregorian;
    LeapYearIsGregorian(d.year);
    FourHundreds(d.year);
  }

  lemma {:induction false} SmallLeapError(d: Date)
    ensures -1 <= LeapError(d) <= 0
  {
  }

  lemma {:induction false} FourHundreds(year: int)
    ensures (year + 1900) % 400 == 0 ==> Gregorian(year)
  {
    Remainders(year);
  }

  /** How far the program's number of days is off. */
  function DayError(d: Date): int {
    CountError(d.year - 1) + LeapError(d)
  }

  lemma {:induction false} DaysExactly(d: Date)
    requires 0 <= d.month < 12
    ensures DaysSinceEpoch(d.year, d.month, d.day) == Number(d) + DayError(d)
  {
    hide LeapYearsToEnd, LeapYearsSince, CountError, DayOfYear, YearDay, LeapError, IsDate;
    YearDayExactly(d);
    LeapYearsExactly(d.year - 1);
  }

  /** The dates for which the program is right: from 1900 on; back to 1601 unless the year before was a
      leap year; and before that in years after a leap year and from March on in 1600, 1200 and so on,
      where two errors cancel out. */
  predicate Right(d: Date) {
    if d.year >= 0 then true
    else if d.year >= -299 then (d.year - 1) % 4 != 0 || (d.year - 1) % 100 == 0
    else Gregorian(d.year - 1) || (d.month >= 2 && (d.year + 1900) % 400 == 0)
  }

  /** It is off by at most one day. */
  lemma {:induction false} RightExactly(d: Date)
    ensures DayError(d) == 0 <==> Right(d)
    ensures -1 <= DayError(d) <= 1
  {
    Remainders(d.year);
    Remainders(d.year - 1);
    if (d.year + 1900) % 400 == 0 {
      Quotient(d.year + 1900, 4);
      NotBoth(d.year);
      Century(d.year);
    }
  }

  /** The year before a leap year is none. */
  lemma {:induction false} NotBoth(year: int)
    requires year % 4 == 0
    ensures (year - 1) % 4 != 0
  {
  }

  /** The last of 1600, 1200 and so on before 1900 is 1600. */
  lemma {:induction false} Century(year: int)
    requires (year + 1900) % 400 == 0
    ensures year >= 0 || year <= -300
  {
    var q := (year + 1900) / 400;
    assert year + 1900 == q * 400;
  }

  // ----- Days of the week

  /** What the weekday formula would reduce modulo seven if leap years were counted right. */
  function WeekSum(d: Date): int
    requires 0 <= d.month < 12
  {
    PseudoYear(d) + LeapYearsSince(PseudoYear(d)) + OFFSET[d.month] + d.day
  }

  function PseudoYear(d: Date): int {
    if d.month < 2 then d.year - 1 else d.year
  }

  const WEEKS: seq<int> := [0, 4, 8, 12, 17, 21, 25, 30, 34, 39, 43, 47]

  /** The formula with its own table of offsets agrees with counting days. */
  lemma {:induction false} WeekdayIs(d: Date)
    requires 0 <= d.month < 12
    ensures WeekSum(d) % 7 == Weekday(d)
  {
    hide LeapYearsSince, Gregorian;
    LeapYearsGrow(d.year);
    var k := 52 * d.year - 3652 + WEEKS[d.month];
    assert Number(d) + 4 == WeekSum(d) + k * 7;
    ShiftMod(WeekSum(d), k, 7);
  }

  /** The program's day of the week is right exactly if leap years are counted right and moreover the
      sum is not negative or the day is a Sunday. */
  lemma {:induction false} WeekdayExactly(d: Date)
    requires 0 <= d.month < 12
    ensures DayOfWeek(d.year, d.month, d.day) == Weekday(d) <==>
            CountError(PseudoYear(d)) == 0 && (WeekSum(d) >= 0 || Weekday(d) == 0)
  {
    hide LeapYearsToEnd, LeapYearsSince, CountError, IsDate, Mod, Weekday;
    var e := CountError(PseudoYear(d));
    LeapYearsExactly(PseudoYear(d));
    WeekdayIs(d);
    Truncated(WeekSum(d) + e, 7);
    assert -1 <= e <= 1 by { SmallError(PseudoYear(d)); }
    if e != 0 {
      OneOff(WeekSum(d), e);
    }
  }

  lemma {:induction false} SmallError(year: int)
    ensures -1 <= CountError(year) <= 1
  {
    hide Gregorian;
  }

  lemma {:induction false} OneOff(x: int, e: int)
    requires e == 1 || e == -1
    ensures (x + e) % 7 != x % 7 && (x + e) % 7 - 7 != x % 7
  {
  }

  /** From 1900 on it is always right. */
  lemma {:induction false} WeekdayFrom1900(d: Date)
    requires 0 <= d.month < 12 && d.year >= 0 && d.day >= 1
    ensures CountError(PseudoYear(d)) == 0 && WeekSum(d) >= 0
  {
    hide LeapYearsSince, Gregorian;
    LeapYearsNonnegative(PseudoYear(d));
  }

  lemma {:induction false} LeapYearsNonnegative(year: int)
    requires year >= -1
    ensures LeapYearsSince(year) >= 0 && CountError(year) == 0
    decreases year + 1
  {
    hide Gregorian;
    if year >= 0 {
      LeapYearsNonnegative(year - 1);
      LeapYearsGrow(year);
    }
  }

  /** Dates before 1900 for which the program is wrong: 1600 is taken for a common year, the first of
      January 1897 has the number of the day before, and that of 1850 has a negative weekday. */
  lemma {:induction false} WrongBefore1900()
    ensures Gregorian(-300) && !IsLeapYear(-300)
    ensures DaysSinceEpoch(-3, 0, 1) == DaysSinceEpoch(-4, 11, 31) && Tomorrow(Date(-4, 11, 31)) == Date(-3, 0, 1)
    ensures DayOfWeek(-50, 0, 1) < 0
  {
    hide IsLeapYear, LeapYearsToEnd, Mod, Div;
    LeapYearIsGregorian(-300);
    Leap1896();
    assert LeapYearsToEnd(-4) == -1 && LeapYearsToEnd(-5) == -1 && LeapYearsToEnd(-51) == -12 by {
      LeapYearsExactly(-4);
      LeapYearsExactly(-5);
      LeapYearsExactly(-51);
    }
    Truncated(-61, 7);
  }

  lemma {:induction false} Leap1896()
    ensures IsLeapYear(-4)
  {
    hide Mod;
    Truncated(-4, 400);
    Truncated(-4, 100);
    Truncated(-4, 4);
  }

  // ----- Seconds

  datatype Time = Time(hour: int, minute: int, second: int)

  predicate IsTime(t: Time) {
    0 <= t.hour < 24 && 0 <= t.minute < 60 && 0 <= t.second < 60
  }

  function SecondOfDay(t: Time): int {
    (t.hour * 60 + t.minute) * 60 + t.second
  }

  function Seconds(d: Date, t: Time): int
    requires 0 <= d.month < 12
  {
    Number(d) * 86400 + SecondOfDay(t)
  }

  /** The formula of POSIX:2008, section 4.15. */
  function Posix(d: Date, t: Time): int
    requires 0 <= d.month < 12
  {
    t.second + t.minute * 60 + t.hour * 3600 + YearDay(d) * 86400
    + (d.year - 70) * 31536000 + ((d.year - 69) / 4) * 86400 - ((d.year - 1) / 100) * 86400
    + ((d.year + 299) / 400) * 86400
  }

  /** Counting day by day agrees with that formula. */
  lemma {:induction false} PosixAgrees(d: Date, t: Time)
    requires 0 <= d.month < 12
    ensures Seconds(d, t) == Posix(d, t)
  {
    hide YearDay, IsDate;
    var y := d.year;
    assert (y - 1) / 4 == (y - 69) / 4 + 17;
  }

  /** Later moments have more seconds. */
  lemma {:induction false} SecondsIncrease(a: Date, s: Time, b: Date, t: Time)
    requires IsDate(a) && IsDate(b) && IsTime(s) && IsTime(t)
    ensures Seconds(a, s) < Seconds(b, t) <==> Before(a, b) || (a == b && SecondOfDay(s) < SecondOfDay(t))
    ensures Seconds(a, s) == Seconds(b, t) <==> a == b && s == t
  {
    hide Number, IsDate, SecondOfDay, Before;
    DaysIncrease(a, b);
    WithinDay(s, t);
    WithinDay(t, s);
  }

  lemma {:induction false} WithinDay(s: Time, t: Time)
    requires IsTime(s) && IsTime(t)
    ensures 0 <= SecondOfDay(s) < 86400 && (SecondOfDay(s) == SecondOfDay(t) <==> s == t)
  {
  }

  /** A broken-down time. */
  class Tm {
    var year: int
    var month: int
    var day: int
    var hour: int
    var minute: int
    var second: int
    var dayOfYear: int
    var dayOfWeek: int

    ghost function When(): Date
      reads this
    {
      Date(year, month, day)
    }

    /** Seconds since the Epoch; the day of the year and of the week are filled in.  Each of these is
        right exactly under a condition that holds from 1900 on, and the first two are otherwise off
        by one day.  Days beyond the end of the month are counted on into the next ones. */
    method MakeTime() returns (seconds: int)
      requires 0 <= month < 12
      modifies this`dayOfYear, this`dayOfWeek
      ensures seconds == Seconds(When(), Time(hour, minute, second)) + DayError(When()) * 86400
      ensures dayOfYear == YearDay(When()) + LeapError(When())
      ensures -1 <= DayError(When()) <= 1 && -1 <= LeapError(When()) <= 0
      ensures seconds == Posix(When(), Time(hour, minute, second)) <==> Right(When())
      ensures dayOfWeek == Weekday(When()) <==>
              CountError(PseudoYear(When())) == 0 && (WeekSum(When()) >= 0 || Weekday(When()) == 0)
      ensures year >= 0 ==> Right(When()) && dayOfYear == YearDay(When())
      ensures year >= 0 ==>
                && dayOfYear == day - 1 + [0, 31, 59, 90, 120, 151, 181, 212, 243, 273, 304, 334][month]
                                + (if month >= 2 && Gregorian(year) then 1 else 0)
                && seconds == second + minute * 60 + hour * 3600 + dayOfYear * 86400 + (year - 70) * 31536000
                              + ((year - 69) / 4) * 86400 - ((year - 1) / 100) * 86400 + ((year + 299) / 400) * 86400
      ensures year >= 0 && day >= 1 ==> dayOfWeek == Weekday(When())
    {
      hide Gregorian, LeapYearsToEnd, CountError, LeapError, Number, YearDay, WeekSum, Weekday, Mod, Posix, DayError,
           Right;
      ghost var d, t := When(), Time(hour, minute, second);
      YearDayExactly(d);
      DaysExactly(d);
      WeekdayExactly(d);
      RightExactly(d);
      PosixAgrees(d, t);
      SmallLeapError(d);
      if year >= 0 {
        From1900(d);
        Formula(d, t);
        if day >= 1 {
          WeekdayFrom1900(d);
        }
      }
      dayOfYear := day - 1 + DAYS_TO_MONTH[month];
      if month >= 2 && IsLeapYear(year) {
        dayOfYear := dayOfYear + 1;
      }
      dayOfWeek := DayOfWeek(year, month, day);
      var days := dayOfYear + 365 * year - 25567 + LeapYearsToEnd(year - 1);
      var inDay := (hour * 60 + minute) * 60 + second;
      seconds := days * 86400 + inDay;
    }
  }

  lemma {:induction false} Formula(d: Date, t: Time)
    requires 0 <= d.month < 12
    ensures YearDay(d) == d.day - 1 + [0, 31, 59, 90, 120, 151, 181, 212, 243, 273, 304, 334][d.month]
                          + if d.month >= 2 && Gregorian(d.year) then 1 else 0
    ensures Posix(d, t) == t.second + t.minute * 60 + t.hour * 3600 + YearDay(d) * 86400 + (d.year - 70) * 31536000
                           + ((d.year - 69) / 4) * 86400 - ((d.year - 1) / 100) * 86400 + ((d.year + 299) / 400) * 86400
  {
    hide Gregorian;
  }

  lemma {:induction false} From1900(d: Date)
    requires d.year >= 0
    ensures Right(d) && LeapError(d) == 0
  {
  }
}
