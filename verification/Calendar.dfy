/** Dates, their YYYYMMDD codes, Rata Die day numbers and weekdays. */
module Calendar {
  datatype Date = Date(year: nat, month: nat, day: nat)

  predicate IsLeap(y: nat) {
    y % 4 == 0 && (y % 100 != 0 || y % 400 == 0)
  }

  function DaysInMonth(y: nat, m: nat): nat {
    if m == 2 then (if IsLeap(y) then 29 else 28)
    else if m == 4 || m == 6 || m == 9 || m == 11 then 30
    else 31
  }

  /** A day of the Gregorian calendar, from 0001-01-01 to 9999-12-31 and beyond. */
  predicate ValidDate(d: Date) {
    1 <= d.year && 1 <= d.month <= 12 && 1 <= d.day <= DaysInMonth(d.year, d.month)
  }

  /** The calendar's own rule for the following day. */
  function NextDay(d: Date): (r: Date)
    requires ValidDate(d)
    ensures ValidDate(r)
  {
    if d.day < DaysInMonth(d.year, d.month) then d.(day := d.day + 1)
    else if d.month < 12 then Date(d.year, d.month + 1, 1)
    else Date(d.year + 1, 1, 1)
  }

  /** The date `n` days later. */
  function AddDays(d: Date, n: nat): (r: Date)
    requires ValidDate(d)
    ensures ValidDate(r)
  {
    if n == 0 then d else NextDay(AddDays(d, n - 1))
  }

  // ---------------------------------------------------------------- the program's arithmetic

  /** Rata Die, for any numbers a date is made of. */
  function Rdn(d: Date): int {
    var y: int := if d.month < 3 then d.year - 1 else d.year;
    var m := if d.month < 3 then d.month + 12 else d.month;
    365 * y + LeapDays(y) + MonthOffset(m) + d.day - 306
  }

  /** Leap days of the years up to `y`; division truncates, as in the program. */
  function LeapDays(y: int): int {
    if y >= 0 then y / 4 - y / 100 + y / 400 else -((-y) / 4 - (-y) / 100 + (-y) / 400)
  }

  /** Days before month `m` of a year that starts in March, month 3. */
  function MonthOffset(m: nat): int {
    (153 * m - 457) / 5
  }

  /** The unsigned 32-bit difference of two day numbers. */
  function DaysAfter(later: Date, earlier: Date): int {
    (Rdn(later) - Rdn(earlier)) % 0x1_0000_0000
  }

  /** Monday is 0. */
  function DayOfWeek(d: Date): nat
    requires 1 <= d.year && 1 <= d.month <= 12
  {
    var offsets := [0, 3, 2, 5, 0, 3, 5, 1, 4, 6, 2, 4];
    var y := if d.month < 3 then d.year - 1 else d.year;
    var res := (y + LeapDays(y) + offsets[d.month - 1] + d.day) % 7;
    if res == 0 then 6 else res - 1
  }

  function Code(d: Date): nat {
    d.year * 10000 + d.month * 100 + d.day
  }

  /** How the constructor of a date takes its code apart. */
  function FromCode(code: nat): Date {
    Date(code / 10000, (code / 100) % 100, code % 100)
  }

  // ---------------------------------------------------------------- laws

  lemma LeapStep(y: nat)
    requires 1 <= y
    ensures LeapDays(y) - LeapDays(y - 1) == if IsLeap(y) then 1 else 0
  {
    FourYears(y);
    Centuries(y);
    FourCenturies(y);
  }

  lemma FourYears(y: nat)
    requires 1 <= y
    ensures y / 4 - (y - 1) / 4 == if y % 4 == 0 then 1 else 0
  {
  }

  lemma Centuries(y: nat)
    requires 1 <= y
    ensures y / 100 - (y - 1) / 100 == if y % 100 == 0 then 1 else 0
    ensures y % 100 == 0 ==> y % 4 == 0
  {
  }

  lemma FourCenturies(y: nat)
    requires 1 <= y
    ensures y / 400 - (y - 1) / 400 == if y % 400 == 0 then 1 else 0
    ensures y % 400 == 0 ==> y % 100 == 0
  {
  }

  lemma MonthOffsets()
    ensures MonthOffset(3) == 0 && MonthOffset(4) == 31 && MonthOffset(5) == 61
    ensures MonthOffset(6) == 92 && MonthOffset(7) == 122 && MonthOffset(8) == 153
    ensures MonthOffset(9) == 184 && MonthOffset(10) == 214 && MonthOffset(11) == 245
    ensures MonthOffset(12) == 275 && MonthOffset(13) == 306 && MonthOffset(14) == 337
  {
  }

  lemma MonthStep(m: nat)
    requires 3 <= m <= 13
    ensures MonthOffset(m + 1) - MonthOffset(m) == if m == 4 || m == 6 || m == 9 || m == 11 then 30 else 31
  {
    MonthOffsets();
  }

  /** Across days, months, leap days, years and centuries alike, the next day has the next number. */
  lemma NextDayIsNextNumber(d: Date)
    requires ValidDate(d)
    ensures Rdn(NextDay(d)) == Rdn(d) + 1
  {
    var y, m := d.year, d.month;
    if d.day < DaysInMonth(y, m) {
      assert Rdn(NextDay(d)) == Rdn(d) + 1;
    } else if m == 2 {
      LeapStep(y);
      MonthOffsets();
      assert Rdn(d) == 365 * (y - 1) + LeapDays(y - 1) + 337 + d.day - 306;
      assert Rdn(NextDay(d)) == 365 * y + LeapDays(y) + 0 + 1 - 306;
    } else if m < 12 {
      MonthStep(if m < 3 then m + 12 else m);
    } else {
      MonthOffsets();
      assert Rdn(d) == 365 * y + LeapDays(y) + 275 + d.day - 306;
      assert Rdn(NextDay(d)) == 365 * y + LeapDays(y) + 306 + 1 - 306;
    }
  }

  /** Day one is 0001-01-01. */
  lemma DayOne()
    ensures Rdn(Date(1, 1, 1)) == 1 && DayOfWeek(Date(1, 1, 1)) == 0
  {
    MonthOffsets();
  }

  lemma {:induction false} AddDaysCounts(d: Date, n: nat)
    requires ValidDate(d)
    ensures Rdn(AddDays(d, n)) == Rdn(d) + n
  {
    if n == 0 {
    } else {
      AddDaysCounts(d, n - 1);
      NextDayIsNextNumber(AddDays(d, n - 1));
    }
  }

  lemma {:induction false} YearNumbers(y: nat, z: nat)
    requires 1 <= y < z
    ensures Rdn(Date(z, 1, 1)) >= Rdn(Date(y, 1, 1)) + 365 * (z - y)
    decreases z
  {
    LeapStep(z - 1);
    if y == z - 1 {
    } else {
      YearNumbers(y, z - 1);
    }
  }

  /** Inside a year, day numbers and codes grow together. */
  lemma WithinYear(a: Date, b: Date)
    requires ValidDate(a) && ValidDate(b) && a.year == b.year && Code(a) < Code(b)
    ensures Rdn(a) < Rdn(b)
  {
    LeapStep(a.year);
    assert a.month < b.month || (a.month == b.month && a.day < b.day);
    if a.month < b.month {
      MonthNumbers(a, b);
    }
  }

  lemma MonthNumbers(a: Date, b: Date)
    requires ValidDate(a) && ValidDate(b) && a.year == b.year && a.month < b.month
    ensures Rdn(a) < Rdn(b)
  {
    YearDay(a);
    YearDay(b);
    MonthsInOrder(a.year, a.month, b.month);
  }

  lemma MonthsInOrder(y: nat, m: nat, n: nat)
    requires 1 <= m < n <= 12
    ensures DaysBefore(y, m) + DaysInMonth(y, m) <= DaysBefore(y, n)
  {
  }

  /** Days of the year before its month `m`. */
  function DaysBefore(y: nat, m: nat): int
    requires 1 <= m <= 12
  {
    [0, 31, 59, 90, 120, 151, 181, 212, 243, 273, 304, 334][m - 1] + if m > 2 && IsLeap(y) then 1 else 0
  }

  /** A day number is that of the first day of the year, and the days passed since. */
  lemma YearDay(d: Date)
    requires ValidDate(d)
    ensures Rdn(d) == Rdn(Date(d.year, 1, 1)) + DaysBefore(d.year, d.month) + d.day - 1
  {
    LeapStep(d.year);
    MonthsPassed(d.month);
  }

  lemma MonthsPassed(m: nat)
    requires 1 <= m <= 12
    ensures var days := [0, 31, 59, 90, 120, 151, 181, 212, 243, 273, 304, 334][m - 1];
            if m < 3 then MonthOffset(m + 12) == 306 + days else MonthOffset(m) + 365 == 306 + days
  {
    MonthOffsets();
  }

  lemma YearBounds(d: Date)
    requires ValidDate(d)
    ensures Rdn(Date(d.year, 1, 1)) <= Rdn(d) < Rdn(Date(d.year + 1, 1, 1))
    ensures Rdn(d) < Rdn(Date(d.year, 1, 1)) + 366
  {
    YearDay(d);
    YearLength(d.year);
  }

  lemma YearLength(y: nat)
    requires 1 <= y
    ensures Rdn(Date(y + 1, 1, 1)) == Rdn(Date(y, 1, 1)) + if IsLeap(y) then 366 else 365
  {
    LeapStep(y);
  }

  /** Code order, day-number order and calendar order are the same. */
  lemma CodeOrderIsDayOrder(a: Date, b: Date)
    requires ValidDate(a) && ValidDate(b)
    ensures Code(a) < Code(b) <==> Rdn(a) < Rdn(b)
    ensures Code(a) == Code(b) <==> a == b
    ensures Rdn(a) == Rdn(b) <==> a == b
  {
    CodeRoundTrip(a);
    CodeRoundTrip(b);
    if Code(a) < Code(b) {
      SmallerCode(a, b);
    } else if Code(b) < Code(a) {
      SmallerCode(b, a);
    }
  }

  lemma SmallerCode(a: Date, b: Date)
    requires ValidDate(a) && ValidDate(b) && Code(a) < Code(b)
    ensures Rdn(a) < Rdn(b)
  {
    if a.year == b.year {
      WithinYear(a, b);
    } else {
      assert a.year < b.year;
      YearBounds(a);
      YearBounds(b);
      if a.year + 1 < b.year {
        YearNumbers(a.year + 1, b.year);
      }
    }
  }

  lemma CodeRoundTrip(d: Date)
    requires ValidDate(d)
    ensures FromCode(Code(d)) == d
  {
    assert Code(d) / 100 == d.year * 100 + d.month;
  }

  lemma NumberRange(d: Date)
    requires ValidDate(d) && d.year <= 0xFFFF
    ensures 1 <= Rdn(d) < 0x1_0000_0000
  {
    MonthOffsets();
    var y := if d.month < 3 then d.year - 1 else d.year;
    assert 0 <= LeapDays(y) <= y;
  }

  /** `days_after` counts calendar days: it is the `n` for which `n` days after `a` is `b`. The
      year is a 16-bit field. */
  lemma DaysAfterCounts(a: Date, b: Date)
    requires ValidDate(a) && ValidDate(b) && Code(a) <= Code(b) && b.year <= 0xFFFF
    ensures AddDays(a, DaysAfter(b, a)) == b
    ensures DaysAfter(b, a) == Rdn(b) - Rdn(a)
  {
    CodeOrderIsDayOrder(a, b);
    NumberRange(a);
    NumberRange(b);
    var n := Rdn(b) - Rdn(a);
    SmallModulo(n);
    AddDaysCounts(a, n);
    CodeOrderIsDayOrder(AddDays(a, n), b);
  }

  lemma SmallModulo(n: int)
    requires 0 <= n < 0x1_0000_0000
    ensures n % 0x1_0000_0000 == n
  {
  }

  /** The weekday of 0001-01-01 is Monday, and weekdays follow the day number. */
  lemma WeekdayFollowsDayNumber(d: Date)
    requires ValidDate(d)
    ensures DayOfWeek(d) == (Rdn(d) - 1) % 7
  {
    var y := if d.month < 3 then d.year - 1 else d.year;
    var offset := [0, 3, 2, 5, 0, 3, 5, 1, 4, 6, 2, 4][d.month - 1];
    WeekOffset(d.month);
    var k :| MonthOffset(if d.month < 3 then d.month + 12 else d.month) - 306 - offset == 7 * k;
    WholeWeeks(y + LeapDays(y) + offset + d.day, 52 * y + k);
  }

  /** Whole weeks do not change the weekday. */
  lemma WholeWeeks(c: int, weeks: int)
    ensures (c + 7 * weeks - 1) % 7 == if c % 7 == 0 then 6 else c % 7 - 1
  {
  }

  lemma WeekOffset(month: nat)
    requires 1 <= month <= 12
    ensures var m := if month < 3 then month + 12 else month;
            exists k :: MonthOffset(m) - 306 - [0, 3, 2, 5, 0, 3, 5, 1, 4, 6, 2, 4][month - 1] == 7 * k
  {
    MonthOffsets();
    var m := if month < 3 then month + 12 else month;
    var x := MonthOffset(m) - 306 - [0, 3, 2, 5, 0, 3, 5, 1, 4, 6, 2, 4][month - 1];
    assert x % 7 == 0;
    assert x == 7 * (x / 7);
  }
}
