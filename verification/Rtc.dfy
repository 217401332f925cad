/** The weekday of src/kernel/kernel/rtc.c, against the calendar. */
module Rtc {

  // ---- The calendar -------------------------------------------------------------------------------

  predicate Leap(y: nat) {
    y % 4 == 0 && (y % 100 != 0 || y % 400 == 0)
  }

  function MonthDays(y: nat, m: nat): nat {
    if m == 2 then if Leap(y) then 29 else 28
    else if m == 4 || m == 6 || m == 9 || m == 11 then 30 else 31
  }

  function DaysBeforeYear(y: nat): nat
    requires y >= 1
  {
    if y == 1 then 0 else DaysBeforeYear(y - 1) + if Leap(y - 1) then 366 else 365
  }

  function DaysBeforeMonth(y: nat, m: nat): nat
    requires m >= 1
  {
    if m == 1 then 0 else DaysBeforeMonth(y, m - 1) + MonthDays(y, m - 1)
  }

  predicate Date(y: nat, m: nat, d: nat) {
    y >= 1 && 1 <= m <= 12 && 1 <= d <= MonthDays(y, m)
  }

  /** Days from 1 January of year 1, a Monday, to the date. */
  function DayNumber(y: nat, m: nat, d: nat): nat
    requires Date(y, m, d)
  {
    DaysBeforeYear(y) + DaysBeforeMonth(y, m) + d - 1
  }

  /** The weekday found by counting: Sunday is 1, Saturday is 7. */
  function Weekday(y: nat, m: nat, d: nat): nat
    requires Date(y, m, d)
  {
    (DayNumber(y, m, d) + 1) % 7 + 1
  }

  /** The weekdays follow one another from day to day, over the ends of months and years too. */
  lemma NextDay(y: nat, m: nat, d: nat)
    requires Date(y, m, d)
    ensures Date(y, m, d + 1) ==> Weekday(y, m, d + 1) == Weekday(y, m, d) % 7 + 1
    ensures d == MonthDays(y, m) && m < 12 ==> Weekday(y, m + 1, 1) == Weekday(y, m, d) % 7 + 1
    ensures m == 12 && d == 31 ==> Weekday(y + 1, 1, 1) == Weekday(y, m, d) % 7 + 1
  {
    var n := DayNumber(y, m, d);
    Follows(n);
    MonthsClosed(y, m);
    assert m == 12 ==> Common(12) == 334;
    hide Leap, Common;
    if Date(y, m, d + 1) { assert DayNumber(y, m, d + 1) == n + 1; }
    if d == MonthDays(y, m) && m < 12 { assert DayNumber(y, m + 1, 1) == n + 1; }
    if m == 12 && d == 31 { assert DayNumber(y + 1, 1, 1) == n + 1; }
  }

  lemma Follows(n: nat)
    ensures (n + 1 + 1) % 7 + 1 == ((n + 1) % 7 + 1) % 7 + 1
  {}

  /** The first day of 1970 was a Thursday. */
  lemma Epoch()
    ensures Date(1970, 1, 1) && Weekday(1970, 1, 1) == 5
  {
    YearsClosed(1970);
    hide DaysBeforeYear;
    assert LeapDays(1969) == 477;
    hide LeapDays;
  }

  // ---- The code -----------------------------------------------------------------------------------

  /** What the year adds to the day of the month: y before March, else y - 2. */
  function YearTerm(y: nat, m: nat): int {
    if m < 3 then y else y - 2
  }

  function LeapDays(y: nat): int {
    y / 4 - y / 100 + y / 400
  }

  /** The formula without truncation. */
  function Formula(y: nat, m: nat, dom: nat): int
    requires y >= 1
  {
    (23 * m / 9 + (dom + YearTerm(y, m)) + 4 + LeapDays(if m < 3 then y - 1 else y)) % 7 + 1
  }

  /** get_dow: the sum of day and year is stored back into the 8-bit day before it is used. */
  method GetDow(year: nat, m: nat, day: nat) returns (dow: nat)
    requires Date(year, m, day) && year < 0x1_0000
    ensures dow == Truncated(year, m, day)
  {
    var y, dom := year, day;
    if m < 3 {
      dom := (dom + y) % 0x100;
      y := y - 1;
    } else {
      dom := (dom + y - 2) % 0x100;
    }
    dow := (23 * m / 9 + dom + 4 + y / 4 - y / 100 + y / 400) % 7 + 1;
  }

  /** What get_dow returns. */
  function Truncated(y: nat, m: nat, dom: nat): int
    requires y >= 1
  {
    (23 * m / 9 + (dom + YearTerm(y, m)) % 0x100 + 4 + LeapDays(if m < 3 then y - 1 else y)) % 7 + 1
  }

  // ---- The formula is right -----------------------------------------------------------------------

  lemma LeapStep(y: nat)
    requires y >= 1
    ensures LeapDays(y) == LeapDays(y - 1) + if Leap(y) then 1 else 0
  {
    Step(y, 4);
    Step(y, 100);
    Step(y, 400);
    Nested(y);
  }

  lemma Nested(y: nat)
    ensures (y % 400 == 0 ==> y % 100 == 0) && (y % 100 == 0 ==> y % 4 == 0)
  {
    if y % 400 == 0 { assert y == 100 * (4 * (y / 400)); }
    if y % 100 == 0 { assert y == 4 * (25 * (y / 100)); }
  }

  lemma Step(y: nat, k: nat)
    requires y >= 1 && k in {4, 100, 400}
    ensures y / k == (y - 1) / k + if y % k == 0 then 1 else 0
  {
    if k == 4 {
    } else if k == 100 {
    } else {
    }
  }

  lemma {:induction false} YearsClosed(y: nat)
    requires y >= 1
    ensures DaysBeforeYear(y) == 365 * (y - 1) + LeapDays(y - 1)
  {
    if y > 1 {
      YearsClosed(y - 1);
      LeapStep(y - 1);
    }
  }

  /** The days before a month in a common year. */
  function Common(m: nat): nat
    requires 1 <= m <= 12
  {
    [0, 31, 59, 90, 120, 151, 181, 212, 243, 273, 304, 334][m - 1]
  }

  lemma {:induction false} MonthsClosed(y: nat, m: nat)
    requires 1 <= m <= 12
    ensures DaysBeforeMonth(y, m) == Common(m) + if m > 2 && Leap(y) then 1 else 0
  {
    if m > 1 { MonthsClosed(y, m - 1); }
  }

  lemma SameRemainder(a: int, b: int, k: int)
    requires a == b + 7 * k
    ensures a % 7 == b % 7
  {}

  lemma MonthTerm(m: nat)
    requires 1 <= m <= 12
    ensures (Common(m) - 1 - (23 * m / 9 + if m < 3 then 4 else 2)) % 7 == 0
  {}

  /** Without truncation the formula is the weekday, for every date. */
  lemma FormulaCounts(y: nat, m: nat, d: nat)
    requires Date(y, m, d)
    ensures Formula(y, m, d) == Weekday(y, m, d)
  {
    YearsClosed(y);
    MonthsClosed(y, m);
    LeapStep(y);
    MonthTerm(m);
    var month := Common(m) - 1 - (23 * m / 9 + if m < 3 then 4 else 2);
    var sum := 23 * m / 9 + (d + YearTerm(y, m)) + 4 + LeapDays(if m < 3 then y - 1 else y);
    hide Leap, LeapDays, Common, DaysBeforeYear, DaysBeforeMonth;
    assert DayNumber(y, m, d) + 1 == sum + 7 * (52 * (y - 1) + month / 7);
    SameRemainder(DayNumber(y, m, d) + 1, sum, 52 * (y - 1) + month / 7);
  }

  // ---- What the truncation does -------------------------------------------------------------------

  /** How wrong get_dow is: the sum that was cut to 8 bits lost k times 256, and each of these moves the
      weekday three days on.  So it is right exactly when k is a multiple of 7. */
  lemma RightExactly(y: nat, m: nat, d: nat)
    requires Date(y, m, d)
    ensures var k := (d + if m < 3 then y else y - 2) / 256;
            && Truncated(y, m, d) == (Weekday(y, m, d) - 1 + 3 * k) % 7 + 1
            && (Truncated(y, m, d) == Weekday(y, m, d) <==> k % 7 == 0)
    ensures 1 <= Truncated(y, m, d) <= 7
  {
    FormulaCounts(y, m, d);
    var s := d + YearTerm(y, m);
    var k := s / 0x100;
    var rest := 23 * m / 9 + 4 + LeapDays(if m < 3 then y - 1 else y);
    assert s % 0x100 == s - 0x100 * k;
    assert Truncated(y, m, d) == (rest + s % 0x100) % 7 + 1 && Formula(y, m, d) == (rest + s) % 7 + 1;
    hide *;
    Shift(rest + s % 0x100, k);
  }

  lemma Shift(a: int, k: int)
    ensures ((a + 0x100 * k) % 7 + 3 * k) % 7 == a % 7
    ensures (a + 0x100 * k) % 7 == a % 7 <==> k % 7 == 0
  {
    var b := (a + 0x100 * k) % 7;
    SameRemainder(a + 0x100 * k, a + 4 * k, 36 * k);
    SameRemainder(b + 3 * k, a + 7 * k, -((a + 0x100 * k) / 7) + 36 * k);
    SameRemainder(a + 7 * k, a, k);
    if k % 7 == 0 {
      SameRemainder(a + 4 * k, a, 4 * (k / 7));
    } else {
      var r := k % 7;
      SameRemainder(a + 4 * k, a + 4 * r, 4 * (k / 7));
      SmallShift(a, r);
    }
  }

  lemma SmallShift(a: int, r: int)
    requires 0 < r < 7
    ensures (a + 4 * r) % 7 != a % 7
  {
    hide *;
  }

  /** So it is right for every date from 1794 to 2016. */
  lemma RightUntil2016(y: nat, m: nat, d: nat)
    requires Date(y, m, d) && 1794 <= y <= 2016
    ensures Truncated(y, m, d) == Weekday(y, m, d)
  {
    RightExactly(y, m, d);
  }

  /** On 31 January 2017, a Tuesday, and on 30 June 2026, another, it says Friday. */
  lemma WrongInJanuary2017()
    ensures Date(2017, 1, 31) && Weekday(2017, 1, 31) == 3 && Truncated(2017, 1, 31) == 6
    ensures Date(2026, 6, 30) && Weekday(2026, 6, 30) == 3 && Truncated(2026, 6, 30) == 6
  {
    Valid2017();
    Fridays();
    hide *;
    FormulaCounts(2017, 1, 31);
    FormulaCounts(2026, 6, 30);
  }

  lemma Valid2017()
    ensures Date(2017, 1, 31) && Date(2026, 6, 30)
  {}

  lemma Fridays()
    ensures Formula(2017, 1, 31) == 3 && Truncated(2017, 1, 31) == 6
    ensures Formula(2026, 6, 30) == 3 && Truncated(2026, 6, 30) == 6
  {
    assert LeapDays(2016) == 489 && LeapDays(2026) == 491;
    assert 23 * 1 / 9 == 2 && 23 * 6 / 9 == 15;
  }
}
