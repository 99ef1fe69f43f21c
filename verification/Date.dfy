/** Civil dates and Julian day numbers. */
module Dates {
  datatype YearMonthDay = YearMonthDay(year: int, month: int, day: int)

  /** Division that rounds towards zero. */
  function Quotient(a: int, b: int): int
    requires b > 0
  {
    if a >= 0 then a / b else -(-a / b)
  }

  function JulianDayNumber(year: int, month: int, day: int): int {
    var a := Quotient(14 - month, 12);
    var y := year + 4800 - a;
    var m := month + 12 * a - 3;
    day + Quotient(153 * m + 2, 5) + y * 365 + Quotient(y, 4) - Quotient(y, 100) + Quotient(y, 400) - 32045
  }

  function GetYearMonthDay(julianDayNumber: int): YearMonthDay {
    var a := julianDayNumber + 32044;
    var b := Quotient(4 * a + 3, 146097);
    var c := a - Quotient(b * 146097, 4);
    var d := Quotient(4 * c + 3, 1461);
    var e := c - Quotient(1461 * d, 4);
    var m := Quotient(5 * e + 2, 153);
    YearMonthDay(b * 100 + d - 4800 + Quotient(m, 10), m + 3 - 12 * Quotient(m, 10), e - Quotient(153 * m + 2, 5) + 1)
  }

  // The Gregorian calendar, said without day numbers.

  predicate Leap(year: int) {
    year % 4 == 0 && (year % 100 != 0 || year % 400 == 0)
  }

  function MonthLength(year: int, month: int): int {
    if month == 2 then (if Leap(year) then 29 else 28)
    else if month in {4, 6, 9, 11} then 30
    else 31
  }

  predicate Proper(d: YearMonthDay) {
    1 <= d.month <= 12 && 1 <= d.day <= MonthLength(d.year, d.month)
  }

  /** From 1 March 4801 before our era on. */
  predicate InRange(d: YearMonthDay) {
    d.year > -4800 || (d.year == -4800 && d.month >= 3)
  }

  function NextDay(d: YearMonthDay): YearMonthDay {
    if d.day < MonthLength(d.year, d.month) then YearMonthDay(d.year, d.month, d.day + 1)
    else if d.month < 12 then YearMonthDay(d.year, d.month + 1, 1)
    else YearMonthDay(d.year + 1, 1, 1)
  }

  // Years that begin in March: centuries, years and months by days.

  function Centuries(b: nat): nat {
    36524 * b + b / 4
  }

  function Years(d: nat): nat {
    365 * d + d / 4
  }

  function Months(m: nat): nat {
    (153 * m + 2) / 5
  }

  function Before(y: nat): nat {
    365 * y + y / 4 - y / 100 + y / 400
  }

  lemma CenturyOf(a: nat, b: nat)
    ensures (4 * a + 3) / 146097 == b <==> Centuries(b) <= a < Centuries(b + 1)
  {
    var q := (4 * a + 3) / 146097;
    assert 146097 * q <= 4 * a + 3 < 146097 * q + 146097;
  }

  lemma YearOf(c: nat, d: nat)
    ensures (4 * c + 3) / 1461 == d <==> Years(d) <= c < Years(d + 1)
  {
    var q := (4 * c + 3) / 1461;
    assert 1461 * q <= 4 * c + 3 < 1461 * q + 1461;
  }

  lemma MonthOf(e: nat, m: nat)
    ensures (5 * e + 2) / 153 == m <==> Months(m) <= e < Months(m + 1)
  {
    var q := (5 * e + 2) / 153;
    assert 153 * q <= 5 * e + 2 < 153 * q + 153;
  }

  /** The days before a year of a century. */
  lemma BeforeSplits(b: nat, d: nat)
    requires d < 100
    ensures Before(100 * b + d) == Centuries(b) + Years(d)
  {
    assert (100 * b + d) / 4 == 25 * b + d / 4;
    assert (100 * b + d) / 100 == b;
    assert (100 * b + d) / 400 == b / 4;
  }

  lemma QuotientStep(y: nat, k: nat)
    requires k in {4, 100, 400}
    ensures (y + 1) / k == y / k + (if (y + 1) % k == 0 then 1 else 0)
  {
  }

  lemma Multiples(y: nat)
    ensures y % 400 == 0 ==> y % 100 == 0
    ensures y % 100 == 0 ==> y % 4 == 0
  {
    var q, r := y / 100, y / 400;
    assert y % 400 == 0 ==> y == 100 * (4 * r);
    assert y % 100 == 0 ==> y == 4 * (25 * q);
  }

  lemma BeforeNext(y: nat)
    ensures Before(y + 1) == Before(y) + (if Leap(y + 1) then 366 else 365)
  {
    QuotientStep(y, 4);
    QuotientStep(y, 100);
    QuotientStep(y, 400);
    Multiples(y + 1);
  }

  /** The year, from March, of a date, its month from March, and the day number by them. */
  function YearFromMarch(d: YearMonthDay): int {
    if d.month <= 2 then d.year + 4799 else d.year + 4800
  }

  function MonthFromMarch(d: YearMonthDay): int {
    if d.month <= 2 then d.month + 9 else d.month - 3
  }

  lemma NumberByParts(d: YearMonthDay)
    requires Proper(d) && InRange(d)
    ensures YearFromMarch(d) >= 0 && 0 <= MonthFromMarch(d) <= 11
    ensures JulianDayNumber(d.year, d.month, d.day) + 32044
      == Before(YearFromMarch(d)) + Months(MonthFromMarch(d)) + d.day - 1
  {
    assert Quotient(14 - d.month, 12) == if d.month <= 2 then 1 else 0;
  }

  /** A date fits between two Marches. */
  lemma WithinYear(d: YearMonthDay)
    requires Proper(d) && InRange(d)
    ensures var y, m := YearFromMarch(d), MonthFromMarch(d);
      && y >= 0 && 0 <= m <= 11 && d.day - 1 < Months(m + 1) - Months(m)
      && Before(y) + Months(m) + d.day - 1 < Before(y + 1)
  {
    var y := YearFromMarch(d);
    BeforeNext(y);
    LeapShift(d.year);
  }

  lemma LeapShift(year: int)
    ensures Leap(year + 4800) == Leap(year)
  {
    Shift4(year);
    Shift100(year);
    Shift400(year);
  }

  lemma Shift4(year: int)
    ensures (year + 4800) % 4 == year % 4
  {
  }

  lemma Shift100(year: int)
    ensures (year + 4800) % 100 == year % 100
  {
  }

  lemma Shift400(year: int)
    ensures (year + 4800) % 400 == year % 400
  {
  }

  /** The decoding finds the parts a day number is made of. */
  lemma PartsFound(b: nat, d: nat, m: nat, day: int)
    requires d < 100 && m <= 11 && 1 <= day <= Months(m + 1) - Months(m)
    requires Before(100 * b + d) + Months(m) + day - 1 < Before(100 * b + d + 1)
    ensures GetYearMonthDay(Before(100 * b + d) + Months(m) + day - 1 - 32044)
      == YearMonthDay(100 * b + d - 4800 + m / 10, m + 3 - 12 * (m / 10), day)
  {
    hide Before, Months, GetYearMonthDay;
    var a := Before(100 * b + d) + Months(m) + day - 1;
    CenturyBounds(a, b, d);
    Decoded(a, b, d, m);
  }

  lemma CenturyBounds(a: nat, b: nat, d: nat)
    requires d < 100 && Before(100 * b + d) <= a < Before(100 * b + d + 1)
    ensures Centuries(b) + Years(d) <= a < Centuries(b) + Years(d + 1)
    ensures a < Centuries(b + 1)
    ensures Before(100 * b + d) == Centuries(b) + Years(d)
  {
    hide Before;
    BeforeSplits(b, d);
    if d < 99 {
      BeforeSplits(b, d + 1);
    } else {
      BeforeSplits(b + 1, 0);
    }
  }

  lemma Decoded(a: nat, b: nat, d: nat, m: nat)
    requires Centuries(b) + Years(d) <= a < Centuries(b) + Years(d + 1) && a < Centuries(b + 1)
    requires Centuries(b) + Years(d) + Months(m) <= a < Centuries(b) + Years(d) + Months(m + 1)
    ensures GetYearMonthDay(a - 32044)
      == YearMonthDay(100 * b + d - 4800 + m / 10, m + 3 - 12 * (m / 10), a - Centuries(b) - Years(d) - Months(m) + 1)
  {
    hide Centuries, Years, Months;
    CenturyOf(a, b);
    YearOf(a - Centuries(b), d);
    MonthOf(a - Centuries(b) - Years(d), m);
    Quotients(b, d, m);
  }

  lemma Quotients(b: nat, d: nat, m: nat)
    ensures
      && Quotient(b * 146097, 4) == Centuries(b) && Quotient(1461 * d, 4) == Years(d)
      && Quotient(153 * m + 2, 5) == Months(m)
  {
  }

  /** The date of the day number of a date. */
  lemma DateRoundTrip(d: YearMonthDay)
    requires Proper(d) && InRange(d)
    ensures GetYearMonthDay(JulianDayNumber(d.year, d.month, d.day)) == d
  {
    hide Before, Months, GetYearMonthDay, JulianDayNumber;
    NumberByParts(d);
    WithinYear(d);
    var y := YearFromMarch(d);
    assert y == 100 * (y / 100) + y % 100;
    PartsFound(y / 100, y % 100, MonthFromMarch(d), d.day);
  }

  /** Day numbers count days. */
  lemma NextNumber(d: YearMonthDay)
    requires Proper(d) && InRange(d)
    ensures Proper(NextDay(d)) && InRange(NextDay(d))
    ensures var n := NextDay(d);
      JulianDayNumber(n.year, n.month, n.day) == JulianDayNumber(d.year, d.month, d.day) + 1
  {
    hide JulianDayNumber, Before;
    NumberByParts(d);
    NumberByParts(NextDay(d));
    BeforeNext(YearFromMarch(d));
    LeapShift(d.year);
  }

  /** The date a number of days after 1 March of the year -4800. */
  function DaysOn(n: nat): YearMonthDay {
    if n == 0 then YearMonthDay(-4800, 3, 1) else NextDay(DaysOn(n - 1))
  }

  lemma {:induction false} DaysOnNumber(n: nat)
    ensures Proper(DaysOn(n)) && InRange(DaysOn(n))
    ensures var d := DaysOn(n);
      JulianDayNumber(d.year, d.month, d.day) == n - 32044
  {
    if n > 0 {
      DaysOnNumber(n - 1);
      NextNumber(DaysOn(n - 1));
    }
  }

  /** Decoding a day number gives the date so many days on in the calendar, and its number again. */
  lemma NumberRoundTrip(julianDayNumber: int)
    requires julianDayNumber >= -32044
    ensures var d := GetYearMonthDay(julianDayNumber);
      && d == DaysOn(julianDayNumber + 32044) && Proper(d) && InRange(d)
      && JulianDayNumber(d.year, d.month, d.day) == julianDayNumber
  {
    hide GetYearMonthDay, JulianDayNumber;
    DaysOnNumber(julianDayNumber + 32044);
    DateRoundTrip(DaysOn(julianDayNumber + 32044));
  }

  lemma BelowZero(a: int, p: int)
    requires a < 0 && p in {146097, 1461}
    ensures a - Quotient(p * Quotient(4 * a + 3, p), 4) < 0
  {
    var q := (-4 * a - 3) / p;
    assert Quotient(4 * a + 3, p) == -q && 0 <= p * q <= -4 * a - 3;
    assert Quotient(p * -q, 4) == -((p * q) / 4);
  }

  /** The decoding gives a date exactly from 1 March of the year -4800 on. */
  lemma ProperFrom(julianDayNumber: int)
    ensures Proper(GetYearMonthDay(julianDayNumber)) <==> julianDayNumber >= -32044
  {
    if julianDayNumber >= -32044 {
      NumberRoundTrip(julianDayNumber);
    } else {
      var a := julianDayNumber + 32044;
      var c := a - Quotient(146097 * Quotient(4 * a + 3, 146097), 4);
      BelowZero(a, 146097);
      BelowZero(c, 1461);
      DayBelowOne(c - Quotient(1461 * Quotient(4 * c + 3, 1461), 4));
    }
  }

  lemma DayBelowOne(e: int)
    requires e < 0
    ensures e - Quotient(153 * Quotient(5 * e + 2, 153) + 2, 5) + 1 < 1
  {
    var q := (-5 * e - 2) / 153;
    assert Quotient(5 * e + 2, 153) == -q && 153 * q <= -5 * e - 2;
  }

  /** No step of the decoding leaves 32 bits, exactly up to this day. */
  lemma FitsInt(julianDayNumber: int)
    requires julianDayNumber >= -32044
    ensures var a := julianDayNumber + 32044;
      var b := Quotient(4 * a + 3, 146097);
      var c := a - Quotient(b * 146097, 4);
      var d := Quotient(4 * c + 3, 1461);
      (4 * a + 3 < 0x8000_0000 && b * 146097 < 0x8000_0000 && 4 * c + 3 < 0x8000_0000 && 1461 * d < 0x8000_0000)
        <==> a < 0x2000_0000
  {
    var a := julianDayNumber + 32044;
    var b := (4 * a + 3) / 146097;
    CenturyOf(a, b);
    assert b * 146097 <= 4 * a + 3;
    var c := a - Centuries(b);
    Quotients(b, 0, 0);
    assert 1461 * ((4 * c + 3) / 1461) <= 4 * c + 3;
  }
}
