/**
  The proleptic Gregorian calendar as the JavaScript and PHP runtimes see it,
  at day granularity.

  A date is a day number: whole days since 1 January 1970, which is the
  ECMAScript `Day(t)` of a time value. The civil fields a `Date` object
  reports (`getFullYear`, `getMonth`, `getDate`, `getDay`) are derived from
  it the way the ECMAScript specification derives them (section 21.4.1 of
  ECMA-262: DayFromYear, YearFromTime, MonthFromTime, DateFromTime, WeekDay,
  MakeDay). Months are numbered 0 (January) to 11 (December), weekdays 0
  (Sunday) to 6 (Saturday).
*/
module Civil {

  /** A calendar day: days since 1 January 1970 (negative before it). */
  type Day = int

  /** DaysInYear of ECMA-262: 366 in Gregorian leap years, else 365. */
  function DaysInYear(y: int): (r: int)
    ensures r == 365 || r == 366
  {
    if y % 4 != 0 then 365
    else if y % 100 != 0 then 366
    else if y % 400 != 0 then 365
    else 366
  }

  /**
    DayFromYear of ECMA-262: the day number of 1 January of year y, by the
    closed form that counts the leap years between 1970 and y.
  */
  function DayFromYear(y: int): Day {
    365 * (y - 1970) + (y - 1969) / 4 - (y - 1901) / 100 + (y - 1601) / 400
  }

  /** Euclidean division is unique: a quotient and remainder in range are the ones `/` and `%` give. */
  lemma DivModUnique(x: int, b: int, q: int, r: int)
    requires b > 0 && x == b * q + r && 0 <= r < b
    ensures x % b == r && x / b == q
  {
    var d := q - x / b;
    assert b * d == x % b - r;
  }

  /**
    Shifting y down by m = k * b shifts its quotient by b down by k, and one
    more step down lowers it once more exactly when y is a multiple of b.
  */
  lemma ShiftedQuotients(y: int, b: int, m: int, k: int)
    requires b > 0 && m == k * b
    ensures (y - m) / b == y / b - k
    ensures (y - m - 1) / b == (if y % b == 0 then y / b - k - 1 else y / b - k)
  {
    var q, r := y / b, y % b;
    assert b * (q - k) == b * q - m;
    DivModUnique(y - m, b, q - k, r);
    if r == 0 {
      assert y - m - 1 == b * (q - k - 1) + (b - 1);
      DivModUnique(y - m - 1, b, q - k - 1, b - 1);
    } else {
      DivModUnique(y - m - 1, b, q - k, r - 1);
    }
  }

  /** Consecutive years are DaysInYear apart: the closed form counts leap years correctly. */
  lemma YearStep(y: int)
    ensures DayFromYear(y + 1) == DayFromYear(y) + DaysInYear(y)
  {
    ShiftedQuotients(y, 4, 1968, 492);
    ShiftedQuotients(y, 100, 1900, 19);
    ShiftedQuotients(y, 400, 1600, 4);
  }

  /** Later years start later: the year intervals are ordered. */
  lemma {:induction false} YearOrder(a: int, b: int)
    requires a < b
    ensures DayFromYear(a + 1) <= DayFromYear(b)
    decreases b - a
  {
    if a + 1 < b {
      YearOrder(a + 1, b);
      YearStep(a + 1);
    }
  }

  function YearUp(n: Day, y: int): (r: int)
    requires DayFromYear(y) <= n
    ensures DayFromYear(r) <= n < DayFromYear(r + 1)
    decreases n - DayFromYear(y)
  {
    YearStep(y);
    if DayFromYear(y + 1) <= n then YearUp(n, y + 1) else y
  }

  function YearDown(n: Day, y: int): (r: int)
    requires n < DayFromYear(y + 1)
    ensures DayFromYear(r) <= n < DayFromYear(r + 1)
    decreases DayFromYear(y + 1) - n
  {
    YearStep(y);
    if DayFromYear(y) <= n then y else YearDown(n, y - 1)
  }

  /** YearFromTime of ECMA-262 (`getFullYear`): the year whose days contain n. */
  function YearFromDay(n: Day): (y: int)
    ensures DayFromYear(y) <= n < DayFromYear(y + 1)
  {
    if n >= 0 then YearUp(n, 1970) else YearDown(n, 1969)
  }

  /** The year containing a day is the only one whose interval holds it. */
  lemma YearFromDayUnique(n: Day, y: int)
    requires DayFromYear(y) <= n < DayFromYear(y + 1)
    ensures YearFromDay(n) == y
  {
    var z := YearFromDay(n);
    if z < y {
      YearOrder(z, y);
    } else if y < z {
      YearOrder(y, z);
    }
  }

  /** The number of days of month m of year y. */
  function MonthLength(y: int, m: int): (r: int)
    requires 0 <= m < 12
    ensures 28 <= r <= 31
  {
    if m == 1 then DaysInYear(y) - 337
    else if m == 3 || m == 5 || m == 8 || m == 10 then 30
    else 31
  }

  /** Days of year y before the first of month m (m == 12 gives the whole year). */
  function DaysBeforeMonth(y: int, m: int): int
    requires 0 <= m <= 12
  {
    if m == 0 then 0 else DaysBeforeMonth(y, m - 1) + MonthLength(y, m - 1)
  }

  /** The twelve months make up the year. */
  lemma WholeYear(y: int)
    ensures DaysBeforeMonth(y, 12) == DaysInYear(y)
  {
    assert DaysBeforeMonth(y, 1) == 31;
    assert DaysBeforeMonth(y, 2) == DaysInYear(y) - 306;
    assert DaysBeforeMonth(y, 3) == DaysInYear(y) - 275;
    assert DaysBeforeMonth(y, 4) == DaysInYear(y) - 245;
    assert DaysBeforeMonth(y, 5) == DaysInYear(y) - 214;
    assert DaysBeforeMonth(y, 6) == DaysInYear(y) - 184;
    assert DaysBeforeMonth(y, 7) == DaysInYear(y) - 153;
    assert DaysBeforeMonth(y, 8) == DaysInYear(y) - 122;
    assert DaysBeforeMonth(y, 9) == DaysInYear(y) - 92;
    assert DaysBeforeMonth(y, 10) == DaysInYear(y) - 61;
    assert DaysBeforeMonth(y, 11) == DaysInYear(y) - 31;
  }

  /** The cumulative month table grows by at least a month's length per month. */
  lemma {:induction false} MonthOrder(y: int, a: int, b: int)
    requires 0 <= a <= b <= 12
    ensures DaysBeforeMonth(y, a) <= DaysBeforeMonth(y, b)
    ensures a < b ==> DaysBeforeMonth(y, a) + MonthLength(y, a) <= DaysBeforeMonth(y, b)
    decreases b - a
  {
    if a < b {
      MonthOrder(y, a, b - 1);
    }
  }

  /** The day number of the first day of month m of year y. */
  function MonthStart(y: int, m: int): Day
    requires 0 <= m <= 12
  {
    DayFromYear(y) + DaysBeforeMonth(y, m)
  }

  /** The thirteenth month of a year is January of the next. */
  lemma MonthStartOfNextYear(y: int)
    ensures MonthStart(y, 12) == MonthStart(y + 1, 0)
  {
    YearStep(y);
    WholeYear(y);
  }

  function MonthFrom(y: int, w: int, m: int): (r: int)
    requires 0 <= m < 12
    ensures m <= r < 12
    decreases 12 - m
  {
    if m == 11 || w < DaysBeforeMonth(y, m + 1) then m else MonthFrom(y, w, m + 1)
  }

  /** The search over the cumulative month table finds the month holding day w of the year. */
  lemma {:induction false} MonthFromBounds(y: int, w: int, m: int)
    requires 0 <= m < 12
    requires DaysBeforeMonth(y, m) <= w < DaysBeforeMonth(y, 12)
    ensures DaysBeforeMonth(y, MonthFrom(y, w, m)) <= w < DaysBeforeMonth(y, MonthFrom(y, w, m) + 1)
    decreases 12 - m
  {
    if m < 11 && w >= DaysBeforeMonth(y, m + 1) {
      MonthFromBounds(y, w, m + 1);
    }
  }

  /** MonthFromTime of ECMA-262 (`getMonth`). */
  function MonthFromDay(n: Day): (m: int)
    ensures 0 <= m < 12
  {
    var y := YearFromDay(n);
    MonthFrom(y, n - DayFromYear(y), 0)
  }

  /** The month getMonth reports is the one whose run of day numbers holds n. */
  lemma MonthFromDayBounds(n: Day)
    ensures MonthStart(YearFromDay(n), MonthFromDay(n)) <= n < MonthStart(YearFromDay(n), MonthFromDay(n) + 1)
  {
    var y := YearFromDay(n);
    YearStep(y);
    WholeYear(y);
    MonthFromBounds(y, n - DayFromYear(y), 0);
  }

  /** DateFromTime of ECMA-262 (`getDate`): the day of the month, from 1. */
  function DateFromDay(n: Day): (d: int)
    ensures 1 <= d <= MonthLength(YearFromDay(n), MonthFromDay(n))
  {
    MonthFromDayBounds(n);
    n - MonthStart(YearFromDay(n), MonthFromDay(n)) + 1
  }

  /** WeekDay of ECMA-262 (`getDay`): 1 January 1970 was a Thursday. */
  function WeekDay(n: Day): (w: int)
    ensures 0 <= w < 7
  {
    (n + 4) % 7
  }

  /** The day of the year counted from 0, as PHP's `format('z')` prints it. */
  function DayWithinYear(n: Day): (r: int)
    ensures 0 <= r < DaysInYear(YearFromDay(n))
  {
    YearStep(YearFromDay(n));
    n - DayFromYear(YearFromDay(n))
  }

  /**
    MakeDay of ECMA-262: the day of (year, month, date) with an out-of-range
    month carried into the year and an out-of-range date into the month, as
    `new Date(year, month, date)` does.
  */
  function MakeDay(year: int, month: int, date: int): Day {
    MonthStart(year + month / 12, month % 12) + date - 1
  }

  /** Whether day n falls in month m of year y, judged by its derived fields. */
  predicate InMonth(n: Day, y: int, m: int) {
    YearFromDay(n) == y && MonthFromDay(n) == m
  }

  /** A day is in month (y, m) exactly when it lies in that month's run of day numbers. */
  lemma InMonthIff(n: Day, y: int, m: int)
    requires 0 <= m < 12
    ensures InMonth(n, y, m) <==> MonthStart(y, m) <= n < MonthStart(y, m) + MonthLength(y, m)
  {
    MonthFromDayBounds(n);
    if MonthStart(y, m) <= n < MonthStart(y, m) + MonthLength(y, m) {
      MonthOrder(y, 0, m);
      MonthOrder(y, m + 1, 12);
      YearStep(y);
      WholeYear(y);
      YearFromDayUnique(n, y);
      var k := MonthFromDay(n);
      if k < m {
        MonthOrder(y, k, m);
      } else if m < k {
        MonthOrder(y, m, k);
      }
    }
  }

  /** Fields of a well-formed civil date survive the trip through its day number. */
  lemma FieldsOfMakeDay(y: int, m: int, d: int)
    requires 0 <= m < 12 && 1 <= d <= MonthLength(y, m)
    ensures MakeDay(y, m, d) == MonthStart(y, m) + d - 1
    ensures YearFromDay(MakeDay(y, m, d)) == y
    ensures MonthFromDay(MakeDay(y, m, d)) == m
    ensures DateFromDay(MakeDay(y, m, d)) == d
  {
    assert m / 12 == 0 && m % 12 == m;
    InMonthIff(MakeDay(y, m, d), y, m);
  }

  /** A day number is rebuilt from the fields derived from it. */
  lemma MakeDayOfFields(n: Day)
    ensures MakeDay(YearFromDay(n), MonthFromDay(n), DateFromDay(n)) == n
  {
    var m := MonthFromDay(n);
    assert m / 12 == 0 && m % 12 == m;
  }

  /** `new Date(y, m + 1, 0)`: day 0 of the next month is the last day of month m. */
  lemma LastDayOfMonth(y: int, m: int)
    requires 0 <= m < 12
    ensures MakeDay(y, m + 1, 0) == MonthStart(y, m) + MonthLength(y, m) - 1
  {
    if m == 11 {
      MonthStartOfNextYear(y);
    }
  }

  /** The date of day 0 of the next month is the length of month m. */
  lemma DateOfLastDay(y: int, m: int)
    requires 0 <= m < 12
    ensures DateFromDay(MakeDay(y, m + 1, 0)) == MonthLength(y, m)
  {
    LastDayOfMonth(y, m);
    FieldsOfMakeDay(y, m, MonthLength(y, m));
    assert MakeDay(y, m + 1, 0) == MakeDay(y, m, MonthLength(y, m));
  }
}
