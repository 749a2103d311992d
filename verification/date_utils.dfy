/**
  The calendar helpers behind the mood calendar views
  (resources/js/utils/dateUtils.js), at day granularity.

  A `Date` is a Civil.Day; the time of day the helpers set (midnight for a
  week start, 23:59:59.999 for a week end) is not modelled, so comparisons
  between dates compare day numbers.
*/
module DateUtils {
  import opened Civil
  import opened Wrappers

  /**
    The year `new Date(year, month, date)` uses: the Date constructor reads a
    year from 0 to 99 as 1900 + year (section 21.4.2.1 of ECMA-262).
  */
  function ConstructorYear(year: int): (y: int)
    ensures 0 <= year <= 99 ==> y == 1900 + year
    ensures (year < 0 || year > 99) ==> y == year
  {
    if 0 <= year <= 99 then 1900 + year else year
  }

  /** getWeekStart: the Monday of the week (Monday to Sunday) containing date. */
  function GetWeekStart(date: Day): (r: Day)
    ensures WeekDay(r) == 1
    ensures r <= date <= r + 6
    ensures WeekDay(date) == 0 ==> r == date - 6
  {
    var day := WeekDay(date);
    var diff := if day == 0 then -6 else 1 - day;
    date + diff
  }

  /** getWeekEnd: the Sunday of the week (Monday to Sunday) containing date. */
  function GetWeekEnd(date: Day): (r: Day)
    ensures WeekDay(r) == 0
    ensures r - 6 <= date <= r
    ensures WeekDay(date) == 0 ==> r == date
  {
    var day := WeekDay(date);
    var diff := if day == 0 then 0 else 7 - day;
    date + diff
  }

  /** The Monday on or before a day, at most six days back, is unique. */
  lemma WeekStartUnique(date: Day, monday: Day)
    requires WeekDay(monday) == 1 && monday <= date <= monday + 6
    ensures monday == GetWeekStart(date)
  {
  }

  /** The seven consecutive days from weekStart. */
  function WeekDays(weekStart: Day): seq<Day> {
    seq(7, i => weekStart + i)
  }

  /** getDaysInWeek: the seven consecutive days from weekStart. */
  method GetDaysInWeek(weekStart: Day) returns (days: seq<Day>)
    ensures |days| == 7
    ensures forall i :: 0 <= i < 7 ==> days[i] == weekStart + i
    ensures days == WeekDays(weekStart)
  {
    days := [];
    for i := 0 to 7
      invariant |days| == i
      invariant forall j :: 0 <= j < i ==> days[j] == weekStart + j
    {
      days := days + [weekStart + i];
    }
  }

  /**
    A week runs from its Monday to its Sunday: the end is six days after the
    start, and every date lies in the week GetDaysInWeek builds from its start.
  */
  lemma WeekBounds(date: Day)
    ensures GetWeekEnd(date) == GetWeekStart(date) + 6
    ensures date in WeekDays(GetWeekStart(date))
    ensures WeekDays(GetWeekStart(date))[6] == GetWeekEnd(date)
  {
    var s := GetWeekStart(date);
    assert WeekDays(s)[date - s] == date;
  }

  /** The week days from a Monday run Monday, Tuesday, ..., Sunday. */
  lemma WeekDaysFromMonday(s: Day)
    requires WeekDay(s) == 1
    ensures forall i :: 0 <= i < 7 ==> WeekDay(WeekDays(s)[i]) == (i + 1) % 7
  {
    forall i | 0 <= i < 7
      ensures WeekDay(WeekDays(s)[i]) == (i + 1) % 7
    {
      assert WeekDays(s)[i] == s + i;
      assert (s + 4) % 7 == 1;
    }
  }

  /** The number of weeks from start whose first day is at most last. */
  lemma WeekCount(start: Day, last: Day)
    requires start <= last
    ensures start + 7 * ((last - start) / 7) <= last < start + 7 * ((last - start) / 7 + 1)
  {
  }

  /** The first day of month `month` of the year the Date constructor reads `year` as. */
  function FirstOfMonth(year: int, month: int): Day
    requires 0 <= month < 12
  {
    MonthStart(ConstructorYear(year), month)
  }

  /** The last day of that month. */
  function LastOfMonth(year: int, month: int): Day
    requires 0 <= month < 12
  {
    FirstOfMonth(year, month) + MonthLength(ConstructorYear(year), month) - 1
  }

  /**
    `new Date(year, month, 1)` is the first day of the month and
    `new Date(year, month + 1, 0)` its last.
  */
  lemma MonthBoundsAsDates(year: int, month: int)
    requires 0 <= month < 12
    ensures MakeDay(ConstructorYear(year), month, 1) == FirstOfMonth(year, month)
    ensures MakeDay(ConstructorYear(year), month + 1, 0) == LastOfMonth(year, month)
  {
    assert month / 12 == 0 && month % 12 == month;
    LastDayOfMonth(ConstructorYear(year), month);
  }

  /**
    The weeks, Monday to Sunday, from the week holding first up to the week
    holding last: week k is getDaysInWeek of the k-th Monday from the first.
  */
  function WeeksCovering(first: Day, last: Day): (g: seq<seq<Day>>)
    requires first <= last
  {
    var start := GetWeekStart(first);
    seq((last - start) / 7 + 1, k => WeekDays(start + 7 * k))
  }

  /** The month-view grid of getDaysInMonth. */
  function MonthGrid(year: int, month: int): seq<seq<Day>>
    requires 0 <= month < 12
  {
    WeeksCovering(FirstOfMonth(year, month), LastOfMonth(year, month))
  }

  lemma WeeksEqual(a: seq<seq<Day>>, b: seq<seq<Day>>)
    requires |a| == |b| && forall k :: 0 <= k < |a| ==> a[k] == b[k]
    ensures a == b
  {
  }

  /** Whether a week holds a day of month `month` of year y. */
  predicate HoldsDayOf(week: seq<Day>, y: int, month: int) {
    exists i {:trigger week[i]} :: 0 <= i < |week| && InMonth(week[i], y, month)
  }

  /** getDaysInMonth's test `week.some(date => date.getMonth() === month)`: some day of the week has that month number. */
  predicate HasMonthDays(week: seq<Day>, month: int) {
    exists i {:trigger MonthFromDay(week[i])} :: 0 <= i < |week| && MonthFromDay(week[i]) == month
  }

  /** `week.some(date => date.getMonth() === month)`, scanning the week in order. */
  method WeekHasMonthDays(week: seq<Day>, month: int) returns (found: bool)
    ensures found == HasMonthDays(week, month)
  {
    found := false;
    var i := 0;
    while i < |week| && !found
      invariant 0 <= i <= |week|
      invariant found == (exists j :: 0 <= j < i && MonthFromDay(week[j]) == month)
    {
      found := MonthFromDay(week[i]) == month;
      i := i + 1;
    }
  }

  /**
    The loop of getDaysInMonth: weeks are added from the week holding
    firstDay until the next week would start after lastDay; a week that holds
    a day of the month and is followed by such a start ends the loop early.
  */
  method CollectWeeks(firstDay: Day, lastDay: Day, month: int) returns (weeks: seq<seq<Day>>)
    requires firstDay <= lastDay
    ensures weeks == WeeksCovering(firstDay, lastDay)
  {
    ghost var start := GetWeekStart(firstDay);
    ghost var grid := WeeksCovering(firstDay, lastDay);
    WeekCount(start, lastDay);

    weeks := [];
    var currentWeekStart := GetWeekStart(firstDay);

    while currentWeekStart <= lastDay || |weeks| == 0
      invariant currentWeekStart == start + 7 * |weeks|
      invariant |weeks| <= |grid|
      invariant forall k :: 0 <= k < |weeks| ==> weeks[k] == grid[k]
      decreases lastDay + 7 - currentWeekStart
    {
      var week := GetDaysInWeek(currentWeekStart);
      weeks := weeks + [week];

      var hasMonthDays := WeekHasMonthDays(week, month);

      currentWeekStart := currentWeekStart + 7;

      if currentWeekStart > lastDay && hasMonthDays {
        break;
      }
    }
    WeeksEqual(weeks, grid);
  }

  /**
    getDaysInMonth: the weeks, Monday to Sunday, that cover the month, padded
    with days of the neighbouring months.
  */
  method GetDaysInMonth(year: int, month: int) returns (weeks: seq<seq<Day>>)
    requires 0 <= month < 12
    ensures weeks == MonthGrid(year, month)
  {
    var firstDay := MakeDay(ConstructorYear(year), month, 1);
    var lastDay := MakeDay(ConstructorYear(year), month + 1, 0);
    MonthBoundsAsDates(year, month);
    weeks := CollectWeeks(firstDay, lastDay, month);
  }

  /** The shape of the grid: week k is the seven days from the k-th Monday after the first week start. */
  lemma WeeksCoveringAt(first: Day, last: Day)
    requires first <= last
    ensures var start := GetWeekStart(first);
      && |WeeksCovering(first, last)| == (last - start) / 7 + 1
      && forall k :: 0 <= k < |WeeksCovering(first, last)| ==> WeeksCovering(first, last)[k] == WeekDays(start + 7 * k)
  {
  }

  /** At least one week; seven consecutive days from a Monday each; weeks seven days apart. */
  lemma WeeksCoveringShape(first: Day, last: Day)
    requires first <= last
    ensures var g := WeeksCovering(first, last);
      && |g| >= 1
      && (forall k :: 0 <= k < |g| ==> |g[k]| == 7 && WeekDay(g[k][0]) == 1)
      && (forall k, i :: 0 <= k < |g| && 0 <= i < |g[k]| ==> g[k][i] == g[k][0] + i)
      && (forall k :: 0 <= k < |g| - 1 ==> g[k + 1][0] == g[k][0] + 7)
  {
    WeeksCoveringAt(first, last);
    var start := GetWeekStart(first);
    forall k | 0 <= k < |WeeksCovering(first, last)|
      ensures WeekDay(WeeksCovering(first, last)[k][0]) == 1
    {
      assert WeeksCovering(first, last)[k][0] == start + 7 * k;
      assert (start + 7 * k + 4) % 7 == (start + 4) % 7;
    }
  }

  /** Distinct positions of the grid hold distinct days. */
  lemma WeeksCoveringDistinct(first: Day, last: Day)
    requires first <= last
    ensures var g := WeeksCovering(first, last);
      forall k1, i1, k2, i2 :: 0 <= k1 < |g| && 0 <= i1 < |g[k1]| && 0 <= k2 < |g| && 0 <= i2 < |g[k2]| && g[k1][i1] == g[k2][i2] ==> k1 == k2 && i1 == i2
  {
    WeeksCoveringAt(first, last);
    var g := WeeksCovering(first, last);
    var start := GetWeekStart(first);
    forall k1, i1, k2, i2 | 0 <= k1 < |g| && 0 <= i1 < 7 && 0 <= k2 < |g| && 0 <= i2 < 7 && g[k1][i1] == g[k2][i2]
      ensures k1 == k2 && i1 == i2
    {
      assert g[k1][i1] == start + 7 * k1 + i1;
      assert g[k2][i2] == start + 7 * k2 + i2;
    }
  }

  /** Every day from first to last lies in exactly one week. */
  lemma WeeksCoveringCovers(first: Day, last: Day, n: Day)
    requires first <= n <= last
    ensures var g := WeeksCovering(first, last);
      && 0 <= (n - GetWeekStart(first)) / 7 < |g| && n in g[(n - GetWeekStart(first)) / 7]
      && (forall k1, k2 :: 0 <= k1 < |g| && 0 <= k2 < |g| && n in g[k1] && n in g[k2] ==> k1 == k2)
  {
    WeeksCoveringAt(first, last);
    var g := WeeksCovering(first, last);
    var start := GetWeekStart(first);
    var k := (n - start) / 7;
    assert g[k][n - start - 7 * k] == n;
    assert n in g[(n - GetWeekStart(first)) / 7];
    forall k1, k2 | 0 <= k1 < |g| && 0 <= k2 < |g| && n in g[k1] && n in g[k2]
      ensures k1 == k2
    {
      var i1 :| 0 <= i1 < 7 && g[k1][i1] == n;
      var i2 :| 0 <= i2 < 7 && g[k2][i2] == n;
      assert g[k1][i1] == start + 7 * k1 + i1;
      assert g[k2][i2] == start + 7 * k2 + i2;
    }
  }

  /** Every week overlaps [first, last]: it starts by last and ends no earlier than first. */
  lemma WeeksCoveringMeet(first: Day, last: Day)
    requires first <= last
    ensures var g := WeeksCovering(first, last);
      forall k :: 0 <= k < |g| ==> |g[k]| == 7 && g[k][0] <= last && first <= g[k][6]
  {
    WeeksCoveringAt(first, last);
    var g := WeeksCovering(first, last);
    var start := GetWeekStart(first);
    forall k | 0 <= k < |g|
      ensures |g[k]| == 7 && g[k][0] <= last && first <= g[k][6]
    {
      assert 7 * k <= last - start;
      assert g[k] == WeekDays(start + 7 * k);
    }
  }

  /** The first and last day of a month, and the days between them, are that month's days. */
  lemma MonthDays(year: int, month: int, n: Day)
    requires 0 <= month < 12
    ensures FirstOfMonth(year, month) <= LastOfMonth(year, month)
    ensures InMonth(n, ConstructorYear(year), month) <==> FirstOfMonth(year, month) <= n <= LastOfMonth(year, month)
  {
    InMonthIff(n, ConstructorYear(year), month);
  }

  /**
    getDaysInMonth returns at least one week; every week holds seven
    consecutive days from a Monday, and consecutive weeks start seven days apart.
  */
  lemma MonthGridShape(year: int, month: int)
    requires 0 <= month < 12
    ensures var g := MonthGrid(year, month);
      && |g| >= 1
      && (forall k :: 0 <= k < |g| ==> |g[k]| == 7 && WeekDay(g[k][0]) == 1)
      && (forall k, i :: 0 <= k < |g| && 0 <= i < |g[k]| ==> g[k][i] == g[k][0] + i)
      && (forall k :: 0 <= k < |g| - 1 ==> g[k + 1][0] == g[k][0] + 7)
  {
    MonthDays(year, month, 0);
    WeeksCoveringShape(FirstOfMonth(year, month), LastOfMonth(year, month));
  }

  /** Distinct positions of getDaysInMonth hold distinct days. */
  lemma MonthGridDistinct(year: int, month: int)
    requires 0 <= month < 12
    ensures var g := MonthGrid(year, month);
      forall k1, i1, k2, i2 :: 0 <= k1 < |g| && 0 <= i1 < |g[k1]| && 0 <= k2 < |g| && 0 <= i2 < |g[k2]| && g[k1][i1] == g[k2][i2] ==> k1 == k2 && i1 == i2
  {
    MonthDays(year, month, 0);
    WeeksCoveringDistinct(FirstOfMonth(year, month), LastOfMonth(year, month));
  }

  /** Every day of the month lies in exactly one week of getDaysInMonth. */
  lemma MonthGridCovers(year: int, month: int, n: Day)
    requires 0 <= month < 12
    requires InMonth(n, ConstructorYear(year), month)
    ensures var g := MonthGrid(year, month);
      && (exists k :: 0 <= k < |g| && n in g[k])
      && (forall k1, k2 :: 0 <= k1 < |g| && 0 <= k2 < |g| && n in g[k1] && n in g[k2] ==> k1 == k2)
  {
    var first := FirstOfMonth(year, month);
    MonthDays(year, month, n);
    WeeksCoveringCovers(first, LastOfMonth(year, month), n);
    assert n in MonthGrid(year, month)[(n - GetWeekStart(first)) / 7];
  }

  /**
    Every week getDaysInMonth returns holds at least one day of the month, of
    the year the Date constructor reads; so the week passes getDaysInMonth's test.
  */
  lemma MonthGridWeeksMeetMonth(year: int, month: int)
    requires 0 <= month < 12
    ensures var g := MonthGrid(year, month);
      forall k :: 0 <= k < |g| ==> HoldsDayOf(g[k], ConstructorYear(year), month) && HasMonthDays(g[k], month)
  {
    var first, last := FirstOfMonth(year, month), LastOfMonth(year, month);
    MonthDays(year, month, 0);
    WeeksCoveringMeet(first, last);
    var g := MonthGrid(year, month);
    forall k | 0 <= k < |g|
      ensures HoldsDayOf(g[k], ConstructorYear(year), month) && HasMonthDays(g[k], month)
    {
      var i := if g[k][0] < first then first - g[k][0] else 0;
      assert g[k][i] == g[k][0] + i by {
        WeeksCoveringShape(first, last);
      }
      MonthDays(year, month, g[k][i]);
    }
  }

  /**
    The early exit of getDaysInMonth never fires before the loop condition
    would fail anyway: after week k, the next week start is past the last day
    and week k holds a day of the month exactly when the next week start is
    past the last day.
  */
  lemma BreakSubsumed(year: int, month: int)
    requires 0 <= month < 12
    ensures var g := MonthGrid(year, month);
      var start := GetWeekStart(FirstOfMonth(year, month));
      forall k :: 0 <= k < |g| ==>
        ((start + 7 * (k + 1) > LastOfMonth(year, month) && HasMonthDays(g[k], month))
          <==> !(start + 7 * (k + 1) <= LastOfMonth(year, month)))
  {
    MonthGridWeeksMeetMonth(year, month);
  }

  /** The fields `toDateString` prints: weekday, month, day of the month and year. */
  datatype DateString = DateString(weekDay: int, month: int, date: int, year: int)

  function ToDateString(n: Day): (r: DateString)
    ensures 0 <= r.weekDay < 7 && 0 <= r.month < 12 && 1 <= r.date <= MonthLength(r.year, r.month)
    ensures MakeDay(r.year, r.month, r.date) == n
  {
    MakeDayOfFields(n);
    DateString(WeekDay(n), MonthFromDay(n), DateFromDay(n), YearFromDay(n))
  }

  /** isSameDay: both dates are present and print the same date string. */
  function IsSameDay(date1: Option<Day>, date2: Option<Day>): (r: bool)
    ensures r <==> date1.Some? && date2.Some? && date1.value == date2.value
  {
    if date1.None? || date2.None? then false
    else
      MakeDayOfFields(date1.value);
      MakeDayOfFields(date2.value);
      ToDateString(date1.value) == ToDateString(date2.value)
  }

  /** JavaScript's `%`: the remainder takes the sign of the dividend. */
  function JsRemainder(a: int, b: int): (r: int)
    requires b > 0
    ensures a >= 0 ==> 0 <= r < b
    ensures a < 0 ==> -b < r <= 0
    ensures (a - r) % b == 0
  {
    if a >= 0 then
      DivModUnique(a - a % b, b, a / b, 0);
      a % b
    else
      DivModUnique(a + (-a) % b, b, -((-a) / b), 0);
      -((-a) % b)
  }

  /** A JavaScript remainder is zero exactly when the Euclidean one is. */
  lemma JsRemainderZero(a: int, b: int)
    requires b > 0
    ensures JsRemainder(a, b) == 0 <==> a % b == 0
  {
    if a < 0 {
      if a % b == 0 {
        DivModUnique(-a, b, -(a / b), 0);
      } else if (-a) % b == 0 {
        DivModUnique(a, b, -((-a) / b), 0);
      }
    }
  }

  /**
    isLeapYear: the Gregorian rule, which for every year (negative ones
    too) picks out the years the calendar gives 366 days.
  */
  function IsLeapYear(year: int): (r: bool)
    ensures r <==> (year % 4 == 0 && year % 100 != 0) || year % 400 == 0
    ensures r <==> DaysInYear(year) == 366
  {
    assert JsRemainder(year, 4) == 0 <==> year % 4 == 0 by { JsRemainderZero(year, 4); }
    assert JsRemainder(year, 100) == 0 <==> year % 100 == 0 by { JsRemainderZero(year, 100); }
    assert JsRemainder(year, 400) == 0 <==> year % 400 == 0 by { JsRemainderZero(year, 400); }
    assert year % 400 == 0 ==> year % 4 == 0 && year % 100 == 0 by {
      if year % 400 == 0 {
        DivModUnique(year, 4, 100 * (year / 400), 0);
        DivModUnique(year, 100, 4 * (year / 400), 0);
      }
    }
    (JsRemainder(year, 4) == 0 && JsRemainder(year, 100) != 0) || JsRemainder(year, 400) == 0
  }

  /** getDaysInMonthCount: the date of day 0 of the next month, which is the month's last day. */
  function GetDaysInMonthCount(year: int, month: int): (r: int)
    requires 0 <= month < 12
    ensures r == MonthLength(ConstructorYear(year), month)
  {
    var y := ConstructorYear(year);
    DateOfLastDay(y, month);
    DateFromDay(MakeDay(y, month + 1, 0))
  }

  /**
    Months have 31 or 30 days by the Gregorian table; February has 29 days
    exactly when isLeapYear says so, for every year but 0, which the Date
    constructor reads as 1900.
  */
  lemma DaysInMonthCountTable(year: int, month: int)
    requires 0 <= month < 12
    ensures month in {0, 2, 4, 6, 7, 9, 11} ==> GetDaysInMonthCount(year, month) == 31
    ensures month in {3, 5, 8, 10} ==> GetDaysInMonthCount(year, month) == 30
    ensures month == 1 && year != 0 ==> (GetDaysInMonthCount(year, month) == 29 <==> IsLeapYear(year))
    ensures month == 1 && year != 0 ==> (GetDaysInMonthCount(year, month) == 28 <==> !IsLeapYear(year))
  {
    if 1 <= year <= 99 {
      DivModUnique(1900 + year, 4, 475 + year / 4, year % 4);
      DivModUnique(1900 + year, 100, 19, year);
      DivModUnique(1900 + year, 400, 4, 300 + year);
      DivModUnique(year, 100, 0, year);
    }
  }

  /** For year 0 the two disagree: isLeapYear(0) holds, yet February of year 0 counts 28 days. */
  lemma YearZeroFebruary()
    ensures IsLeapYear(0)
    ensures GetDaysInMonthCount(0, 1) == 28
  {
    assert DaysInYear(1900) == 365;
  }

  /** The short weekday names of `toDateString`, indexed by getDay (Sunday = 0). */
  function ShortDayName(weekDay: int): string
    requires 0 <= weekDay < 7
  {
    ["Sun", "Mon", "Tue", "Wed", "Thu", "Fri", "Sat"][weekDay]
  }

  /** getDayNames: the column headings of the calendar, Monday first. */
  function GetDayNames(): (r: seq<string>)
    ensures |r| == 7
    ensures forall i :: 0 <= i < 7 ==> r[i] == ShortDayName((i + 1) % 7)
  {
    ["Mon", "Tue", "Wed", "Thu", "Fri", "Sat", "Sun"]
  }

  /** Column i of the heading names the weekday of day i of every week getWeekStart begins. */
  lemma DayNamesMatchWeek(date: Day)
    ensures forall i :: 0 <= i < 7 ==>
      GetDayNames()[i] == ShortDayName(WeekDay(WeekDays(GetWeekStart(date))[i]))
  {
    WeekDaysFromMonday(GetWeekStart(date));
  }
}
