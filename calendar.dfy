/**
 * `calendar.monthcalendar(year, month)` with the default first weekday
 * (Monday), built the way Python's calendar module builds it, and the one
 * extra blank week both callers in the journal append to a short month.
 */
module Calendar {
  import opened Dates

  /** The year and month `calendar.monthcalendar` and `datetime.date` both accept. */
  predicate ValidMonth(year: int, month: int) {
    MinYear <= year <= MaxYear && 1 <= month <= 12
  }

  /** Weekday of the first of the month: the number of blank cells before day 1. */
  function FirstWeekday(year: int, month: int): (w: int)
    requires ValidMonth(year, month)
    ensures 0 <= w < 7
  {
    Weekday(Date(year, month, 1))
  }

  function Zeros(n: nat): (s: seq<int>)
    ensures |s| == n && forall i :: 0 <= i < n ==> s[i] == 0
  {
    seq(n, _ => 0)
  }

  /**
   * `itermonthdays`: blanks up to the first's weekday, the days 1..n, then
   * blanks up to the end of the last week.
   */
  function MonthDays(year: int, month: int): (days: seq<int>)
    requires ValidMonth(year, month)
    ensures var w, n := FirstWeekday(year, month), DaysInMonth(year, month);
      && |days| == 7 * ((w + n + 6) / 7)
      && forall p :: 0 <= p < |days| ==> days[p] == if w <= p < w + n then p - w + 1 else 0
  {
    var w, n := FirstWeekday(year, month), DaysInMonth(year, month);
    Zeros(w) + seq(n, i => i + 1) + Zeros((-(w + n)) % 7)
  }

  /** `[days[i:i+7] for i in range(0, len(days), 7)]`. */
  function Weeks(days: seq<int>): (weeks: seq<seq<int>>)
    requires |days| % 7 == 0
    ensures |weeks| * 7 == |days|
    ensures forall i :: 0 <= i < |weeks| ==> weeks[i] == days[7 * i .. 7 * i + 7]
  {
    if days == [] then []
    else
      var rest := Weeks(days[7..]);
      assert forall i :: 1 <= i < |rest| + 1 ==> days[7..][7 * (i - 1) .. 7 * (i - 1) + 7] == days[7 * i .. 7 * i + 7];
      [days[..7]] + rest
  }

  /** `calendar.monthcalendar(year, month)`: `itermonthdays` cut into weeks of seven. */
  function MonthCalendar(year: int, month: int): (weeks: seq<seq<int>>)
    requires ValidMonth(year, month)
    ensures |weeks| * 7 == |MonthDays(year, month)|
    ensures forall i, j :: 0 <= i < |weeks| && 0 <= j < 7 ==> |weeks[i]| == 7 && weeks[i][j] == MonthDays(year, month)[7 * i + j]
  {
    var days := MonthDays(year, month);
    var weeks := Weeks(days);
    assert forall i, j :: 0 <= i < |weeks| && 0 <= j < 7 ==> weeks[i][j] == days[7 * i .. 7 * i + 7][j];
    weeks
  }

  /**
   * What `monthcalendar` holds at week `i`, weekday `j`, when the month's first
   * falls on weekday `w` and it has `n` days: the day at that position, or 0.
   */
  function CellDay(w: int, n: int, i: int, j: int): int {
    var p := 7 * i + j;
    if w <= p < w + n then p - w + 1 else 0
  }

  /** The natural month grid: as many weeks as the month touches, seven cells each. */
  lemma MonthCalendarShape(year: int, month: int)
    requires ValidMonth(year, month)
    ensures var cal, w, n := MonthCalendar(year, month), FirstWeekday(year, month), DaysInMonth(year, month);
      && |cal| == (w + n + 6) / 7
      && 4 <= |cal| <= 6
      && (|cal| == 4 <==> n == 28 && w == 0)
      && forall i, j :: 0 <= i < |cal| && 0 <= j < 7 ==> |cal[i]| == 7 && cal[i][j] == CellDay(w, n, i, j)
  {
    var cal, w, n := MonthCalendar(year, month), FirstWeekday(year, month), DaysInMonth(year, month);
    var days := MonthDays(year, month);
    forall i, j | 0 <= i < |cal| && 0 <= j < 7
      ensures |cal[i]| == 7 && cal[i][j] == CellDay(w, n, i, j)
    {
      assert cal[i][j] == days[7 * i + j];
    }
  }

  const BlankWeek: seq<int> := [0, 0, 0, 0, 0, 0, 0]

  /** The month grid with one blank week appended when it has fewer than six weeks. */
  function PaddedMonthCalendar(year: int, month: int): (weeks: seq<seq<int>>)
    requires ValidMonth(year, month)
    ensures var cal, w, n := MonthCalendar(year, month), FirstWeekday(year, month), DaysInMonth(year, month);
      && |weeks| == (if |cal| < 6 then |cal| + 1 else |cal|)
      && (|cal| < 6 ==> weeks[|weeks| - 1] == BlankWeek)
      && forall i, j :: 0 <= i < |weeks| && 0 <= j < 7 ==> |weeks[i]| == 7 && weeks[i][j] == CellDay(w, n, i, j)
  {
    var cal := MonthCalendar(year, month);
    MonthCalendarShape(year, month);
    if |cal| < 6 then cal + [BlankWeek] else cal
  }

  /**
   * The padded grid has six weeks, except a 28-day February whose first is a
   * Monday, which fills exactly four weeks and so ends up with five.
   */
  lemma PaddedWeekCount(year: int, month: int)
    requires ValidMonth(year, month)
    ensures var weeks := PaddedMonthCalendar(year, month);
      && 5 <= |weeks| <= 6
      && (|weeks| == 5 <==> month == 2 && !IsLeap(year) && FirstWeekday(year, month) == 0)
      && (|MonthCalendar(year, month)| >= 5 ==> |weeks| == 6)
  {
    MonthCalendarShape(year, month);
  }

  /** Each day of the month is in exactly one cell: the one at its offset from the first's weekday. */
  lemma DayCell(year: int, month: int, i: int, j: int, k: int)
    requires ValidMonth(year, month)
    requires 0 <= i < |PaddedMonthCalendar(year, month)| && 0 <= j < 7
    requires 1 <= k <= DaysInMonth(year, month)
    ensures PaddedMonthCalendar(year, month)[i][j] == k <==> 7 * i + j == FirstWeekday(year, month) + k - 1
  {
  }

  /** Every day of the month has a cell. */
  lemma DayHasCell(year: int, month: int, k: int)
    requires ValidMonth(year, month)
    requires 1 <= k <= DaysInMonth(year, month)
    ensures var p, weeks := FirstWeekday(year, month) + k - 1, PaddedMonthCalendar(year, month);
      p / 7 < |weeks| && weeks[p / 7][p % 7] == k
  {
    MonthCalendarShape(year, month);
  }

  /** Every cell of the padded grid is 0 or a day of the month. */
  lemma PaddedCellsAreDays(year: int, month: int)
    requires ValidMonth(year, month)
    ensures var weeks := PaddedMonthCalendar(year, month);
      forall i, j :: 0 <= i < |weeks| && 0 <= j < 7 ==> 0 <= weeks[i][j] <= DaysInMonth(year, month)
  {
  }

  /** Cells hold 0 or a day of the month, and the days increase in row-major order. */
  lemma DaysInRowMajorOrder(year: int, month: int, i1: int, j1: int, i2: int, j2: int)
    requires ValidMonth(year, month)
    requires var weeks := PaddedMonthCalendar(year, month);
      0 <= i1 < |weeks| && 0 <= j1 < 7 && 0 <= i2 < |weeks| && 0 <= j2 < 7
    requires 7 * i1 + j1 < 7 * i2 + j2
    ensures var weeks := PaddedMonthCalendar(year, month);
      && 0 <= weeks[i1][j1] <= DaysInMonth(year, month)
      && (weeks[i1][j1] != 0 && weeks[i2][j2] != 0 ==> weeks[i1][j1] < weeks[i2][j2])
  {
  }

  /** Weeks start on Monday: a day in column `j` falls on weekday `j`. */
  lemma CellWeekday(year: int, month: int, i: int, j: int)
    requires ValidMonth(year, month)
    requires 0 <= i < |PaddedMonthCalendar(year, month)| && 0 <= j < 7
    requires PaddedMonthCalendar(year, month)[i][j] != 0
    ensures Weekday(Date(year, month, PaddedMonthCalendar(year, month)[i][j])) == j
  {
    var weeks, w, n := PaddedMonthCalendar(year, month), FirstWeekday(year, month), DaysInMonth(year, month);
    var k := weeks[i][j];
    assert k == CellDay(w, n, i, j);
    WeekdayOfDay(year, month, k);
    assert w + k - 1 == 7 * i + j;
    SevenRowsMod(i, j);
  }

  lemma SevenRowsMod(i: int, j: int)
    requires 0 <= j < 7
    ensures (7 * i + j) % 7 == j
  {
  }

  /**
   * Day 1 sits in the first week at the column of its weekday, after blanks, and
   * every later week of the natural grid starts with a (Monday) day.
   */
  lemma FirstDayAndWeekStarts(year: int, month: int)
    requires ValidMonth(year, month)
    ensures var weeks, w := PaddedMonthCalendar(year, month), FirstWeekday(year, month);
      && weeks[0][w] == 1
      && (forall j :: 0 <= j < w ==> weeks[0][j] == 0)
      && forall i :: 1 <= i < |MonthCalendar(year, month)| ==> weeks[i][0] != 0
  {
    MonthCalendarShape(year, month);
  }

  /** February 2021 begins on a Monday and fills four weeks: the padded grid has five. */
  lemma February2021HasFiveWeeks()
    ensures |PaddedMonthCalendar(2021, 2)| == 5
  {
    PaddedWeekCount(2021, 2);
  }

  /** February 2024 (a leap year) begins on a Thursday: days 1..29 over six padded weeks. */
  lemma February2024HasSixWeeks()
    ensures DaysInMonth(2024, 2) == 29 && FirstWeekday(2024, 2) == 3
    ensures |PaddedMonthCalendar(2024, 2)| == 6
  {
    PaddedWeekCount(2024, 2);
  }
}
