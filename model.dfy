/**
 * The journal's in-memory entities (daily_journal/model.py): a `Day` holding a
 * date and its entry text, and a `Month` whose grid holds a `Day` in every cell
 * that belongs to the month.
 */
module Model {
  import opened Text
  import opened Dates
  import opened Calendar

  /** A calendar day with its entry text and its display string. */
  datatype Day = Day(date: Date, entry: string, dateString: string)

  /**
   * `strftime(date, '%B %d, %Y')`: English month name, the day of the month
   * in two digits and the year in four, e.g. "March 04, 2024".
   */
  function DateString(date: Date): (s: string)
    requires date.Valid()
    ensures |s| == |MonthName(date.month)| + 9
    ensures SpellsDate(s, MonthName(date.month), 2, date.day, date.year)
  {
    var name, day, year := MonthName(date.month), ZeroPadded(date.day, 2), ZeroPadded(date.year, 4);
    DatePieces(name, day, year);
    name + " " + day + ", " + year
  }

  /** Distinct dates have distinct display strings. */
  lemma DateStringInjective(a: Date, b: Date)
    requires a.Valid() && b.Valid()
    ensures DateString(a) == DateString(b) <==> a == b
  {
    if DateString(a) == DateString(b) {
      var s := DateString(a);
      var na, nb := MonthName(a.month), MonthName(b.month);
      assert |na| == |nb|;
      assert na == s[..|na|] == nb;
      MonthNameInjective(a.month, b.month);
      assert s[|na| + 1..|na| + 3] == ZeroPadded(a.day, 2) == ZeroPadded(b.day, 2);
      ZeroPaddedOrder(a.day, b.day, 2);
      ZeroPaddedOrder(a.year, b.year, 4);
    }
  }

  /** `Day(date)`: the given date, an empty entry and the date's display string. */
  function NewDay(date: Date): (day: Day)
    requires date.Valid()
    ensures day.date == date && day.entry == ""
    ensures day.dateString == DateString(date)
  {
    Day(date, "", DateString(date))
  }

  /** A cell of a month grid: a number from `monthcalendar`, or the `Day` that replaced it. */
  datatype Cell = Num(n: int) | DayCell(day: Day)

  /** The cell the month grid ends up with for the number `k` of the natural grid. */
  function CellFor(year: int, month: int, k: int): Cell
    requires ValidMonth(year, month) && 0 <= k <= DaysInMonth(year, month)
  {
    if k == 0 then Num(0) else DayCell(NewDay(Date(year, month, k)))
  }

  /** A week of `monthcalendar` numbers that are each 0 or a day of the month. */
  predicate IsWeekOf(year: int, month: int, week: seq<int>)
    requires ValidMonth(year, month)
  {
    |week| == 7 && forall j :: 0 <= j < 7 ==> 0 <= week[j] <= DaysInMonth(year, month)
  }

  /** A week as the Python list holds it before the substitution: the numbers themselves. */
  function NumCells(week: seq<int>): (cells: seq<Cell>) {
    seq(|week|, j requires 0 <= j < |week| => Num(week[j]))
  }

  /** A week after the substitution: each day number replaced by the Day of that date. */
  function DayCells(year: int, month: int, week: seq<int>): (cells: seq<Cell>)
    requires ValidMonth(year, month) && IsWeekOf(year, month, week)
  {
    seq(7, j requires 0 <= j < 7 => CellFor(year, month, week[j]))
  }

  /** `grid` is the padded month grid of `year`/`month` with every day number replaced by its Day. */
  ghost predicate IsDayGrid(grid: seq<seq<Cell>>, year: int, month: int)
    requires ValidMonth(year, month)
  {
    var weeks := PaddedMonthCalendar(year, month);
    PaddedCellsAreDays(year, month);
    && |grid| == |weeks|
    && forall i :: 0 <= i < |grid| ==> grid[i] == DayCells(year, month, weeks[i])
  }

  /**
   * What a Month's grid holds: every day of the month exactly once, as a Day
   * with an empty entry, in the column of its weekday, all other cells 0.
   */
  lemma DayGridContents(grid: seq<seq<Cell>>, year: int, month: int, i: int, j: int)
    requires ValidMonth(year, month) && IsDayGrid(grid, year, month)
    requires 0 <= i < |grid| && 0 <= j < 7
    ensures grid[i][j].Num? ==> grid[i][j] == Num(0)
    ensures grid[i][j].DayCell? ==>
      var d := grid[i][j].day;
      && d.date.Valid() && d.date.year == year && d.date.month == month && d.entry == ""
      && Weekday(d.date) == j
      && d.date.day == 7 * i + j - FirstWeekday(year, month) + 1
  {
    var weeks := PaddedMonthCalendar(year, month);
    assert grid[i][j] == CellFor(year, month, weeks[i][j]);
    if weeks[i][j] != 0 {
      CellWeekday(year, month, i, j);
    }
  }

  /**
   * The inner loop of `build_calendar_matrix` over one week (`week` is the
   * row of the Python list, `days` its original numbers): every non-zero
   * number is replaced by the Day of that date, zeros are kept.
   */
  method FillWeek(year: int, month: int, days: seq<int>, week: seq<Cell>) returns (filled: seq<Cell>)
    requires ValidMonth(year, month) && IsWeekOf(year, month, days)
    requires week == NumCells(days)
    ensures filled == DayCells(year, month, days)
  {
    filled := week;
    for j := 0 to 7
      invariant |filled| == 7
      invariant forall c :: 0 <= c < j ==> filled[c] == CellFor(year, month, days[c])
      invariant forall c :: j <= c < 7 ==> filled[c] == Num(days[c])
    {
      var dayNum := days[j];
      if dayNum != 0 {
        var date := Date(year, month, dayNum);
        filled := filled[j := DayCell(NewDay(date))];
      }
    }
  }

  class Month {
    var monthNum: int
    var year: int
    var monthMatrix: seq<seq<Cell>>
    var monthName: string

    /** `Month(month_num, year)`: builds the Day grid and looks up the month's name. */
    constructor(monthNum: int, year: int)
      requires ValidMonth(year, monthNum)
      ensures this.monthNum == monthNum && this.year == year
      ensures IsDayGrid(monthMatrix, year, monthNum)
      ensures monthName == MonthName(monthNum)
    {
      this.monthNum := monthNum;
      this.year := year;
      monthMatrix := [];
      monthName := "";
      new;
      monthMatrix := BuildCalendarMatrix();
      monthName := MonthName(this.monthNum);
    }

    /**
     * `build_calendar_matrix`: the natural grid, one blank week appended when it
     * has fewer than six, then every non-zero number replaced in place by the
     * Day of that date, week by week.
     */
    method BuildCalendarMatrix() returns (grid: seq<seq<Cell>>)
      requires ValidMonth(year, monthNum)
      ensures IsDayGrid(grid, year, monthNum)
    {
      var weeks := MonthCalendar(year, monthNum);
      if |weeks| < 6 {
        weeks := weeks + [BlankWeek];
      }
      assert weeks == PaddedMonthCalendar(year, monthNum);
      PaddedCellsAreDays(year, monthNum);
      grid := seq(|weeks|, i requires 0 <= i < |weeks| => NumCells(weeks[i]));
      for i := 0 to |grid|
        invariant |grid| == |weeks|
        invariant forall r :: 0 <= r < i ==> grid[r] == DayCells(year, monthNum, weeks[r])
        invariant forall r :: i <= r < |grid| ==> grid[r] == NumCells(weeks[r])
      {
        assert IsWeekOf(year, monthNum, weeks[i]);
        var week := FillWeek(year, monthNum, weeks[i], grid[i]);
        grid := grid[i := week];
      }
    }
  }
}
