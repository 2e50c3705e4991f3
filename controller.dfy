/**
 * The journal's controller (daily_journal/controller.py) without its tkinter
 * pages: the focused date, the month grid derived from it, and the focused
 * date's display string.
 */
module Control {
  import opened Text
  import opened Dates
  import opened Calendar
  import Model

  class Controller {
    var focusDate: Date
    var calendarMatrix: seq<seq<int>>

    /** The grid always belongs to the focused date's month. */
    ghost predicate Valid()
      reads this
    {
      focusDate.Valid() && calendarMatrix == PaddedMonthCalendar(focusDate.year, focusDate.month)
    }

    /** `Controller(...)` sets the focus to the date it starts on (today, passed in). */
    constructor(today: Date)
      requires today.Valid()
      ensures Valid() && focusDate == today
    {
      focusDate := today;
      calendarMatrix := [];
      new;
      SetFocusDateAndMonth(today);
    }

    /** `set_focus_date_and_month(date)`: focus on `date` and rebuild the grid of its month. */
    method SetFocusDateAndMonth(date: Date)
      requires date.Valid()
      modifies this
      ensures Valid()
      ensures GetFocusDate() == date
      ensures calendarMatrix == PaddedMonthCalendar(date.year, date.month)
    {
      focusDate := date;
      calendarMatrix := BuildCalendarMatrix();
    }

    /** `get_focus_date()`. */
    function GetFocusDate(): (d: Date)
      reads this
      requires Valid()
      ensures d.Valid()
    {
      focusDate
    }

    /** `get_focus_date_str()`: "<MonthName> <day>, <year>" with the numbers unpadded, e.g. "March 4, 2024". */
    function GetFocusDateStr(): (s: string)
      reads this
      requires focusDate.Valid()
      ensures SpellsDate(s, MonthName(focusDate.month), |Decimal(focusDate.day)|, focusDate.day, focusDate.year)
      ensures var k, n := |MonthName(focusDate.month)|, |Decimal(focusDate.day)|;
        s[k + 1] != '0' && s[k + 3 + n] != '0'
    {
      var name, day, year := MonthName(focusDate.month), Decimal(focusDate.day), Decimal(focusDate.year);
      DatePieces(name, day, year);
      name + " " + day + ", " + year
    }

    /**
     * `build_calendar_matrix()`: `monthcalendar` of the focused month with one
     * blank week appended when it has fewer than six. Changes nothing.
     */
    method BuildCalendarMatrix() returns (weeks: seq<seq<int>>)
      requires focusDate.Valid()
      ensures weeks == PaddedMonthCalendar(focusDate.year, focusDate.month)
      ensures 5 <= |weeks| <= 6 && forall i :: 0 <= i < |weeks| ==> |weeks[i]| == 7
    {
      weeks := MonthCalendar(focusDate.year, focusDate.month);
      if |weeks| < 6 {
        weeks := weeks + [BlankWeek];
      }
      PaddedWeekCount(focusDate.year, focusDate.month);
    }
  }

  /**
   * The controller's string and a Day's string for the same date agree only
   * when neither needs padding: day 10 or later, year 1000 or later.
   */
  lemma FocusStringVersusDayString(c: Controller)
    requires c.focusDate.Valid()
    ensures c.GetFocusDateStr() == Model.DateString(c.focusDate) <==> c.focusDate.day >= 10 && c.focusDate.year >= 1000
  {
    var d := c.focusDate;
    if d.day >= 10 {
      DecimalIsPadded(d.day, 2);
    } else {
      DecimalShort(d.day, 2);
    }
    if d.year >= 1000 {
      DecimalIsPadded(d.year, 4);
    } else {
      DecimalShort(d.year, 4);
    }
    DecimalShort(d.year, 5);
  }

  /**
   * The calendar page's two grids agree: for the focused month, the Month's
   * grid has a Day exactly where the controller's number grid has a day, for
   * that day of the month, and 0 everywhere else.
   */
  lemma GridAgreesWithMonth(c: Controller, m: Model.Month)
    requires c.Valid()
    requires m.year == c.focusDate.year && m.monthNum == c.focusDate.month
    requires Model.IsDayGrid(m.monthMatrix, m.year, m.monthNum)
    ensures |m.monthMatrix| == |c.calendarMatrix|
    ensures forall i, j :: 0 <= i < |c.calendarMatrix| && 0 <= j < 7 ==>
      && |c.calendarMatrix[i]| == 7
      && (c.calendarMatrix[i][j] == 0 <==> m.monthMatrix[i][j] == Model.Num(0))
      && (c.calendarMatrix[i][j] != 0 ==>
            m.monthMatrix[i][j].DayCell? && m.monthMatrix[i][j].day.date.day == c.calendarMatrix[i][j])
  {
    var weeks := c.calendarMatrix;
    PaddedCellsAreDays(m.year, m.monthNum);
    forall i, j | 0 <= i < |weeks| && 0 <= j < 7
      ensures |weeks[i]| == 7
      ensures weeks[i][j] == 0 <==> m.monthMatrix[i][j] == Model.Num(0)
      ensures weeks[i][j] != 0 ==> m.monthMatrix[i][j].DayCell? && m.monthMatrix[i][j].day.date.day == weeks[i][j]
    {
      assert m.monthMatrix[i] == Model.DayCells(m.year, m.monthNum, weeks[i]);
      assert m.monthMatrix[i][j] == Model.CellFor(m.year, m.monthNum, weeks[i][j]);
    }
  }
}
