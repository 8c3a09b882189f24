/**
  The month grid: blank cells up to the weekday of the 1st, then one cell per day
  of the displayed month, laid out seven to a row under Sun .. Sat.
 */
module MonthGrid {
  import opened Options
  import opened Gregorian

  /**
    Builds the cells of the month `ym` the way the view does, with one loop pushing
    the leading blanks and one pushing days 1 .. days-in-month.  Every date lands
    in the column of its weekday.
   */
  method BuildCalendarDays(ym: YearMonth) returns (cells: seq<Option<Date>>)
    ensures |cells| == StartDay(ym) + DaysInMonth(ym.year, ym.month)
    ensures forall i | 0 <= i < StartDay(ym) :: cells[i] == None
    ensures forall i | StartDay(ym) <= i < |cells| ::
      cells[i] == Some(Date(ym.year, ym.month, i - StartDay(ym) + 1))
    ensures forall i | 0 <= i < |cells| && cells[i].Some? ::
      ValidDate(cells[i].value) && Weekday(cells[i].value) == i % 7
  {
    var startDay := StartDay(ym);
    var daysInMonth := DaysInMonth(ym.year, ym.month);
    cells := [];
    var i := 0;
    while i < startDay
      invariant 0 <= i <= startDay
      invariant |cells| == i
      invariant forall k | 0 <= k < i :: cells[k] == None
    {
      cells := cells + [None];
      i := i + 1;
    }
    var d := 1;
    while d <= daysInMonth
      invariant 1 <= d <= daysInMonth + 1
      invariant |cells| == startDay + d - 1
      invariant forall k | 0 <= k < startDay :: cells[k] == None
      invariant forall k | startDay <= k < |cells| ::
        cells[k] == Some(Date(ym.year, ym.month, k - startDay + 1))
    {
      cells := cells + [Some(Date(ym.year, ym.month, d))];
      d := d + 1;
    }
    forall i | 0 <= i < |cells| && cells[i].Some?
      ensures ValidDate(cells[i].value) && Weekday(cells[i].value) == i % 7
    {
      WeekdayInMonth(ym, i - startDay + 1);
    }
  }

  /** April 2020 starts on a Wednesday and has 30 days: 3 blanks, 33 cells. */
  lemma AprilTwentyTwenty()
    ensures StartDay(YearMonth(2020, 4)) == 3
    ensures DaysInMonth(2020, 4) == 30
  {
  }
}
