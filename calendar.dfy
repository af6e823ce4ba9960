/** The cell layout of renderCalendar: six weeks of seven cells, the tail of
    the previous month, the displayed month, then the head of the next month.

    The weekday of the first of the month, the month's length and the previous
    month's length come from the date library and are parameters here, as is
    the day ordinal of the first of the displayed month. */
module Calendar {

  import opened Streak

  /** One calendar cell: the number shown, and the classes it carries. */
  datatype Cell = Cell(day: int, otherMonth: bool, isToday: bool, completed: bool)

  /** A cell of the previous or the next month (class "other-month"). */
  function OtherMonthCell(day: int): Cell
  {
    Cell(day, true, false, false)
  }

  const GridCells := 42

  /** Builds the cells in the order renderCalendar appends them. */
  method RenderCalendar(firstDay: nat, daysInMonth: nat, daysInPrevMonth: int,
                        monthStart: Day, today: Day, streakData: map<Day, bool>)
    returns (cells: seq<Cell>)
    ensures |cells| == if firstDay + daysInMonth <= GridCells then GridCells else firstDay + daysInMonth
    ensures forall j :: 0 <= j < firstDay ==>
      cells[j] == OtherMonthCell(daysInPrevMonth - firstDay + 1 + j)
    ensures forall j :: firstDay <= j < firstDay + daysInMonth ==>
      && cells[j].day == j - firstDay + 1
      && !cells[j].otherMonth
      && (cells[j].isToday <==> monthStart + (j - firstDay) == today)
      && (cells[j].completed <==> monthStart + (j - firstDay) in streakData)
    ensures forall j :: firstDay + daysInMonth <= j < |cells| ==>
      cells[j] == OtherMonthCell(j - firstDay - daysInMonth + 1)
  {
    cells := [];

    // Previous month's days
    var i: int := firstDay - 1;
    while i >= 0
      invariant -1 <= i < firstDay
      invariant |cells| == firstDay - 1 - i
      invariant forall j :: 0 <= j < |cells| ==>
        cells[j] == OtherMonthCell(daysInPrevMonth - firstDay + 1 + j)
    {
      var day := daysInPrevMonth - i;
      cells := cells + [OtherMonthCell(day)];
      i := i - 1;
    }

    // Current month's days
    var day := 1;
    while day <= daysInMonth
      invariant 1 <= day <= daysInMonth + 1
      invariant |cells| == firstDay + day - 1
      invariant forall j :: 0 <= j < firstDay ==>
        cells[j] == OtherMonthCell(daysInPrevMonth - firstDay + 1 + j)
      invariant forall j :: firstDay <= j < |cells| ==>
        && cells[j].day == j - firstDay + 1
        && !cells[j].otherMonth
        && (cells[j].isToday <==> monthStart + (j - firstDay) == today)
        && (cells[j].completed <==> monthStart + (j - firstDay) in streakData)
    {
      var date := monthStart + day - 1;
      var isToday := date == today;
      var isCompleted := date in streakData;
      cells := cells + [Cell(day, false, isToday, isCompleted)];
      day := day + 1;
    }

    // Next month's days
    var totalCells := |cells|;
    var remainingCells := GridCells - totalCells;
    day := 1;
    while day <= remainingCells
      invariant 1 <= day
      invariant remainingCells >= 0 ==> day <= remainingCells + 1
      invariant remainingCells < 0 ==> day == 1
      invariant |cells| == totalCells + day - 1
      invariant forall j :: 0 <= j < firstDay ==>
        cells[j] == OtherMonthCell(daysInPrevMonth - firstDay + 1 + j)
      invariant forall j :: firstDay <= j < firstDay + daysInMonth ==>
        && cells[j].day == j - firstDay + 1
        && !cells[j].otherMonth
        && (cells[j].isToday <==> monthStart + (j - firstDay) == today)
        && (cells[j].completed <==> monthStart + (j - firstDay) in streakData)
      invariant forall j :: totalCells <= j < |cells| ==>
        cells[j] == OtherMonthCell(j - totalCells + 1)
    {
      cells := cells + [OtherMonthCell(day)];
      day := day + 1;
    }
  }
}
