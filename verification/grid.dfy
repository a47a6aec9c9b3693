/** The month grid that loadCalendar (calendar.js lines 52-89) builds: leading blank cells
    up to the weekday of the 1st, one cell per day, cut into table rows of seven. */
module Grid {
  import opened Gregorian
  import opened Reminders

  /** A table cell: a blank placeholder, or a day with the labels of its events. */
  datatype Cell = Blank | Day(date: int, events: seq<string>)

  /** The cells of the rows, read row by row. */
  function Flatten(rows: seq<seq<Cell>>): seq<Cell>
    decreases |rows|
  {
    if rows == [] then [] else Flatten(rows[..|rows| - 1]) + rows[|rows| - 1]
  }

  /** Every row but the last holds exactly seven cells, and the last holds one to seven:
      no row is empty and the last is not padded. */
  ghost predicate Weeks(rows: seq<seq<Cell>>) {
    && (forall i :: 0 <= i < |rows| - 1 ==> |rows[i]| == 7)
    && (rows != [] ==> 1 <= |rows[|rows| - 1]| <= 7)
  }

  /** `blanks` blank cells, then days 1..days with the labels of their reminders, built
      one cell at a time as the loops of loadCalendar append them. */
  function Layout(rs: seq<Reminder>, month: int, year: int, blanks: nat, days: nat): (c: seq<Cell>)
    ensures |c| == blanks + days
    decreases days, blanks
  {
    if days > 0 then Layout(rs, month, year, blanks, days - 1) + [Day(days, Labels(rs, days, month, year))]
    else if blanks > 0 then Layout(rs, month, year, blanks - 1, 0) + [Blank]
    else []
  }

  /** The layout cell by cell: `blanks` blanks, then day d at position blanks + d - 1. */
  lemma {:induction false} LayoutAt(rs: seq<Reminder>, month: int, year: int, blanks: nat, days: nat)
    ensures forall k :: 0 <= k < blanks ==> Layout(rs, month, year, blanks, days)[k] == Blank
    ensures forall k :: blanks <= k < blanks + days ==>
      Layout(rs, month, year, blanks, days)[k] == Day(k - blanks + 1, Labels(rs, k - blanks + 1, month, year))
    decreases days, blanks
  {
    if days > 0 {
      LayoutAt(rs, month, year, blanks, days - 1);
    } else if blanks > 0 {
      LayoutAt(rs, month, year, blanks - 1, 0);
    }
  }

  /** The cells of the month of `month` (0-based) in `year`, in reading order: one blank per
      weekday before the 1st, then days 1..MonthLength with their labels. */
  function MonthCells(rs: seq<Reminder>, month: int, year: int): seq<Cell>
    requires 0 <= month < 12
  {
    Layout(rs, month, year, FirstDay(year, month), MonthLength(year, month))
  }

  lemma FlattenPush(rows: seq<seq<Cell>>, row: seq<Cell>)
    ensures Flatten(rows + [row]) == Flatten(rows) + row
  {
    assert (rows + [row])[..|rows|] == rows;
  }

  /** Rows of exactly seven cells hold seven cells per row. */
  lemma {:induction false} FullRowsLength(rows: seq<seq<Cell>>)
    requires forall i :: 0 <= i < |rows| ==> |rows[i]| == 7
    ensures |Flatten(rows)| == 7 * |rows|
    decreases |rows|
  {
    if rows != [] {
      FullRowsLength(rows[..|rows| - 1]);
    }
  }

  /** The number of rows is the number of cells divided by seven, rounded up. */
  lemma RowCount(rows: seq<seq<Cell>>)
    requires Weeks(rows)
    ensures |rows| == (|Flatten(rows)| + 6) / 7
  {
    if rows != [] {
      var init := rows[..|rows| - 1];
      FullRowsLength(init);
      assert |Flatten(rows)| == 7 * |init| + |rows[|rows| - 1]|;
    }
  }

  /** Cutting into weeks leaves no choice: two row sequences of that shape with the same cells
      are equal, so the rows are determined by the cells alone. */
  lemma {:induction false} WeeksDetermined(a: seq<seq<Cell>>, b: seq<seq<Cell>>)
    requires Weeks(a) && Weeks(b) && Flatten(a) == Flatten(b)
    ensures a == b
    decreases |a|
  {
    RowCount(a);
    RowCount(b);
    if a != [] {
      var n := |a| - 1;
      var ia, ib := a[..n], b[..n];
      FullRowsLength(ia);
      FullRowsLength(ib);
      var cells := Flatten(a);
      assert Flatten(a) == Flatten(ia) + a[n];
      assert Flatten(b) == Flatten(ib) + b[n];
      assert a[n] == cells[7 * n..] == b[n];
      assert Flatten(ia) == cells[..7 * n] == Flatten(ib);
      assert Weeks(ia) && Weeks(ib);
      WeeksDetermined(ia, ib);
      assert a == ia + [a[n]] && b == ib + [b[n]];
    }
  }

  /** loadCalendar: the weekday of the 1st and the length of the month, then the rows. */
  method LoadCalendar(rs: seq<Reminder>, month: int, year: int) returns (rows: seq<seq<Cell>>)
    requires 0 <= month < 12
    ensures Flatten(rows) == MonthCells(rs, month, year)
    ensures Weeks(rows)
    ensures |rows| == (FirstDay(year, month) + MonthLength(year, month) + 6) / 7
  {
    var firstDay := FirstDay(year, month);
    var daysInMonth := MonthLength(year, month);
    rows := BuildRows(rs, month, year, firstDay, daysInMonth);
  }

  /** Lines 63-88: `firstDay` blank cells, then one cell per day whose events come from
      DayLabels; a row is closed when it reaches seven cells, and a final partial row is kept
      only if it is not empty. */
  method BuildRows(rs: seq<Reminder>, month: int, year: int, firstDay: nat, daysInMonth: nat)
    returns (rows: seq<seq<Cell>>)
    requires firstDay < 7
    ensures Flatten(rows) == Layout(rs, month, year, firstDay, daysInMonth)
    ensures Weeks(rows)
    ensures |rows| == (firstDay + daysInMonth + 6) / 7
  {
    rows := [];
    var row: seq<Cell> := [];
    for i := 0 to firstDay
      invariant row == Layout(rs, month, year, i, 0) && |row| == i
    {
      row := row + [Blank];
    }
    for day := 1 to daysInMonth + 1
      invariant |row| < 7
      invariant forall k :: 0 <= k < |rows| ==> |rows[k]| == 7
      invariant Flatten(rows) + row == Layout(rs, month, year, firstDay, day - 1)
    {
      var events := DayLabels(rs, day, month, year);
      assert Flatten(rows) + (row + [Day(day, events)]) == (Flatten(rows) + row) + [Day(day, events)];
      row := row + [Day(day, events)];
      if |row| == 7 {
        FlattenPush(rows, row);
        rows := rows + [row];
        row := [];
        // Not needed for soundness: spelling out that the emptied row adds nothing keeps the
        // invariant's proof stable across solver seeds.
        assert Flatten(rows) + row == Flatten(rows);
      }
    }
    if |row| > 0 {
      FlattenPush(rows, row);
      rows := rows + [row];
    }
    RowCount(rows);
  }

  /** LayoutAt indexed by day rather than by position. For a month whose 1st falls on
      weekday `blanks` and which has `days` days (MonthCells), the first `blanks` cells are
      blank and day d sits `blanks + d - 1` cells in, with the labels of exactly the reminders
      of that day; no blank follows the last day. */
  lemma LayoutDays(rs: seq<Reminder>, month: int, year: int, blanks: nat, days: nat)
    ensures forall i :: 0 <= i < blanks ==> Layout(rs, month, year, blanks, days)[i] == Blank
    ensures forall d :: 1 <= d <= days ==>
      Layout(rs, month, year, blanks, days)[blanks + d - 1] == Day(d, Labels(rs, d, month, year))
  {
    LayoutAt(rs, month, year, blanks, days);
    forall d | 1 <= d <= days
      ensures Layout(rs, month, year, blanks, days)[blanks + d - 1] == Day(d, Labels(rs, d, month, year))
    {
      var k := blanks + d - 1;
      assert Layout(rs, month, year, blanks, days)[k] == Day(k - blanks + 1, Labels(rs, k - blanks + 1, month, year));
    }
  }

  /** A reminder whose 1-based month is month + 1, whose year is the shown year and whose day
      is a day of the month has its label among the events of that day's cell. */
  lemma LayoutShown(rs: seq<Reminder>, month: int, year: int, blanks: nat, days: nat, j: nat)
    requires j < |rs| && rs[j].month == month + 1 && rs[j].year == year && 1 <= rs[j].day <= days
    ensures Layout(rs, month, year, blanks, days)[blanks + rs[j].day - 1]
        == Day(rs[j].day, Labels(rs, rs[j].day, month, year))
    ensures Label(rs[j]) in Labels(rs, rs[j].day, month, year)
  {
    var r := rs[j];
    assert OnDay(r, r.day, month, year);
    LabelsIn(rs, r.day, month, year, Label(r));
    LayoutAt(rs, month, year, blanks, days);
    var k := blanks + r.day - 1;
    assert Layout(rs, month, year, blanks, days)[k] == Day(k - blanks + 1, Labels(rs, k - blanks + 1, month, year));
  }

  /** For a two-digit year y the page draws the grid of year 1900 + y (the Date constructor's
      reading), but labels its days with the reminders stored under y itself. */
  lemma TwoDigitGrid(rs: seq<Reminder>, y: int, m: int)
    requires 0 <= y <= 99 && 0 <= m < 12
    ensures MonthCells(rs, m, y) == Layout(rs, m, y, FirstDay(1900 + y, m), MonthLength(1900 + y, m))
  {
    TwoDigitYears(y, m);
  }
}
