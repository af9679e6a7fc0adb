/**
 * The Ethiopic date-picker dialog: a cursor date, the displayed month and year,
 * the date to highlight, and a grid of 6 week rows by 7 weekday-indexed buttons
 * that is filled one day at a time for the displayed month.
 */
module DateSelection {
  import opened Wrappers
  import opened EthiopicCalendar

  /** The month names of the dialog's month label, indexed by month - 1. */
  const EthiopicMonths: seq<string> := [
    "M\U{E4}sk\U{E4}r\U{E4}m", "\U{1E6C}\U{259}q\U{259}mt", "\U{1E2A}\U{259}dar",
    "Ta\U{1E2B}\U{15B}a\U{15B}", "\U{1E6C}\U{259}rr", "Y\U{E4}katit",
    "M\U{E4}gabit", "Miyazya", "G\U{259}nbot", "S\U{E4}ne",
    "\U{1E24}amle", "N\U{E4}hase", "\U{1E56}ag\U{2B7}\U{259}men"
  ]

  /** java.util.Calendar.SATURDAY; the row fill compares Joda's ISO weekday with it. */
  const CalendarSaturday := 7

  const Rows := 6
  const Slots := 7

  /** A day button: its text (a day of the month or empty), whether it is enabled,
      and whether its foreground is the highlight colour. */
  datatype Cell = Cell(text: Option<int>, enabled: bool, highlighted: bool)

  /** A cleaned button: empty text, disabled, normal colour. */
  const Blank := Cell(None, false, false)

  /** The dialog's month label: a month name followed by the year. */
  datatype Label = Label(monthName: string, year: int)

  /** What the layout of a month depends on: the month, the weekday slot (1..7) of its
      day 1, and its number of days. */
  datatype Layout = Layout(year: int, month: int, first: int, length: int)

  function LayoutOf(year: int, month: int): Layout {
    Layout(year, month, Weekday(Date(year, month, 1)), MonthLength(year, month))
  }

  predicate WellFormed(lay: Layout) {
    1 <= lay.month <= 13 && 1 <= lay.first <= 7 && lay.length == MonthLength(lay.year, lay.month)
  }

  lemma LayoutOfWellFormed(year: int, month: int)
    requires 1 <= month <= 13
    ensures WellFormed(LayoutOf(year, month))
  {
  }

  /** The day of the month that belongs in row i, slot j + 1 of the grid (possibly out of the month). */
  function SlotDay(lay: Layout, i: int, j: int): int {
    7 * i + j + 2 - lay.first
  }

  /** What button (i, j) shows once the month has been laid out. */
  function ExpectedCell(lay: Layout, highlight: Date, i: int, j: int): Cell {
    var d := SlotDay(lay, i, j);
    if 1 <= d <= lay.length then Cell(Some(d), true, Date(lay.year, lay.month, d) == highlight)
    else Blank
  }

  /** The first day a row fills: day 1 for the first row, the day in slot 1 for the others. */
  function RowStartDay(lay: Layout, i: int): int {
    if i == 0 then 1 else SlotDay(lay, i, 0)
  }

  /** Where the cursor stands when row i starts filling: its first day, or day 1 of the
      next month once the month is used up. */
  function RowStart(lay: Layout, i: nat): CalDate
    requires WellFormed(lay)
  {
    var d := RowStartDay(lay, i);
    if d <= lay.length then Date(lay.year, lay.month, d) else FirstOfNextMonth(lay.year, lay.month)
  }

  /** The progress of the cursor through the month: its day, or one past the last day. */
  function Reached(lay: Layout, c: CalDate): int {
    if c.month == lay.month then c.day else lay.length + 1
  }

  /** The button a day of the displayed month is written to. */
  function CellOf(lay: Layout, day: int): (pos: (int, int))
    requires WellFormed(lay) && 1 <= day <= lay.length
    ensures 0 <= pos.0 < Rows && 0 <= pos.1 < Slots
    ensures SlotDay(lay, pos.0, pos.1) == day
  {
    var k := day + lay.first - 2;
    (k / 7, k % 7)
  }

  /** Different buttons stand for different days. */
  lemma SlotDayInjective(lay: Layout, i: int, j: int, i': int, j': int)
    requires 0 <= j < 7 && 0 <= j' < 7
    requires SlotDay(lay, i, j) == SlotDay(lay, i', j')
    ensures i == i' && j == j'
  {
  }

  /** The button in slot j + 1 holds a day whose weekday is j + 1. */
  lemma SlotIsWeekday(year: int, month: int, i: int, j: int)
    requires 1 <= month <= 13 && 0 <= j < 7
    requires 1 <= SlotDay(LayoutOf(year, month), i, j) <= MonthLength(year, month)
    ensures Weekday(Date(year, month, SlotDay(LayoutOf(year, month), i, j))) == j + 1
  {
    var d := SlotDay(LayoutOf(year, month), i, j);
    WeekdayInMonth(year, month, d);
    assert Weekday(Date(year, month, 1)) - 1 + d - 1 == 7 * i + j;
  }

  /** Every enabled button shows a day of the displayed month, at the slot of its weekday;
      every disabled one is blank. */
  lemma EnabledCellsAreMonthDays(year: int, month: int, hl: Date, i: int, j: int)
    requires 1 <= month <= 13 && 0 <= i < Rows && 0 <= j < Slots
    ensures var c := ExpectedCell(LayoutOf(year, month), hl, i, j);
      if c.enabled then
        c.text.Some? && 1 <= c.text.value <= MonthLength(year, month)
        && Weekday(Date(year, month, c.text.value)) == j + 1
      else c == Blank
  {
    var d := SlotDay(LayoutOf(year, month), i, j);
    if 1 <= d <= MonthLength(year, month) {
      SlotIsWeekday(year, month, i, j);
    }
  }

  /** Each day of the month is shown by exactly one button of the 6 x 7 grid. */
  lemma EachDayShownOnce(year: int, month: int, hl: Date, day: int)
    requires 1 <= month <= 13 && 1 <= day <= MonthLength(year, month)
    ensures var pos := CellOf(LayoutOf(year, month), day);
      ExpectedCell(LayoutOf(year, month), hl, pos.0, pos.1).text == Some(day)
    ensures forall i, j ::
      (0 <= i < Rows && 0 <= j < Slots && ExpectedCell(LayoutOf(year, month), hl, i, j).text == Some(day))
      ==> (i, j) == CellOf(LayoutOf(year, month), day)
  {
    var lay := LayoutOf(year, month);
    var pos := CellOf(lay, day);
    forall i, j | 0 <= i < Rows && 0 <= j < Slots && ExpectedCell(lay, hl, i, j).text == Some(day)
      ensures (i, j) == pos
    {
      SlotDayInjective(lay, i, j, pos.0, pos.1);
    }
  }

  /** Within a row the enabled buttons hold consecutive days: between two enabled
      buttons every button is enabled, and the day grows by one per slot. */
  lemma RowIsConsecutive(year: int, month: int, hl: Date, i: int, j: int, k: int)
    requires 0 <= j <= k < Slots
    requires ExpectedCell(LayoutOf(year, month), hl, i, j).enabled && ExpectedCell(LayoutOf(year, month), hl, i, k).enabled
    ensures forall l :: j <= l <= k ==>
      ExpectedCell(LayoutOf(year, month), hl, i, l).text == Some(ExpectedCell(LayoutOf(year, month), hl, i, j).text.value + (l - j))
  {
  }

  /** A row ends at slot 7: the day after the one in slot 7 starts the next row at slot 1. */
  lemma RowBreaksAfterSlot7(year: int, month: int, hl: Date, i: int)
    requires 0 <= i < Rows - 1
    requires ExpectedCell(LayoutOf(year, month), hl, i, Slots - 1).enabled
    requires ExpectedCell(LayoutOf(year, month), hl, i, Slots - 1).text.value < MonthLength(year, month)
    ensures ExpectedCell(LayoutOf(year, month), hl, i + 1, 0).text
      == Some(ExpectedCell(LayoutOf(year, month), hl, i, Slots - 1).text.value + 1)
  {
  }

  /** A button is highlighted exactly when it shows the highlighted (day, month, year). */
  lemma HighlightIffSameDate(year: int, month: int, hl: Date, i: int, j: int)
    ensures var c := ExpectedCell(LayoutOf(year, month), hl, i, j);
      c.highlighted <==> c.text.Some? && Date(year, month, c.text.value) == hl
  {
  }

  /** At most one button of the grid is highlighted, and when the highlighted date lies
      in the displayed month its button is highlighted. */
  lemma OneHighlightAtMost(year: int, month: int, hl: Date)
    requires 1 <= month <= 13
    ensures forall i, j, i', j' ::
      0 <= i < Rows && 0 <= j < Slots && 0 <= i' < Rows && 0 <= j' < Slots &&
      ExpectedCell(LayoutOf(year, month), hl, i, j).highlighted && ExpectedCell(LayoutOf(year, month), hl, i', j').highlighted
      ==> i == i' && j == j'
    ensures hl.year == year && hl.month == month && 1 <= hl.day <= MonthLength(year, month)
      ==> var pos := CellOf(LayoutOf(year, month), hl.day); ExpectedCell(LayoutOf(year, month), hl, pos.0, pos.1).highlighted
  {
    var lay := LayoutOf(year, month);
    forall i, j, i', j' |
      0 <= i < Rows && 0 <= j < Slots && 0 <= i' < Rows && 0 <= j' < Slots &&
      ExpectedCell(lay, hl, i, j).highlighted && ExpectedCell(lay, hl, i', j').highlighted
      ensures i == i' && j == j'
    {
      SlotDayInjective(lay, i, j, i', j');
    }
  }

  /** Row i of the laid-out month, slot by slot. */
  function ExpectedRow(lay: Layout, hl: Date, i: int): (row: seq<Cell>)
    ensures |row| == Slots
  {
    seq(Slots, j => ExpectedCell(lay, hl, i, j))
  }

  /** Six rows always hold the whole month: the seventh row would start in the next month. */
  lemma SixRowsSuffice(lay: Layout)
    requires WellFormed(lay)
    ensures RowStart(lay, Rows) == FirstOfNextMonth(lay.year, lay.month)
  {
  }

  /** Row i once the cursor has reached day `reached`: filled for the days before it,
      still blank from it on. */
  function PartialRow(lay: Layout, hl: Date, i: int, reached: int): (row: seq<Cell>)
    ensures |row| == Slots
  {
    seq(Slots, j => if SlotDay(lay, i, j) < reached then ExpectedCell(lay, hl, i, j) else Blank)
  }

  /** The row-fill loop invariant: the cursor is on a day of row i, or on day 1 of the
      next month once the month is used up, and the row holds the days before it. */
  predicate RowFilling(lay: Layout, hl: Date, i: int, c: CalDate, row: seq<Cell>)
    requires WellFormed(lay)
  {
    && (c.month == lay.month ==> c.year == lay.year && SlotDay(lay, i, 0) <= c.day <= SlotDay(lay, i, Slots - 1))
    && (c.month != lay.month ==> c == FirstOfNextMonth(lay.year, lay.month))
    && Reached(lay, c) <= SlotDay(lay, i, Slots - 1) + 1
    && row == PartialRow(lay, hl, i, Reached(lay, c))
  }

  /** The state where the row fill stops: the cursor is just past slot 7 of row i, or on
      day 1 of the next month, and the row holds the days before it. */
  predicate RowEnded(lay: Layout, hl: Date, i: int, c: CalDate, row: seq<Cell>)
    requires WellFormed(lay)
  {
    && (c.month == lay.month ==> c.year == lay.year && c.day == SlotDay(lay, i, Slots - 1) + 1)
    && (c.month != lay.month ==> c == FirstOfNextMonth(lay.year, lay.month))
    && Reached(lay, c) <= SlotDay(lay, i, Slots - 1) + 1
    && row == PartialRow(lay, hl, i, Reached(lay, c))
  }

  /** One step of the row fill: the cursor's day goes to the slot of its weekday, and the
      cursor moves on one day, which keeps the fill going, or ends it after slot 7 or at the
      month's end. */
  lemma FillOneDay(lay: Layout, hl: Date, i: int, c: CalDate, row: seq<Cell>)
    requires lay == LayoutOf(lay.year, lay.month) && WellFormed(lay)
    requires RowFilling(lay, hl, i, c, row) && c.month == lay.month
    ensures Weekday(c) == c.day - SlotDay(lay, i, 0) + 1
    ensures Reached(lay, NextDay(c)) == Reached(lay, c) + 1
    ensures var row' := row[Weekday(c) - 1 := Cell(Some(c.day), true, c == hl)];
      && (Weekday(c) < Slots ==> RowFilling(lay, hl, i, NextDay(c), row'))
      && (Weekday(c) == Slots || NextDay(c).month != lay.month ==> RowEnded(lay, hl, i, NextDay(c), row'))
  {
    SlotIsWeekday(lay.year, lay.month, i, c.day - SlotDay(lay, i, 0));
    assert c == Date(lay.year, lay.month, c.day);
    assert PartialRow(lay, hl, i, c.day + 1)
      == PartialRow(lay, hl, i, c.day)[c.day - SlotDay(lay, i, 0) := Cell(Some(c.day), true, c == hl)];
  }

  /** Where a row starts filling: on its first day while the month lasts, otherwise on
      day 1 of the next month; nothing of the row is filled yet. */
  lemma RowStartsBlank(lay: Layout, hl: Date, i: nat)
    requires WellFormed(lay) && i < Rows
    ensures RowFilling(lay, hl, i, RowStart(lay, i), seq(Slots, _ => Blank))
  {
    var c := RowStart(lay, i);
    var d := RowStartDay(lay, i);
    if d <= lay.length {
      assert c == Date(lay.year, lay.month, d);
    } else {
      assert c == FirstOfNextMonth(lay.year, lay.month) && c.month != lay.month;
    }
    assert PartialRow(lay, hl, i, Reached(lay, c)) == seq(Slots, _ => Blank);
  }

  /** When the row fill stops, at slot 7 or past the month's end, the row is complete
      and the cursor stands where the next row starts. */
  lemma RowComplete(lay: Layout, hl: Date, i: nat, c: CalDate, row: seq<Cell>)
    requires WellFormed(lay)
    requires RowEnded(lay, hl, i, c, row) || (RowFilling(lay, hl, i, c, row) && c.month != lay.month)
    ensures c == RowStart(lay, i + 1)
    ensures row == ExpectedRow(lay, hl, i)
  {
  }

  /**
   * The dialog. `current` is the cursor, `curMonth`/`curYear` the displayed month,
   * the three `...ToHighlight` fields the date drawn in the highlight colour,
   * `text` the contents of the text field the dialog reads from and writes to,
   * `monthLabel` the label above the grid, and `rows` the dialog's six week panels,
   * each an array of seven day buttons indexed by weekday - 1.
   */
  class DateSelecter {
    var current: CalDate
    var curMonth: int
    var curYear: int
    var dayToHighlight: int
    var monthToHighlight: int
    var yearToHighlight: int
    var text: string
    var monthLabel: Label
    const rows: seq<array<Cell>>

    /** Six distinct panels of seven buttons. */
    ghost predicate PanelsValid()
    {
      |rows| == Rows &&
      (forall i :: 0 <= i < Rows ==> rows[i].Length == Slots) &&
      (forall i, k :: 0 <= i < k < Rows ==> rows[i] != rows[k])
    }

    /** The panels are well formed and the cursor lies in the displayed month. */
    ghost predicate Valid()
      reads this
    {
      PanelsValid() && current.month == curMonth && current.year == curYear
    }

    /** The highlight triple as a date. */
    function Highlight(): Date
      reads this
    {
      Date(yearToHighlight, monthToHighlight, dayToHighlight)
    }

    /** The panels show the month (year, month) with `hl` highlighted. */
    ghost predicate GridShows(year: int, month: int, hl: Date)
      reads rows
    {
      PanelsValid() &&
      forall i :: 0 <= i < Rows ==> rows[i][..] == ExpectedRow(LayoutOf(year, month), hl, i)
    }

    /** The state after the month has been laid out: the cursor back on day 1 of the
        displayed month and the panels showing that month. */
    ghost predicate Displaying()
      reads this, rows
    {
      Valid() && current.day == 1 && GridShows(curYear, curMonth, Highlight())
    }

    /** A new dialog bound to a text field holding `fieldText`; nothing is shown yet. */
    constructor (fieldText: string)
      ensures text == fieldText && PanelsValid()
      ensures forall i :: 0 <= i < Rows ==> fresh(rows[i])
    {
      text := fieldText;
      var r0 := new Cell[Slots](_ => Blank);
      var r1 := new Cell[Slots](_ => Blank);
      var r2 := new Cell[Slots](_ => Blank);
      var r3 := new Cell[Slots](_ => Blank);
      var r4 := new Cell[Slots](_ => Blank);
      var r5 := new Cell[Slots](_ => Blank);
      rows := [r0, r1, r2, r3, r4, r5];
      current := Date(1, 1, 1);
      curMonth, curYear := 0, 0;
      dayToHighlight, monthToHighlight, yearToHighlight := 0, 0, 0;
      monthLabel := Label("", 0);
    }

    /** Opens the dialog: seeds the cursor and the highlight, then lays out the month. */
    method ShowSelecter(today: CalDate, parse: string -> Option<CalDate>)
      requires PanelsValid()
      modifies this, rows
      ensures Displaying() && text == old(text)
      ensures var seed := if text != "" && parse(text).Some? then parse(text).value else today;
        curYear == seed.year && curMonth == seed.month && Highlight() == seed
      ensures monthLabel == Label(EthiopicMonths[curMonth - 1], curYear)
    {
      Init(today, parse);
      ShowMonth();
    }

    /** Seeds the cursor and the highlight from today, or from the text field's date when
        the field is not empty and its text parses; a failed parse is ignored. */
    method Init(today: CalDate, parse: string -> Option<CalDate>)
      requires PanelsValid()
      modifies this`current, this`curMonth, this`curYear
      modifies this`dayToHighlight, this`monthToHighlight, this`yearToHighlight
      ensures Valid()
      ensures text != "" && parse(text).Some? ==>
        current == parse(text).value && Highlight() == parse(text).value
      ensures !(text != "" && parse(text).Some?) ==>
        current == Date(today.year, today.month, 1) && Highlight() == today
    {
      current := today;
      SetDayToHighlight();
      current := Date(current.year, current.month, 1);
      if text != "" {
        var parsed := parse(text);
        if parsed.Some? {
          current := parsed.value;
          SetDayToHighlight();
        }
      }
      curMonth := current.month;
      curYear := current.year;
    }

    /** The "next month" button: pages one month forward and lays it out. */
    method NextMonth()
      requires Valid()
      modifies this`current, this`curMonth, this`curYear, this`monthLabel, rows
      ensures Displaying()
      ensures MonthIndex(current) == MonthIndex(old(current)) + 1
      ensures old(current.day) == 1 ==> current == PlusOneMonth(old(current))
      ensures monthLabel == Label(EthiopicMonths[curMonth - 1], curYear)
    {
      current := PlusOneMonth(current);
      curMonth := current.month;
      curYear := current.year;
      ShowMonth();
    }

    /** The "previous month" button: pages one month back and lays it out. */
    method PreviousMonth()
      requires Valid()
      modifies this`current, this`curMonth, this`curYear, this`monthLabel, rows
      ensures Displaying()
      ensures MonthIndex(current) == MonthIndex(old(current)) - 1
      ensures old(current.day) == 1 ==> current == MinusOneMonth(old(current))
      ensures monthLabel == Label(EthiopicMonths[curMonth - 1], curYear)
    {
      current := MinusOneMonth(current);
      curMonth := current.month;
      curYear := current.year;
      ShowMonth();
    }

    /** Lays out the displayed month: resets the cursor to day 1, sets the label, fills
        the six rows, then moves the cursor back into the displayed month. */
    method ShowMonth()
      requires Valid()
      modifies this`current, this`monthLabel, rows
      ensures Displaying()
      ensures monthLabel == Label(EthiopicMonths[curMonth - 1], curYear)
    {
      current := Date(current.year, current.month, 1);
      monthLabel := Label(EthiopicMonths[current.month - 1], curYear);
      ghost var lay := LayoutOf(curYear, curMonth);
      LayoutOfWellFormed(curYear, curMonth);
      for i := 0 to Rows
        invariant current == RowStart(lay, i)
        invariant monthLabel == Label(EthiopicMonths[curMonth - 1], curYear)
        invariant forall k :: 0 <= k < i ==> rows[k][..] == ExpectedRow(lay, Highlight(), k)
      {
        FillRow(rows[i], i);
      }
      SixRowsSuffice(lay);
      if current.month != curMonth {
        current := MinusOneMonth(current);
      }
      PreviousOfNextMonth(curYear, curMonth);
    }

    /** The date chosen by clicking day `day`: (curYear, curMonth, day); it is printed into
        the text field. A day outside the displayed month is refused as Joda refuses it. */
    method SelectionMade(day: int, format: CalDate -> string) returns (selected: Option<CalDate>)
      requires Valid()
      modifies this`text
      ensures 1 <= day <= MonthLength(curYear, curMonth) ==>
        selected == Some(Date(curYear, curMonth, day)) && text == format(Date(curYear, curMonth, day))
      ensures !(1 <= day <= MonthLength(curYear, curMonth)) ==> selected == None && text == old(text)
    {
      if 1 <= day <= MonthLength(curYear, curMonth) {
        var dt: CalDate := Date(curYear, curMonth, day);
        text := format(dt);
        selected := Some(dt);
      } else {
        selected := None;
      }
    }

    /** Copies the cursor into the highlight triple. */
    method SetDayToHighlight()
      modifies this`dayToHighlight, this`monthToHighlight, this`yearToHighlight
      ensures Highlight() == current
    {
      dayToHighlight := current.day;
      monthToHighlight := current.month;
      yearToHighlight := current.year;
    }

    /** Fills one week panel from the cursor (row r of the month, a ghost index): clears
        its buttons, then writes each day of the displayed month into the button of its
        weekday, stopping after slot 7 or at the month's end. */
    method FillRow(buttons: array<Cell>, ghost r: nat)
      requires buttons.Length == Slots && r < Rows
      requires 1 <= curMonth <= 13 && current == RowStart(LayoutOf(curYear, curMonth), r)
      modifies this`current, buttons
      ensures current == RowStart(LayoutOf(curYear, curMonth), r + 1)
      ensures buttons[..] == ExpectedRow(LayoutOf(curYear, curMonth), Highlight(), r)
    {
      CleanButtons(buttons);
      ghost var lay, hl := LayoutOf(curYear, curMonth), Highlight();
      LayoutOfWellFormed(curYear, curMonth);
      RowStartsBlank(lay, hl, r);
      while current.month == curMonth
        invariant RowFilling(lay, hl, r, current, buttons[..])
        decreases SlotDay(lay, r, Slots - 1) + 1 - Reached(lay, current)
      {
        var dayOfWeek := Weekday(current);
        FillOneDay(lay, hl, r, current, buttons[..]);
        var highlighted := IsDayToHighlight();
        buttons[dayOfWeek - 1] := Cell(Some(current.day), true, highlighted);
        current := NextDay(current);
        if dayOfWeek == CalendarSaturday {
          break;
        }
      }
      RowComplete(lay, hl, r, current, buttons[..]);
    }

    /** Clears every button of a panel: empty text, disabled, normal colour. */
    method CleanButtons(buttons: array<Cell>)
      modifies buttons
      ensures buttons[..] == seq(buttons.Length, _ => Blank)
    {
      for j := 0 to buttons.Length
        invariant buttons[..j] == seq(j, _ => Blank)
        invariant buttons[j..] == old(buttons[j..])
      {
        buttons[j] := Blank;
      }
    }

    /** Whether the cursor stands on the highlighted (day, month, year). */
    function IsDayToHighlight(): (b: bool)
      reads this
      ensures b <==> current == Highlight()
    {
      current.day == dayToHighlight && current.month == monthToHighlight && current.year == yearToHighlight
    }
  }
}
