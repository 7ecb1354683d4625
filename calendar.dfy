/**
 * The calendar component of src/components/Calendar.tsx: the three grids it
 * renders (days of a month, the twelve months of a year, a span of twelve
 * years), the header label, and the six click handlers that update its
 * state (the reference date `currentDate`, the picked `selectedDate` and
 * the `viewMode`).
 *
 * The wall clock is a parameter: the initial reference date and "today"
 * are passed in. Cells are records of flags instead of styled markup.
 */
module CalendarComponent {
  import opened Dates

  datatype Option<T> = None | Some(value: T)

  /** Which grid the component shows: "date" (days), "month" or "year". */
  datatype ViewMode = DateView | MonthView | YearView

  /** A day cell: its date and the three styles it may carry (today, selected, disabled). */
  datatype DayCell = DayCell(date: Date, isToday: bool, isSelected: bool, isOutsideMonth: bool)

  /** A month cell (January is 0). */
  datatype MonthCell = MonthCell(year: int, month: int, isSelected: bool)

  /** A year cell; an edge cell is one of the two greyed-out years that pad the span. */
  datatype YearCell = YearCell(year: int, isEdge: bool, isSelected: bool)

  /** What renderContent produces: exactly one of the three layouts, as rows of cells. */
  datatype Grid =
    | DayGrid(dayRows: seq<seq<DayCell>>)
    | MonthGrid(monthRows: seq<seq<MonthCell>>)
    | YearGrid(yearRows: seq<seq<YearCell>>)

  /** The header text without its locale formatting: "MMMM yyyy", "yyyy" or "start-end". */
  datatype HeaderLabel =
    | MonthYearLabel(year: int, month: int)
    | YearLabel(year: int)
    | YearRangeLabel(startYear: int, endYear: int)

  /** The component's state. */
  datatype NavState = NavState(currentDate: Date, selectedDate: Option<Date>, viewMode: ViewMode)

  /** The six user actions the component handles. */
  datatype Event =
    | HeaderClick
    | Prev
    | Next
    | PickDay(day: Date)
    | PickMonth(month: int)
    | PickYear(year: int)

  predicate StateValid(s: NavState) {
    ValidDate(s.currentDate) && (s.selectedDate.Some? ==> ValidDate(s.selectedDate.value))
  }

  predicate EventValid(e: Event) {
    e.PickDay? ==> ValidDate(e.day)
  }

  // ---------------------------------------------------------------------
  // Row grouping

  /** The three rows of four that the month and year grids slice their cells into. */
  function ThreeRowsOfFour<T>(cells: seq<T>): (rows: seq<seq<T>>)
    requires |cells| == 12
    ensures |rows| == 3
    ensures forall r :: 0 <= r < 3 ==> |rows[r]| == 4
    ensures forall r, c :: 0 <= r < 3 && 0 <= c < 4 ==> rows[r][c] == cells[4 * r + c]
  {
    [cells[0..4], cells[4..8], cells[8..12]]
  }

  // ---------------------------------------------------------------------
  // Day grid

  /** The first cell of the day grid: the Sunday on or before the 1st of the month. */
  function GridStart(current: Date): (r: Date)
    requires ValidDate(current)
    ensures ValidDate(r) && DayOfWeek(r) == 0
    ensures Serial(r) == Serial(StartOfMonth(current)) - DayOfWeek(StartOfMonth(current))
  {
    StartOfWeek(StartOfMonth(current))
  }

  /** The cell renderCells draws for `day` in the month that starts at `monthStart`. */
  function CellFor(day: Date, monthStart: Date, selected: Option<Date>, today: Date): DayCell {
    DayCell(day,
      IsSameDay(day, today),
      selected.Some? && IsSameDay(day, selected.value),
      !IsSameMonth(day, monthStart))
  }

  /** renderCells' `addDays(startDate, 41)`: the offset of the grid's last day from its first. */
  const LastCellOffset := 41

  /**
   * renderCells stops once the day passes endDate, the end of the week that
   * holds the day LastCellOffset days after the grid's first Sunday: that
   * is, after exactly LastCellOffset + 1 days.
   */
  lemma GridEndBound(start: Date, endDate: Date, k: int)
    requires ValidDate(start) && DayOfWeek(start) == 0 && 0 <= k
    requires endDate == EndOfWeek(AddDays(start, LastCellOffset))
    ensures IsOnOrBefore(AddDays(start, k), endDate) <==> k <= LastCellOffset
  {
    var last := AddDays(start, LastCellOffset);
    AddDaysSerial(start, LastCellOffset);
    AddDaysSerial(start, k);
    DayOfWeekAligned(start, last, LastCellOffset);
    IsOnOrBeforeSerial(AddDays(start, k), endDate);
  }

  /** A walk of days from `start` passes `endDate` exactly after `last + 1` days. */
  ghost predicate WalkEndsAfter(start: Date, endDate: Date, last: int)
    requires ValidDate(start)
  {
    forall k :: 0 <= k ==> (IsOnOrBefore(AddDays(start, k), endDate) <==> k <= last)
  }

  /** renderCells' walk from the first Sunday passes its end date after exactly 42 days. */
  lemma GridWalkEnds(start: Date, endDate: Date)
    requires ValidDate(start) && DayOfWeek(start) == 0
    requires endDate == EndOfWeek(AddDays(start, LastCellOffset))
    ensures WalkEndsAfter(start, endDate, LastCellOffset)
  {
    forall k | 0 <= k
      ensures IsOnOrBefore(AddDays(start, k), endDate) <==> k <= LastCellOffset
    {
      GridEndBound(start, endDate, k);
    }
  }

  /**
   * The cells drawn for `n` consecutive days, the first `offset` days after
   * `start`, in the month that begins at `monthStart`.
   */
  function DaysFrom(start: Date, offset: int, monthStart: Date, selected: Option<Date>, today: Date, n: nat): (cells: seq<DayCell>)
    requires ValidDate(start)
    ensures |cells| == n
    decreases n
  {
    if n == 0 then [] else
      [CellFor(AddDays(start, offset), monthStart, selected, today)]
      + DaysFrom(start, offset + 1, monthStart, selected, today, n - 1)
  }

  /** Cell `i` of DaysFrom is the one drawn for the day `offset + i` days after `start`. */
  lemma {:induction false} DaysFromAt(start: Date, offset: int, monthStart: Date, selected: Option<Date>, today: Date,
                                      n: nat, i: int, target: int)
    requires ValidDate(start) && 0 <= i < n && target == offset + i
    ensures DaysFrom(start, offset, monthStart, selected, today, n)[i]
      == CellFor(AddDays(start, target), monthStart, selected, today)
    decreases n
  {
    if i == 0 {
      assert target == offset;
    } else {
      var rest := DaysFrom(start, offset + 1, monthStart, selected, today, n - 1);
      DaysFromAt(start, offset + 1, monthStart, selected, today, n - 1, i - 1, target);
      DaysFromUnfold(start, offset, offset + 1, monthStart, selected, today, n, n - 1);
      ConsIndex(CellFor(AddDays(start, offset), monthStart, selected, today), rest, i, i - 1);
      EqualTrans(DaysFrom(start, offset, monthStart, selected, today, n)[i], rest[i - 1],
                 CellFor(AddDays(start, target), monthStart, selected, today));
    }
  }

  lemma DaysFromUnfold(start: Date, offset: int, nextOffset: int, monthStart: Date, selected: Option<Date>, today: Date,
                       n: nat, m: nat)
    requires ValidDate(start) && m == n - 1 && nextOffset == offset + 1
    ensures DaysFrom(start, offset, monthStart, selected, today, n)
      == [CellFor(AddDays(start, offset), monthStart, selected, today)]
         + DaysFrom(start, nextOffset, monthStart, selected, today, m)
  {
  }

  /**
   * `n` rows of seven consecutive days each, the first row starting
   * `offset` days after `start` and each next row seven days later.
   */
  function WeeksFrom(start: Date, offset: int, monthStart: Date, selected: Option<Date>, today: Date, n: nat): (rows: seq<seq<DayCell>>)
    requires ValidDate(start)
    ensures |rows| == n
    ensures forall r :: 0 <= r < n ==> |rows[r]| == 7
    decreases n
  {
    if n == 0 then [] else
      [DaysFrom(start, offset, monthStart, selected, today, 7)]
      + WeeksFrom(start, offset + 7, monthStart, selected, today, n - 1)
  }

  /** Row `r` of WeeksFrom holds the seven days from `offset + 7 * r` days after `start`. */
  lemma {:induction false} WeeksFromAt(start: Date, offset: int, monthStart: Date, selected: Option<Date>, today: Date,
                                       n: nat, r: int, target: int)
    requires ValidDate(start) && 0 <= r < n && target == offset + 7 * r
    ensures WeeksFrom(start, offset, monthStart, selected, today, n)[r]
      == DaysFrom(start, target, monthStart, selected, today, 7)
    decreases n
  {
    if r == 0 {
      assert target == offset;
    } else {
      var rest := WeeksFrom(start, offset + 7, monthStart, selected, today, n - 1);
      WeeksFromAt(start, offset + 7, monthStart, selected, today, n - 1, r - 1, target);
      WeeksFromUnfold(start, offset, offset + 7, monthStart, selected, today, n, n - 1);
      ConsIndex(DaysFrom(start, offset, monthStart, selected, today, 7), rest, r, r - 1);
      EqualTrans(WeeksFrom(start, offset, monthStart, selected, today, n)[r], rest[r - 1],
                 DaysFrom(start, target, monthStart, selected, today, 7));
    }
  }

  lemma WeeksFromUnfold(start: Date, offset: int, nextOffset: int, monthStart: Date, selected: Option<Date>, today: Date,
                        n: nat, m: nat)
    requires ValidDate(start) && m == n - 1 && nextOffset == offset + 7
    ensures WeeksFrom(start, offset, monthStart, selected, today, n)
      == [DaysFrom(start, offset, monthStart, selected, today, 7)]
         + WeeksFrom(start, nextOffset, monthStart, selected, today, m)
  {
  }

  /** Drawing one more day keeps "cells drawn so far, then the days still to come" equal to the whole run. */
  lemma DaysFromStep(days: seq<DayCell>, whole: seq<DayCell>, start: Date, offset: int, nextOffset: int,
                     monthStart: Date, selected: Option<Date>, today: Date, n: nat, m: nat)
    requires ValidDate(start) && m == n - 1 && nextOffset == offset + 1
    requires days + DaysFrom(start, offset, monthStart, selected, today, n) == whole
    ensures (days + [CellFor(AddDays(start, offset), monthStart, selected, today)])
      + DaysFrom(start, nextOffset, monthStart, selected, today, m) == whole
  {
    DaysFromUnfold(start, offset, nextOffset, monthStart, selected, today, n, m);
    AppendAssoc(days, [CellFor(AddDays(start, offset), monthStart, selected, today)],
                DaysFrom(start, nextOffset, monthStart, selected, today, m));
  }

  /** Appending a finished week keeps "rows drawn so far, then the weeks still to come" equal to the whole grid. */
  lemma WeeksFromStep(rows: seq<seq<DayCell>>, week: seq<DayCell>, whole: seq<seq<DayCell>>, start: Date,
                      offset: int, nextOffset: int, monthStart: Date, selected: Option<Date>, today: Date, n: nat, m: nat)
    requires ValidDate(start) && m == n - 1 && nextOffset == offset + 7
    requires week == DaysFrom(start, offset, monthStart, selected, today, 7)
    requires rows + WeeksFrom(start, offset, monthStart, selected, today, n) == whole
    ensures (rows + [week]) + WeeksFrom(start, nextOffset, monthStart, selected, today, m) == whole
  {
    WeeksFromUnfold(start, offset, nextOffset, monthStart, selected, today, n, m);
    AppendAssoc(rows, [week], WeeksFrom(start, nextOffset, monthStart, selected, today, m));
  }

  // The five lemmas below are stock facts about sequences and equality.
  // Dafny proves each on its own; they are called only to hand the solver
  // that one step inside larger proofs, which keeps those proofs cheap.

  lemma ConsIndex<T>(x: T, s: seq<T>, i: int, j: int)
    requires 0 < i <= |s| && j == i - 1
    ensures ([x] + s)[i] == s[j]
  {
  }

  lemma EqualTrans<T>(a: T, b: T, c: T)
    requires a == b && b == c
    ensures a == c
  {
  }

  lemma AppendAssoc<T>(a: seq<T>, b: seq<T>, c: seq<T>)
    ensures (a + b) + c == a + (b + c)
  {
  }

  lemma AppendToEmpty<T>(s: seq<T>)
    ensures [] + s == s
  {
  }

  lemma AppendEmpty<T>(s: seq<T>, t: seq<T>)
    requires t == []
    ensures s + t == s
  {
  }

  /** Cell `c` of row `r` in a run of weeks from `start` is cell `7 * r + c` of the days from `start`. */
  lemma WeekCellAt(start: Date, monthStart: Date, selected: Option<Date>, today: Date,
                   weeks: nat, n: nat, r: int, c: int, k: int)
    requires ValidDate(start) && 0 <= r < weeks && 7 * weeks <= n && 0 <= c < 7 && k == 7 * r + c
    ensures WeeksFrom(start, 0, monthStart, selected, today, weeks)[r][c]
      == DaysFrom(start, 0, monthStart, selected, today, n)[k]
  {
    var lo := 7 * r;
    WeeksFromAt(start, 0, monthStart, selected, today, weeks, r, lo);
    DaysFromAt(start, lo, monthStart, selected, today, 7, c, k);
    DaysFromAt(start, 0, monthStart, selected, today, n, k, k);
  }

  /** The 42 cells of the day grid, in order: six full weeks from GridStart. */
  function DayCells(current: Date, selected: Option<Date>, today: Date): (cells: seq<DayCell>)
    requires ValidDate(current)
    ensures |cells| == 42
  {
    DaysFrom(GridStart(current), 0, StartOfMonth(current), selected, today, 42)
  }

  /** The cell at index `k` is drawn for the `k`th day after the grid's first Sunday. */
  lemma DayCellAt(current: Date, selected: Option<Date>, today: Date, k: int)
    requires ValidDate(current) && 0 <= k < 42
    ensures var c := DayCells(current, selected, today)[k];
      c == CellFor(AddDays(GridStart(current), k), StartOfMonth(current), selected, today)
      && ValidDate(c.date) && Serial(c.date) == Serial(GridStart(current)) + k
  {
    DaysFromAt(GridStart(current), 0, StartOfMonth(current), selected, today, 42, k, k);
    AddDaysSerial(GridStart(current), k);
  }

  /**
   * The cell at index `k` is the one drawn for its own date; the first
   * cell's date is the grid's first Sunday and each next cell holds the
   * following day.
   */
  lemma DayCellOf(current: Date, selected: Option<Date>, today: Date, k: int)
    requires ValidDate(current) && 0 <= k < 42
    ensures var cells := DayCells(current, selected, today);
      ValidDate(cells[k].date)
      && cells[k] == CellFor(cells[k].date, StartOfMonth(current), selected, today)
      && (k == 0 ==> cells[k].date == GridStart(current))
      && (k < 41 ==> cells[k + 1].date == NextDay(cells[k].date))
  {
    DaysFromAt(GridStart(current), 0, StartOfMonth(current), selected, today, 42, k, k);
    if k < 41 {
      DaysFromAt(GridStart(current), 0, StartOfMonth(current), selected, today, 42, k + 1, k + 1);
      AddDaysNext(GridStart(current), k, k + 1);
    }
  }

  /** The day grid as rows of one week each. */
  function DayRows(current: Date, selected: Option<Date>, today: Date): (rows: seq<seq<DayCell>>)
    requires ValidDate(current)
    ensures |rows| == 6
    ensures forall r :: 0 <= r < 6 ==> |rows[r]| == 7
  {
    WeeksFrom(GridStart(current), 0, StartOfMonth(current), selected, today, 6)
  }

  /** Column `c` of row `r` of the day grid is cell `7 * r + c` of its 42 cells. */
  lemma DayRowsAreWeeks(current: Date, selected: Option<Date>, today: Date)
    requires ValidDate(current)
    ensures var rows := DayRows(current, selected, today);
      var cells := DayCells(current, selected, today);
      forall r, c :: 0 <= r < 6 && 0 <= c < 7 ==> rows[r][c] == cells[7 * r + c]
  {
    var rows := DayRows(current, selected, today);
    var cells := DayCells(current, selected, today);
    forall r, c | 0 <= r < 6 && 0 <= c < 7
      ensures rows[r][c] == cells[7 * r + c]
    {
      DayRowCell(current, selected, today, r, c, 7 * r + c);
    }
  }

  lemma DayRowCell(current: Date, selected: Option<Date>, today: Date, r: int, c: int, k: int)
    requires ValidDate(current) && 0 <= r < 6 && 0 <= c < 7 && k == 7 * r + c
    ensures var rows := DayRows(current, selected, today);
      0 <= k < 42 && |rows[r]| == 7 && rows[r][c] == DayCells(current, selected, today)[k]
  {
    WeekCellAt(GridStart(current), StartOfMonth(current), selected, today, 6, 42, r, c, k);
  }

  /** The day grid holds 42 consecutive days starting on the Sunday on or before the 1st of the month. */
  lemma DayGridConsecutive(current: Date, selected: Option<Date>, today: Date)
    requires ValidDate(current)
    ensures var cells := DayCells(current, selected, today);
      var first := cells[0].date;
      var monthStart := StartOfMonth(current);
      ValidDate(first) && DayOfWeek(first) == 0
      && Serial(monthStart) - 6 <= Serial(first) <= Serial(monthStart)
      && (forall k :: 0 <= k < 42 ==> ValidDate(cells[k].date) && Serial(cells[k].date) == Serial(first) + k)
      && (forall k :: 0 <= k < 41 ==> cells[k + 1].date == NextDay(cells[k].date))
  {
    var cells := DayCells(current, selected, today);
    DayCellAt(current, selected, today, 0);
    forall k | 0 <= k < 42
      ensures ValidDate(cells[k].date) && Serial(cells[k].date) == Serial(cells[0].date) + k
    {
      DayCellAt(current, selected, today, k);
    }
    forall k | 0 <= k < 41
      ensures cells[k + 1].date == NextDay(cells[k].date)
    {
      DayCellAt(current, selected, today, k);
      DayCellAt(current, selected, today, k + 1);
    }
  }

  /** Every day of the displayed month is in the grid, the 1st in the column of its weekday. */
  lemma DayGridCoversMonth(current: Date, selected: Option<Date>, today: Date)
    requires ValidDate(current)
    ensures var cells := DayCells(current, selected, today);
      var offset := DayOfWeek(StartOfMonth(current));
      forall day :: 1 <= day <= DaysInMonth(current.year, current.month) ==>
        cells[offset + day - 1].date == Date(current.year, current.month, day)
  {
    var cells := DayCells(current, selected, today);
    var offset := DayOfWeek(StartOfMonth(current));
    forall day | 1 <= day <= DaysInMonth(current.year, current.month)
      ensures cells[offset + day - 1].date == Date(current.year, current.month, day)
    {
      DayGridCoversDay(current, selected, today, day, offset + day - 1);
    }
  }

  /** Day `day` of the displayed month sits at index `k`, its weekday offset plus `day - 1`. */
  lemma DayGridCoversDay(current: Date, selected: Option<Date>, today: Date, day: int, k: int)
    requires ValidDate(current) && 1 <= day <= DaysInMonth(current.year, current.month)
    requires k == DayOfWeek(StartOfMonth(current)) + day - 1
    ensures 0 <= k < 42 && DayCells(current, selected, today)[k].date == Date(current.year, current.month, day)
  {
    DayCellAt(current, selected, today, k);
    SerialInjective(DayCells(current, selected, today)[k].date, Date(current.year, current.month, day));
  }

  /**
   * The days of the displayed month are one contiguous block of the grid:
   * a cell is flagged outside the month exactly when it comes before the
   * 1st or after the last day of the month.
   */
  lemma DayGridOutsideMonth(current: Date, selected: Option<Date>, today: Date)
    requires ValidDate(current)
    ensures var cells := DayCells(current, selected, today);
      var offset := DayOfWeek(StartOfMonth(current));
      var length := DaysInMonth(current.year, current.month);
      forall k :: 0 <= k < 42 ==>
        (cells[k].isOutsideMonth <==> !(offset <= k < offset + length))
  {
    var cells := DayCells(current, selected, today);
    var offset := DayOfWeek(StartOfMonth(current));
    var length := DaysInMonth(current.year, current.month);
    forall k | 0 <= k < 42
      ensures cells[k].isOutsideMonth <==> !(offset <= k < offset + length)
    {
      DayCellAt(current, selected, today, k);
      var d := cells[k].date;
      SerialBounds(d);
      if offset <= k < offset + length {
        SerialInjective(d, Date(current.year, current.month, k - offset + 1));
      }
    }
  }

  /** At most one cell is today and at most one is selected; with nothing picked, none is selected. */
  lemma DayGridFlagsAtMostOnce(current: Date, selected: Option<Date>, today: Date)
    requires ValidDate(current)
    ensures var cells := DayCells(current, selected, today);
      (forall j, k :: 0 <= j < 42 && 0 <= k < 42 && cells[j].isToday && cells[k].isToday ==> j == k)
      && (forall j, k :: 0 <= j < 42 && 0 <= k < 42 && cells[j].isSelected && cells[k].isSelected ==> j == k)
      && (selected.None? ==> forall k :: 0 <= k < 42 ==> !cells[k].isSelected)
  {
    var cells := DayCells(current, selected, today);
    forall j, k | 0 <= j < 42 && 0 <= k < 42 && cells[j].isToday && cells[k].isToday
      ensures j == k
    {
      DayCellAt(current, selected, today, j);
      DayCellAt(current, selected, today, k);
    }
    forall j, k | 0 <= j < 42 && 0 <= k < 42 && cells[j].isSelected && cells[k].isSelected
      ensures j == k
    {
      DayCellAt(current, selected, today, j);
      DayCellAt(current, selected, today, k);
    }
    forall k | 0 <= k < 42 && selected.None?
      ensures !cells[k].isSelected
    {
      DayCellAt(current, selected, today, k);
    }
  }

  /** Some cell is flagged today exactly when today falls within the 42 days shown. */
  lemma DayGridShowsToday(current: Date, selected: Option<Date>, today: Date)
    requires ValidDate(current) && ValidDate(today)
    ensures var cells := DayCells(current, selected, today);
      var start := Serial(GridStart(current));
      (exists k :: 0 <= k < 42 && cells[k].isToday) <==> start <= Serial(today) < start + 42
  {
    var cells := DayCells(current, selected, today);
    var start := Serial(GridStart(current));
    forall k | 0 <= k < 42 && cells[k].isToday
      ensures start <= Serial(today) < start + 42
    {
      DayCellAt(current, selected, today, k);
    }
    if start <= Serial(today) < start + 42 {
      var k := Serial(today) - start;
      DayCellAt(current, selected, today, k);
      SerialInjective(cells[k].date, today);
      assert cells[k].isToday;
    }
  }

  /** Some cell is flagged selected exactly when a date is picked and it falls within the 42 days shown. */
  lemma DayGridShowsSelection(current: Date, selected: Option<Date>, today: Date)
    requires ValidDate(current) && (selected.Some? ==> ValidDate(selected.value))
    ensures var cells := DayCells(current, selected, today);
      var start := Serial(GridStart(current));
      (exists k :: 0 <= k < 42 && cells[k].isSelected)
        <==> selected.Some? && start <= Serial(selected.value) < start + 42
  {
    var cells := DayCells(current, selected, today);
    var start := Serial(GridStart(current));
    forall k | 0 <= k < 42 && cells[k].isSelected
      ensures selected.Some? && start <= Serial(selected.value) < start + 42
    {
      DayCellAt(current, selected, today, k);
    }
    if selected.Some? && start <= Serial(selected.value) < start + 42 {
      var k := Serial(selected.value) - start;
      DayCellAt(current, selected, today, k);
      SerialInjective(cells[k].date, selected.value);
      assert cells[k].isSelected;
    }
  }

  // ---------------------------------------------------------------------
  // Month grid

  /**
   * The twelve month cells of `current`'s year. A month is highlighted when
   * it is `current`'s own month and the picked date (or `current` itself
   * when nothing is picked) lies in the displayed year.
   */
  function MonthCells(current: Date, selected: Option<Date>): (cells: seq<MonthCell>)
    ensures |cells| == 12
  {
    seq(12, i requires 0 <= i < 12 =>
      MonthCell(current.year, i, i == current.month && (selected.None? || selected.value.year == current.year)))
  }

  /** Months 0..11 in order, all of `current`'s year, and at most one of them highlighted. */
  lemma MonthGridLayout(current: Date, selected: Option<Date>)
    ensures var cells := MonthCells(current, selected);
      (forall i :: 0 <= i < 12 ==> cells[i].year == current.year && cells[i].month == i)
      && (forall i, j :: 0 <= i < 12 && 0 <= j < 12 && cells[i].isSelected && cells[j].isSelected ==> i == j)
      && (forall i :: 0 <= i < 12 ==> (cells[i].isSelected <==>
            i == current.month && (selected.None? || selected.value.year == current.year)))
  {
  }

  // ---------------------------------------------------------------------
  // Year grid and header

  /**
   * The twelve year cells Y-4 .. Y+7 around `current`'s year Y: the first and
   * last are edges, Y itself (the fifth) is highlighted.
   */
  function YearCells(current: Date): (cells: seq<YearCell>)
    ensures |cells| == 12
  {
    seq(12, i requires 0 <= i < 12 => YearCell(current.year - 4 + i, i == 0 || i == 11, i == 4))
  }

  /** Years ascend one by one from Y-4 to Y+7; only the two ends are edges; only Y is highlighted. */
  lemma YearGridLayout(current: Date)
    ensures var cells := YearCells(current);
      cells[0].year == current.year - 4 && cells[11].year == current.year + 7
      && (forall i :: 0 <= i < 11 ==> cells[i + 1].year == cells[i].year + 1)
      && (forall i :: 0 <= i < 12 ==> (cells[i].isEdge <==> i == 0 || i == 11))
      && (forall i :: 0 <= i < 12 ==> (cells[i].isSelected <==> cells[i].year == current.year))
  {
  }

  /** renderHeader's label, by view mode. */
  function Header(viewMode: ViewMode, current: Date): HeaderLabel {
    var startYear := current.year - 4;
    var endYear := current.year + 7;
    match viewMode
    case DateView => MonthYearLabel(current.year, current.month)
    case MonthView => YearLabel(current.year)
    case YearView => YearRangeLabel(startYear, endYear)
  }

  /** In year view the header names the first and the last year of the year grid. */
  lemma HeaderMatchesYearGrid(current: Date)
    ensures var cells := YearCells(current);
      Header(YearView, current) == YearRangeLabel(cells[0].year, cells[11].year)
  {
  }

  /** renderContent: the one layout the view mode selects. */
  function BuildGrid(s: NavState, today: Date): (g: Grid)
    requires ValidDate(s.currentDate)
    ensures g.DayGrid? <==> s.viewMode == DateView
    ensures g.MonthGrid? <==> s.viewMode == MonthView
    ensures g.YearGrid? <==> s.viewMode == YearView
  {
    match s.viewMode
    case MonthView => MonthGrid(ThreeRowsOfFour(MonthCells(s.currentDate, s.selectedDate)))
    case YearView => YearGrid(ThreeRowsOfFour(YearCells(s.currentDate)))
    case DateView => DayGrid(DayRows(s.currentDate, s.selectedDate, today))
  }

  // ---------------------------------------------------------------------
  // Navigation

  /** Months that prev/next move the reference date by, per view. */
  function StepMonths(viewMode: ViewMode): int {
    match viewMode
    case DateView => 1
    case MonthView => 12
    case YearView => 144
  }

  /**
   * What each handler does to the state. Only picking a day changes the
   * selection; a valid state stays valid.
   */
  function Transition(s: NavState, e: Event): (t: NavState)
    requires ValidDate(s.currentDate)
    ensures t.selectedDate == (if e.PickDay? then Some(e.day) else s.selectedDate)
    ensures StateValid(s) && EventValid(e) ==> StateValid(t)
  {
    match e
    case HeaderClick =>
      s.(viewMode := if s.viewMode == DateView then MonthView else YearView)
    case Prev =>
      s.(currentDate := match s.viewMode
        case DateView => SubMonths(s.currentDate, 1)
        case MonthView => SubYears(s.currentDate, 1)
        case YearView => SubYears(s.currentDate, 12))
    case Next =>
      s.(currentDate := match s.viewMode
        case DateView => AddMonths(s.currentDate, 1)
        case MonthView => AddYears(s.currentDate, 1)
        case YearView => AddYears(s.currentDate, 12))
    case PickDay(day) =>
      s.(selectedDate := Some(day))
    case PickMonth(month) =>
      NavState(FirstOfMonth(s.currentDate.year, month), s.selectedDate, DateView)
    case PickYear(year) =>
      NavState(FirstOfMonth(year, s.currentDate.month), s.selectedDate, MonthView)
  }

  /** The header drills down one level (date to month to year) and changes nothing else. */
  lemma HeaderClickDrillsDown(s: NavState)
    requires ValidDate(s.currentDate)
    ensures var t := Transition(s, HeaderClick);
      t.currentDate == s.currentDate && t.selectedDate == s.selectedDate
      && t.viewMode == (match s.viewMode
        case DateView => MonthView
        case MonthView => YearView
        case YearView => YearView)
  {
  }

  /**
   * Prev and next move the reference date back or on by one month, one year
   * or twelve years (by view), keep its day unless the new month is shorter,
   * and leave the view and the selection alone.
   */
  lemma PrevNextStep(s: NavState)
    requires ValidDate(s.currentDate)
    ensures var p := Transition(s, Prev);
      var n := Transition(s, Next);
      MonthIndex(p.currentDate) == MonthIndex(s.currentDate) - StepMonths(s.viewMode)
      && MonthIndex(n.currentDate) == MonthIndex(s.currentDate) + StepMonths(s.viewMode)
      && p.viewMode == s.viewMode && n.viewMode == s.viewMode
      && p.selectedDate == s.selectedDate && n.selectedDate == s.selectedDate
      && p.currentDate.day <= s.currentDate.day && n.currentDate.day <= s.currentDate.day
  {
  }

  /**
   * Next after prev in the same view restores the reference month and
   * year; the day comes back too unless clamping cut it on the way.
   */
  lemma {:induction false} NextUndoesPrev(s: NavState)
    requires ValidDate(s.currentDate)
    ensures var t := Transition(Transition(s, Prev), Next);
      t.currentDate.year == s.currentDate.year && t.currentDate.month == s.currentDate.month
      && t.currentDate.day <= s.currentDate.day
      && t.viewMode == s.viewMode && t.selectedDate == s.selectedDate
      && (s.currentDate.day <= 28 ==> t == s)
  {
    var p := Transition(s, Prev);
    var t := Transition(p, Next);
    PrevNextStep(s);
    PrevNextStep(p);
    MonthIndexInjective(t.currentDate, s.currentDate);
  }

  /** Prev after next in the same view restores the reference month and year likewise. */
  lemma {:induction false} PrevUndoesNext(s: NavState)
    requires ValidDate(s.currentDate)
    ensures var t := Transition(Transition(s, Next), Prev);
      t.currentDate.year == s.currentDate.year && t.currentDate.month == s.currentDate.month
      && t.currentDate.day <= s.currentDate.day
      && t.viewMode == s.viewMode && t.selectedDate == s.selectedDate
      && (s.currentDate.day <= 28 ==> t == s)
  {
    var n := Transition(s, Next);
    var t := Transition(n, Prev);
    PrevNextStep(s);
    PrevNextStep(n);
    MonthIndexInjective(t.currentDate, s.currentDate);
  }

  /** Picking a day selects it and changes nothing else. */
  lemma PickDayEffects(s: NavState, day: Date)
    requires ValidDate(s.currentDate)
    ensures var t := Transition(s, PickDay(day));
      t.selectedDate == Some(day) && t.currentDate == s.currentDate && t.viewMode == s.viewMode
  {
  }

  /** Picking month m shows the 1st of m in the same year as a day grid; the selection stays. */
  lemma PickMonthEffects(s: NavState, month: int)
    requires ValidDate(s.currentDate) && 0 <= month < 12
    ensures var t := Transition(s, PickMonth(month));
      t.currentDate == Date(s.currentDate.year, month, 1)
      && t.viewMode == DateView && t.selectedDate == s.selectedDate
  {
    FirstOfMonthInRange(s.currentDate.year, month);
  }

  /** Picking year y shows the 1st of the same month in y as a month grid; the selection stays. */
  lemma PickYearEffects(s: NavState, year: int)
    requires ValidDate(s.currentDate)
    ensures var t := Transition(s, PickYear(year));
      t.currentDate == Date(year, s.currentDate.month, 1)
      && t.viewMode == MonthView && t.selectedDate == s.selectedDate
  {
    FirstOfMonthInRange(year, s.currentDate.month);
  }

  /**
   * onClickYear as written builds its date with `new Date(year, month, 1)`:
   * picking year 50 yields a date in 1950, where the corrected transition
   * shows year 50 itself.
   */
  lemma PickYearFiftyAsWritten(s: NavState)
    requires ValidDate(s.currentDate)
    ensures JsFirstOfMonth(50, s.currentDate.month) == Date(1950, s.currentDate.month, 1)
    ensures Transition(s, PickYear(50)).currentDate == Date(50, s.currentDate.month, 1)
  {
    JsFirstOfMonthTwoDigitYear(50, s.currentDate.month);
    PickYearEffects(s, 50);
  }

  /**
   * onClickMonth as written, with the reference date in year 50: the new
   * date falls in 1950, where the corrected transition stays in year 50.
   */
  lemma PickMonthInYearFiftyAsWritten(s: NavState, month: int)
    requires ValidDate(s.currentDate) && s.currentDate.year == 50 && 0 <= month < 12
    ensures JsFirstOfMonth(s.currentDate.year, month) == Date(1950, month, 1)
    ensures Transition(s, PickMonth(month)).currentDate == Date(50, month, 1)
  {
    JsFirstOfMonthTwoDigitYear(50, month);
    PickMonthEffects(s, month);
  }

  // ---------------------------------------------------------------------
  // Worked cases

  lemma February2024StartsThursday()
    ensures Serial(Date(2024, 1, 1)) == 19754 && DayOfWeek(Date(2024, 1, 1)) == 4
    ensures Serial(Date(2024, 0, 28)) == 19750
  {
    assert DaysBeforeYear(2024) == 19723;
  }

  /** The February 2024 grid opens on Sunday, January 28. */
  lemma February2024GridStart(today: Date)
    requires today == Date(2024, 1, 15)
    ensures GridStart(today) == Date(2024, 0, 28)
  {
    February2024StartsThursday();
    SerialInjective(GridStart(today), Date(2024, 0, 28));
  }

  /** February 2024 (a leap year, the 1st a Thursday) shown on 2024-02-15. */
  lemma February2024Grid(today: Date)
    requires today == Date(2024, 1, 15)
    ensures var cells := DayCells(today, None, today);
      cells[0].date == Date(2024, 0, 28) && cells[3].isOutsideMonth
      && cells[4].date == Date(2024, 1, 1) && !cells[4].isOutsideMonth
      && cells[18].date == today && cells[18].isToday
      && cells[32].date == Date(2024, 1, 29) && !cells[32].isOutsideMonth
      && cells[33].isOutsideMonth
      && forall k :: 0 <= k < 42 ==> (cells[k].isOutsideMonth <==> !(4 <= k < 33))
  {
    February2024StartsThursday();
    February2024GridStart(today);
    assert DayOfWeek(StartOfMonth(today)) == 4 && DaysInMonth(2024, 1) == 29;
    DayGridCoversMonth(today, None, today);
    DayGridOutsideMonth(today, None, today);
    DayCellOf(today, None, today, 0);
    DayCellOf(today, None, today, 18);
  }

  /** Next from Jan 31 clamps to the last day of February, 29 in a leap year and 28 otherwise. */
  lemma NextClampsToEndOfFebruary(selected: Option<Date>)
    ensures Transition(NavState(Date(2024, 0, 31), selected, DateView), Next).currentDate == Date(2024, 1, 29)
    ensures Transition(NavState(Date(2023, 0, 31), selected, DateView), Next).currentDate == Date(2023, 1, 28)
  {
  }

  /** Prev then next from Mar 31, 2024 comes back to Mar 29: the day was clamped in February. */
  lemma PrevNextAcrossFebruary(selected: Option<Date>)
    ensures var s := NavState(Date(2024, 2, 31), selected, DateView);
      Transition(s, Prev).currentDate == Date(2024, 1, 29)
      && Transition(Transition(s, Prev), Next).currentDate == Date(2024, 2, 29)
  {
  }

  /** The year grid around 2024 spans 2020..2031, with 2020 and 2031 as edges and 2024 highlighted. */
  lemma Year2024Grid(current: Date)
    requires current.year == 2024
    ensures var cells := YearCells(current);
      cells[0].year == 2020 && cells[11].year == 2031 && cells[4].year == 2024
      && Header(YearView, current) == YearRangeLabel(2020, 2031)
      && (forall i :: 0 <= i < 12 ==> (cells[i].isEdge <==> cells[i].year == 2020 || cells[i].year == 2031))
      && (forall i :: 0 <= i < 12 ==> (cells[i].isSelected <==> cells[i].year == 2024))
  {
    YearGridLayout(current);
  }

  // ---------------------------------------------------------------------
  // The component

  /** The mounted component: its three state hooks and the dates handed to onSelect so far. */
  class Calendar {
    var currentDate: Date
    var selectedDate: Option<Date>
    var viewMode: ViewMode
    /** Whether the host passed an onSelect callback. */
    const hasOnSelect: bool
    /** The dates passed to onSelect, in order. */
    ghost var selections: seq<Date>

    function State(): NavState
      reads this
    {
      NavState(currentDate, selectedDate, viewMode)
    }

    ghost predicate Valid()
      reads this
    {
      StateValid(State())
    }

    /** Mounting: the reference date is now, the selection is the `date` prop, the view shows days. */
    constructor (now: Date, date: Option<Date>, hasOnSelect: bool)
      requires ValidDate(now) && (date.Some? ==> ValidDate(date.value))
      ensures Valid()
      ensures State() == NavState(now, date, DateView)
      ensures this.hasOnSelect == hasOnSelect && selections == []
    {
      currentDate := now;
      selectedDate := date;
      viewMode := DateView;
      this.hasOnSelect := hasOnSelect;
      selections := [];
    }

    method OnClickHeaderView()
      requires Valid()
      modifies this
      ensures Valid() && State() == Transition(old(State()), HeaderClick)
      ensures selections == old(selections)
    {
      if viewMode == DateView {
        viewMode := MonthView;
      } else {
        viewMode := YearView;
      }
    }

    method OnClickHeaderPrev()
      requires Valid()
      modifies this
      ensures Valid() && State() == Transition(old(State()), Prev)
      ensures selections == old(selections)
    {
      if viewMode == DateView {
        currentDate := SubMonths(currentDate, 1);
      } else if viewMode == MonthView {
        currentDate := SubYears(currentDate, 1);
      } else {
        currentDate := SubYears(currentDate, 12);
      }
    }

    method OnClickHeaderNext()
      requires Valid()
      modifies this
      ensures Valid() && State() == Transition(old(State()), Next)
      ensures selections == old(selections)
    {
      if viewMode == DateView {
        currentDate := AddMonths(currentDate, 1);
      } else if viewMode == MonthView {
        currentDate := AddYears(currentDate, 1);
      } else {
        currentDate := AddYears(currentDate, 12);
      }
    }

    /** Picking a day: select it, and hand it to onSelect once when the host gave one. */
    method OnClickCellsDate(day: Date)
      requires Valid() && ValidDate(day)
      modifies this
      ensures Valid() && State() == Transition(old(State()), PickDay(day))
      ensures selections == old(selections) + (if hasOnSelect then [day] else [])
    {
      selectedDate := Some(day);
      if hasOnSelect {
        selections := selections + [day];
      }
    }

    method OnClickMonth(month: int)
      requires Valid()
      modifies this
      ensures Valid() && State() == Transition(old(State()), PickMonth(month))
      ensures selections == old(selections)
    {
      var newDate := FirstOfMonth(currentDate.year, month);
      currentDate := newDate;
      viewMode := DateView;
    }

    method OnClickYear(year: int)
      requires Valid()
      modifies this
      ensures Valid() && State() == Transition(old(State()), PickYear(year))
      ensures selections == old(selections)
    {
      var newDate := FirstOfMonth(year, currentDate.month);
      currentDate := newDate;
      viewMode := MonthView;
    }

    /** renderCells: the grid runs from the Sunday on or before the 1st of the reference month. */
    method RenderCells(today: Date) returns (rows: seq<seq<DayCell>>)
      requires Valid()
      ensures rows == DayRows(currentDate, selectedDate, today)
    {
      var monthStart := StartOfMonth(currentDate);
      var startDate := StartOfWeek(monthStart);
      var endDate := EndOfWeek(AddDays(startDate, LastCellOffset));
      GridWalkEnds(startDate, endDate);
      rows := RenderRows(startDate, endDate, monthStart, today);
    }

    /**
     * renderCells' outer loop: a row per week from `startDate` while the day
     * is on or before `endDate`; `walked` counts the days drawn so far.
     */
    method RenderRows(startDate: Date, endDate: Date, monthStart: Date, today: Date) returns (rows: seq<seq<DayCell>>)
      requires ValidDate(startDate) && WalkEndsAfter(startDate, endDate, LastCellOffset)
      ensures rows == WeeksFrom(startDate, 0, monthStart, selectedDate, today, 6)
    {
      rows := [];
      var day := startDate;
      ghost var walked := 0;
      ghost var weeksLeft := 6;
      AppendToEmpty(WeeksFrom(startDate, 0, monthStart, selectedDate, today, 6));
      assert day == AddDays(startDate, 0);
      while IsOnOrBefore(day, endDate)
        invariant 0 <= weeksLeft == 6 - |rows| && walked == 7 * |rows|
        invariant ValidDate(day) && day == AddDays(startDate, walked)
        invariant IsOnOrBefore(day, endDate) <==> walked <= LastCellOffset
        invariant rows + WeeksFrom(startDate, walked, monthStart, selectedDate, today, weeksLeft)
          == WeeksFrom(startDate, 0, monthStart, selectedDate, today, 6)
        decreases weeksLeft
      {
        ghost var nextWalked := walked + 7;
        var days, next := RenderWeek(day, monthStart, today, startDate, walked, nextWalked);
        ghost var nextLeft := weeksLeft - 1;
        WeeksFromStep(rows, days, WeeksFrom(startDate, 0, monthStart, selectedDate, today, 6), startDate,
                      walked, nextWalked, monthStart, selectedDate, today, weeksLeft, nextLeft);
        rows := rows + [days];
        day := next;
        walked := nextWalked;
        weeksLeft := nextLeft;
      }
      AppendEmpty(rows, WeeksFrom(startDate, walked, monthStart, selectedDate, today, weeksLeft));
    }

    /**
     * renderCells' inner loop: the seven cells of the week that starts on
     * `weekStart`, which lies `offset` days after `start`, and the day after it.
     */
    method RenderWeek(weekStart: Date, monthStart: Date, today: Date, ghost start: Date, ghost offset: int, ghost nextOffset: int)
      returns (days: seq<DayCell>, next: Date)
      requires ValidDate(start) && 0 <= offset && weekStart == AddDays(start, offset) && nextOffset == offset + 7
      ensures days == DaysFrom(start, offset, monthStart, selectedDate, today, 7)
      ensures ValidDate(next) && next == AddDays(start, nextOffset)
    {
      days := [];
      var day := weekStart;
      ghost var at := offset;
      ghost var daysLeft := 7;
      AppendToEmpty(DaysFrom(start, offset, monthStart, selectedDate, today, 7));
      for i := 0 to 7
        invariant daysLeft == 7 - i && at == offset + i
        invariant ValidDate(day) && day == AddDays(start, at)
        invariant days + DaysFrom(start, at, monthStart, selectedDate, today, daysLeft)
          == DaysFrom(start, offset, monthStart, selectedDate, today, 7)
      {
        ghost var nextAt := at + 1;
        ghost var nextLeft := daysLeft - 1;
        DaysFromStep(days, DaysFrom(start, offset, monthStart, selectedDate, today, 7), start, at, nextAt,
                     monthStart, selectedDate, today, daysLeft, nextLeft);
        AddDaysNext(start, at, nextAt);
        days := days + [CellFor(day, monthStart, selectedDate, today)];
        day := NextDay(day);
        at := nextAt;
        daysLeft := nextLeft;
      }
      AppendEmpty(days, DaysFrom(start, at, monthStart, selectedDate, today, daysLeft));
      next := day;
    }

    /** renderMonths: one cell per month of the reference year, sliced into rows of four. */
    method RenderMonths() returns (rows: seq<seq<MonthCell>>)
      requires Valid()
      ensures rows == ThreeRowsOfFour(MonthCells(currentDate, selectedDate))
    {
      var months: seq<MonthCell> := [];
      var currentYear := currentDate.year;
      var selectedYear := if selectedDate.Some? then selectedDate.value.year else currentDate.year;
      for month := 0 to 12
        invariant months == MonthCells(currentDate, selectedDate)[..month]
      {
        months := months + [MonthCell(currentYear, month, currentDate.year == selectedYear && currentDate.month == month)];
      }
      assert months == MonthCells(currentDate, selectedDate);
      rows := ThreeRowsOfFour(months);
    }

    /** renderYears: one cell per year from Y-4 to Y+7, sliced into rows of four. */
    method RenderYears() returns (rows: seq<seq<YearCell>>)
      requires Valid()
      ensures rows == ThreeRowsOfFour(YearCells(currentDate))
    {
      var years: seq<YearCell> := [];
      var startYear := currentDate.year - 4;
      var endYear := currentDate.year + 7;
      var year := startYear;
      while year <= endYear
        invariant startYear <= year <= endYear + 1
        invariant years == YearCells(currentDate)[..year - startYear]
        decreases endYear - year
      {
        var isStartYear := startYear == year;
        var isEndYear := endYear == year;
        years := years + [YearCell(year, isStartYear || isEndYear, currentDate.year == year)];
        year := year + 1;
      }
      assert years == YearCells(currentDate);
      rows := ThreeRowsOfFour(years);
    }

    /** renderContent: the grid of the current view. */
    method RenderContent(today: Date) returns (g: Grid)
      requires Valid()
      ensures g == BuildGrid(State(), today)
    {
      match viewMode
      case MonthView =>
        var rows := RenderMonths();
        g := MonthGrid(rows);
      case YearView =>
        var rows := RenderYears();
        g := YearGrid(rows);
      case DateView =>
        var rows := RenderCells(today);
        g := DayGrid(rows);
    }
  }
}
