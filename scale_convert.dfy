/**
 * `calcRangeForType` of the app shell: when the column type changes, the
 * target type's range keeps the previous start and column count, and its end
 * moves to where the last of that many target-type columns begins.
 */
module ScaleConvert {
  import opened Options
  import opened Calendar
  import opened DateText
  import opened WeekNumbers
  import opened Types
  import opened Columns

  /** The part of a column type's state a conversion reads and writes: ISO date texts and a column count. */
  datatype Range = Range(start: string, end: string, numColumns: int)

  /**
   * The converted range, or the `RangeError` that `formatISO` throws when
   * `new Date(start)` of an unreadable start is an invalid date.
   */
  datatype Converted = Converted(range: Range) | InvalidTime

  /**
   * The day on which the last of `n` columns of type `target` begins, from day `s`:
   * `n - 1` days or weeks on, or `setMonth(getMonth() + n - 1)` /
   * `setFullYear(getFullYear() + n - 1)`, which keep the day of the month and
   * let it overflow into the next month when the target month is shorter.
   */
  function LastColumnStart(s: int, n: int, target: ColumnType): int {
    var c := Civil(s);
    match target
    case Date => s + (n - 1)
    case Week => s + 7 * (n - 1)
    case Month => MakeDay(c.year, c.month + n - 1, c.day)
    case Year => MakeDay(c.year + n - 1, c.month, c.day)
  }

  /**
   * `calcRangeForType(prevType, prevState, targetType)`: the same type gives
   * the state back untouched; otherwise the start and the column count are
   * kept and the end is recomputed, which fails only when the start does not
   * read as a date.
   */
  function CalcRangeForType(prevType: ColumnType, prev: Range, target: ColumnType): (r: Converted)
    ensures prevType == target ==> r == Converted(prev)
    ensures r.InvalidTime? <==> prevType != target && ParseIsoDate(prev.start).None?
    ensures r.Converted? ==> r.range.start == prev.start && r.range.numColumns == prev.numColumns
    ensures r.Converted? && prevType != target ==>
      r.range.end == IsoDateText(LastColumnStart(ParseIsoDate(prev.start).value, prev.numColumns, target))
  {
    if prevType == target then Converted(prev)
    else
      match ParseIsoDate(prev.start)
      case None => InvalidTime
      case Some(s) => Converted(Range(prev.start, IsoDateText(LastColumnStart(s, prev.numColumns, target)), prev.numColumns))
  }

  /** When the new end lies in the years 0000 to 9999 it reads back as the day the last column begins. */
  lemma ConvertedEndReadsBack(prevType: ColumnType, prev: Range, target: ColumnType)
    requires prevType != target && ParseIsoDate(prev.start).Some?
    requires 0 <= Civil(LastColumnStart(ParseIsoDate(prev.start).value, prev.numColumns, target)).year <= 9999
    ensures var r := CalcRangeForType(prevType, prev, target);
      r.Converted? && ParseIsoDate(r.range.end) == Some(LastColumnStart(ParseIsoDate(prev.start).value, prev.numColumns, target))
  {
    ParseFormatRoundTrip(LastColumnStart(ParseIsoDate(prev.start).value, prev.numColumns, target));
  }

  // ---------------------------------------------------------------------
  // Column counts after a conversion

  /** Date target: the range `s .. s + n - 1` shows exactly `n` unfiltered date columns. */
  lemma DateColumnCount(s: int, n: int, t: WeekNumberType)
    requires n >= 1
    ensures |ColumnsFor(s, LastColumnStart(s, n, Date), All, Date, t)| == n
  {
    ValidRangeColumns(s, s + n - 1, All, Date, t);
  }

  /** Week target: the range `s .. s + 7 * (n - 1)` shows exactly `n` week columns, under either numbering. */
  lemma WeekColumnCount(s: int, n: int, t: WeekNumberType)
    requires n >= 1
    ensures |ColumnsFor(s, LastColumnStart(s, n, Week), All, Week, t)| == n
  {
    var first := StartOfWeek(s, WeekStartsOn(t));
    WeekCountSpan(first, s, n);
  }

  lemma WeekCountSpan(first: int, s: int, n: int)
    requires n >= 1 && first <= s < first + 7
    ensures WeekCount(first, s + 7 * (n - 1)) == n
  {
    DivSevenOffset(n - 1, s - first);
  }

  /**
   * Month target: the end lands `n - 1` months on, so `n` month columns,
   * except when the start's day of the month does not exist in that month:
   * the day overflows into the following month and there are `n + 1`.
   */
  lemma MonthColumnCount(s: int, n: int, t: WeekNumberType)
    requires n >= 1
    ensures var k := MonthIndex(s) + n - 1;
      |ColumnsFor(s, LastColumnStart(s, n, Month), All, Month, t)|
      == if Civil(s).day <= DaysInMonth(k / 12, k % 12) then n else n + 1
  {
    var c := Civil(s);
    var k0 := MonthIndex(s);
    var k := k0 + n - 1;
    var e := LastColumnStart(s, n, Month);
    MakeDayAsMonthStart(c.year, c.month + n - 1, c.day);
    assert 12 * c.year + (c.month + n - 1) == k;
    assert e == MonthStart(k) + c.day - 1;
    MonthStartStep(k);
    MonthStartStep(k + 1);
    DaysInMonthBounds(k);
    DaysInMonthBounds(k + 1);
    if c.day <= DaysInMonth(k / 12, k % 12) {
      MonthIndexUnique(k, e);
    } else {
      MonthIndexUnique(k + 1, e);
    }
  }

  lemma DaysInMonthBounds(k: int)
    ensures 28 <= DaysInMonth(k / 12, k % 12) <= 31
  {
  }

  /**
   * Year target: the end lands in the year `n - 1` years on (29 February
   * moves to 1 March of a common year, which is still that year), so there
   * are exactly `n` year columns.
   */
  lemma YearColumnCount(s: int, n: int, t: WeekNumberType)
    requires n >= 1
    ensures |ColumnsFor(s, LastColumnStart(s, n, Year), All, Year, t)| == n
  {
    var c := Civil(s);
    var y := c.year + n - 1;
    var e := LastColumnStart(s, n, Year);
    MakeDayDef(y, c.month, c.day);
    assert c.month / 12 == 0 && c.month % 12 == c.month;
    SameMonthDayInYear(c, y);
    YearOfCivil(y, e);
  }

  /** A valid day and month of some year, moved to year `y`, still falls within year `y`. */
  lemma SameMonthDayInYear(c: Ymd, y: int)
    requires ValidYmd(c)
    ensures YearStart(y) <= DayOf(y, c.month, c.day) < YearStart(y + 1)
  {
    YearStartStep(y);
    DaysBeforeMonthStep(y, c.month);
    DaysBeforeMonthMonotone(y, c.month + 1, 12);
  }

  // ---------------------------------------------------------------------
  // Examples

  /** A day of February past its end is that many days into March. */
  lemma FebruaryOverflow(y: int, d: int)
    ensures DayOf(y, 1, d) == DayOf(y, 2, d - DaysInMonth(y, 1))
  {
  }

  /** 31 January with two columns, to months: the end is 31 February, which rolls over into March. */
  lemma JanuaryEndOverflow(s: int, y: int)
    requires s == DayOf(y, 0, 31)
    ensures LastColumnStart(s, 2, Month) == DayOf(y, 2, 31 - DaysInMonth(y, 1))
  {
    var t := Ymd(y, 0, 31);
    CivilOfDayOf(t);
    MakeDayDef(y, 1, 31);
    FebruaryOverflow(y, 31);
  }

  /** 2024-01-31 with two columns, to months: the end is 2024-03-02. */
  lemma MonthOverflowExample(s: int)
    requires s == DayOf(2024, 0, 31)
    ensures LastColumnStart(s, 2, Month) == DayOf(2024, 2, 2)
  {
    JanuaryEndOverflow(s, 2024);
  }

  /** 29 February with two columns, to years: when the next year is common it rolls over to 1 March. */
  lemma LeapDayOverflow(s: int, y: int)
    requires IsLeapYear(y) && !IsLeapYear(y + 1) && s == DayOf(y, 1, 29)
    ensures LastColumnStart(s, 2, Year) == DayOf(y + 1, 2, 1)
  {
    var t := Ymd(y, 1, 29);
    CivilOfDayOf(t);
    MakeDayDef(y + 1, 1, 29);
    FebruaryOverflow(y + 1, 29);
  }

  /** 2024-02-29 with two columns, to years: the end is 2025-03-01. */
  lemma LeapDayExample(s: int)
    requires s == DayOf(2024, 1, 29)
    ensures LastColumnStart(s, 2, Year) == DayOf(2025, 2, 1)
  {
    LeapDayOverflow(s, 2024);
  }

  /** 2024-01-15 with three columns, to years: the end is 2026-01-15. */
  lemma ThreeYearsExample(s: int)
    requires s == DayOf(2024, 0, 15)
    ensures LastColumnStart(s, 3, Year) == DayOf(2026, 0, 15)
  {
    CivilOfDayOf(Ymd(2024, 0, 15));
    MakeDayDef(2026, 0, 15);
  }
}
