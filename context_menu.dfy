/**
 * The logic of the date-range context menu: the two day-filter chips, the
 * week information the week selector shows (`getWeekInfo`), and the
 * selector's own state, the week it is centred on.
 */
module ContextMenu {
  import opened Options
  import opened Calendar
  import opened DateText
  import opened WeekNumbers
  import opened Types
  import opened Columns

  // ---------------------------------------------------------------------
  // Day-filter chips

  /** The Business days chip is lit under `business` and under `all`. */
  predicate BusinessChipActive(f: DayFilter) {
    f == Business || f == All
  }

  /** The Weekends chip is lit under `weekend` and under `all`. */
  predicate WeekendChipActive(f: DayFilter) {
    f == Weekend || f == All
  }

  /**
   * A click on Business days: `all` and `business` go to `weekend`, `weekend`
   * goes to `all`. The chip always flips, and the Weekends chip is lit afterwards.
   */
  function BusinessChipClick(f: DayFilter): (g: DayFilter)
    ensures BusinessChipActive(g) == !BusinessChipActive(f)
    ensures WeekendChipActive(g)
  {
    match f
    case All => Weekend
    case Business => Weekend
    case Weekend => All
  }

  /**
   * A click on Weekends: `all` and `weekend` go to `business`, `business`
   * goes to `all`. The chip always flips, and the Business days chip is lit afterwards.
   */
  function WeekendChipClick(f: DayFilter): (g: DayFilter)
    ensures WeekendChipActive(g) == !WeekendChipActive(f)
    ensures BusinessChipActive(g)
  {
    match f
    case All => Business
    case Weekend => Business
    case Business => All
  }

  /** Under every filter at least one chip is lit. */
  lemma SomeChipActive(f: DayFilter)
    ensures BusinessChipActive(f) || WeekendChipActive(f)
  {
  }

  /**
   * The chips show what the filter keeps: a weekday is kept exactly when
   * Business days is lit, and a Saturday or Sunday exactly when Weekends is lit.
   */
  lemma ChipsShowFilter(f: DayFilter, d: int)
    ensures 1 <= Weekday(d) <= 5 ==> (KeepDay(f, d) <==> BusinessChipActive(f))
    ensures (Weekday(d) == 0 || Weekday(d) == 6) ==> (KeepDay(f, d) <==> WeekendChipActive(f))
  {
  }

  /** The filter is fixed by which chips are lit. */
  lemma ChipsDetermineFilter(f: DayFilter, g: DayFilter)
    requires BusinessChipActive(f) == BusinessChipActive(g) && WeekendChipActive(f) == WeekendChipActive(g)
    ensures f == g
  {
  }

  // ---------------------------------------------------------------------
  // Week information

  /** What the selector shows of a week: its Monday, its Sunday and its ISO week number. */
  datatype WeekInfo = WeekInfo(start: int, end: int, weekNumber: int)

  /**
   * `getWeekInfo(date)`: the Monday-to-Sunday week that holds the date, numbered
   * as ISO 8601:2004 section 4.1.4 numbers it (`getISOWeek`).
   */
  function GetWeekInfo(d: int): (w: WeekInfo)
    ensures Weekday(w.start) == 1 && w.end == w.start + 6
    ensures w.start <= d <= w.end
    ensures w.weekNumber == IsoWeekNumber(w.start) && 1 <= w.weekNumber <= 53
  {
    var start := StartOfWeek(d, 1);
    IsoWeekOfMonday(start);
    IsoWeekNumberRange(start);
    var end := EndOfWeek(d, 1);
    StartOfWeekUnique(d, 1, start);
    WeekInfo(start, end, IsoWeek(d))
  }

  /** Every day of a week gets the same week information. */
  lemma WeekInfoSameWeek(d: int, e: int)
    requires GetWeekInfo(d).start <= e <= GetWeekInfo(d).end
    ensures GetWeekInfo(e) == GetWeekInfo(d)
  {
    var w := GetWeekInfo(d);
    StartOfWeekUnique(e, 1, w.start);
  }

  /** The week information of a day one week on is that of the next week. */
  lemma WeekInfoNextWeek(d: int)
    ensures GetWeekInfo(d + 7).start == GetWeekInfo(d).start + 7
  {
    var s := GetWeekInfo(d).start;
    WeekdayShift(s, 1);
    StartOfWeekUnique(d + 7, 1, s + 7);
  }

  /** Friday 2021-01-01 is shown in week 53 (of 2020), Monday 2021-01-04 in week 1. */
  lemma WeekInfoNewYear2021(d: int)
    requires d == DayOf(2021, 0, 1)
    ensures GetWeekInfo(d).weekNumber == 53 && GetWeekInfo(d + 3).weekNumber == 1
  {
    IsoWeekExample2021(DayOf(2020, 11, 28), d);
    JanuaryFourthWeek(d, 2021);
  }

  /** 4 January, three days after 1 January, is always in week 1. */
  lemma JanuaryFourthWeek(d: int, y: int)
    requires d == DayOf(y, 0, 1)
    ensures IsoWeek(d + 3) == 1
  {
    JanuaryFourth(y);
    assert DaysBeforeMonth(y, 0) == 0;
    IsoWeekOfJanuaryFourth(y);
  }

  // ---------------------------------------------------------------------
  // The week selector

  /** `addWeeks(d, k)`; an invalid date stays invalid. */
  function ShiftWeeks(c: Option<int>, k: int): (r: Option<int>)
    ensures r.Some? <==> c.Some?
    ensures r.Some? ==> r.value - c.value == 7 * k
  {
    if c.None? then None else Some(c.value + 7 * k)
  }

  /** A step back and a step forward undo each other. */
  lemma ShiftWeeksUndo(c: Option<int>)
    ensures ShiftWeeks(ShiftWeeks(c, -1), 1) == c && ShiftWeeks(ShiftWeeks(c, 1), -1) == c
  {
  }

  /**
   * The three weeks the selector lists around `center`: the previous, the
   * current and the next one. Their Mondays are a week apart, in order, and
   * the middle one holds `center`.
   */
  function WeeksAround(center: int): (ws: seq<WeekInfo>)
    ensures |ws| == 3
    ensures ws[1].start <= center <= ws[1].end
    ensures ws[1].start == ws[0].start + 7 && ws[2].start == ws[1].start + 7
  {
    WeekInfoNextWeek(center - 7);
    WeekInfoNextWeek(center);
    [GetWeekInfo(center - 7), GetWeekInfo(center), GetWeekInfo(center + 7)]
  }

  /** A click on a week emits its Monday and its Sunday as `yyyy-MM-dd` dates. */
  function WeekClick(w: WeekInfo): (vals: (string, string)) {
    (DateKey(w.start), DateKey(w.end))
  }

  /** From year 1 on, the emitted dates read back as the week's Monday and Sunday. */
  lemma WeekClickReadsBack(d: int)
    requires 1 <= Civil(GetWeekInfo(d).start).year && Civil(GetWeekInfo(d).end).year <= 9999
    ensures var w := GetWeekInfo(d);
      ParseIsoDate(WeekClick(w).0) == Some(w.start) && ParseIsoDate(WeekClick(w).1) == Some(w.end)
  {
    var w := GetWeekInfo(d);
    CivilYearMonotone(w.start, w.end);
    DateKeyIsIsoText(w.start);
    DateKeyIsIsoText(w.end);
    ParseFormatRoundTrip(w.start);
    ParseFormatRoundTrip(w.end);
  }

  /**
   * Whether a listed week is highlighted: its Monday's `yyyy-MM-dd` equals
   * that of `new Date(start)`; none when `start` is not a date and `format` throws.
   */
  function Highlighted(w: WeekInfo, start: string): Option<bool> {
    match ParseIsoDate(start)
    case None => None
    case Some(s) => Some(DateKey(w.start) == DateKey(s))
  }

  /** Within the years 0001 to 9999, a week is highlighted exactly when its Monday is the start date. */
  lemma HighlightedIffMonday(w: WeekInfo, start: string)
    requires ParseIsoDate(start).Some?
    requires 1 <= Civil(w.start).year <= 9999 && 1 <= Civil(ParseIsoDate(start).value).year <= 9999
    ensures Highlighted(w, start) == Some(w.start == ParseIsoDate(start).value)
  {
    if DateKey(w.start) == DateKey(ParseIsoDate(start).value) {
      DateKeyInjective(w.start, ParseIsoDate(start).value);
    }
  }

  /**
   * The selector's state: the date it is centred on (`new Date(start)` at
   * first, `None` for an invalid date).
   */
  class WeekSelector {
    var centerDate: Option<int>

    constructor (start: string)
      ensures centerDate == ParseIsoDate(start)
    {
      centerDate := ParseIsoDate(start);
    }

    /** The listed weeks; none when the centre is an invalid date, on which `format` throws. */
    function Weeks(): (ws: Option<seq<WeekInfo>>)
      reads this
      ensures ws.Some? <==> centerDate.Some?
      ensures ws.Some? ==> ws.value == WeeksAround(centerDate.value)
    {
      if centerDate.None? then None else Some(WeeksAround(centerDate.value))
    }

    /** `handlePrev`: one week back. */
    method HandlePrev()
      modifies this
      ensures centerDate == ShiftWeeks(old(centerDate), -1)
    {
      centerDate := ShiftWeeks(centerDate, -1);
    }

    /** `handleNext`: one week on. */
    method HandleNext()
      modifies this
      ensures centerDate == ShiftWeeks(old(centerDate), 1)
    {
      centerDate := ShiftWeeks(centerDate, 1);
    }
  }
}
