/**
 * The app shell's per-column-type state and its menu handler
 * (`handleMenuChange`): which column type is shown, the week numbering, the
 * day filter, and for each column type its own range type, start, end and
 * column count.
 */
module AppState {
  import opened Options
  import opened Calendar
  import opened DateText
  import opened Types
  import opened ScaleConvert

  /** One column type's entry of `columnStates`. */
  datatype TypeState = TypeState(rangeType: RangeType, start: string, end: string, numColumns: int)

  /** The `vals` a menu change carries; every field may be absent. */
  datatype MenuChange = MenuChange(
    start: Option<string>,
    end: Option<string>,
    rangeType: Option<RangeType>,
    dayFilter: Option<DayFilter>,
    columnType: Option<ColumnType>,
    weekNumberType: Option<WeekNumberType>,
    numColumns: Option<int>)

  /** A supplied string counts only when it is non-empty, as JavaScript truthiness has it. */
  predicate TruthyText(v: Option<string>) {
    v.Some? && v.value != ""
  }

  /** A supplied number counts only when it is not 0. */
  predicate TruthyCount(v: Option<int>) {
    v.Some? && v.value != 0
  }

  /** Every column type has an entry. */
  predicate Complete(states: map<ColumnType, TypeState>) {
    forall t: ColumnType :: t in states
  }

  lemma CompleteHas(states: map<ColumnType, TypeState>, t: ColumnType)
    requires Complete(states)
    ensures t in states
  {
  }

  lemma AllFourComplete(states: map<ColumnType, TypeState>)
    requires Date in states && Week in states && Month in states && Year in states
    ensures Complete(states)
  {
    forall t: ColumnType
      ensures t in states
    {
      match t
      case Date =>
      case Week =>
      case Month =>
      case Year =>
    }
  }

  /**
   * The initial `columnStates`: every column type starts on the same range;
   * the column counts are 7, 4, 3 and 2, and only the week type follows the week picker.
   */
  function InitialStates(start: string, end: string): (states: map<ColumnType, TypeState>)
    ensures Complete(states)
    ensures forall t :: t in states ==> states[t].start == start && states[t].end == end
    ensures forall t :: t in states ==> (states[t].rangeType == WeekRange <==> t == Week)
    ensures states[Date].numColumns == 7 && states[Week].numColumns == 4
    ensures states[Month].numColumns == 3 && states[Year].numColumns == 2
  {
    var states := map[
      Date := TypeState(CustomRange, start, end, 7),
      Week := TypeState(WeekRange, start, end, 4),
      Month := TypeState(CustomRange, start, end, 3),
      Year := TypeState(CustomRange, start, end, 2)];
    AllFourComplete(states);
    states
  }

  /** The shared default range: the ISO dates of the Monday and the Sunday of today's week. */
  function DefaultRange(today: int): (r: (string, string)) {
    (IsoDateText(StartOfWeek(today, 1)), IsoDateText(EndOfWeek(today, 1)))
  }

  /** The default range reads back as the Monday-to-Sunday week that holds today. */
  lemma DefaultRangeIsTodaysWeek(today: int)
    requires 0 <= Civil(StartOfWeek(today, 1)).year && Civil(EndOfWeek(today, 1)).year <= 9999
    ensures var (s, e) := DefaultRange(today);
      ParseIsoDate(s).Some? && ParseIsoDate(e).Some?
      && Weekday(ParseIsoDate(s).value) == 1 && ParseIsoDate(e).value == ParseIsoDate(s).value + 6
      && ParseIsoDate(s).value <= today <= ParseIsoDate(e).value
  {
    var m := StartOfWeek(today, 1);
    CivilYearMonotone(m, EndOfWeek(today, 1));
    ParseFormatRoundTrip(m);
    ParseFormatRoundTrip(EndOfWeek(today, 1));
  }

  /** The current type's entry after a menu change without a type switch: each supplied, truthy field overwrites. */
  function Overlay(e: TypeState, vals: MenuChange): (r: TypeState)
    ensures r.start == (if TruthyText(vals.start) then vals.start.value else e.start)
    ensures r.end == (if TruthyText(vals.end) then vals.end.value else e.end)
    ensures r.rangeType == (if vals.rangeType.Some? then vals.rangeType.value else e.rangeType)
    ensures r.numColumns == (if TruthyCount(vals.numColumns) then vals.numColumns.value else e.numColumns)
  {
    TypeState(
      if vals.rangeType.Some? then vals.rangeType.value else e.rangeType,
      if TruthyText(vals.start) then vals.start.value else e.start,
      if TruthyText(vals.end) then vals.end.value else e.end,
      if TruthyCount(vals.numColumns) then vals.numColumns.value else e.numColumns)
  }

  /** Applying the same change twice is applying it once. */
  lemma OverlayIdempotent(e: TypeState, vals: MenuChange)
    ensures Overlay(Overlay(e, vals), vals) == Overlay(e, vals)
  {
  }

  /** A change whose fields are all absent, empty or 0 leaves the entry as it was. */
  lemma OverlayIgnoresFalsy(e: TypeState, vals: MenuChange)
    requires vals.start.None? || vals.start == Some("")
    requires vals.end.None? || vals.end == Some("")
    requires vals.numColumns.None? || vals.numColumns == Some(0)
    requires vals.rangeType.None?
    ensures Overlay(e, vals) == e
  {
  }

  /**
   * The states after switching from type `from` to type `to`: the target's
   * start, end and column count come from converting `from`'s range, its
   * range type stays, and the other entries are untouched; none when the
   * conversion throws.
   */
  function SwitchStates(states: map<ColumnType, TypeState>, from: ColumnType, to: ColumnType): (r: Option<map<ColumnType, TypeState>>)
    requires Complete(states)
    ensures r.Some? <==> CalcRangeForType(from, Source(states[from]), to).Converted?
    ensures r.Some? ==>
      Complete(r.value)
      && r.value[to].rangeType == states[to].rangeType
      && r.value[to].start == states[from].start
      && r.value[to].numColumns == states[from].numColumns
      && (forall t :: t in states && t != to ==> r.value[t] == states[t])
  {
    CompleteHas(states, from);
    CompleteHas(states, to);
    match CalcRangeForType(from, Source(states[from]), to)
    case InvalidTime => None
    case Converted(range) =>
      Some(states[to := TypeState(states[to].rangeType, range.start, range.end, range.numColumns)])
  }

  function Source(e: TypeState): Range {
    Range(e.start, e.end, e.numColumns)
  }

  /** A switch moves the source's end to where the last target column starts, for every change of type. */
  lemma SwitchEnd(states: map<ColumnType, TypeState>, from: ColumnType, to: ColumnType)
    requires Complete(states) && from != to
    requires SwitchStates(states, from, to).Some?
    ensures var s := ParseIsoDate(states[from].start);
      s.Some? && SwitchStates(states, from, to).value[to].end == IsoDateText(LastColumnStart(s.value, states[from].numColumns, to))
  {
  }

  /**
   * The app shell's state as `handleMenuChange` sees it. `columnStates` holds
   * one entry per column type; the day filter is a plain field here.
   */
  class CalendarApp {
    var columnType: ColumnType
    var weekNumberType: WeekNumberType
    var dayFilter: DayFilter
    var columnStates: map<ColumnType, TypeState>

    predicate Valid()
      reads this
    {
      Complete(columnStates)
    }

    /** The initial state on day `today`: date columns, ISO numbering, every day shown. */
    constructor (today: int)
      ensures Valid()
      ensures columnType == Date && weekNumberType == Iso && dayFilter == All
      ensures columnStates == InitialStates(DefaultRange(today).0, DefaultRange(today).1)
    {
      columnType := Date;
      weekNumberType := Iso;
      dayFilter := All;
      var (s, e) := DefaultRange(today);
      columnStates := InitialStates(s, e);
    }

    /** The active type's entry: the range and column count the calendar shows. */
    function Current(): TypeState
      reads this
      requires Valid()
    {
      CompleteHas(columnStates, columnType);
      columnStates[columnType]
    }

    /**
     * `handleMenuChange(vals)`. A different column type switches: the type
     * becomes active, its entry is recomputed from the previous type's, and
     * every other field of `vals` is ignored. Otherwise the active type's entry
     * takes the supplied truthy fields, and the numbering and the filter take
     * the supplied values. `ok` is false when the switch throws, and then
     * nothing changes.
     */
    method HandleMenuChange(vals: MenuChange) returns (ok: bool)
      requires Valid()
      modifies this
      ensures Valid()
      ensures vals.columnType.Some? && vals.columnType.value != old(columnType) ==>
        var next := SwitchStates(old(columnStates), old(columnType), vals.columnType.value);
        ok == next.Some?
        && columnType == (if ok then vals.columnType.value else old(columnType))
        && columnStates == (if ok then next.value else old(columnStates))
        && weekNumberType == old(weekNumberType) && dayFilter == old(dayFilter)
      ensures !(vals.columnType.Some? && vals.columnType.value != old(columnType)) ==>
        ok && columnType == old(columnType)
        && columnStates == old(columnStates)[old(columnType) := Overlay(old(columnStates)[old(columnType)], vals)]
        && weekNumberType == (if vals.weekNumberType.Some? then vals.weekNumberType.value else old(weekNumberType))
        && dayFilter == (if vals.dayFilter.Some? then vals.dayFilter.value else old(dayFilter))
    {
      if vals.columnType.Some? && vals.columnType.value != columnType {
        var next := SwitchStates(columnStates, columnType, vals.columnType.value);
        if next.None? {
          return false;
        }
        columnType := vals.columnType.value;
        columnStates := next.value;
        return true;
      }
      CompleteHas(columnStates, columnType);
      columnStates := columnStates[columnType := Overlay(columnStates[columnType], vals)];
      if vals.weekNumberType.Some? && vals.weekNumberType.value != weekNumberType {
        weekNumberType := vals.weekNumberType.value;
      }
      if vals.dayFilter.Some? && vals.dayFilter.value != dayFilter {
        dayFilter := vals.dayFilter.value;
      }
      ok := true;
    }
  }
}
