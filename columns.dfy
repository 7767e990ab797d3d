/**
 * The column engine of the `DateRangeColumns` component: it validates a
 * range, then cuts it into day, week, month or year columns.  Days are day
 * numbers (see `Calendar`); labels are kept as the calendar fields they
 * are formatted from rather than as locale text.
 */
module Columns {
  import opened Options
  import opened Calendar
  import opened DateText
  import opened WeekNumbers
  import opened Types

  /** One period of the range: its first day and its (possibly clipped) last day. */
  datatype Bucket = Bucket(start: int, end: int)

  /** A day segment of a week column, `format(day, 'EEE dd')`: weekday and day of the month. */
  datatype DayTag = DayTag(weekday: int, dayOfMonth: int)

  datatype Column =
      /** label `MMMM dd` (month and day of month), sublabel `EEEE` (weekday), key `yyyy-MM-dd`. */
    | DateColumn(month: int, dayOfMonth: int, weekday: int, key: string)
      /** label `Week n`, key `<start>_<end>` in `yyyy-MM-dd`, seven day segments, the bucket itself. */
    | WeekColumn(weekNumber: int, key: string, days: seq<DayTag>, bucket: Bucket)
      /** label `MMMM` (month), sublabel `yyyy`, key `yyyy-MM`. */
    | MonthColumn(month: int, sublabel: string, key: string)
      /** label and key `yyyy`. */
    | YearColumn(text: string, key: string)

  /** What the component shows: the invalid-range message, or its columns. */
  datatype Outcome = InvalidRange | Columns(columns: seq<Column>)

  predicate Increasing(s: seq<int>) {
    forall i, j :: 0 <= i < j < |s| ==> s[i] < s[j]
  }

  /** `a` is `b` with some elements dropped, the rest kept in order. */
  predicate IsSubsequence(a: seq<int>, b: seq<int>)
    decreases |b|
  {
    a == [] || (b != [] && if a[0] == b[0] then IsSubsequence(a[1..], b[1..]) else IsSubsequence(a, b[1..]))
  }

  // ---------------------------------------------------------------------
  // Date columns

  /** date-fns `eachDayOfInterval`: every day from `s` to `e`, in order; none when `s > e`. */
  function EachDay(s: int, e: int): (days: seq<int>)
    ensures |days| == if s <= e then e - s + 1 else 0
    ensures forall i :: 0 <= i < |days| ==> days[i] == s + i
    decreases e - s
  {
    if s > e then [] else [s] + EachDay(s + 1, e)
  }

  /** Whether a day filter keeps a day: Monday to Friday, Saturday and Sunday, or every day. */
  predicate KeepDay(filter: DayFilter, d: int) {
    match filter
    case All => true
    case Business => 1 <= Weekday(d) <= 5
    case Weekend => Weekday(d) == 0 || Weekday(d) == 6
  }

  /** The days the filter keeps, in their order. */
  function FilterDays(days: seq<int>, filter: DayFilter): (kept: seq<int>)
    ensures |kept| <= |days|
    ensures forall d :: d in kept <==> d in days && KeepDay(filter, d)
  {
    if days == [] then []
    else (if KeepDay(filter, days[0]) then [days[0]] else []) + FilterDays(days[1..], filter)
  }

  function DateColumnOf(d: int): Column {
    var t := Civil(d);
    DateColumn(t.month, t.day, Weekday(d), DateKey(d))
  }

  function DateColumnsOf(days: seq<int>): (cols: seq<Column>)
    ensures |cols| == |days|
  {
    seq(|days|, i requires 0 <= i < |days| => DateColumnOf(days[i]))
  }

  /** The filter keeps its days in their order: the result is a subsequence of its input. */
  lemma {:induction false} FilterSubsequence(days: seq<int>, filter: DayFilter)
    ensures IsSubsequence(FilterDays(days, filter), days)
    decreases |days|
  {
    if days != [] {
      FilterSubsequence(days[1..], filter);
      var rest := FilterDays(days[1..], filter);
      if !KeepDay(filter, days[0]) {
        assert FilterDays(days, filter) == rest;
        SubsequenceDrop(rest, days);
      } else {
        assert FilterDays(days, filter) == [days[0]] + rest;
        assert ([days[0]] + rest)[1..] == rest;
      }
    }
  }

  lemma SubsequenceDrop(a: seq<int>, b: seq<int>)
    requires b != [] && IsSubsequence(a, b[1..])
    ensures IsSubsequence(a, b)
    decreases |b|, 0
  {
    if a != [] && a[0] == b[0] {
      SubsequenceTail(a, b[1..]);
    }
  }

  lemma SubsequenceTail(a: seq<int>, b: seq<int>)
    requires a != [] && IsSubsequence(a, b)
    ensures IsSubsequence(a[1..], b)
    decreases |b|, 1
  {
    if b != [] {
      if a[0] == b[0] {
        if a[1..] != [] {
          SubsequenceDrop(a[1..], b);
        }
      } else {
        SubsequenceTail(a, b[1..]);
        if a[1..] != [] {
          SubsequenceDrop(a[1..], b);
        }
      }
    }
  }

  /** Filtering an increasing sequence leaves an increasing sequence. */
  lemma {:induction false} FilterIncreasing(days: seq<int>, filter: DayFilter)
    requires Increasing(days)
    ensures Increasing(FilterDays(days, filter))
    decreases |days|
  {
    if days != [] {
      FilterIncreasing(days[1..], filter);
      var rest := FilterDays(days[1..], filter);
      if KeepDay(filter, days[0]) {
        var kept := [days[0]] + rest;
        forall i, j | 0 <= i < j < |kept|
          ensures kept[i] < kept[j]
        {
          if i == 0 {
            assert kept[j] == rest[j - 1] && rest[j - 1] in rest;
            assert rest[j - 1] in days;
            var k :| 0 <= k < |days| && days[k] == rest[j - 1];
            assert k != 0;
          }
        }
      }
    }
  }

  /** The `all` filter keeps every day. */
  lemma {:induction false} FilterAll(days: seq<int>)
    ensures FilterDays(days, All) == days
    decreases |days|
  {
    if days != [] {
      FilterAll(days[1..]);
      assert [days[0]] + days[1..] == days;
    }
  }

  /** `business` and `weekend` split the days between them: each day goes to exactly one. */
  lemma {:induction false} FilterPartition(days: seq<int>)
    ensures |FilterDays(days, Business)| + |FilterDays(days, Weekend)| == |days|
    ensures forall d :: d in days ==> (d in FilterDays(days, Business) <==> d !in FilterDays(days, Weekend))
    decreases |days|
  {
    if days != [] {
      FilterPartition(days[1..]);
    }
  }

  /** Date columns: one per kept day, in day order, each keyed by its own `yyyy-MM-dd` date. */
  lemma DateColumnsFacts(s: int, e: int, filter: DayFilter)
    ensures var kept := FilterDays(EachDay(s, e), filter);
      Increasing(kept) && IsSubsequence(kept, EachDay(s, e))
      && (forall d :: d in kept <==> s <= d <= e && KeepDay(filter, d))
  {
    var days := EachDay(s, e);
    FilterIncreasing(days, filter);
    FilterSubsequence(days, filter);
    forall d | s <= d <= e
      ensures d in days
    {
      assert days[d - s] == d;
    }
  }

  /** With the `all` filter there is one column per day from `s` to `e`, the i-th keyed by day `s + i`. */
  lemma DateColumnsAll(s: int, e: int)
    requires s <= e
    ensures |DateColumnsOf(FilterDays(EachDay(s, e), All))| == e - s + 1
    ensures forall i :: 0 <= i <= e - s ==>
      DateColumnsOf(FilterDays(EachDay(s, e), All))[i].key == DateKey(s + i)
  {
    var days := EachDay(s, e);
    FilterAll(days);
    DateColumnsKeys(days, s);
  }

  lemma DateColumnsKeys(days: seq<int>, s: int)
    requires forall i :: 0 <= i < |days| ==> days[i] == s + i
    ensures forall i :: 0 <= i < |days| ==> DateColumnsOf(days)[i].key == DateKey(s + i)
  {
  }

  /** In the years 0001 to 9999, date column keys are distinct and increase as text. */
  lemma DateKeysInOrder(kept: seq<int>, i: int, j: int)
    requires Increasing(kept) && 0 <= i < j < |kept|
    requires 1 <= Civil(kept[i]).year <= 9999 && 1 <= Civil(kept[j]).year <= 9999
    ensures DateColumnsOf(kept)[i].key != DateColumnsOf(kept)[j].key
    ensures TextBefore(DateColumnsOf(kept)[i].key, DateColumnsOf(kept)[j].key)
  {
    DateKeyOrder(kept[i], kept[j]);
    TextBeforeDiffers(DateKey(kept[i]), DateKey(kept[j]));
  }

  // ---------------------------------------------------------------------
  // Week columns

  /** date-fns `weekStartsOn`: Sunday for US numbering, Monday for ISO. */
  function WeekStartsOn(t: WeekNumberType): (w: int)
    ensures 0 <= w < 7
  {
    if t == Us then 0 else 1
  }

  /** How many of the days `first`, `first + 7`, ... are at most `endDate`. */
  function WeekCount(first: int, endDate: int): nat {
    if first > endDate then 0 else (endDate - first) / 7 + 1
  }

  /** Week buckets: the i-th starts `7 * i` days after `first` and ends six days later, or at `endDate`. */
  function WeekGrid(first: int, endDate: int): seq<Bucket> {
    seq(WeekCount(first, endDate), i => Bucket(first + 7 * i, Min(first + 7 * i + 6, endDate)))
  }

  lemma WeekCountStep(first: int, endDate: int, k: nat)
    ensures first + 7 * k <= endDate ==> k < WeekCount(first, endDate)
    ensures first + 7 * k > endDate && k <= WeekCount(first, endDate) ==> k == WeekCount(first, endDate)
  {
  }

  /**
   * The week loop: from the week start on or before `startDate`, push one
   * bucket per week, its end clipped to `endDate`, while the week start is
   * not after `endDate`.
   */
  method WeekBuckets(startDate: int, endDate: int, weekStartsOn: int) returns (weeks: seq<Bucket>)
    requires 0 <= weekStartsOn < 7
    ensures weeks == WeekGrid(StartOfWeek(startDate, weekStartsOn), endDate)
  {
    var first := StartOfWeek(startDate, weekStartsOn);
    var current := first;
    weeks := [];
    while current <= endDate
      invariant current == first + 7 * |weeks|
      invariant Weekday(current) == weekStartsOn
      invariant |weeks| <= WeekCount(first, endDate)
      invariant forall i :: 0 <= i < |weeks| ==> weeks[i] == Bucket(first + 7 * i, Min(first + 7 * i + 6, endDate))
      decreases endDate - current
    {
      WeekCountStep(first, endDate, |weeks|);
      var weekEnd := EndOfWeek(current, weekStartsOn);
      StartOfWeekUnique(current, weekStartsOn, current);
      weeks := weeks + [Bucket(current, Min(weekEnd, endDate))];
      WeekdayShift(current, 1);
      current := current + 7;
    }
    WeekCountStep(first, endDate, |weeks|);
  }

  /**
   * Week buckets are consecutive weeks: each starts 7 days after the one
   * before, starts and ends within `endDate`, and only the last can be
   * clipped; the loop stops at the first week start after `endDate`.
   */
  lemma WeekGridShape(first: int, endDate: int)
    ensures var g := WeekGrid(first, endDate);
      (first <= endDate <==> |g| > 0)
      && (|g| > 0 ==> g[0].start == first && g[|g| - 1].start + 7 > endDate)
      && (forall i :: 0 <= i < |g| ==> g[i].start <= g[i].end <= endDate && g[i].end <= g[i].start + 6)
      && (forall i :: 0 <= i < |g| - 1 ==> g[i].end == g[i].start + 6 && g[i + 1].start == g[i].start + 7)
  {
  }

  /** Every day from the first week start to `endDate` lies in exactly one week bucket. */
  lemma WeekGridCovers(first: int, endDate: int, d: int)
    requires first <= d <= endDate
    ensures var g := WeekGrid(first, endDate); var i := (d - first) / 7;
      0 <= i < |g| && g[i].start <= d <= g[i].end
      && forall j :: 0 <= j < |g| && j != i ==> !(g[j].start <= d <= g[j].end)
  {
  }

  /** The first week bucket starts on the week start on or before `startDate`, less than a week before it. */
  lemma WeekGridFirst(startDate: int, endDate: int, t: WeekNumberType)
    requires startDate <= endDate
    ensures var g := WeekGrid(StartOfWeek(startDate, WeekStartsOn(t)), endDate);
      |g| > 0 && startDate - 7 < g[0].start <= startDate && g[0].start <= startDate <= g[0].end
      && Weekday(g[0].start) == WeekStartsOn(t)
  {
  }

  function DayTagOf(d: int): DayTag {
    DayTag(Weekday(d), Civil(d).day)
  }

  /** The seven day segments `new Date(y, m, d + i)` of the week starting `start`. */
  function WeekDays(start: int): seq<DayTag> {
    DayTagsFrom(Civil(start))
  }

  function DayTagsFrom(t: Ymd): (tags: seq<DayTag>)
    ensures |tags| == 7
  {
    seq(7, i requires 0 <= i < 7 => DayTagOf(MakeDay(t.year, t.month, t.day + i)))
  }

  /** The number in a week column's `Week n` label. */
  function WeekNumberOf(start: int, t: WeekNumberType): int {
    if t == Iso then IsoWeekNumber(start) else UsWeekNumber(start)
  }

  function WeekColumnOf(b: Bucket, t: WeekNumberType): Column {
    WeekColumn(WeekNumberOf(b.start, t), DateKey(b.start) + "_" + DateKey(b.end), WeekDays(b.start), b)
  }

  function WeekColumnsOf(g: seq<Bucket>, t: WeekNumberType): (cols: seq<Column>)
    ensures |cols| == |g|
  {
    seq(|g|, i requires 0 <= i < |g| => WeekColumnOf(g[i], t))
  }

  lemma MakeDayForward(t: Ymd, k: int)
    requires ValidYmd(t)
    ensures MakeDay(t.year, t.month, t.day + k) == DayOf(t.year, t.month, t.day) + k
  {
    MakeDayDef(t.year, t.month, t.day + k);
  }

  lemma DayTagsAt(t: Ymd, start: int, i: int)
    requires ValidYmd(t) && DayOf(t.year, t.month, t.day) == start && 0 <= i < 7
    ensures DayTagsFrom(t)[i] == DayTagOf(start + i)
  {
    var d := MakeDay(t.year, t.month, t.day + i);
    assert DayTagsFrom(t)[i] == DayTagOf(d);
    MakeDayForward(t, i);
  }

  lemma WeekDayAt(start: int, i: int)
    requires 0 <= i < 7
    ensures WeekDays(start)[i] == DayTagOf(start + i)
  {
    DayTagsAt(Civil(start), start, i);
  }

  /** A week column's segments are the seven unclipped days from its start, in order. */
  lemma WeekDaysConsecutive(start: int)
    ensures |WeekDays(start)| == 7
    ensures forall i :: 0 <= i < 7 ==> WeekDays(start)[i] == DayTagOf(start + i)
  {
    forall i | 0 <= i < 7
      ensures WeekDays(start)[i] == DayTagOf(start + i)
    {
      WeekDayAt(start, i);
    }
  }

  /** A week column's number is 1 to 53 (ISO) or 1 to 54 (US). */
  lemma WeekNumberBounds(startDate: int, endDate: int, t: WeekNumberType, i: int)
    requires 0 <= i < |WeekGrid(StartOfWeek(startDate, WeekStartsOn(t)), endDate)|
    ensures var b := WeekGrid(StartOfWeek(startDate, WeekStartsOn(t)), endDate)[i];
      1 <= WeekNumberOf(b.start, t) <= if t == Iso then 53 else 54
  {
    var first := StartOfWeek(startDate, WeekStartsOn(t));
    var start := first + 7 * i;
    assert WeekGrid(first, endDate)[i].start == start;
    WeekdayShift(first, i);
    if t == Iso {
      IsoWeekNumberRange(start);
    } else {
      UsWeekNumberRange(start);
    }
  }

  lemma KeyPrefix(a: string, b: string, c: string, d: string)
    requires |a| == 10 && |c| == 10 && a + "_" + b == c + "_" + d
    ensures a == c
  {
    assert a == (a + "_" + b)[..10];
    assert c == (c + "_" + d)[..10];
  }

  /** In the years 0001 to 9999, week columns have distinct keys. */
  lemma WeekKeysDistinct(g: seq<Bucket>, t: WeekNumberType, i: int, j: int)
    requires 0 <= i < j < |g| && g[i].start < g[j].start
    requires 1 <= Civil(g[i].start).year <= 9999 && 1 <= Civil(g[j].start).year <= 9999
    ensures WeekColumnsOf(g, t)[i].key != WeekColumnsOf(g, t)[j].key
  {
    var a, c := g[i], g[j];
    if DateKey(a.start) + "_" + DateKey(a.end) == DateKey(c.start) + "_" + DateKey(c.end) {
      DateKeyLength(a.start);
      DateKeyLength(c.start);
      KeyPrefix(DateKey(a.start), DateKey(a.end), DateKey(c.start), DateKey(c.end));
      DateKeyInjective(a.start, c.start);
    }
  }

  /** In the years 0001 to 9999, a week column with a later start has the later key as text. */
  lemma WeekKeysInOrder(g: seq<Bucket>, t: WeekNumberType, i: int, j: int)
    requires 0 <= i < j < |g| && g[i].start < g[j].start
    requires 1 <= Civil(g[i].start).year <= 9999 && 1 <= Civil(g[j].start).year <= 9999
    requires 1 <= Civil(g[i].end).year <= 9999 && 1 <= Civil(g[j].end).year <= 9999
    ensures TextBefore(WeekColumnsOf(g, t)[i].key, WeekColumnsOf(g, t)[j].key)
  {
    var a, c := g[i], g[j];
    DateKeyOrder(a.start, c.start);
    DateKeyLength(a.end);
    DateKeyLength(c.end);
    assert DateKey(a.start) + "_" + DateKey(a.end) == DateKey(a.start) + ("_" + DateKey(a.end));
    assert DateKey(c.start) + "_" + DateKey(c.end) == DateKey(c.start) + ("_" + DateKey(c.end));
    TextBeforeAppend(DateKey(a.start), DateKey(c.start), "_" + DateKey(a.end), "_" + DateKey(c.end));
  }

  // ---------------------------------------------------------------------
  // Month columns

  /** How many of the months `k0`, `k0 + 1`, ... start on or before `endDate`. */
  function MonthCount(k0: int, endDate: int): nat {
    if MonthIndex(endDate) < k0 then 0 else MonthIndex(endDate) - k0 + 1
  }

  /** Month buckets: the i-th is month `k0 + i`, its end clipped to `endDate`. */
  function MonthGrid(k0: int, endDate: int): seq<Bucket> {
    seq(MonthCount(k0, endDate), i => Bucket(MonthStart(k0 + i), Min(MonthStart(k0 + i + 1) - 1, endDate)))
  }

  /** The first of a month is on or before `endDate` exactly when the month is not after `endDate`'s month. */
  lemma MonthGuard(k: int, endDate: int)
    ensures MonthStart(k) <= endDate <==> k <= MonthIndex(endDate)
  {
    var m := MonthIndex(endDate);
    if k <= m {
      MonthStartMonotone(k, m);
    } else {
      MonthStartMonotone(m + 1, k);
    }
  }

  /** `new Date(y, m + 1, 0)` and `new Date(y, m + 1, 1)` from the first of a month: its last day and the next first. */
  lemma NextMonth(k: int)
    ensures var c := Civil(MonthStart(k));
      MakeDay(c.year, c.month + 1, 0) == MonthStart(k + 1) - 1
      && MakeDay(c.year, c.month + 1, 1) == MonthStart(k + 1)
  {
    CivilMonthStart(k);
    MakeDayAsMonthStart(k / 12, k % 12 + 1, 0);
    MakeDayAsMonthStart(k / 12, k % 12 + 1, 1);
    assert 12 * (k / 12) + (k % 12 + 1) == k + 1;
  }

  /** `new Date(y, m, 1)` from a day's year and month: the first of its month. */
  lemma FirstOfMonth(n: int)
    ensures var c := Civil(n); MakeDay(c.year, c.month, 1) == MonthStart(MonthIndex(n))
  {
    var c := Civil(n);
    MakeDayAsMonthStart(c.year, c.month, 1);
    MonthIndexOfCivil(n);
  }

  lemma MonthCountStep(k0: int, endDate: int, k: nat)
    ensures MonthStart(k0 + k) <= endDate ==> k < MonthCount(k0, endDate)
    ensures MonthStart(k0 + k) > endDate && k <= MonthCount(k0, endDate) ==> k == MonthCount(k0, endDate)
  {
    MonthGuard(k0 + k, endDate);
  }

  /**
   * The month loop: from the first of `startDate`'s month, push one bucket
   * per month, its end the month's last day clipped to `endDate`, while the
   * month's first day is not after `endDate`.
   */
  method MonthBuckets(startDate: int, endDate: int) returns (months: seq<Bucket>)
    ensures months == MonthGrid(MonthIndex(startDate), endDate)
  {
    var k0 := MonthIndex(startDate);
    var s := Civil(startDate);
    FirstOfMonth(startDate);
    var current := MakeDay(s.year, s.month, 1);
    months := [];
    while current <= endDate
      invariant current == MonthStart(k0 + |months|)
      invariant |months| <= MonthCount(k0, endDate)
      invariant forall i :: 0 <= i < |months| ==>
        months[i] == Bucket(MonthStart(k0 + i), Min(MonthStart(k0 + i + 1) - 1, endDate))
      decreases endDate - current
    {
      MonthCountStep(k0, endDate, |months|);
      var k := k0 + |months|;
      var c := Civil(current);
      NextMonth(k);
      MonthStartMonotone(k, k + 1);
      var monthEnd := MakeDay(c.year, c.month + 1, 0);
      months := months + [Bucket(current, Min(monthEnd, endDate))];
      current := MakeDay(c.year, c.month + 1, 1);
    }
    MonthCountStep(k0, endDate, |months|);
  }

  /**
   * The month buckets start with the month `k0` when that month starts by
   * `endDate`, and there are none otherwise; the loop stops at the first
   * month that starts after `endDate`.
   */
  lemma MonthGridEnds(k0: int, endDate: int)
    ensures var g := MonthGrid(k0, endDate);
      (MonthStart(k0) <= endDate <==> |g| > 0)
      && (|g| > 0 ==> g[0].start == MonthStart(k0) && MonthStart(k0 + |g|) > endDate)
  {
    var g := MonthGrid(k0, endDate);
    MonthGuard(k0, endDate);
    MonthGuard(k0 + |g|, endDate);
    if |g| > 0 {
      MonthGridAt(k0, endDate, 0);
    }
  }

  /**
   * Each month bucket starts on the first of its month and ends within that
   * month and by `endDate`; each starts the day after the one before ends,
   * so only the last can be clipped.
   */
  lemma MonthGridBuckets(k0: int, endDate: int)
    ensures var g := MonthGrid(k0, endDate);
      (forall i :: 0 <= i < |g| ==>
        g[i].start == MonthStart(k0 + i) && Civil(g[i].start).day == 1
        && g[i].start <= g[i].end <= endDate && MonthIndex(g[i].end) == k0 + i)
      && (forall i :: 0 <= i < |g| - 1 ==> g[i + 1].start == g[i].end + 1)
  {
    var g := MonthGrid(k0, endDate);
    forall i | 0 <= i < |g|
      ensures g[i].start == MonthStart(k0 + i) && Civil(g[i].start).day == 1
      ensures g[i].start <= g[i].end <= endDate && MonthIndex(g[i].end) == k0 + i
    {
      MonthBucketFacts(k0, endDate, i);
    }
    forall i | 0 <= i < |g| - 1
      ensures g[i + 1].start == g[i].end + 1
    {
      MonthAdjacent(k0, endDate, i);
    }
  }

  lemma MonthAdjacent(k0: int, endDate: int, i: int)
    requires 0 <= i < |MonthGrid(k0, endDate)| - 1
    ensures MonthGrid(k0, endDate)[i + 1].start == MonthGrid(k0, endDate)[i].end + 1
  {
    MonthGridAt(k0, endDate, i);
    MonthGridAt(k0, endDate, i + 1);
    MonthGuard(k0 + i + 1, endDate);
  }

  lemma MonthGridAt(k0: int, endDate: int, i: int)
    requires 0 <= i < |MonthGrid(k0, endDate)|
    ensures k0 + i <= MonthIndex(endDate)
    ensures MonthGrid(k0, endDate)[i] == Bucket(MonthStart(k0 + i), Min(MonthStart(k0 + i + 1) - 1, endDate))
  {
  }

  lemma MonthBucketFacts(k0: int, endDate: int, i: int)
    requires 0 <= i < |MonthGrid(k0, endDate)|
    ensures var b := MonthGrid(k0, endDate)[i];
      b.start == MonthStart(k0 + i) && b.start <= b.end <= endDate
      && MonthIndex(b.end) == k0 + i && Civil(b.start).day == 1
  {
    MonthGridAt(k0, endDate, i);
    MonthEnd(k0 + i, endDate);
    CivilMonthStart(k0 + i);
  }

  /** The clipped end of the bucket of month `k` stays inside month `k`. */
  lemma MonthEnd(k: int, endDate: int)
    requires k <= MonthIndex(endDate)
    ensures var last := Min(MonthStart(k + 1) - 1, endDate);
      MonthStart(k) <= last <= endDate && MonthIndex(last) == k
  {
    MonthGuard(k, endDate);
    MonthStartMonotone(k, k + 1);
    var last := Min(MonthStart(k + 1) - 1, endDate);
    assert MonthStart(k) <= last < MonthStart(k + 1);
    MonthIndexUnique(k, last);
  }

  /** Every day from the first month start to `endDate` lies in the bucket of its own month. */
  lemma MonthGridCovers(k0: int, endDate: int, d: int)
    requires MonthStart(k0) <= d <= endDate
    ensures var g := MonthGrid(k0, endDate); var i := MonthIndex(d) - k0;
      0 <= i < |g| && g[i].start <= d <= g[i].end
  {
    var k := MonthIndex(d);
    if k < k0 {
      MonthStartBefore(k, k0);
    }
    MonthGuard(k, endDate);
    MonthGridAt(k0, endDate, k - k0);
  }

  /** `startDate` lies in the first month bucket, when the range is not inverted. */
  lemma MonthGridFirst(startDate: int, endDate: int)
    requires startDate <= endDate
    ensures var g := MonthGrid(MonthIndex(startDate), endDate);
      |g| > 0 && g[0].start <= startDate <= g[0].end
  {
    MonthGridCovers(MonthIndex(startDate), endDate, startDate);
  }

  /** label `MMMM`, sublabel: the end's year when it differs from the start's, else the start's; key `yyyy-MM`. */
  function MonthColumnOf(b: Bucket): Column {
    var sublabel := if Civil(b.start).year != Civil(b.end).year then YearKey(b.end) else YearKey(b.start);
    MonthColumn(Civil(b.start).month, sublabel, MonthKey(b.start))
  }

  function MonthColumnsOf(g: seq<Bucket>): (cols: seq<Column>)
    ensures |cols| == |g|
  {
    seq(|g|, i requires 0 <= i < |g| => MonthColumnOf(g[i]))
  }

  /** `getFullYear` is the absolute month divided by twelve. */
  lemma YearOfMonth(n: int)
    ensures Civil(n).year == MonthIndex(n) / 12
  {
    MonthIndexOfCivil(n);
  }

  /**
   * A month column's sublabel is always its start year and its label its
   * start month: the clipped end never leaves the month, so the other
   * branch of the sublabel choice is never taken.
   */
  lemma MonthSublabel(k0: int, endDate: int, i: int)
    requires 0 <= i < |MonthGrid(k0, endDate)|
    ensures var b := MonthGrid(k0, endDate)[i];
      Civil(b.start).year == Civil(b.end).year
      && MonthColumnsOf(MonthGrid(k0, endDate))[i] == MonthColumn(Civil(b.start).month, YearKey(b.start), MonthKey(b.start))
  {
    var b := MonthGrid(k0, endDate)[i];
    MonthBucketFacts(k0, endDate, i);
    MonthIndexUnique(k0 + i, b.start);
    YearOfMonth(b.start);
    YearOfMonth(b.end);
  }

  /** In the years 0001 to 9999, month column keys are distinct and increase as text. */
  lemma MonthKeysInOrder(k0: int, endDate: int, i: int, j: int)
    requires var g := MonthGrid(k0, endDate);
      0 <= i < j < |g| && 1 <= Civil(g[i].start).year <= 9999 && 1 <= Civil(g[j].start).year <= 9999
    ensures var cols := MonthColumnsOf(MonthGrid(k0, endDate)); cols[i].key != cols[j].key
    ensures var cols := MonthColumnsOf(MonthGrid(k0, endDate)); TextBefore(cols[i].key, cols[j].key)
  {
    var g := MonthGrid(k0, endDate);
    MonthGridAt(k0, endDate, i);
    MonthGridAt(k0, endDate, j);
    MonthColumnAt(g, i);
    MonthColumnAt(g, j);
    MonthStartKeys(k0 + i, k0 + j);
    MonthStartOrder(k0 + i, k0 + j);
  }

  /** A later month starts on a day with the later `yyyy-MM` key, in the years 0001 to 9999. */
  lemma MonthStartOrder(p: int, q: int)
    requires p < q
    requires 1 <= Civil(MonthStart(p)).year <= 9999 && 1 <= Civil(MonthStart(q)).year <= 9999
    ensures TextBefore(MonthKey(MonthStart(p)), MonthKey(MonthStart(q)))
  {
    CivilMonthStart(p);
    CivilMonthStart(q);
    MonthIndexOfCivil(MonthStart(p));
    MonthIndexOfCivil(MonthStart(q));
    MonthKeyOrder(MonthStart(p), MonthStart(q));
  }

  /** Two different months, in the years 0001 to 9999, start on days with different `yyyy-MM` keys. */
  lemma MonthStartKeys(p: int, q: int)
    requires p != q
    requires 1 <= Civil(MonthStart(p)).year <= 9999 && 1 <= Civil(MonthStart(q)).year <= 9999
    ensures MonthKey(MonthStart(p)) != MonthKey(MonthStart(q))
  {
    if MonthKey(MonthStart(p)) == MonthKey(MonthStart(q)) {
      MonthKeyInjective(MonthStart(p), MonthStart(q));
      CivilMonthStart(p);
      CivilMonthStart(q);
      SameMonth(p, q);
    }
  }

  lemma MonthColumnAt(g: seq<Bucket>, i: int)
    requires 0 <= i < |g|
    ensures MonthColumnsOf(g)[i] == MonthColumnOf(g[i])
  {
  }

  lemma SameMonth(a: int, b: int)
    requires a / 12 == b / 12 && a % 12 == b % 12
    ensures a == b
  {
  }

  // ---------------------------------------------------------------------
  // Year columns

  /** How many of the years `y0`, `y0 + 1`, ... start on or before `endDate`. */
  function YearCount(y0: int, endDate: int): nat {
    if Civil(endDate).year < y0 then 0 else Civil(endDate).year - y0 + 1
  }

  /** Year buckets: the i-th is year `y0 + i`, its end clipped to `endDate`. */
  function YearGrid(y0: int, endDate: int): seq<Bucket> {
    seq(YearCount(y0, endDate), i => Bucket(YearStart(y0 + i), Min(YearStart(y0 + i + 1) - 1, endDate)))
  }

  /** 1 January of year `y` is on or before `endDate` exactly when `y` is not after `endDate`'s year. */
  lemma YearGuard(y: int, endDate: int)
    ensures YearStart(y) <= endDate <==> y <= Civil(endDate).year
  {
    var z := Civil(endDate).year;
    YearOfDay(endDate);
    if y <= z {
      YearStartMonotone(y, z);
    } else {
      YearStartMonotone(z + 1, y);
    }
  }

  /** What one turn of the year loop computes from 1 January of year `y`. */
  lemma NextYear(y: int)
    ensures Civil(YearStart(y)).year == y
    ensures MakeDay(y, 11, 31) == YearStart(y + 1) - 1
    ensures MakeDay(y + 1, 0, 1) == YearStart(y + 1) > YearStart(y)
  {
    CivilYearStart(y);
    DecemberThirtyFirst(y);
    JanuaryFirst(y + 1);
    YearLength(y);
  }

  /** `new Date(y, 11, 31)`: the last day of year `y`. */
  lemma DecemberThirtyFirst(y: int)
    ensures MakeDay(y, 11, 31) == YearStart(y + 1) - 1
  {
    MakeDayDef(y, 11, 31);
    assert DaysBeforeMonth(y, 11) == if IsLeapYear(y) then 335 else 334;
    YearLength(y);
  }

  lemma YearCountStep(y0: int, endDate: int, k: nat)
    ensures YearStart(y0 + k) <= endDate ==> k < YearCount(y0, endDate)
    ensures YearStart(y0 + k) > endDate && k <= YearCount(y0, endDate) ==> k == YearCount(y0, endDate)
  {
    YearGuard(y0 + k, endDate);
  }

  /**
   * The year loop: from 1 January of `startDate`'s year, push one bucket per
   * year, its end 31 December clipped to `endDate`, while the year's first
   * day is not after `endDate`.
   */
  method YearBuckets(startDate: int, endDate: int) returns (years: seq<Bucket>)
    ensures years == YearGrid(Civil(startDate).year, endDate)
  {
    var y0 := Civil(startDate).year;
    JanuaryFirst(y0);
    var current := MakeDay(y0, 0, 1);
    years := [];
    while current <= endDate
      invariant current == YearStart(y0 + |years|)
      invariant |years| <= YearCount(y0, endDate)
      invariant forall i :: 0 <= i < |years| ==>
        years[i] == Bucket(YearStart(y0 + i), Min(YearStart(y0 + i + 1) - 1, endDate))
      decreases endDate - current
    {
      YearCountStep(y0, endDate, |years|);
      ghost var y := y0 + |years|;
      NextYear(y);
      var c := Civil(current);
      var yearEnd := MakeDay(c.year, 11, 31);
      assert Bucket(current, Min(yearEnd, endDate)) == Bucket(YearStart(y), Min(YearStart(y + 1) - 1, endDate));
      years := years + [Bucket(current, Min(yearEnd, endDate))];
      current := MakeDay(c.year + 1, 0, 1);
    }
    YearCountStep(y0, endDate, |years|);
    YearGridOf(y0, endDate, years);
  }

  /** A list of the right length whose every bucket is the grid's is the grid. */
  lemma YearGridOf(y0: int, endDate: int, years: seq<Bucket>)
    requires |years| == YearCount(y0, endDate)
    requires forall i :: 0 <= i < |years| ==>
      years[i] == Bucket(YearStart(y0 + i), Min(YearStart(y0 + i + 1) - 1, endDate))
    ensures years == YearGrid(y0, endDate)
  {
  }

  /**
   * The year buckets start with year `y0` when that year starts by `endDate`,
   * and there are none otherwise; the loop stops at the first year that
   * starts after `endDate`.
   */
  lemma YearGridEnds(y0: int, endDate: int)
    ensures var g := YearGrid(y0, endDate);
      (YearStart(y0) <= endDate <==> |g| > 0)
      && (|g| > 0 ==> g[0].start == YearStart(y0) && YearStart(y0 + |g|) > endDate)
  {
    var g := YearGrid(y0, endDate);
    YearGuard(y0, endDate);
    YearGuard(y0 + |g|, endDate);
    if |g| > 0 {
      YearGridAt(y0, endDate, 0);
    }
  }

  /**
   * Each year bucket starts on 1 January of its year and ends within that
   * year and by `endDate`; each starts the day after the one before ends.
   */
  lemma YearGridBuckets(y0: int, endDate: int)
    ensures var g := YearGrid(y0, endDate);
      (forall i :: 0 <= i < |g| ==>
        Civil(g[i].start) == Ymd(y0 + i, 0, 1)
        && g[i].start <= g[i].end <= endDate && Civil(g[i].end).year == y0 + i)
      && (forall i :: 0 <= i < |g| - 1 ==> g[i + 1].start == g[i].end + 1)
  {
    var g := YearGrid(y0, endDate);
    forall i | 0 <= i < |g|
      ensures Civil(g[i].start) == Ymd(y0 + i, 0, 1)
      ensures g[i].start <= g[i].end <= endDate && Civil(g[i].end).year == y0 + i
    {
      YearBucketFacts(y0, endDate, i);
    }
    forall i | 0 <= i < |g| - 1
      ensures g[i + 1].start == g[i].end + 1
    {
      YearAdjacent(y0, endDate, i);
    }
  }

  lemma YearAdjacent(y0: int, endDate: int, i: int)
    requires 0 <= i < |YearGrid(y0, endDate)| - 1
    ensures YearGrid(y0, endDate)[i + 1].start == YearGrid(y0, endDate)[i].end + 1
  {
    YearGridAt(y0, endDate, i);
    YearGridAt(y0, endDate, i + 1);
    YearGuard(y0 + i + 1, endDate);
  }

  lemma YearGridAt(y0: int, endDate: int, i: int)
    requires 0 <= i < |YearGrid(y0, endDate)|
    ensures y0 + i <= Civil(endDate).year
    ensures YearGrid(y0, endDate)[i] == Bucket(YearStart(y0 + i), Min(YearStart(y0 + i + 1) - 1, endDate))
  {
  }

  lemma YearBucketFacts(y0: int, endDate: int, i: int)
    requires 0 <= i < |YearGrid(y0, endDate)|
    ensures var b := YearGrid(y0, endDate)[i];
      b.start == YearStart(y0 + i) && Civil(b.start) == Ymd(y0 + i, 0, 1)
      && b.start <= b.end <= endDate && Civil(b.end).year == y0 + i
  {
    YearGridAt(y0, endDate, i);
    YearEnd(y0 + i, endDate);
    CivilYearStart(y0 + i);
  }

  /** The clipped end of the bucket of year `y` stays inside year `y`. */
  lemma YearEnd(y: int, endDate: int)
    requires y <= Civil(endDate).year
    ensures var last := Min(YearStart(y + 1) - 1, endDate);
      YearStart(y) <= last <= endDate && Civil(last).year == y
  {
    YearGuard(y, endDate);
    YearLength(y);
    var last := Min(YearStart(y + 1) - 1, endDate);
    assert YearStart(y) <= last < YearStart(y + 1);
    YearOfCivil(y, last);
  }

  /** Every day from the first year start to `endDate` lies in the bucket of its own year. */
  lemma YearGridCovers(y0: int, endDate: int, d: int)
    requires YearStart(y0) <= d <= endDate
    ensures var g := YearGrid(y0, endDate); var i := Civil(d).year - y0;
      0 <= i < |g| && g[i].start <= d <= g[i].end
  {
    var y := Civil(d).year;
    YearOfDay(d);
    if y < y0 {
      YearStartMonotone(y + 1, y0);
    }
    YearGuard(y, endDate);
    YearGridAt(y0, endDate, y - y0);
  }

  /** `startDate` lies in the first year bucket, when the range is not inverted. */
  lemma YearGridFirst(startDate: int, endDate: int)
    requires startDate <= endDate
    ensures var g := YearGrid(Civil(startDate).year, endDate);
      |g| > 0 && g[0].start <= startDate <= g[0].end
  {
    YearOfDay(startDate);
    YearGridCovers(Civil(startDate).year, endDate, startDate);
  }

  /** label and key `yyyy`, both from the bucket's start. */
  function YearColumnOf(b: Bucket): Column {
    YearColumn(YearKey(b.start), YearKey(b.start))
  }

  function YearColumnsOf(g: seq<Bucket>): (cols: seq<Column>)
    ensures |cols| == |g|
  {
    seq(|g|, i requires 0 <= i < |g| => YearColumnOf(g[i]))
  }

  lemma YearColumnAt(g: seq<Bucket>, i: int)
    requires 0 <= i < |g|
    ensures YearColumnsOf(g)[i] == YearColumnOf(g[i])
  {
  }

  /** Year columns of the years 0001 to 9999 have pairwise different keys, increasing as text. */
  lemma YearKeysInOrder(y0: int, endDate: int, i: int, j: int)
    requires 0 <= i < j < |YearGrid(y0, endDate)| && 1 <= y0 && y0 + j <= 9999
    ensures var cols := YearColumnsOf(YearGrid(y0, endDate)); cols[i].key != cols[j].key
    ensures var cols := YearColumnsOf(YearGrid(y0, endDate)); TextBefore(cols[i].key, cols[j].key)
  {
    var g := YearGrid(y0, endDate);
    YearBucketFacts(y0, endDate, i);
    YearBucketFacts(y0, endDate, j);
    YearColumnAt(g, i);
    YearColumnAt(g, j);
    YearKeyOrder(g[i].start, g[j].start);
    TextBeforeDiffers(YearKey(g[i].start), YearKey(g[j].start));
  }

  // ---------------------------------------------------------------------
  // The component: validation, then one branch per column type

  /** The columns of a range that passed validation, for each column type. */
  function ColumnsFor(startDate: int, endDate: int, filter: DayFilter, columnType: ColumnType, t: WeekNumberType): seq<Column> {
    match columnType
    case Date => DateColumnsOf(FilterDays(EachDay(startDate, endDate), filter))
    case Week => WeekColumnsOf(WeekGrid(StartOfWeek(startDate, WeekStartsOn(t)), endDate), t)
    case Month => MonthColumnsOf(MonthGrid(MonthIndex(startDate), endDate))
    case Year => YearColumnsOf(YearGrid(Civil(startDate).year, endDate))
  }

  /**
   * `DateRangeColumns`: both bounds are parsed; a bound that does not parse,
   * or a start after the end, gives the invalid-range message and no columns.
   */
  function RangeColumns(start: string, end: string, filter: DayFilter, columnType: ColumnType, t: WeekNumberType): (out: Outcome)
    ensures out.InvalidRange? <==>
      ParseIsoDate(start).None? || ParseIsoDate(end).None? || ParseIsoDate(start).value > ParseIsoDate(end).value
  {
    match (ParseIsoDate(start), ParseIsoDate(end))
    case (Some(s), Some(e)) => if s > e then InvalidRange else Columns(ColumnsFor(s, e, filter, columnType, t))
    case _ => InvalidRange
  }

  /** The component's column computation: validation, then the branch of its column type. */
  method DateRangeColumns(start: string, end: string, filter: DayFilter, columnType: ColumnType, t: WeekNumberType)
    returns (out: Outcome)
    ensures out == RangeColumns(start, end, filter, columnType, t)
  {
    var startDate, endDate := ParseIsoDate(start), ParseIsoDate(end);
    if startDate.None? || endDate.None? || startDate.value > endDate.value {
      return InvalidRange;
    }
    var s, e := startDate.value, endDate.value;
    match columnType
    case Date =>
      out := Columns(DateColumnsOf(FilterDays(EachDay(s, e), filter)));
    case Week =>
      var weeks := WeekBuckets(s, e, WeekStartsOn(t));
      out := Columns(WeekColumnsOf(weeks, t));
    case Month =>
      var months := MonthBuckets(s, e);
      out := Columns(MonthColumnsOf(months));
    case Year =>
      var years := YearBuckets(s, e);
      out := Columns(YearColumnsOf(years));
  }

  /** A valid range cut into week, month or year columns gives at least one column; date columns may all be filtered away. */
  lemma ValidRangeColumns(s: int, e: int, filter: DayFilter, columnType: ColumnType, t: WeekNumberType)
    requires s <= e
    ensures columnType != Date ==> |ColumnsFor(s, e, filter, columnType, t)| >= 1
    ensures columnType == Date && filter == All ==> |ColumnsFor(s, e, filter, columnType, t)| == e - s + 1
  {
    if columnType == Week {
      WeekGridFirst(s, e, t);
    } else if columnType == Month {
      MonthGridFirst(s, e);
    } else if columnType == Year {
      YearGridFirst(s, e);
    } else if filter == All {
      DateColumnsAll(s, e);
    }
  }

  /** 2024-03-10 to 2024-03-01 is an inverted range: the invalid-range message. */
  lemma InvertedRangeExample(filter: DayFilter, columnType: ColumnType, t: WeekNumberType)
    ensures RangeColumns("2024-03-10", "2024-03-01", filter, columnType, t) == InvalidRange
  {
    var s := DayOf(2024, 2, 1);
    ParseMarchFirst2024(s);
    ParseMarchTenth2024(s);
  }

  lemma ParseMarchFirst2024(s: int)
    requires s == DayOf(2024, 2, 1)
    ensures ParseIsoDate("2024-03-01") == Some(s)
  {
    ParseDigits("2024-03-01");
  }

  lemma ParseMarchTenth2024(s: int)
    requires s == DayOf(2024, 2, 1)
    ensures ParseIsoDate("2024-03-10") == Some(s + 9)
  {
    ParseDigits("2024-03-10");
  }

  /** 2024-01-01 to 2024-01-07 in ISO week columns: the single column `Week 1`, spanning the whole week. */
  lemma WeekRangeExample(s: int)
    requires s == DayOf(2024, 0, 1)
    ensures RangeColumns("2024-01-01", "2024-01-07", All, Week, Iso)
      == Columns([WeekColumn(1, "2024-01-01_2024-01-07", WeekDays(s), Bucket(s, s + 6))])
  {
    WeekRangeExampleParsed(s);
    WeekRangeExampleColumns(s);
  }

  lemma WeekRangeExampleParsed(s: int)
    requires s == DayOf(2024, 0, 1)
    ensures RangeColumns("2024-01-01", "2024-01-07", All, Week, Iso) == Columns(ColumnsFor(s, s + 6, All, Week, Iso))
  {
    ParseNewYear2024(s);
    ParseJanuarySeventh2024(s);
    ParsedRange("2024-01-01", "2024-01-07", s, s + 6, All, Week, Iso);
  }

  lemma ParseNewYear2024(s: int)
    requires s == DayOf(2024, 0, 1)
    ensures ParseIsoDate("2024-01-01") == Some(s)
  {
    ParseDigits("2024-01-01");
  }

  lemma ParseJanuarySeventh2024(s: int)
    requires s == DayOf(2024, 0, 1)
    ensures ParseIsoDate("2024-01-07") == Some(s + 6)
  {
    ParseDigits("2024-01-07");
    JanuarySeventh(s);
  }

  lemma WeekRangeExampleColumns(s: int)
    requires s == DayOf(2024, 0, 1)
    ensures ColumnsFor(s, s + 6, All, Week, Iso)
      == [WeekColumn(1, "2024-01-01_2024-01-07", WeekDays(s), Bucket(s, s + 6))]
  {
    JanuarySeventh(s);
    KeyOfNewYear2024(s);
    KeyOfJanuarySeventh2024(s + 6);
    IsoWeekExample2024(s);
    MondayNewYear2024(s);
    OneIsoWeek(s);
    WeekKeyText();
  }

  /** Bounds that parse to an ordered pair of days give the columns of those days. */
  lemma ParsedRange(start: string, end: string, s: int, e: int, filter: DayFilter, columnType: ColumnType, t: WeekNumberType)
    requires ParseIsoDate(start) == Some(s) && ParseIsoDate(end) == Some(e) && s <= e
    ensures RangeColumns(start, end, filter, columnType, t) == Columns(ColumnsFor(s, e, filter, columnType, t))
  {
  }

  lemma WeekKeyText()
    ensures "2024-01-01" + "_" + "2024-01-07" == "2024-01-01_2024-01-07"
  {
  }

  lemma JanuarySeventh(s: int)
    requires s == DayOf(2024, 0, 1)
    ensures DayOf(2024, 0, 7) == s + 6
  {
  }

  /** 1 January 2024 is a Monday. */
  lemma MondayNewYear2024(s: int)
    requires s == DayOf(2024, 0, 1)
    ensures Weekday(s) == 1
  {
    YearStartClosed(2024);
    assert s == 739251;
  }

  /** A range that is exactly one Monday-to-Sunday week gives one ISO week column, unclipped. */
  lemma OneIsoWeek(s: int)
    requires Weekday(s) == 1
    ensures ColumnsFor(s, s + 6, All, Week, Iso)
      == [WeekColumn(IsoWeekNumber(s), DateKey(s) + "_" + DateKey(s + 6), WeekDays(s), Bucket(s, s + 6))]
  {
    StartOfWeekUnique(s, 1, s);
    var g := WeekGrid(s, s + 6);
    assert |g| == 1 && g[0] == Bucket(s, s + 6);
  }
}
