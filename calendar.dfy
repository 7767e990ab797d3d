/**
 * Proleptic-Gregorian calendar dates as whole day numbers.
 *
 * A date is an `int` counting days from 0000-01-01 (day 0, a Saturday).
 * Years, months and days follow the conventions of JavaScript's `Date`:
 * the month is 0-based (0 = January, as `getMonth` returns it), the day of
 * the month is 1-based (as `getDate`), and the weekday is 0 = Sunday (as
 * `getDay`).  `MakeDay` mirrors `new Date(year, month, day)`, which accepts
 * out-of-range months and days and rolls them over into neighbouring months;
 * it reads every year as written, also the years 0 to 99, which JavaScript's
 * constructor would read as 1900 to 1999.
 *
 * `YearStart`, `MakeDay`, `MonthStart`, `YearOf` and `Civil` are each defined
 * through a helper `…After(…, steps)` that they always call with `steps == 1`
 * and that recurses once before computing.  The detour keeps the division-heavy
 * formula out of sight: Dafny unfolds a function call only one level, so a
 * caller sees the formula only after calling the matching lemma
 * (`YearStartClosed`, `MakeDayDef`, `MonthStartDay`), not in every proof that
 * mentions a date.
 */
module Calendar {

  /** A calendar triple: year, 0-based month, 1-based day of the month. */
  datatype Ymd = Ymd(year: int, month: int, day: int)

  predicate IsLeapYear(y: int) {
    y % 4 == 0 && (y % 100 != 0 || y % 400 == 0)
  }

  function DaysInYear(y: int): int {
    if IsLeapYear(y) then 366 else 365
  }

  function DaysInMonth(y: int, m: int): int
    requires 0 <= m < 12
  {
    if m == 1 then (if IsLeapYear(y) then 29 else 28)
    else if m == 3 || m == 5 || m == 8 || m == 10 then 30
    else 31
  }

  /** Days of year `y` before the first of month `m` (m == 12 gives the whole year). */
  function DaysBeforeMonth(y: int, m: int): int
    requires 0 <= m <= 12
  {
    CommonDaysBeforeMonth(m) + (if m >= 2 && IsLeapYear(y) then 1 else 0)
  }

  /** Days before the first of month `m` in a common (non-leap) year. */
  function CommonDaysBeforeMonth(m: int): int
    requires 0 <= m <= 12
  {
    if m == 0 then 0 else if m == 1 then 31 else if m == 2 then 59
    else if m == 3 then 90 else if m == 4 then 120 else if m == 5 then 151
    else if m == 6 then 181 else if m == 7 then 212 else if m == 8 then 243
    else if m == 9 then 273 else if m == 10 then 304 else if m == 11 then 334
    else 365
  }

  predicate ValidYmd(t: Ymd) {
    0 <= t.month < 12 && 1 <= t.day <= DaysInMonth(t.year, t.month)
  }

  /**
   * Day number of 1 January of year `y`: 365 days a year plus the leap days of the years before it
   * (`YearStartClosed` states the formula). The formula sits one recursive call deep, so the solver
   * expands its divisions only where a proof asks for them.
   */
  function YearStart(y: int): int {
    YearStartAfter(y, 1)
  }

  function YearStartAfter(y: int, steps: nat): int {
    if steps == 0 then 365 * y + (y + 3) / 4 - (y + 99) / 100 + (y + 399) / 400
    else YearStartAfter(y, steps - 1)
  }

  lemma YearStartClosed(y: int)
    ensures YearStart(y) == 365 * y + (y + 3) / 4 - (y + 99) / 100 + (y + 399) / 400
  {
    assert YearStartAfter(y, 1) == YearStartAfter(y, 0);
  }

  /** Day number of a calendar triple whose month is already in 0..11. */
  function DayOf(y: int, m: int, d: int): int
    requires 0 <= m < 12
  {
    YearStart(y) + DaysBeforeMonth(y, m) + d - 1
  }

  /**
   * `new Date(y, m, d)`: the month overflows into the year, the day into later or earlier months
   * (`MakeDayDef` states the formula, which sits one recursive call deep like `YearStart`'s).
   */
  function MakeDay(y: int, m: int, d: int): int {
    MakeDayAfter(y, m, d, 1)
  }

  function MakeDayAfter(y: int, m: int, d: int, steps: nat): int {
    if steps == 0 then DayOf(y + m / 12, m % 12, d) else MakeDayAfter(y, m, d, steps - 1)
  }

  lemma MakeDayDef(y: int, m: int, d: int)
    ensures MakeDay(y, m, d) == DayOf(y + m / 12, m % 12, d)
  {
    assert MakeDayAfter(y, m, d, 1) == MakeDayAfter(y, m, d, 0);
  }

  /**
   * Day number of the first day of absolute month `k` (k = 12 * year + month),
   * one recursive call deep like `YearStart`; `MonthStartDay` states it.
   */
  function MonthStart(k: int): int {
    MonthStartAfter(k, 1)
  }

  function MonthStartAfter(k: int, steps: nat): int {
    if steps == 0 then DayOf(k / 12, k % 12, 1) else MonthStartAfter(k, steps - 1)
  }

  lemma MonthStartDay(k: int)
    ensures MonthStart(k) == DayOf(k / 12, k % 12, 1)
  {
    assert MonthStartAfter(k, 1) == MonthStartAfter(k, 0);
  }

  /** `getDay`: 0 = Sunday .. 6 = Saturday; day 0 (0000-01-01) is a Saturday. */
  function Weekday(n: int): (w: int)
    ensures 0 <= w < 7
  {
    (n + 6) % 7
  }

  /** date-fns `startOfWeek(n, { weekStartsOn })`, on whole days. */
  function StartOfWeek(n: int, weekStartsOn: int): (s: int)
    requires 0 <= weekStartsOn < 7
    ensures s <= n < s + 7 && Weekday(s) == weekStartsOn
  {
    var back := (Weekday(n) - weekStartsOn + 7) % 7;
    WeekdayAdd(n, -back);
    WeekdayBack(Weekday(n), weekStartsOn);
    n - back
  }

  /** date-fns `endOfWeek(n, { weekStartsOn })`, on whole days. */
  function EndOfWeek(n: int, weekStartsOn: int): (e: int)
    requires 0 <= weekStartsOn < 7
    ensures e - 6 <= n <= e && Weekday(e) == (weekStartsOn + 6) % 7
  {
    WeekdayAdd(StartOfWeek(n, weekStartsOn), 6);
    StartOfWeek(n, weekStartsOn) + 6
  }

  /** Moving `k` days moves the weekday `k` places round the week. */
  lemma WeekdayAdd(n: int, k: int)
    ensures Weekday(n + k) == (Weekday(n) + k) % 7
  {
    assert n + 6 == 7 * ((n + 6) / 7) + Weekday(n);
  }

  lemma WeekdayBack(w: int, weekStartsOn: int)
    requires 0 <= w < 7 && 0 <= weekStartsOn < 7
    ensures (w - (w - weekStartsOn + 7) % 7) % 7 == weekStartsOn
  {
  }

  function Min(a: int, b: int): (m: int)
    ensures m <= a && m <= b && (m == a || m == b)
  {
    if a <= b then a else b
  }

  // ---------------------------------------------------------------------
  // Year arithmetic

  lemma QuarterStep(y: int)
    ensures (y + 4) / 4 == (y + 3) / 4 + (if y % 4 == 0 then 1 else 0)
  {
  }

  lemma CenturyStep(y: int)
    ensures (y + 100) / 100 == (y + 99) / 100 + (if y % 100 == 0 then 1 else 0)
  {
  }

  lemma FourCenturyStep(y: int)
    ensures (y + 400) / 400 == (y + 399) / 400 + (if y % 400 == 0 then 1 else 0)
  {
  }

  /** Each year adds its own length to the running day count. */
  lemma YearStartStep(y: int)
    ensures YearStart(y + 1) == YearStart(y) + DaysInYear(y)
  {
    YearStartClosed(y);
    YearStartClosed(y + 1);
    LeapDayStep(y);
  }

  /** The leap-day count before year `y + 1` exceeds the one before `y` exactly when `y` is a leap year. */
  lemma LeapDayStep(y: int)
    ensures (y + 4) / 4 - (y + 100) / 100 + (y + 400) / 400
      == (y + 3) / 4 - (y + 99) / 100 + (y + 399) / 400 + (if IsLeapYear(y) then 1 else 0)
  {
    QuarterStep(y);
    CenturyStep(y);
    FourCenturyStep(y);
    DivisorChain(y);
  }

  lemma DivisorChain(y: int)
    ensures y % 400 == 0 ==> y % 100 == 0
    ensures y % 100 == 0 ==> y % 4 == 0
  {
    if y % 400 == 0 {
      CenturyOfCycle(y);
    }
    if y % 100 == 0 {
      QuarterOfCentury(y);
    }
  }

  lemma CenturyOfCycle(y: int)
    requires y % 400 == 0
    ensures y % 100 == 0
  {
    assert y == 100 * (4 * (y / 400));
  }

  lemma QuarterOfCentury(y: int)
    requires y % 100 == 0
    ensures y % 4 == 0
  {
    assert y == 4 * (25 * (y / 100));
  }

  lemma {:induction false} YearStartMonotone(a: int, b: int)
    requires a <= b
    ensures YearStart(a) + 365 * (b - a) <= YearStart(b)
    decreases b - a
  {
    if a < b {
      YearStartMonotone(a, b - 1);
      YearStartStep(b - 1);
    }
  }

  /** The 400-year cycle holds exactly 146097 days. */
  lemma YearStartCycle(q: int, k: int)
    ensures YearStart(400 * q + k) == 146097 * q + YearStart(k)
  {
    YearStartClosed(400 * q + k);
    YearStartClosed(k);
    assert (400 * q + k + 3) / 4 == 100 * q + (k + 3) / 4;
    assert (400 * q + k + 99) / 100 == 4 * q + (k + 99) / 100;
    assert (400 * q + k + 399) / 400 == q + (k + 399) / 400;
  }

  /** Linear search for the year of the 400-year cycle that holds day `r` of the cycle. */
  function YearInCycle(r: int, k: int): (y: int)
    requires 0 <= k < 400 && YearStart(k) <= r < YearStart(400)
    ensures k <= y < 400 && YearStart(y) <= r < YearStart(y + 1)
    decreases 400 - k
  {
    if r < YearStart(k + 1) then k else YearInCycle(r, k + 1)
  }

  /** `getFullYear`: the year whose days include day `n`. */
  function YearOf(n: int): (y: int)
    ensures YearStart(y) <= n < YearStart(y + 1)
  {
    YearOfAfter(n, 1)
  }

  /** The cycle search behind `YearOf`, one recursive call deep like `YearStartAfter`. */
  function YearOfAfter(n: int, steps: nat): (y: int)
    ensures YearStart(y) <= n < YearStart(y + 1)
  {
    if steps > 0 then YearOfAfter(n, steps - 1) else YearOfCycle(n)
  }

  /** Whole 400-year cycles first, then the year within the cycle. */
  function YearOfCycle(n: int): (y: int)
    ensures YearStart(y) <= n < YearStart(y + 1)
  {
    var q, r := n / 146097, n % 146097;
    CycleSplit(n);
    CycleStart();
    CycleYear(n, q, r, YearInCycle(r, 0))
  }

  lemma CycleSplit(n: int)
    ensures n == 146097 * (n / 146097) + n % 146097 && 0 <= n % 146097 < 146097
  {
  }

  lemma CycleStart()
    ensures YearStart(0) == 0 && YearStart(400) == 146097
  {
  }

  /** Year `k` of cycle `q`, which holds day `r` of that cycle. */
  function CycleYear(n: int, q: int, r: int, k: int): (y: int)
    requires n == 146097 * q + r && YearStart(k) <= r < YearStart(k + 1)
    ensures YearStart(y) <= n < YearStart(y + 1)
  {
    YearStartCycle(q, k);
    YearStartCycle(q, k + 1);
    assert 400 * q + k + 1 == 400 * q + (k + 1);
    400 * q + k
  }

  /** Only one year holds a given day. */
  lemma YearUnique(y: int, z: int, n: int)
    requires YearStart(y) <= n < YearStart(y + 1)
    requires YearStart(z) <= n < YearStart(z + 1)
    ensures y == z
  {
    if y < z {
      YearStartMonotone(y + 1, z);
    } else if z < y {
      YearStartMonotone(z + 1, y);
    }
  }

  /** The month of year `y` that holds day `r` of that year. */
  function MonthOfYearDay(y: int, r: int): (m: int)
    requires 0 <= r < DaysInYear(y)
    ensures 0 <= m < 12 && DaysBeforeMonth(y, m) <= r < DaysBeforeMonth(y, m + 1)
  {
    if r < DaysBeforeMonth(y, 1) then 0
    else if r < DaysBeforeMonth(y, 2) then 1
    else if r < DaysBeforeMonth(y, 3) then 2
    else if r < DaysBeforeMonth(y, 4) then 3
    else if r < DaysBeforeMonth(y, 5) then 4
    else if r < DaysBeforeMonth(y, 6) then 5
    else if r < DaysBeforeMonth(y, 7) then 6
    else if r < DaysBeforeMonth(y, 8) then 7
    else if r < DaysBeforeMonth(y, 9) then 8
    else if r < DaysBeforeMonth(y, 10) then 9
    else if r < DaysBeforeMonth(y, 11) then 10
    else 11
  }

  lemma DaysBeforeMonthStep(y: int, m: int)
    requires 0 <= m < 12
    ensures DaysBeforeMonth(y, m + 1) == DaysBeforeMonth(y, m) + DaysInMonth(y, m)
  {
  }

  lemma DaysBeforeMonthMonotone(y: int, a: int, b: int)
    requires 0 <= a <= b <= 12
    ensures DaysBeforeMonth(y, a) <= DaysBeforeMonth(y, b)
    ensures a < b ==> DaysBeforeMonth(y, a + 1) <= DaysBeforeMonth(y, b)
  {
  }

  /** The calendar triple of day `n`: `getFullYear`, `getMonth`, `getDate`. */
  function Civil(n: int): (t: Ymd)
    ensures ValidYmd(t) && DayOf(t.year, t.month, t.day) == n
  {
    CivilAfter(n, 1)
  }

  /** The computation behind `Civil`, one recursive call deep like `YearStartAfter`. */
  function CivilAfter(n: int, steps: nat): (t: Ymd)
    ensures ValidYmd(t) && DayOf(t.year, t.month, t.day) == n
  {
    if steps > 0 then CivilAfter(n, steps - 1) else
    var y := YearOf(n);
    YearStartStep(y);
    var r := n - YearStart(y);
    var m := MonthOfYearDay(y, r);
    DaysBeforeMonthStep(y, m);
    Ymd(y, m, r - DaysBeforeMonth(y, m) + 1)
  }

  /** Every valid calendar triple names exactly one day, and `Civil` gives it back. */
  lemma CivilOfDayOf(t: Ymd)
    requires ValidYmd(t)
    ensures Civil(DayOf(t.year, t.month, t.day)) == t
  {
    var n := DayOf(t.year, t.month, t.day);
    var c := Civil(n);
    DayOfWithinYear(t);
    DayOfWithinYear(c);
    YearUnique(t.year, c.year, n);
    MonthUnique(t.year, t.month, c.month, n - YearStart(t.year));
  }

  /** A valid triple's day lies in its year, within its month's days of that year. */
  lemma DayOfWithinYear(t: Ymd)
    requires ValidYmd(t)
    ensures var r := DayOf(t.year, t.month, t.day) - YearStart(t.year);
      YearStart(t.year) <= DayOf(t.year, t.month, t.day) < YearStart(t.year + 1)
      && DaysBeforeMonth(t.year, t.month) <= r < DaysBeforeMonth(t.year, t.month + 1)
  {
    DaysBeforeMonthStep(t.year, t.month);
    DaysBeforeMonthMonotone(t.year, t.month + 1, 12);
    YearStartStep(t.year);
  }

  /** Only one month of a year holds a given day of that year. */
  lemma MonthUnique(y: int, a: int, b: int, r: int)
    requires 0 <= a < 12 && 0 <= b < 12
    requires DaysBeforeMonth(y, a) <= r < DaysBeforeMonth(y, a + 1)
    requires DaysBeforeMonth(y, b) <= r < DaysBeforeMonth(y, b + 1)
    ensures a == b
  {
    if a < b {
      DaysBeforeMonthMonotone(y, a, b);
    } else if b < a {
      DaysBeforeMonthMonotone(y, b, a);
    }
  }

  /** Lexicographic order on calendar triples: year, then month, then day. */
  predicate YmdBefore(s: Ymd, t: Ymd) {
    s.year < t.year
    || (s.year == t.year && s.month < t.month)
    || (s.year == t.year && s.month == t.month && s.day < t.day)
  }

  /** A later calendar triple names a later day. */
  lemma DayOfBefore(s: Ymd, t: Ymd)
    requires ValidYmd(s) && ValidYmd(t) && YmdBefore(s, t)
    ensures DayOf(s.year, s.month, s.day) < DayOf(t.year, t.month, t.day)
  {
    if s.year < t.year {
      DaysBeforeMonthStep(s.year, s.month);
      DaysBeforeMonthMonotone(s.year, s.month + 1, 12);
      YearStartStep(s.year);
      YearStartMonotone(s.year + 1, t.year);
    } else if s.month < t.month {
      DaysBeforeMonthStep(s.year, s.month);
      DaysBeforeMonthMonotone(s.year, s.month, t.month);
    }
  }

  /** Days are ordered as their calendar triples are, year first. */
  lemma DayOfOrder(s: Ymd, t: Ymd)
    requires ValidYmd(s) && ValidYmd(t)
    ensures DayOf(s.year, s.month, s.day) < DayOf(t.year, t.month, t.day) <==> YmdBefore(s, t)
  {
    if YmdBefore(s, t) {
      DayOfBefore(s, t);
    } else if YmdBefore(t, s) {
      DayOfBefore(t, s);
    }
  }

  // ---------------------------------------------------------------------
  // Months as absolute indices (12 * year + month)

  /** `new Date(y, m, d)` is day `d` counted from the first of absolute month 12 * y + m. */
  lemma MakeDayAsMonthStart(y: int, m: int, d: int)
    ensures MakeDay(y, m, d) == MonthStart(12 * y + m) + d - 1
  {
    MakeDayDef(y, m, d);
    MonthStartDay(12 * y + m);
    assert (12 * y + m) / 12 == y + m / 12;
    assert (12 * y + m) % 12 == m % 12;
  }

  /** Consecutive month starts are one month length apart. */
  lemma MonthStartStep(k: int)
    ensures MonthStart(k + 1) == MonthStart(k) + DaysInMonth(k / 12, k % 12)
  {
    MonthStartDay(k);
    MonthStartDay(k + 1);
    if k % 12 == 11 {
      assert (k + 1) / 12 == k / 12 + 1 && (k + 1) % 12 == 0;
      YearStartStep(k / 12);
    } else {
      assert (k + 1) / 12 == k / 12 && (k + 1) % 12 == k % 12 + 1;
      DaysBeforeMonthStep(k / 12, k % 12);
    }
  }

  lemma {:induction false} MonthStartMonotone(a: int, b: int)
    requires a <= b
    ensures MonthStart(a) + 28 * (b - a) <= MonthStart(b)
    decreases b - a
  {
    if a < b {
      MonthStartMonotone(a, b - 1);
      MonthStartStep(b - 1);
    }
  }

  lemma MonthStartOf(y: int, m: int)
    requires 0 <= m < 12
    ensures MonthStart(12 * y + m) == DayOf(y, m, 1)
  {
    MonthStartDay(12 * y + m);
    assert (12 * y + m) / 12 == y && (12 * y + m) % 12 == m;
  }

  /** `getFullYear` and `getMonth` of a day, as one absolute month index. */
  function MonthIndex(n: int): (k: int)
    ensures MonthStart(k) <= n < MonthStart(k + 1)
  {
    var t := Civil(n);
    MonthBounds(t, n);
    12 * t.year + t.month
  }

  /** A valid triple's day lies in its own absolute month. */
  lemma MonthBounds(t: Ymd, n: int)
    requires ValidYmd(t) && DayOf(t.year, t.month, t.day) == n
    ensures MonthStart(12 * t.year + t.month) <= n < MonthStart(12 * t.year + t.month + 1)
  {
    var k := 12 * t.year + t.month;
    MonthStartOf(t.year, t.month);
    MonthStartStep(k);
    assert k / 12 == t.year && k % 12 == t.month;
  }

  lemma MonthStartBefore(a: int, b: int)
    requires a < b
    ensures MonthStart(a + 1) <= MonthStart(b)
  {
    MonthStartMonotone(a + 1, b);
  }

  /** Only one absolute month holds a given day. */
  lemma MonthsUnique(j: int, k: int, n: int)
    requires MonthStart(j) <= n < MonthStart(j + 1)
    requires MonthStart(k) <= n < MonthStart(k + 1)
    ensures j == k
  {
    if j < k {
      MonthStartBefore(j, k);
    } else if k < j {
      MonthStartBefore(k, j);
    }
  }

  /** `MonthIndex` gives the one absolute month that holds the day. */
  lemma MonthIndexUnique(k: int, n: int)
    requires MonthStart(k) <= n < MonthStart(k + 1)
    ensures MonthIndex(n) == k
  {
    MonthsUnique(MonthIndex(n), k, n);
  }

  /** The first of absolute month `k` reads back as day 1 of that month. */
  lemma CivilMonthStart(k: int)
    ensures Civil(MonthStart(k)) == Ymd(k / 12, k % 12, 1)
  {
    MonthStartDay(k);
    CivilOfDayOf(Ymd(k / 12, k % 12, 1));
  }

  lemma MonthIndexOfCivil(n: int)
    ensures MonthIndex(n) == 12 * Civil(n).year + Civil(n).month
  {
  }

  /** 1 January of year `y` reads back as such. */
  lemma CivilYearStart(y: int)
    ensures Civil(YearStart(y)) == Ymd(y, 0, 1)
  {
    assert DaysBeforeMonth(y, 0) == 0;
    assert DayOf(y, 0, 1) == YearStart(y);
    CivilOfDayOf(Ymd(y, 0, 1));
  }

  /** Only one year holds a given day: the year of `Civil`. */
  lemma YearOfCivil(y: int, n: int)
    requires YearStart(y) <= n < YearStart(y + 1)
    ensures Civil(n).year == y
  {
    var t := Civil(n);
    DayOfWithinYear(t);
    YearUnique(y, t.year, n);
  }

  /** A later day never lies in an earlier year. */
  lemma CivilYearMonotone(a: int, b: int)
    requires a <= b
    ensures Civil(a).year <= Civil(b).year
  {
    if Civil(b).year < Civil(a).year {
      DayOfOrder(Civil(b), Civil(a));
    }
  }

  lemma WeekdayShift(n: int, k: int)
    ensures Weekday(n + 7 * k) == Weekday(n)
  {
  }
}
