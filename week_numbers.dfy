/**
 * Week numbers of week columns, as the week branch of the column engine
 * computes them, and date-fns `getISOWeek` as the week selector uses it.
 *
 * ISO numbering follows ISO 8601:2004 section 4.1.4 (week dates): weeks start
 * on Monday, the week's Thursday decides its year, and week 1 is the week
 * that holds 4 January.  US numbering counts Sunday-start weeks from the
 * Sunday on or before 1 January of the year of the week's first day.
 */
module WeekNumbers {
  import opened Calendar

  /** Number of the ISO week whose Monday is `start`. */
  function IsoWeekNumber(start: int): int {
    var thursday := start + 3;
    var firstThursday := MakeDay(Civil(thursday).year, 0, 4);
    var weekStart := StartOfWeek(firstThursday, 1);
    (thursday - weekStart) / 7 + 1
  }

  /** Number of the US week whose Sunday is `start`. */
  function UsWeekNumber(start: int): int {
    var yearStart := MakeDay(Civil(start).year, 0, 1);
    (start - StartOfWeek(yearStart, 0)) / 7 + 1
  }

  /** date-fns `getISOWeek(d)`: the ISO number of the Monday-start week holding `d`. */
  function IsoWeek(d: int): int {
    IsoWeekNumber(StartOfWeek(d, 1))
  }

  /** The ISO week-numbering year of the week whose Monday is `start`: its Thursday's year. */
  function IsoWeekYear(start: int): int {
    Civil(start + 3).year
  }

  // ---------------------------------------------------------------------
  // Helpers

  lemma SameWeekday(a: int, b: int)
    requires Weekday(a) == Weekday(b)
    ensures (a - b) % 7 == 0
  {
  }

  /** The only day of weekday `w` in the seven days ending at `n` is `StartOfWeek(n, w)`. */
  lemma StartOfWeekUnique(n: int, w: int, s: int)
    requires 0 <= w < 7 && s <= n < s + 7 && Weekday(s) == w
    ensures StartOfWeek(n, w) == s
  {
    var t := StartOfWeek(n, w);
    SameWeekday(s, t);
  }

  /** The year `Civil` gives is the one whose days hold `n`. */
  lemma YearOfDay(n: int)
    ensures YearStart(Civil(n).year) <= n < YearStart(Civil(n).year + 1)
  {
    YearOfCivil(YearOf(n), n);
  }

  lemma YearLength(y: int)
    ensures YearStart(y + 1) - YearStart(y) == if IsLeapYear(y) then 366 else 365
  {
    YearStartStep(y);
  }

  lemma JanuaryFourth(y: int)
    ensures MakeDay(y, 0, 4) == YearStart(y) + 3
  {
    MakeDayDef(y, 0, 4);
    assert DaysBeforeMonth(y, 0) == 0;
  }

  lemma JanuaryFirst(y: int)
    ensures MakeDay(y, 0, 1) == YearStart(y)
  {
    MakeDayDef(y, 0, 1);
    assert DaysBeforeMonth(y, 0) == 0;
  }

  lemma YearsArith(a: int, b: int, y: int, z: int)
    requires YearStart(y) <= a < YearStart(y + 1) && YearStart(z) <= b < YearStart(z + 1)
    requires a <= b < a + 365
    ensures z == y || z == y + 1
  {
    YearStartStep(y);
    if z < y {
      YearStartMonotone(z + 1, y);
    } else if z > y + 1 {
      YearStartMonotone(y + 1, z - 1);
      YearStartStep(z - 1);
    }
  }

  /** Two days less than a week apart lie in the same year or in consecutive years. */
  lemma YearsWithinWeek(a: int, b: int)
    requires a <= b < a + 7
    ensures Civil(a).year == Civil(b).year || Civil(b).year == Civil(a).year + 1
  {
    YearOfDay(a);
    YearOfDay(b);
    YearsArith(a, b, Civil(a).year, Civil(b).year);
  }

  /** A later day in a different year lies in a later year, after that year's start. */
  lemma YearsInOrder(a: int, b: int, y: int, z: int)
    requires a <= b && y != z
    requires YearStart(y) <= a < YearStart(y + 1) && YearStart(z) <= b < YearStart(z + 1)
    ensures y < z && a < YearStart(z)
  {
    if z < y {
      YearStartMonotone(z + 1, y);
    } else {
      YearStartMonotone(y + 1, z);
    }
  }

  lemma DivPlusSeven(x: int)
    ensures (x + 7) / 7 == x / 7 + 1
  {
  }

  lemma IsoArith(start: int, ws: int, ys: int, ys1: int)
    requires ys <= start + 3 < ys1 <= ys + 366
    requires ws <= ys + 3 < ws + 7
    requires (start - ws) % 7 == 0
    ensures 1 <= (start + 3 - ws) / 7 + 1 <= 53
  {
  }

  lemma UsArith(start: int, s0: int, ys: int, ys1: int)
    requires ys <= start < ys1 && ys + 365 <= ys1 <= ys + 366
    requires s0 <= ys < s0 + 7
    requires (start - s0) % 7 == 0
    ensures 1 <= (start - s0) / 7 + 1 <= 54
    ensures (start - s0) / 7 + 1 == 54 ==> ys1 == ys + 366 && ys - s0 == 6
    ensures s0 + 7 * ((start - s0) / 7) == start
  {
  }

  // ---------------------------------------------------------------------
  // ISO week numbers

  /** A Monday-start week gets a number from 1 to 53. */
  lemma IsoWeekNumberRange(start: int)
    requires Weekday(start) == 1
    ensures 1 <= IsoWeekNumber(start) <= 53
  {
    var y := Civil(start + 3).year;
    YearOfDay(start + 3);
    YearLength(y);
    JanuaryFourth(y);
    var ws := StartOfWeek(MakeDay(y, 0, 4), 1);
    SameWeekday(start, ws);
    IsoArith(start, ws, YearStart(y), YearStart(y + 1));
  }

  /** Week 1 is the week that holds 4 January, in every year. */
  lemma IsoWeekOfJanuaryFourth(y: int)
    ensures IsoWeek(MakeDay(y, 0, 4)) == 1
  {
    JanuaryFourth(y);
    var m := StartOfWeek(YearStart(y) + 3, 1);
    YearLength(y);
    IsoWeekOfDayIs(YearStart(y) + 3, m, y, m, 1);
  }

  /** Within the week-numbering year `y`, the ISO number counts weeks from the Monday on or before 4 January. */
  lemma IsoWeekNumberIn(start: int, y: int)
    requires YearStart(y) <= start + 3 < YearStart(y + 1)
    ensures IsoWeekNumber(start) == (start + 3 - StartOfWeek(YearStart(y) + 3, 1)) / 7 + 1
  {
    YearOfCivil(y, start + 3);
    JanuaryFourth(y);
  }

  /**
   * From one Monday to the next, the number goes up by one while the
   * Thursday stays in the same year, and starts again at 1 when it does not.
   */
  lemma IsoWeekNumberNext(start: int)
    requires Weekday(start) == 1
    ensures IsoWeekYear(start + 7) == IsoWeekYear(start) ==> IsoWeekNumber(start + 7) == IsoWeekNumber(start) + 1
    ensures IsoWeekYear(start + 7) != IsoWeekYear(start) ==> IsoWeekNumber(start + 7) == 1
  {
    if IsoWeekYear(start + 7) == IsoWeekYear(start) {
      IsoNextInYear(start);
    } else {
      IsoNextAcrossYears(start);
    }
  }

  lemma IsoNextInYear(start: int)
    requires IsoWeekYear(start + 7) == IsoWeekYear(start)
    ensures IsoWeekNumber(start + 7) == IsoWeekNumber(start) + 1
  {
    var y := IsoWeekYear(start);
    YearOfDay(start + 3);
    YearOfDay(start + 10);
    IsoNextSameYear(start, y);
  }

  lemma IsoNextAcrossYears(start: int)
    requires Weekday(start) == 1
    requires IsoWeekYear(start + 7) != IsoWeekYear(start)
    ensures IsoWeekNumber(start + 7) == 1
  {
    var z := IsoWeekYear(start) + 1;
    NewYearWithin(start + 3, start + 10);
    assert start + 3 < YearStart(z) <= start + 10;
    IsoNextNewYear(start, z);
  }

  lemma IsoNextSameYear(start: int, y: int)
    requires YearStart(y) <= start + 3 && start + 10 < YearStart(y + 1)
    ensures IsoWeekNumber(start + 7) == IsoWeekNumber(start) + 1
  {
    IsoWeekNumberIn(start, y);
    IsoWeekNumberIn(start + 7, y);
    DivPlusSeven(start + 3 - StartOfWeek(YearStart(y) + 3, 1));
  }

  lemma IsoNextNewYear(start: int, z: int)
    requires Weekday(start) == 1
    requires start + 3 < YearStart(z) <= start + 10
    ensures IsoWeekNumber(start + 7) == 1
  {
    YearLength(z);
    WeekdayShift(start, 1);
    IsoWeekNumberIs(start + 7, z, start + 7, 1);
  }

  /** On a Monday, `getISOWeek` and the column label agree. */
  lemma IsoWeekOfMonday(start: int)
    requires Weekday(start) == 1
    ensures IsoWeek(start) == IsoWeekNumber(start)
  {
    StartOfWeekUnique(start, 1, start);
  }

  lemma DivSevenOffset(k: int, r: int)
    requires 0 <= r < 7
    ensures (7 * k + r) / 7 == k
  {
  }

  /** The ISO number of a Monday `n` whose Thursday lies in year `y`, counted from the Monday `ws` of 4 January's week. */
  lemma IsoWeekNumberIs(n: int, y: int, ws: int, w: int)
    requires YearStart(y) <= n + 3 < YearStart(y + 1)
    requires Weekday(ws) == 1 && ws <= YearStart(y) + 3 < ws + 7
    requires n - ws == 7 * (w - 1)
    ensures IsoWeekNumber(n) == w
  {
    IsoWeekNumberIn(n, y);
    StartOfWeekUnique(YearStart(y) + 3, 1, ws);
    DivSevenOffset(w - 1, 3);
  }

  /** Every day of the week that starts on Monday `n` has `n`'s ISO number. */
  lemma IsoWeekOfDayIs(d: int, n: int, y: int, ws: int, w: int)
    requires YearStart(y) <= n + 3 < YearStart(y + 1)
    requires Weekday(ws) == 1 && ws <= YearStart(y) + 3 < ws + 7
    requires n - ws == 7 * (w - 1) && n <= d < n + 7
    ensures IsoWeek(d) == w
  {
    IsoWeekNumberIs(n, y, ws, w);
    WeekdayShift(ws, w - 1);
    StartOfWeekUnique(d, 1, n);
  }

  /** The week starting Monday 2024-01-01 is week 1. */
  lemma IsoWeekExample2024(n: int)
    requires n == DayOf(2024, 0, 1)
    ensures IsoWeekNumber(n) == 1
  {
    var y := 2024;
    YearStartClosed(y);
    YearStartStep(y);
    assert n == YearStart(y) && YearStart(y + 1) == YearStart(y) + 366;
    assert Weekday(n) == 1;
    IsoWeekNumberIs(n, y, n, 1);
  }

  /** The week starting Monday 2020-12-28 is week 53 of 2020. */
  lemma IsoWeekExample2020(n: int)
    requires n == DayOf(2020, 11, 28)
    ensures IsoWeekNumber(n) == 53
  {
    var y := 2020;
    YearStartClosed(y);
    YearStartStep(y);
    var ys := YearStart(y);
    assert YearStart(y + 1) == ys + 366 && n == ys + 362;
    assert Weekday(ys - 2) == 1;
    IsoWeekNumberIs(n, y, ys - 2, 53);
  }

  /** Friday 2021-01-01 lies in week 53 of 2020. */
  lemma IsoWeekExample2021(n: int, d: int)
    requires n == DayOf(2020, 11, 28) && d == DayOf(2021, 0, 1)
    ensures IsoWeek(d) == 53
  {
    var y := 2020;
    YearStartClosed(y);
    YearStartStep(y);
    var ys := YearStart(y);
    assert YearStart(y + 1) == ys + 366 && n == ys + 362 && d == ys + 366;
    assert Weekday(ys - 2) == 1;
    IsoWeekOfDayIs(d, n, y, ys - 2, 53);
  }

  // ---------------------------------------------------------------------
  // US week numbers

  /**
   * A Sunday-start week gets a number from 1 to 54; 54 only in a leap year
   * whose 1 January is a Saturday.  The count is exact: the week starts a
   * whole number of weeks after the Sunday on or before 1 January.
   */
  lemma UsWeekNumberRange(start: int)
    requires Weekday(start) == 0
    ensures 1 <= UsWeekNumber(start) <= 54
    ensures UsWeekNumber(start) == 54 ==>
      IsLeapYear(Civil(start).year) && Weekday(YearStart(Civil(start).year)) == 6
    ensures StartOfWeek(YearStart(Civil(start).year), 0) + 7 * (UsWeekNumber(start) - 1) == start
  {
    YearOfDay(start);
    UsWeekInYear(start, Civil(start).year);
  }

  lemma UsWeekInYear(start: int, y: int)
    requires Weekday(start) == 0 && YearStart(y) <= start < YearStart(y + 1)
    ensures 1 <= UsWeekNumber(start) <= 54
    ensures UsWeekNumber(start) == 54 ==> IsLeapYear(y) && Weekday(YearStart(y)) == 6
    ensures StartOfWeek(YearStart(y), 0) + 7 * (UsWeekNumber(start) - 1) == start
  {
    UsWeekNumberIn(start, y);
    UsWeekCount(start, y);
  }

  /** The count behind a US week number, on the day numbers alone. */
  lemma UsWeekCount(start: int, y: int)
    requires Weekday(start) == 0 && YearStart(y) <= start < YearStart(y + 1)
    ensures var s0 := StartOfWeek(YearStart(y), 0); var w := (start - s0) / 7 + 1;
      1 <= w <= 54 && (w == 54 ==> IsLeapYear(y) && Weekday(YearStart(y)) == 6) && s0 + 7 * (w - 1) == start
  {
    YearLength(y);
    var s0 := StartOfWeek(YearStart(y), 0);
    SameWeekday(start, s0);
    UsArith(start, s0, YearStart(y), YearStart(y + 1));
    if (start - s0) / 7 + 1 == 54 {
      WeekdayAdd(s0, 6);
    }
  }

  /**
   * The week that holds 1 January is numbered in the year of its Sunday:
   * unless that Sunday is 1 January itself it gets 53 or 54, the next week
   * is week 2, and no week of the new year is numbered 1.
   */
  lemma UsWeekAcrossNewYear(start: int)
    requires Weekday(start) == 0
    requires Civil(start).year < Civil(start + 6).year
    ensures UsWeekNumber(start) >= 53
    ensures UsWeekNumber(start + 7) == 2
  {
    var y := Civil(start).year;
    NewYearWithin(start, start + 6);
    UsLastWeek(start, y);
    UsSecondWeek(start, y + 1);
  }

  /** When a later day less than a year on lies in another year, that is the next year, and it starts between them. */
  lemma NewYearWithin(a: int, b: int)
    requires a <= b < a + 365 && Civil(a).year != Civil(b).year
    ensures Civil(b).year == Civil(a).year + 1
    ensures YearStart(Civil(a).year) <= a < YearStart(Civil(a).year + 1) <= b
  {
    var y, z := Civil(a).year, Civil(b).year;
    YearOfDay(a);
    YearOfDay(b);
    YearsArith(a, b, y, z);
  }

  lemma UsLastWeek(start: int, y: int)
    requires Weekday(start) == 0
    requires YearStart(y) <= start < YearStart(y + 1) <= start + 6
    ensures UsWeekNumber(start) >= 53
  {
    YearLength(y);
    UsWeekNumberIn(start, y);
    var s0 := StartOfWeek(YearStart(y), 0);
    SameWeekday(start, s0);
    UsNearYearEnd(start, s0, YearStart(y), YearStart(y + 1));
  }

  lemma UsSecondWeek(start: int, z: int)
    requires Weekday(start) == 0
    requires start < YearStart(z) <= start + 6
    ensures UsWeekNumber(start + 7) == 2
  {
    YearLength(z);
    UsWeekNumberIs(start + 7, z, start, 2);
  }

  lemma UsNearYearEnd(start: int, s0: int, ys: int, ys1: int)
    requires ys <= start < ys1 < start + 7 && ys + 365 <= ys1
    requires s0 <= ys < s0 + 7
    requires (start - s0) % 7 == 0
    ensures (start - s0) / 7 + 1 >= 53
  {
  }

  /** Within the year `y`, the US number counts weeks from the Sunday on or before 1 January. */
  lemma UsWeekNumberIn(start: int, y: int)
    requires YearStart(y) <= start < YearStart(y + 1)
    ensures UsWeekNumber(start) == (start - StartOfWeek(YearStart(y), 0)) / 7 + 1
  {
    YearOfCivil(y, start);
    JanuaryFirst(y);
  }

  /** The US number of a Sunday `start` in year `y`, counted from the Sunday `s0` on or before 1 January. */
  lemma UsWeekNumberIs(start: int, y: int, s0: int, w: int)
    requires YearStart(y) <= start < YearStart(y + 1)
    requires Weekday(s0) == 0 && s0 <= YearStart(y) < s0 + 7
    requires start - s0 == 7 * (w - 1)
    ensures UsWeekNumber(start) == w
  {
    UsWeekNumberIn(start, y);
    StartOfWeekUnique(YearStart(y), 0, s0);
    DivSevenOffset(w - 1, 0);
  }

  /** 2021-12-26, the Sunday before 1 January 2022, is week 53. */
  lemma UsWeekExample2021(a: int)
    requires a == DayOf(2021, 11, 26)
    ensures UsWeekNumber(a) == 53
  {
    var y := 2021;
    YearStartClosed(y);
    YearStartStep(y);
    var ys := YearStart(y);
    assert YearStart(y + 1) == ys + 365 && a == ys + 359;
    assert Weekday(ys - 5) == 0;
    UsWeekNumberIs(a, y, ys - 5, 53);
  }

  /** 2022-01-02, the first Sunday of 2022, is week 2: 2022 has no week 1. */
  lemma UsWeekExample2022(b: int)
    requires b == DayOf(2022, 0, 2)
    ensures UsWeekNumber(b) == 2
  {
    var y := 2022;
    YearStartClosed(y);
    YearStartStep(y);
    var ys := YearStart(y);
    assert YearStart(y + 1) == ys + 365 && b == ys + 1;
    assert Weekday(ys - 6) == 0;
    UsWeekNumberIs(b, y, ys - 6, 2);
  }

  /** 1 January 2023 is a Sunday and starts week 1. */
  lemma UsWeekExample2023(c: int)
    requires c == DayOf(2023, 0, 1)
    ensures UsWeekNumber(c) == 1
  {
    var y := 2023;
    YearStartClosed(y);
    YearStartStep(y);
    var ys := YearStart(y);
    assert YearStart(y + 1) == ys + 365 && c == ys;
    assert Weekday(ys) == 0;
    UsWeekNumberIs(c, y, ys, 1);
  }

  /** 2000-12-31 is week 54: 2000 is a leap year that began on a Saturday. */
  lemma UsWeekExample2000(d: int)
    requires d == DayOf(2000, 11, 31)
    ensures UsWeekNumber(d) == 54
  {
    var y := 2000;
    YearStartClosed(y);
    YearStartStep(y);
    var ys := YearStart(y);
    assert YearStart(y + 1) == ys + 366 && d == ys + 365;
    assert Weekday(ys - 6) == 0;
    UsWeekNumberIs(d, y, ys - 6, 54);
  }
}
