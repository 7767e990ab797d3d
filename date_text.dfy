/**
 * Date text as the calendar reads and writes it: `yyyy-MM-dd` keys, the
 * `yyyy-MM` and `yyyy` keys of month and year columns, the ISO date text
 * written by date-fns `formatISO(d, { representation: 'date' })`, and the
 * `YYYY-MM-DD` form accepted by `parseISO`.
 */
module DateText {
  import opened Options
  import opened Calendar

  predicate IsDigit(c: char) {
    '0' <= c <= '9'
  }

  function DigitChar(d: int): (c: char)
    requires 0 <= d < 10
    ensures IsDigit(c) && c as int - '0' as int == d
  {
    (d + '0' as int) as char
  }

  /** The shortest decimal numeral of `n`, as `Number.prototype.toString` writes it. */
  function Numeral(n: nat): (s: string)
    ensures |s| >= 1 && forall i :: 0 <= i < |s| ==> IsDigit(s[i])
    decreases n
  {
    if n < 10 then [DigitChar(n)] else Numeral(n / 10) + [DigitChar(n % 10)]
  }

  /** Left-pads `s` with '0' to at least `width` characters. */
  function PadZeros(s: string, width: nat): (r: string)
    ensures |r| == if |s| >= width then |s| else width
    decreases width - |s|
  {
    if |s| >= width then s else PadZeros(['0'] + s, width)
  }

  /** date-fns `addLeadingZeros`: an optional minus sign, then |n| padded to `width` digits. */
  function LeadingZeros(n: int, width: nat): string {
    (if n < 0 then "-" else "") + PadZeros(Numeral(if n < 0 then -n else n), width)
  }

  /** The `yyyy` token of date-fns `format`: era years, so year 0 is written as 1 (1 BC). */
  function YearToken(y: int): string {
    LeadingZeros(if y > 0 then y else 1 - y, 4)
  }

  /** `format(d, 'yyyy-MM-dd')`: the key of a date column. */
  function DateKey(n: int): string {
    YmdKey(Civil(n))
  }

  function YmdKey(t: Ymd): string {
    YearToken(t.year) + "-" + LeadingZeros(t.month + 1, 2) + "-" + LeadingZeros(t.day, 2)
  }

  /** `format(d, 'yyyy-MM')`: the key of a month column. */
  function MonthKey(n: int): string {
    var t := Civil(n);
    YearToken(t.year) + "-" + LeadingZeros(t.month + 1, 2)
  }

  /** `format(d, 'yyyy')`: the key of a year column. */
  function YearKey(n: int): string {
    YearToken(Civil(n).year)
  }

  /** `formatISO(d, { representation: 'date' })`: signed calendar year, then month and day. */
  function IsoDateText(n: int): string {
    YmdIsoText(Civil(n))
  }

  function YmdIsoText(t: Ymd): string {
    LeadingZeros(t.year, 4) + "-" + LeadingZeros(t.month + 1, 2) + "-" + LeadingZeros(t.day, 2)
  }

  /** The value of a string of decimal digits. */
  function DigitsValue(s: string): (v: nat)
    requires forall i :: 0 <= i < |s| ==> IsDigit(s[i])
  {
    if s == [] then 0
    else
      assert IsDigit(s[|s| - 1]);
      DigitsValue(s[..|s| - 1]) * 10 + (s[|s| - 1] as int - '0' as int)
  }

  predicate AllDigits(s: string) {
    forall i :: 0 <= i < |s| ==> IsDigit(s[i])
  }

  /**
   * `parseISO` on a calendar date `YYYY-MM-DD`: the day it names, or None when
   * the text is not of that form or names no day (month 13, 30 February).
   */
  function ParseIsoDate(s: string): Option<int> {
    if |s| == 10 && s[4] == '-' && s[7] == '-'
       && AllDigits(s[0..4]) && AllDigits(s[5..7]) && AllDigits(s[8..10])
    then
      var y, mo, d := DigitsValue(s[0..4]), DigitsValue(s[5..7]), DigitsValue(s[8..10]);
      if 1 <= mo <= 12 && 1 <= d <= DaysInMonth(y, mo - 1) then
        Some(DayOf(y, mo - 1, d))
      else None
    else None
  }

  // ---------------------------------------------------------------------
  // Numerals read back

  lemma {:induction false} NumeralValue(n: nat)
    ensures DigitsValue(Numeral(n)) == n
    decreases n
  {
    if n >= 10 {
      var s := Numeral(n);
      assert s[..|s| - 1] == Numeral(n / 10);
      NumeralValue(n / 10);
    }
  }

  lemma {:induction false} ZeroPrefixValue(s: string)
    requires AllDigits(s)
    ensures AllDigits(['0'] + s) && DigitsValue(['0'] + s) == DigitsValue(s)
    decreases |s|
  {
    if s != [] {
      var t := ['0'] + s;
      assert t[..|t| - 1] == ['0'] + s[..|s| - 1];
      ZeroPrefixValue(s[..|s| - 1]);
    }
  }

  lemma {:induction false} PadZerosValue(s: string, width: nat)
    requires AllDigits(s)
    ensures AllDigits(PadZeros(s, width)) && DigitsValue(PadZeros(s, width)) == DigitsValue(s)
    decreases width - |s|
  {
    if |s| < width {
      ZeroPrefixValue(s);
      PadZerosValue(['0'] + s, width);
    }
  }

  lemma NumeralLength(n: nat, width: nat)
    requires width >= 1 && n < Pow10(width)
    ensures |Numeral(n)| <= width
    decreases width
  {
    if n >= 10 {
      NumeralLength(n / 10, width - 1);
    }
  }

  function Pow10(k: nat): (p: nat)
    ensures p >= 1
  {
    if k == 0 then 1 else 10 * Pow10(k - 1)
  }

  /** A non-negative number below 10^width is written with exactly `width` digits, and they read back. */
  lemma FixedWidth(n: int, width: nat)
    requires width >= 1 && 0 <= n < Pow10(width)
    ensures |LeadingZeros(n, width)| == width
    ensures AllDigits(LeadingZeros(n, width)) && DigitsValue(LeadingZeros(n, width)) == n
  {
    NumeralLength(n, width);
    NumeralValue(n);
    PadZerosValue(Numeral(n), width);
    Unsigned(n, width);
  }

  lemma Unsigned(n: nat, width: nat)
    ensures LeadingZeros(n, width) == PadZeros(Numeral(n), width)
  {
    assert "" + PadZeros(Numeral(n), width) == PadZeros(Numeral(n), width);
  }

  /** Digits read back from the text they were parsed from. */
  lemma ParsedDigits(s: string, width: nat)
    requires width >= 1 && |s| == width && AllDigits(s)
    ensures DigitsValue(s) < Pow10(width) && LeadingZeros(DigitsValue(s), width) == s
    decreases width
  {
    if width == 1 {
      assert s == [s[0]];
      assert s[..0] == [];
    } else {
      var p := s[..|s| - 1];
      ParsedDigits(p, width - 1);
      var v := DigitsValue(s);
      assert v == DigitsValue(p) * 10 + (s[|s| - 1] as int - '0' as int);
      FixedWidth(v, width);
      var t := LeadingZeros(v, width);
      assert DigitsValue(t) == v;
      WidthDigitsUnique(t, s, width);
    }
  }

  /** Two digit strings of one width with one value are equal. */
  lemma {:induction false} WidthDigitsUnique(a: string, b: string, width: nat)
    requires |a| == width && |b| == width && AllDigits(a) && AllDigits(b)
    requires DigitsValue(a) == DigitsValue(b)
    ensures a == b
    decreases width
  {
    if width > 0 {
      var a', b' := a[..width - 1], b[..width - 1];
      assert DigitsValue(a) == DigitsValue(a') * 10 + (a[width - 1] as int - '0' as int);
      assert DigitsValue(b) == DigitsValue(b') * 10 + (b[width - 1] as int - '0' as int);
      WidthDigitsUnique(a', b', width - 1);
      assert a == a' + [a[width - 1]];
      assert b == b' + [b[width - 1]];
    }
  }

  /** The ISO text of a valid calendar triple is built from its own fields. */
  lemma IsoTextOf(t: Ymd)
    requires ValidYmd(t)
    ensures IsoDateText(DayOf(t.year, t.month, t.day)) == YmdIsoText(t)
  {
    CivilOfDayOf(t);
  }

  /** Text that parses is exactly the ISO text of the day it names: `formatISO(parseISO(s)) == s`. */
  lemma FormatParseRoundTrip(s: string)
    requires ParseIsoDate(s).Some?
    ensures IsoDateText(ParseIsoDate(s).value) == s
  {
    var y, mo, d := DigitsValue(s[0..4]), DigitsValue(s[5..7]), DigitsValue(s[8..10]);
    assert ParseIsoDate(s).value == DayOf(y, mo - 1, d);
    ParsedFields(s);
    IsoTextOf(Ymd(y, mo - 1, d));
  }

  /** Text of the form YYYY-MM-DD is the ISO text of the fields read from it. */
  lemma ParsedFields(s: string)
    requires |s| == 10 && s[4] == '-' && s[7] == '-'
    requires AllDigits(s[0..4]) && AllDigits(s[5..7]) && AllDigits(s[8..10])
    ensures s == YmdIsoText(Ymd(DigitsValue(s[0..4]), DigitsValue(s[5..7]) - 1, DigitsValue(s[8..10])))
  {
    ParsedDigits(s[0..4], 4);
    ParsedDigits(s[5..7], 2);
    ParsedDigits(s[8..10], 2);
    TextSplit(s);
    JoinFields(s[0..4], s[5..7], s[8..10],
      Ymd(DigitsValue(s[0..4]), DigitsValue(s[5..7]) - 1, DigitsValue(s[8..10])));
  }

  lemma JoinFields(ys: string, ms: string, ds: string, t: Ymd)
    requires LeadingZeros(t.year, 4) == ys && LeadingZeros(t.month + 1, 2) == ms
    requires LeadingZeros(t.day, 2) == ds
    ensures YmdIsoText(t) == ys + "-" + ms + "-" + ds
  {
  }

  /** The value of two digits. */
  lemma TwoDigits(s: string)
    requires |s| == 2 && AllDigits(s)
    ensures DigitsValue(s) == 10 * (s[0] as int - '0' as int) + (s[1] as int - '0' as int)
  {
    var p := s[..1];
    assert p[..0] == [] && p[0] == s[0];
    assert DigitsValue(p) == s[0] as int - '0' as int;
  }

  /** The value of four digits. */
  lemma FourDigits(s: string)
    requires |s| == 4 && AllDigits(s)
    ensures DigitsValue(s) == 1000 * (s[0] as int - '0' as int) + 100 * (s[1] as int - '0' as int)
      + 10 * (s[2] as int - '0' as int) + (s[3] as int - '0' as int)
  {
    assert s[..3][..2] == s[..2];
    TwoDigits(s[..2]);
  }

  /** A `YYYY-MM-DD` text with digits in its fields parses to the day those digits name, if any. */
  lemma ParseDigits(s: string)
    requires |s| == 10 && s[4] == '-' && s[7] == '-'
    requires AllDigits(s[0..4]) && AllDigits(s[5..7]) && AllDigits(s[8..10])
    ensures DigitsValue(s[0..4]) == 1000 * (s[0] as int - '0' as int) + 100 * (s[1] as int - '0' as int)
      + 10 * (s[2] as int - '0' as int) + (s[3] as int - '0' as int)
    ensures DigitsValue(s[5..7]) == 10 * (s[5] as int - '0' as int) + (s[6] as int - '0' as int)
    ensures DigitsValue(s[8..10]) == 10 * (s[8] as int - '0' as int) + (s[9] as int - '0' as int)
  {
    FourDigits(s[0..4]);
    TwoDigits(s[5..7]);
    TwoDigits(s[8..10]);
  }

  /** Text of the form YYYY-MM-DD whose fields name a day parses to that day. */
  lemma ParseFields(s: string, y: int, mo: int, d: int)
    requires |s| == 10 && s[4] == '-' && s[7] == '-'
    requires AllDigits(s[0..4]) && AllDigits(s[5..7]) && AllDigits(s[8..10])
    requires DigitsValue(s[0..4]) == y && DigitsValue(s[5..7]) == mo && DigitsValue(s[8..10]) == d
    requires 1 <= mo <= 12 && 1 <= d <= DaysInMonth(y, mo - 1)
    ensures ParseIsoDate(s) == Some(DayOf(y, mo - 1, d))
  {
  }

  lemma TextSplit(s: string)
    requires |s| == 10 && s[4] == '-' && s[7] == '-'
    ensures s == s[0..4] + "-" + s[5..7] + "-" + s[8..10]
  {
  }

  lemma TextParts(ys: string, ms: string, ds: string)
    requires |ys| == 4 && |ms| == 2 && |ds| == 2
    ensures var s := ys + "-" + ms + "-" + ds;
      |s| == 10 && s[4] == '-' && s[7] == '-' && s[0..4] == ys && s[5..7] == ms && s[8..10] == ds
  {
  }

  /** The ISO text of a valid calendar triple of the years 0000 to 9999 parses back to its day. */
  lemma ParseYmdIsoText(t: Ymd)
    requires ValidYmd(t) && 0 <= t.year <= 9999
    ensures ParseIsoDate(YmdIsoText(t)) == Some(DayOf(t.year, t.month, t.day))
  {
    assert Pow10(4) == 10000 && Pow10(2) == 100;
    FixedWidth(t.year, 4);
    FixedWidth(t.month + 1, 2);
    FixedWidth(t.day, 2);
    TextParts(LeadingZeros(t.year, 4), LeadingZeros(t.month + 1, 2), LeadingZeros(t.day, 2));
    ParseFields(YmdIsoText(t), t.year, t.month + 1, t.day);
  }

  /** `parseISO(formatISO(d))` gives back `d` for every day of the years 0000 to 9999. */
  lemma ParseFormatRoundTrip(n: int)
    requires 0 <= Civil(n).year <= 9999
    ensures ParseIsoDate(IsoDateText(n)) == Some(n)
  {
    ParseYmdIsoText(Civil(n));
  }

  /** Distinct days of the years 0000 to 9999 have distinct ISO texts. */
  lemma IsoDateTextInjective(a: int, b: int)
    requires 0 <= Civil(a).year <= 9999 && 0 <= Civil(b).year <= 9999
    requires IsoDateText(a) == IsoDateText(b)
    ensures a == b
  {
    ParseFormatRoundTrip(a);
    ParseFormatRoundTrip(b);
  }

  /** From year 1 on, the `yyyy-MM-dd` key is the ISO date text. */
  lemma DateKeyIsIsoText(n: int)
    requires Civil(n).year >= 1
    ensures DateKey(n) == IsoDateText(n)
  {
  }

  /** Distinct days of the years 0001 to 9999 have distinct `yyyy-MM-dd` keys. */
  lemma DateKeyInjective(a: int, b: int)
    requires 1 <= Civil(a).year <= 9999 && 1 <= Civil(b).year <= 9999
    requires DateKey(a) == DateKey(b)
    ensures a == b
  {
    DateKeyIsIsoText(a);
    DateKeyIsIsoText(b);
    IsoDateTextInjective(a, b);
  }

  /** For the years 0001 to 9999 the `yyyy` token is four digits that read back as the year. */
  lemma YearTokenDigits(y: int)
    requires 1 <= y <= 9999
    ensures |YearToken(y)| == 4 && AllDigits(YearToken(y)) && DigitsValue(YearToken(y)) == y
  {
    assert Pow10(4) == 10000;
    FixedWidth(y, 4);
  }

  /** For the years 0001 to 9999 a `yyyy-MM-dd` key has ten characters. */
  lemma DateKeyLength(n: int)
    requires 1 <= Civil(n).year <= 9999
    ensures |DateKey(n)| == 10
  {
    var t := Civil(n);
    assert Pow10(2) == 100;
    YearTokenDigits(t.year);
    FixedWidth(t.month + 1, 2);
    FixedWidth(t.day, 2);
  }

  /** A `yyyy-MM` key of the years 0001 to 9999 is seven characters holding the year and the month. */
  lemma MonthKeyFields(n: int)
    requires 1 <= Civil(n).year <= 9999
    ensures var k := MonthKey(n);
      |k| == 7 && AllDigits(k[0..4]) && AllDigits(k[5..7])
      && DigitsValue(k[0..4]) == Civil(n).year && DigitsValue(k[5..7]) == Civil(n).month + 1
  {
    var t := Civil(n);
    assert Pow10(2) == 100;
    YearTokenDigits(t.year);
    FixedWidth(t.month + 1, 2);
    MonthKeyParts(YearToken(t.year), LeadingZeros(t.month + 1, 2));
  }

  lemma MonthKeyParts(ys: string, ms: string)
    requires |ys| == 4 && |ms| == 2
    ensures var k := ys + "-" + ms; |k| == 7 && k[0..4] == ys && k[5..7] == ms
  {
  }

  /** Days of different months, in the years 0001 to 9999, have different `yyyy-MM` keys. */
  lemma MonthKeyInjective(a: int, b: int)
    requires 1 <= Civil(a).year <= 9999 && 1 <= Civil(b).year <= 9999
    requires MonthKey(a) == MonthKey(b)
    ensures Civil(a).year == Civil(b).year && Civil(a).month == Civil(b).month
  {
    MonthKeyFields(a);
    MonthKeyFields(b);
  }

  /** Days of different years, in the years 0001 to 9999, have different `yyyy` keys. */
  lemma YearKeyInjective(a: int, b: int)
    requires 1 <= Civil(a).year <= 9999 && 1 <= Civil(b).year <= 9999
    requires YearKey(a) == YearKey(b)
    ensures Civil(a).year == Civil(b).year
  {
    YearTokenDigits(Civil(a).year);
    YearTokenDigits(Civil(b).year);
  }

  // ---------------------------------------------------------------------
  // Order of keys as text

  /**
   * JavaScript's `<` on two texts of one length: at the first position where
   * they differ, `a` has the smaller character.
   */
  predicate TextBefore(a: string, b: string) {
    |a| == |b| && exists k :: 0 <= k < |a| && a[..k] == b[..k] && a[k] < b[k]
  }

  /** Digit strings of one width compare as text as their values compare. */
  lemma {:induction false} DigitsBefore(a: string, b: string, width: nat)
    requires |a| == width && |b| == width && AllDigits(a) && AllDigits(b)
    requires DigitsValue(a) < DigitsValue(b)
    ensures TextBefore(a, b)
    decreases width
  {
    var a', b' := a[..width - 1], b[..width - 1];
    var da, db := a[width - 1] as int - '0' as int, b[width - 1] as int - '0' as int;
    assert IsDigit(a[width - 1]) && IsDigit(b[width - 1]);
    assert DigitsValue(a) == DigitsValue(a') * 10 + da;
    assert DigitsValue(b) == DigitsValue(b') * 10 + db;
    if DigitsValue(a') == DigitsValue(b') {
      WidthDigitsUnique(a', b', width - 1);
      assert a[..width - 1] == b[..width - 1] && a[width - 1] < b[width - 1];
    } else {
      DigitsBefore(a', b', width - 1);
      var k :| 0 <= k < |a'| && a'[..k] == b'[..k] && a'[k] < b'[k];
      assert a[..k] == a'[..k] && b[..k] == b'[..k];
    }
  }

  /** Texts of one length that differ keep their order whatever equal-length tails follow. */
  lemma TextBeforeAppend(a: string, b: string, x: string, y: string)
    requires TextBefore(a, b) && |x| == |y|
    ensures TextBefore(a + x, b + y)
  {
    var k :| 0 <= k < |a| && a[..k] == b[..k] && a[k] < b[k];
    assert (a + x)[..k] == a[..k] && (b + y)[..k] == b[..k];
  }

  /** A shared prefix keeps the order of what follows it. */
  lemma TextBeforePrefix(p: string, x: string, y: string)
    requires TextBefore(x, y)
    ensures TextBefore(p + x, p + y)
  {
    var k :| 0 <= k < |x| && x[..k] == y[..k] && x[k] < y[k];
    assert (p + x)[..|p| + k] == p + x[..k];
    assert (p + y)[..|p| + k] == p + y[..k];
  }

  /** Text that comes before another is not equal to it. */
  lemma TextBeforeDiffers(a: string, b: string)
    requires TextBefore(a, b)
    ensures a != b
  {
    var k :| 0 <= k < |a| && a[..k] == b[..k] && a[k] < b[k];
  }

  /** For the years 0001 to 9999, an earlier year has the earlier `yyyy` token. */
  lemma YearTokenOrder(y: int, z: int)
    requires 1 <= y < z <= 9999
    ensures TextBefore(YearToken(y), YearToken(z))
  {
    YearTokenDigits(y);
    YearTokenDigits(z);
    DigitsBefore(YearToken(y), YearToken(z), 4);
  }

  /** Two-digit fields (months, days of the month) compare as text as their values compare. */
  lemma TwoDigitOrder(m: int, n: int)
    requires 0 <= m < n < 100
    ensures TextBefore(LeadingZeros(m, 2), LeadingZeros(n, 2))
    ensures |LeadingZeros(m, 2)| == 2 && |LeadingZeros(n, 2)| == 2
  {
    assert Pow10(2) == 100;
    FixedWidth(m, 2);
    FixedWidth(n, 2);
    DigitsBefore(LeadingZeros(m, 2), LeadingZeros(n, 2), 2);
  }

  /** Within the years 0001 to 9999, a later year has the later `yyyy` key. */
  lemma YearKeyOrder(a: int, b: int)
    requires 1 <= Civil(a).year < Civil(b).year <= 9999
    ensures TextBefore(YearKey(a), YearKey(b))
  {
    YearTokenOrder(Civil(a).year, Civil(b).year);
  }

  /** Within the years 0001 to 9999, a day of a later month has the later `yyyy-MM` key. */
  lemma MonthKeyOrder(a: int, b: int)
    requires 1 <= Civil(a).year <= 9999 && 1 <= Civil(b).year <= 9999
    requires MonthIndex(a) < MonthIndex(b)
    ensures TextBefore(MonthKey(a), MonthKey(b))
  {
    var s, t := Civil(a), Civil(b);
    var ms, mt := LeadingZeros(s.month + 1, 2), LeadingZeros(t.month + 1, 2);
    assert MonthKey(a) == YearToken(s.year) + ("-" + ms);
    assert MonthKey(b) == YearToken(t.year) + ("-" + mt);
    assert Pow10(2) == 100;
    FixedWidth(s.month + 1, 2);
    FixedWidth(t.month + 1, 2);
    if s.year < t.year {
      YearTokenOrder(s.year, t.year);
      TextBeforeAppend(YearToken(s.year), YearToken(t.year), "-" + ms, "-" + mt);
    } else {
      TwoDigitOrder(s.month + 1, t.month + 1);
      TextBeforePrefix(YearToken(s.year) + "-", ms, mt);
    }
  }

  /** Within the years 0001 to 9999, a later day has the later `yyyy-MM-dd` key. */
  lemma DateKeyOrder(a: int, b: int)
    requires 1 <= Civil(a).year <= 9999 && 1 <= Civil(b).year <= 9999
    requires a < b
    ensures TextBefore(DateKey(a), DateKey(b))
  {
    DayOfOrder(Civil(a), Civil(b));
    YmdKeyOrder(Civil(a), Civil(b));
  }

  /** Keys of calendar triples follow the triples' order, year first. */
  lemma YmdKeyOrder(s: Ymd, t: Ymd)
    requires ValidYmd(s) && ValidYmd(t) && 1 <= s.year <= 9999 && 1 <= t.year <= 9999
    requires YmdBefore(s, t)
    ensures TextBefore(YmdKey(s), YmdKey(t))
  {
    var ms, mt := LeadingZeros(s.month + 1, 2), LeadingZeros(t.month + 1, 2);
    var ds, dt := LeadingZeros(s.day, 2), LeadingZeros(t.day, 2);
    assert Pow10(2) == 100;
    FixedWidth(s.month + 1, 2);
    FixedWidth(t.month + 1, 2);
    FixedWidth(s.day, 2);
    FixedWidth(t.day, 2);
    if s.year < t.year {
      YearTokenOrder(s.year, t.year);
      KeyTails(YearToken(s.year), YearToken(t.year), ms, mt, ds, dt);
    } else if s.month < t.month {
      TwoDigitOrder(s.month + 1, t.month + 1);
      KeyMonths(YearToken(s.year) + "-", ms, mt, ds, dt);
    } else {
      TwoDigitOrder(s.day, t.day);
      KeyDays(YearToken(s.year) + "-" + ms + "-", ds, dt);
    }
  }

  lemma KeyTails(p: string, q: string, ms: string, mt: string, ds: string, dt: string)
    requires TextBefore(p, q) && |ms| == |mt| && |ds| == |dt|
    ensures TextBefore(p + "-" + ms + "-" + ds, q + "-" + mt + "-" + dt)
  {
    assert p + "-" + ms + "-" + ds == p + ("-" + ms + "-" + ds);
    assert q + "-" + mt + "-" + dt == q + ("-" + mt + "-" + dt);
    TextBeforeAppend(p, q, "-" + ms + "-" + ds, "-" + mt + "-" + dt);
  }

  lemma KeyMonths(p: string, ms: string, mt: string, ds: string, dt: string)
    requires TextBefore(ms, mt) && |ds| == |dt|
    ensures TextBefore(p + ms + "-" + ds, p + mt + "-" + dt)
  {
    assert p + ms + "-" + ds == p + (ms + ("-" + ds));
    assert p + mt + "-" + dt == p + (mt + ("-" + dt));
    TextBeforeAppend(ms, mt, "-" + ds, "-" + dt);
    TextBeforePrefix(p, ms + ("-" + ds), mt + ("-" + dt));
  }

  lemma KeyDays(p: string, ds: string, dt: string)
    requires TextBefore(ds, dt)
    ensures TextBefore(p + ds, p + dt)
  {
    TextBeforePrefix(p, ds, dt);
  }

  /** The key of 2024-01-01, written out. */
  lemma KeyOfNewYear2024(a: int)
    requires a == DayOf(2024, 0, 1)
    ensures DateKey(a) == "2024-01-01"
  {
    DateKeyOfYmd(Ymd(2024, 0, 1), a);
    YmdKeysOfJanuary2024();
  }

  /** The key of 2024-01-07, written out. */
  lemma KeyOfJanuarySeventh2024(b: int)
    requires b == DayOf(2024, 0, 7)
    ensures DateKey(b) == "2024-01-07"
  {
    DateKeyOfYmd(Ymd(2024, 0, 7), b);
    YmdKeysOfJanuary2024();
  }

  /** The key of a valid calendar triple's day is written from the triple's own fields. */
  lemma DateKeyOfYmd(t: Ymd, n: int)
    requires ValidYmd(t) && n == DayOf(t.year, t.month, t.day)
    ensures DateKey(n) == YmdKey(t)
  {
    CivilOfDayOf(t);
  }

  lemma YmdKeysOfJanuary2024()
    ensures YmdKey(Ymd(2024, 0, 1)) == "2024-01-01" && YmdKey(Ymd(2024, 0, 7)) == "2024-01-07"
  {
    assert Numeral(2) == "2";
    assert Numeral(20) == "20";
    assert Numeral(202) == "202";
    assert Numeral(2024) == "2024";
    assert LeadingZeros(2024, 4) == "2024";
    assert ['0'] + "1" == "01" && PadZeros("01", 2) == "01" && PadZeros("1", 2) == "01";
    assert LeadingZeros(1, 2) == "01";
    assert ['0'] + "7" == "07" && PadZeros("07", 2) == "07" && PadZeros("7", 2) == "07";
    assert LeadingZeros(7, 2) == "07";
  }
}
