/** The Solar Hijri (Jalali, "shamsi") calendar: the picker's own leap and
    month-length rule, the conversion library as an abstract pair of
    functions, and the `y/mm/dd` display format with its parser. */
module Jalali {
  import opened Wrappers
  import opened Text
  import Civil

  /** A Jalali date: year, month 1..12, day of month. */
  datatype JDate = JDate(year: int, month: int, day: int)

  /** JavaScript's `%`: the remainder takes the sign of the dividend. */
  function JsRem(a: int, b: int): (r: int)
    requires b > 0
    ensures -b < r < b
    ensures a >= 0 ==> r == a % b
    ensures a < 0 ==> r <= 0
  {
    if a >= 0 then a % b else -((-a) % b)
  }

  /** The remainders of `year % 33` that make a leap year. */
  const LeapRemainders: seq<int> := [1, 5, 9, 13, 17, 22, 26, 30]

  /** `isLeapJalali`: the 33-year rule of the date picker. */
  predicate IsLeap(y: int) {
    JsRem(y, 33) in LeapRemainders
  }

  /** Days in Jalali month m of year y, as the date picker computes it. */
  function MonthLength(y: int, m: int): (n: int)
    ensures 1 <= m <= 6 ==> n == 31
    ensures 7 <= m <= 11 ==> n == 30
    ensures m == 12 ==> (n == 30 <==> IsLeap(y)) && (n == 29 <==> !IsLeap(y))
  {
    if m <= 6 then 31
    else if m == 12 && !IsLeap(y) then 29
    else 30
  }

  /** The days of months 1..k of year y. */
  function DaysThroughMonth(y: int, k: nat): int
    requires k <= 12
  {
    if k == 0 then 0 else DaysThroughMonth(y, k - 1) + MonthLength(y, k)
  }

  /** The first six months have 31 days, the next five 30. */
  lemma {:induction false} DaysThroughEarlyMonths(y: int, k: nat)
    requires k <= 11
    ensures DaysThroughMonth(y, k) == if k <= 6 then 31 * k else 186 + 30 * (k - 6)
  {
    if k > 0 {
      DaysThroughEarlyMonths(y, k - 1);
    }
  }

  /** The twelve month lengths make a year of 365 days, 366 in a leap year. */
  lemma YearLength(y: int)
    ensures DaysThroughMonth(y, 12) == if IsLeap(y) then 366 else 365
  {
    DaysThroughEarlyMonths(y, 11);
  }

  /** For non-negative years the rule repeats every 33 years. */
  lemma LeapPeriodic(y: int)
    requires y >= 0
    ensures IsLeap(y + 33) == IsLeap(y)
  {
    assert (y + 33) % 33 == y % 33;
  }

  /** Because `%` keeps the dividend's sign, no negative year is a leap year. */
  lemma NegativeYearsNotLeap(y: int)
    requires y < 0
    ensures !IsLeap(y) && MonthLength(y, 12) == 29
  {
  }

  predicate ValidJDate(j: JDate) {
    1 <= j.month <= 12 && 1 <= j.day <= MonthLength(j.year, j.month)
  }

  /** The conversion library (`gregorianToJalali`, `jalaliToGregorian`),
      whose code is not part of this model: a pair of functions. */
  datatype Converter = Converter(toJalali: Civil.Date -> JDate, toGregorian: JDate -> Civil.Date)

  /** The library's two directions, named so that the assumptions below
      are used only where a proof asks for them. */
  function JalaliOf(c: Converter, g: Civil.Date): JDate {
    c.toJalali(g)
  }

  function GregorianOf(c: Converter, j: JDate): Civil.Date {
    c.toGregorian(j)
  }

  /** What the model assumes of the library: it maps valid dates to valid
      dates, the two directions are mutual inverses there, and the days of
      a Jalali month are consecutive Gregorian days. */
  ghost predicate Lawful(c: Converter) {
    && (forall g {:trigger JalaliOf(c, g)} :: Civil.Valid(g) ==>
          ValidJDate(JalaliOf(c, g)) && GregorianOf(c, JalaliOf(c, g)) == g)
    && (forall j {:trigger GregorianOf(c, j)} :: ValidJDate(j) ==>
          Civil.Valid(GregorianOf(c, j)) && JalaliOf(c, GregorianOf(c, j)) == j)
    && (forall y, m, d {:trigger GregorianOf(c, JDate(y, m, d))} ::
          1 <= m <= 12 && 1 <= d <= MonthLength(y, m) ==>
            Civil.Valid(GregorianOf(c, JDate(y, m, d))) &&
            Civil.DayNumber(GregorianOf(c, JDate(y, m, d))) == Civil.DayNumber(GregorianOf(c, JDate(y, m, 1))) + d - 1)
  }

  /** A lawful library maps a valid date to a valid Jalali date and back. */
  lemma LawfulDate(c: Converter, g: Civil.Date)
    requires Lawful(c) && Civil.Valid(g)
    ensures ValidJDate(JalaliOf(c, g)) && GregorianOf(c, JalaliOf(c, g)) == g
  {
    assert GregorianOf(c, JalaliOf(c, g)) == g;
  }

  /** What a lawful library promises of day d of Jalali month (y, m). */
  lemma LawfulDay(c: Converter, y: int, m: int, d: int)
    requires Lawful(c) && 1 <= m <= 12 && 1 <= d <= MonthLength(y, m)
    ensures var g, first := GregorianOf(c, JDate(y, m, d)), GregorianOf(c, JDate(y, m, 1));
            Civil.Valid(g) && Civil.Valid(first) && JalaliOf(c, g) == JDate(y, m, d)
            && Civil.DayNumber(g) == Civil.DayNumber(first) + d - 1
  {
    assert ValidJDate(JDate(y, m, d));
    var g := GregorianOf(c, JDate(y, m, d));
    assert JalaliOf(c, g) == JDate(y, m, d);
  }

  /** `${year}/${pad2(month)}/${pad2(day)}`. */
  function FormatShamsi(j: JDate): string {
    IntToString(j.year) + "/" + Pad2(j.month) + "/" + Pad2(j.day)
  }

  /** `toShamsi(date)`. */
  function ToShamsi(c: Converter, g: Civil.Date): string {
    FormatShamsi(JalaliOf(c, g))
  }

  /** `shamsiDate.split('/').map(Number)`, destructured into three fields;
      None where a field is missing or not a number. */
  function ParseShamsi(s: string): Option<JDate> {
    var parts := Split(s, "/");
    if |parts| < 3 then None
    else
      match (JsNumber(parts[0]), JsNumber(parts[1]), JsNumber(parts[2]))
      case (Some(y), Some(m), Some(d)) => Some(JDate(y, m, d))
      case _ => None
  }

  /** `toGregorian(shamsiDate)`. */
  function ToGregorian(c: Converter, s: string): Option<Civil.Date> {
    match ParseShamsi(s)
    case None => None
    case Some(j) => Some(GregorianOf(c, j))
  }

  /** The display string splits on '/' into the year and the two padded fields. */
  lemma ShamsiFields(j: JDate)
    ensures Split(FormatShamsi(j), "/") == [IntToString(j.year), Pad2(j.month), Pad2(j.day)]
  {
    var a, b, d := IntToString(j.year), Pad2(j.month), Pad2(j.day);
    NumberLacks(j.year, '/');
    NumberLacks(j.month, '/');
    NumberLacks(j.day, '/');
    JoinThree(a, b, d, '/');
    SplitJoin([a, b, d], '/');
  }

  /** Parsing the display string recovers the Jalali date it shows. */
  lemma ParseFormatShamsi(j: JDate)
    ensures ParseShamsi(FormatShamsi(j)) == Some(j)
  {
    ShamsiFields(j);
    JsNumberIntToString(j.year);
    JsNumberPad2(j.month);
    JsNumberPad2(j.day);
  }

  /** `toGregorian(toShamsi(date))` is the date itself, given a lawful library. */
  lemma ShamsiRoundTrip(c: Converter, g: Civil.Date)
    requires Lawful(c) && Civil.Valid(g)
    ensures ToGregorian(c, ToShamsi(c, g)) == Some(g)
  {
    LawfulDate(c, g);
    ParseFormatShamsi(JalaliOf(c, g));
  }
}
