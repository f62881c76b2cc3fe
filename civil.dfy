/** Proleptic Gregorian civil dates, the JavaScript epoch day numbering used
    for every stored date, weekdays (`getDay()`), month stepping
    (`setMonth`) and the `YYYY-MM-DD` strings that travel in call-back data. */
module Civil {
  import opened Wrappers
  import opened Text

  /** A civil date: year, month 1..12, day of month. */
  datatype Date = Date(year: int, month: int, day: int)

  predicate IsLeapYear(y: int) {
    y % 4 == 0 && (y % 100 != 0 || y % 400 == 0)
  }

  function DaysInMonth(y: int, m: int): (n: int)
    requires 1 <= m <= 12
    ensures 28 <= n <= 31
    ensures m == 2 ==> (n == 29 <==> IsLeapYear(y))
  {
    if m == 2 then (if IsLeapYear(y) then 29 else 28)
    else if m == 4 || m == 6 || m == 9 || m == 11 then 30
    else 31
  }

  predicate Valid(d: Date) {
    1 <= d.month <= 12 && 1 <= d.day <= DaysInMonth(d.year, d.month)
  }

  /** The number of leap years among 1..y (negative below year 1). */
  function LeapsThrough(y: int): int {
    y / 4 - y / 100 + y / 400
  }

  function DaysBeforeYear(y: int): int {
    365 * (y - 1970) + LeapsThrough(y - 1) - LeapsThrough(1969)
  }

  function DaysBeforeMonth(y: int, m: int): int
    requires 1 <= m <= 12
  {
    var common := [0, 31, 59, 90, 120, 151, 181, 212, 243, 273, 304, 334][m - 1];
    if m > 2 && IsLeapYear(y) then common + 1 else common
  }

  /** The day number of a date: days since 1970-01-01. Every stored date of
      the model is such a number. */
  function DayNumber(d: Date): int
    requires Valid(d)
  {
    DaysBeforeYear(d.year) + DaysBeforeMonth(d.year, d.month) + d.day - 1
  }

  /** `getDay()`: 0 is Sunday; 1970-01-01 was a Thursday. */
  function Weekday(d: Date): (w: int)
    requires Valid(d)
    ensures 0 <= w < 7
  {
    (DayNumber(d) + 4) % 7
  }

  /** The first day of the month after (y, m). */
  function NextMonthStart(y: int, m: int): (r: Date)
    requires 1 <= m <= 12
    ensures Valid(r) && r.day == 1
  {
    if m < 12 then Date(y, m + 1, 1) else Date(y + 1, 1, 1)
  }

  /** The calendar successor of a date. */
  function Next(d: Date): Date
    requires Valid(d)
  {
    if d.day < DaysInMonth(d.year, d.month) then d.(day := d.day + 1)
    else NextMonthStart(d.year, d.month)
  }

  lemma DivStep(y: int)
    ensures y / 4 - (y - 1) / 4 == if y % 4 == 0 then 1 else 0
    ensures y / 100 - (y - 1) / 100 == if y % 100 == 0 then 1 else 0
    ensures y / 400 - (y - 1) / 400 == if y % 400 == 0 then 1 else 0
  {
  }

  /** Year y contributes exactly one leap day to the count when it is a leap year. */
  lemma LeapsStep(y: int)
    ensures LeapsThrough(y) - LeapsThrough(y - 1) == if IsLeapYear(y) then 1 else 0
  {
    DivStep(y);
    DivisorChain(y);
    var a, b, c := y / 4 - (y - 1) / 4, y / 100 - (y - 1) / 100, y / 400 - (y - 1) / 400;
    assert LeapsThrough(y) - LeapsThrough(y - 1) == a - b + c;
  }

  lemma DivisorChain(y: int)
    ensures y % 400 == 0 ==> y % 100 == 0
    ensures y % 100 == 0 ==> y % 4 == 0
  {
    if y % 400 == 0 {
      assert y / 100 == 4 * (y / 400);
    }
    if y % 100 == 0 {
      assert y / 4 == 25 * (y / 100);
    }
  }

  lemma YearLength(y: int)
    ensures DaysBeforeYear(y + 1) - DaysBeforeYear(y) == if IsLeapYear(y) then 366 else 365
  {
    LeapsStep(y);
  }

  /** Consecutive months are numbered consecutively. */
  lemma MonthStartNumbering(y: int, m: int)
    requires 1 <= m <= 12
    ensures DayNumber(NextMonthStart(y, m)) == DayNumber(Date(y, m, 1)) + DaysInMonth(y, m)
  {
    if m == 12 {
      YearLength(y);
    }
  }

  /** The day numbering counts the calendar without gaps or repeats. */
  lemma NextIsNextDay(d: Date)
    requires Valid(d)
    ensures Valid(Next(d)) && DayNumber(Next(d)) == DayNumber(d) + 1
  {
    if d.day == DaysInMonth(d.year, d.month) {
      MonthStartNumbering(d.year, d.month);
    }
  }

  lemma WeekdayNext(d: Date)
    requires Valid(d)
    ensures Weekday(Next(d)) == (Weekday(d) + 1) % 7
  {
    NextIsNextDay(d);
    ModSucc(DayNumber(d) + 4);
  }

  lemma ModSucc(a: int)
    ensures (a + 1) % 7 == (a % 7 + 1) % 7
  {
  }

  lemma EpochIsThursday()
    ensures DayNumber(Date(1970, 1, 1)) == 0 && Weekday(Date(1970, 1, 1)) == 4
  {
  }

  lemma KnownWeekday()
    ensures Weekday(Date(2024, 1, 1)) == 1
  {
  }

  /** The month index 12 * year + (month - 1), which `setMonth` counts in. */
  function MonthIndex(y: int, m: int): int {
    12 * y + (m - 1)
  }

  /** `d.setMonth(d.getMonth() + k)`: the same day of the month k months later;
      when that month is shorter, the surplus days run into the month after it. */
  function AddMonths(d: Date, k: int): (r: Date)
    requires Valid(d)
    ensures Valid(r)
  {
    var idx := MonthIndex(d.year, d.month) + k;
    var y, m := idx / 12, idx % 12 + 1;
    var dim := DaysInMonth(y, m);
    if d.day <= dim then Date(y, m, d.day)
    else NextMonthStart(y, m).(day := d.day - dim)
  }

  /** AddMonths agrees with JavaScript's normalisation of an out-of-range day:
      day d of the target month is the (d - 1)th day after its first day. It
      lands in the target month exactly when the day fits. */
  lemma AddMonthsNormalises(d: Date, k: int)
    requires Valid(d)
    ensures var idx := MonthIndex(d.year, d.month) + k;
            var first := Date(idx / 12, idx % 12 + 1, 1);
            DayNumber(AddMonths(d, k)) == DayNumber(first) + d.day - 1
            && (MonthIndex(AddMonths(d, k).year, AddMonths(d, k).month) == idx
                <==> d.day <= DaysInMonth(first.year, first.month))
  {
    var idx := MonthIndex(d.year, d.month) + k;
    AddMonthsAt(d, k, idx / 12, idx % 12 + 1);
    DayInMonth(idx / 12, idx % 12 + 1, d.day, AddMonths(d, k));
  }

  /** AddMonths lands on month (y, m) of the month index, with the day as is
      or run over into the month after. */
  lemma AddMonthsAt(d: Date, k: int, y: int, m: int)
    requires Valid(d)
    requires y == (MonthIndex(d.year, d.month) + k) / 12 && m == (MonthIndex(d.year, d.month) + k) % 12 + 1
    ensures 1 <= m <= 12 && MonthIndex(y, m) == MonthIndex(d.year, d.month) + k
    ensures AddMonths(d, k) == if d.day <= DaysInMonth(y, m) then Date(y, m, d.day)
                               else NextMonthStart(y, m).(day := d.day - DaysInMonth(y, m))
  {
  }

  /** Day `day` of month (y, m), run over into the next month when it does not fit. */
  lemma DayInMonth(y: int, m: int, day: int, r: Date)
    requires 1 <= m <= 12 && 1 <= day <= 31
    requires r == if day <= DaysInMonth(y, m) then Date(y, m, day)
                  else NextMonthStart(y, m).(day := day - DaysInMonth(y, m))
    ensures Valid(r) && DayNumber(r) == DayNumber(Date(y, m, 1)) + day - 1
    ensures MonthIndex(r.year, r.month) == MonthIndex(y, m) <==> day <= DaysInMonth(y, m)
  {
    MonthStartNumbering(y, m);
  }

  // --- YYYY-MM-DD strings ---

  /** `${y}-${pad2(m)}-${pad2(d)}`, as the date picker writes day cells. */
  function CellIso(d: Date): string {
    IntToString(d.year) + "-" + Pad2(d.month) + "-" + Pad2(d.day)
  }

  /** The year as `toISOString()` writes it: four digits in 0..9999, otherwise
      a sign and six digits. */
  function IsoYear(y: int): string {
    if 0 <= y <= 9999 then PadStart(NatToString(y), 4, '0')
    else (if y < 0 then "-" else "+") + PadStart(NatToString(if y < 0 then -y else y), 6, '0')
  }

  /** `date.toISOString().split('T')[0]`. */
  function IsoDate(d: Date): string {
    IsoYear(d.year) + "-" + Pad2(d.month) + "-" + Pad2(d.day)
  }

  /** Both date strings hold only digits, '-' and '+'. */
  lemma IsoLacks(d: Date, c: char)
    requires !IsDigit(c) && c != '-' && c != '+'
    ensures c !in CellIso(d) && c !in IsoDate(d)
  {
    NumberLacks(d.year, c);
    NumberLacks(d.month, c);
    NumberLacks(d.day, c);
    var y := d.year;
    if 0 <= y <= 9999 {
      DigitsLackChar(NatToString(y), c);
      PadStartLacks(NatToString(y), 4, '0', c);
    } else {
      var n := NatToString(if y < 0 then -y else y);
      DigitsLackChar(n, c);
      PadStartLacks(n, 6, '0', c);
    }
  }

  /** Reads `Y-MM-DD` (unsigned digits, two-digit month and day) as a valid date. */
  function ParseIso(s: string): (r: Option<Date>)
    ensures r.Some? ==> Valid(r.value) && r.value.year >= 0
  {
    var parts := Split(s, "-");
    if |parts| == 3 && |parts[0]| >= 1 && AllDigits(parts[0])
       && |parts[1]| == 2 && AllDigits(parts[1]) && |parts[2]| == 2 && AllDigits(parts[2])
    then
      var d := Date(ParseNat(parts[0]), ParseNat(parts[1]), ParseNat(parts[2]));
      if Valid(d) then Some(d) else None
    else None
  }

  /** The ISO 8601 extended calendar-date shape: YYYY-MM-DD. */
  predicate IsIsoShape(s: string) {
    |s| == 10 && s[4] == '-' && s[7] == '-'
    && AllDigits(s[..4]) && AllDigits(s[5..7]) && AllDigits(s[8..])
  }

  lemma {:induction false} ParseNatZeros(k: nat, s: string)
    requires AllDigits(s)
    ensures AllDigits(Repeat('0', k) + s) && ParseNat(Repeat('0', k) + s) == ParseNat(s)
  {
    if k > 0 {
      var t := Repeat('0', k - 1) + s;
      ParseNatZeros(k - 1, s);
      ParseNatLeadingZero(t);
      assert Repeat('0', k) + s == "0" + t;
    } else {
      assert Repeat('0', k) + s == s;
    }
  }

  lemma PadYear(y: int)
    requires 0 <= y <= 9999
    ensures var p := IsoYear(y); |p| == 4 && AllDigits(p) && ParseNat(p) == y
  {
    var s := NatToString(y);
    ParseNatToString(y);
    if y < 10 { } else if y < 100 { NatToStringLength(y, 2); }
    else if y < 1000 { NatToStringLength(y, 3); } else { NatToStringLength(y, 4); }
    assert |s| <= 4;
    assert IsoYear(y) == Repeat('0', 4 - |s|) + s;
    ParseNatZeros(4 - |s|, s);
  }

  /** Three digit fields joined by '-' split back into those fields. */
  lemma SplitDashes(a: string, b: string, c: string)
    requires AllDigits(a) && AllDigits(b) && AllDigits(c)
    ensures Split(a + "-" + b + "-" + c, "-") == [a, b, c]
  {
    DigitsLackChar(a, '-');
    DigitsLackChar(b, '-');
    DigitsLackChar(c, '-');
    JoinThree(a, b, c, '-');
    SplitJoin([a, b, c], '-');
  }

  /** ParseIso on three digit fields joined by '-'. */
  lemma ParseFields(a: string, b: string, c: string, d: Date)
    requires Valid(d) && d.year >= 0
    requires |a| >= 1 && AllDigits(a) && ParseNat(a) == d.year
    requires |b| == 2 && AllDigits(b) && ParseNat(b) == d.month
    requires |c| == 2 && AllDigits(c) && ParseNat(c) == d.day
    ensures ParseIso(a + "-" + b + "-" + c) == Some(d)
  {
    SplitDashes(a, b, c);
  }

  /** The day cells of the Gregorian grid carry a date that reads back exactly. */
  lemma ParseCellIso(d: Date)
    requires Valid(d) && d.year >= 0
    ensures ParseIso(CellIso(d)) == Some(d)
  {
    var y, m, dd := NatToString(d.year), Pad2(d.month), Pad2(d.day);
    var s := y + "-" + m + "-" + dd;
    assert CellIso(d) == s;
    ParseNatToString(d.year);
    Pad2Digits(d.month);
    Pad2Digits(d.day);
    ParseFields(y, m, dd, d);
    assert ParseIso(s) == Some(d);
  }

  /** The navigation date carried by the grid reads back exactly, and has the
      ISO 8601 extended calendar-date shape. */
  lemma ParseIsoDate(d: Date)
    requires Valid(d) && 0 <= d.year <= 9999
    ensures ParseIso(IsoDate(d)) == Some(d)
    ensures IsIsoShape(IsoDate(d))
  {
    var y, m, dd := IsoYear(d.year), Pad2(d.month), Pad2(d.day);
    assert IsoDate(d) == y + "-" + m + "-" + dd;
    PadYear(d.year);
    Pad2Digits(d.month);
    Pad2Digits(d.day);
    ParseFields(y, m, dd, d);
    IsoShapeOf(y, m, dd);
  }

  lemma IsoShapeOf(y: string, m: string, dd: string)
    requires |y| == 4 && |m| == 2 && |dd| == 2
    requires AllDigits(y) && AllDigits(m) && AllDigits(dd)
    ensures IsIsoShape(y + "-" + m + "-" + dd)
  {
    var s := y + "-" + m + "-" + dd;
    assert s[..4] == y;
    assert s[5..7] == m;
    assert s[8..] == dd;
  }

  /** For four-digit years the cell string is the zero-padded ISO 8601 date. */
  lemma CellIsoIsIsoDate(d: Date)
    requires Valid(d) && 1000 <= d.year <= 9999
    ensures CellIso(d) == IsoDate(d) && IsIsoShape(CellIso(d))
  {
    NatToStringLength(d.year, 4);
    assert IsoYear(d.year) == NatToString(d.year);
    assert IntToString(d.year) == NatToString(d.year);
    assert CellIso(d) == IsoDate(d);
    ParseIsoDate(d);
  }
}
