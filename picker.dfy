/** `generateCalendar`: the inline-keyboard month grid of the date picker,
    Gregorian or Jalali, and the navigation step of `handleCalendarNav`. */
module DatePicker {
  import opened Wrappers
  import opened Text
  import Civil
  import Jalali
  import Callbacks

  /** What a button shows. Month names, weekday letters and emoji are text
      of the catalog kind and are kept as the facts they render. */
  datatype Label =
    | Title(shamsi: bool, month: int, year: int)
    | Heading(letter: string)
    | DayOfMonth(n: int)
    | Blank
    | PrevMonth
    | NextMonth

  datatype Button = Button(shows: Label, data: string)

  type Row = seq<Button>

  /** `{ text: ' ', callback_data: 'ignore' }`. */
  const Filler: Button := Button(Blank, "ignore")

  function Blanks(k: nat): (r: Row)
    ensures |r| == k && forall i :: 0 <= i < k ==> r[i] == Filler
  {
    seq(k, _ => Filler)
  }

  predicate IsShamsi(pref: string) {
    pref == "shamsi"
  }

  /** The weekday letters: Saturday first for the Jalali grid, Sunday first otherwise. */
  function Headers(pref: string): (h: seq<string>)
    ensures |h| == 7
  {
    if IsShamsi(pref) then ["ش", "ی", "د", "س", "چ", "پ", "ج"]
    else ["S", "M", "T", "W", "T", "F", "S"]
  }

  function HeaderRow(pref: string): (r: Row)
    ensures |r| == 7
    ensures forall i :: 0 <= i < 7 ==> r[i] == Button(Heading(Headers(pref)[i]), "ignore")
  {
    var h := Headers(pref);
    seq(7, i requires 0 <= i < 7 => Button(Heading(h[i]), "ignore"))
  }

  /** The month a grid shows: its title, the number of leading fillers, and
      the `YYYY-MM-DD` string each day cell carries (day i + 1 at index i). */
  datatype MonthView = MonthView(title: Label, offset: nat, dates: seq<string>)

  /** The Gregorian month of `date`: the 1st's weekday leads, Sunday = 0. */
  function GregorianView(date: Civil.Date): (v: MonthView)
    requires Civil.Valid(date)
    ensures v.offset < 7 && 28 <= |v.dates| <= 31
  {
    var y, m := date.year, date.month;
    MonthView(Title(false, m, y), Civil.Weekday(Civil.Date(y, m, 1)) as nat,
              seq(Civil.DaysInMonth(y, m), i => Civil.CellIso(Civil.Date(y, m, i + 1))))
  }

  /** The Jalali month containing `date`: the 1st's weekday shifted so that
      Saturday leads; each cell carries the Gregorian date of its day. */
  function ShamsiView(date: Civil.Date, c: Jalali.Converter): (v: MonthView)
    requires Civil.Valid(date) && Jalali.Lawful(c)
    ensures v.offset < 7 && 29 <= |v.dates| <= 31
  {
    var j := Jalali.JalaliOf(c, date);
    Jalali.LawfulDate(c, date);
    Jalali.LawfulDay(c, j.year, j.month, 1);
    var first := Jalali.GregorianOf(c, Jalali.JDate(j.year, j.month, 1));
    MonthView(Title(true, j.month, j.year), ((Civil.Weekday(first) + 1) % 7) as nat,
              seq(Jalali.MonthLength(j.year, j.month),
                  i => Civil.CellIso(Jalali.GregorianOf(c, Jalali.JDate(j.year, j.month, i + 1)))))
  }

  function View(pref: string, date: Civil.Date, c: Jalali.Converter): (v: MonthView)
    requires Civil.Valid(date) && (IsShamsi(pref) ==> Jalali.Lawful(c))
    ensures v.offset < 7
  {
    if IsShamsi(pref) then ShamsiView(date, c) else GregorianView(date)
  }

  /** The day cells: day i + 1 selects its date for the given log type. */
  function DayCells(kind: string, dates: seq<string>): (r: Row)
    ensures |r| == |dates|
    ensures forall i :: 0 <= i < |dates| ==>
              r[i] == Button(DayOfMonth(i + 1), Callbacks.SelectData(kind, dates[i]))
  {
    seq(|dates|, i requires 0 <= i < |dates| => Button(DayOfMonth(i + 1), Callbacks.SelectData(kind, dates[i])))
  }

  /** The fillers that complete the last week. */
  function Pad(filled: nat): (p: nat)
    ensures p < 7 && (filled + p) % 7 == 0
  {
    (7 - filled % 7) % 7
  }

  /** The nav row: the reference date travels unchanged in both buttons. */
  function NavRow(kind: string, pref: string, date: Civil.Date): Row {
    var navDate := Civil.IsoDate(date);
    [Button(PrevMonth, Callbacks.NavData(kind, pref, navDate, "prev")),
     Button(NextMonth, Callbacks.NavData(kind, pref, navDate, "next"))]
  }

  /** The rows laid end to end. */
  function Flatten(rows: seq<Row>): Row {
    if |rows| == 0 then [] else Flatten(rows[..|rows| - 1]) + rows[|rows| - 1]
  }

  predicate AllWeeks(rows: seq<Row>) {
    forall r :: 0 <= r < |rows| ==> |rows[r]| == 7
  }

  /** The body of a grid: whole weeks holding the leading fillers, the day
      cells and the trailing fillers, in that order. */
  predicate IsBody(body: seq<Row>, v: MonthView, kind: string) {
    AllWeeks(body)
    && Flatten(body) == Blanks(v.offset) + DayCells(kind, v.dates) + Blanks(Pad(v.offset + |v.dates|))
  }

  lemma FlattenAppend(rows: seq<Row>, w: Row)
    ensures Flatten(rows + [w]) == Flatten(rows) + w
  {
    assert (rows + [w])[..|rows|] == rows;
  }

  lemma {:induction false} FlattenLength(rows: seq<Row>)
    requires AllWeeks(rows)
    ensures |Flatten(rows)| == 7 * |rows|
  {
    if |rows| > 0 {
      FlattenLength(rows[..|rows| - 1]);
    }
  }

  /** Cell `col` of week `r` is cell 7r + col of the flattened body. */
  lemma {:induction false} FlattenIndex(rows: seq<Row>, r: nat, col: nat)
    requires AllWeeks(rows) && r < |rows| && col < 7
    ensures 7 * r + col < |Flatten(rows)| && Flatten(rows)[7 * r + col] == rows[r][col]
  {
    var init := rows[..|rows| - 1];
    FlattenLength(init);
    if r < |rows| - 1 {
      FlattenIndex(init, r, col);
    }
  }

  lemma WeekCount(total: nat, q: nat, w: nat)
    requires total == 7 * q + w && w < 7
    ensures total % 7 == w
  {
  }

  /** Closing a full week keeps the cells laid so far and the week shape. */
  lemma CloseWeek(body: seq<Row>, week: Row)
    requires AllWeeks(body) && |week| == 7
    ensures AllWeeks(body + [week]) && Flatten(body + [week]) == Flatten(body) + week
  {
    FlattenAppend(body, week);
  }

  lemma PushCell(laid: Row, week: Row, x: Button, prefix: Row)
    requires laid + week == prefix
    ensures laid + (week + [x]) == prefix + [x]
  {
  }

  lemma PrefixStep(cells: Row, k: nat)
    requires 1 <= k <= |cells|
    ensures cells[..k] == cells[..k - 1] + [cells[k - 1]]
  {
  }

  /** The last week padded with fillers completes the body. */
  lemma PadLastWeek(laid: Row, week: Row, front: Row, cells: Row, filled: nat)
    requires laid + week == front + cells && |week| < 7 && filled == |front| + |cells|
    requires |laid| % 7 == 0 && (|laid| + |week|) % 7 == filled % 7
    ensures |week| > 0 ==> 7 - |week| == Pad(filled)
    ensures |week| == 0 ==> laid == front + cells + Blanks(Pad(filled))
  {
    if |week| == 0 {
      assert Blanks(Pad(filled)) == [];
    }
  }

  /** The day loop of `generateCalendar`: starting from `offset` fillers,
      push the cell of each day, close every full week, then pad the last. */
  method LayOutDays(offset: nat, kind: string, dates: seq<string>) returns (body: seq<Row>)
    requires offset < 7
    ensures AllWeeks(body)
    ensures Flatten(body) == Blanks(offset) + DayCells(kind, dates) + Blanks(Pad(offset + |dates|))
  {
    ghost var cells := DayCells(kind, dates);
    var week := Blanks(offset);
    body := [];
    for day := 1 to |dates| + 1
      invariant |week| < 7 && AllWeeks(body)
      invariant Flatten(body) + week == Blanks(offset) + cells[..day - 1]
    {
      var x := Button(DayOfMonth(day), Callbacks.SelectData(kind, dates[day - 1]));
      PrefixStep(cells, day);
      PushCell(Flatten(body), week, x, Blanks(offset) + cells[..day - 1]);
      week := week + [x];
      if |week| == 7 {
        CloseWeek(body, week);
        body := body + [week];
        week := [];
      }
    }
    assert cells[..|cells|] == cells;
    FinishBody(body, week, Blanks(offset), cells, offset + |dates|);
    if |week| > 0 {
      body := body + [week + Blanks(7 - |week|)];
    }
  }

  /** After the last day: the open week, if any, padded with fillers closes
      the body. */
  lemma FinishBody(body: seq<Row>, week: Row, front: Row, cells: Row, filled: nat)
    requires AllWeeks(body) && Flatten(body) + week == front + cells && |week| < 7
    requires filled == |front| + |cells|
    ensures |week| > 0 ==> var last := week + Blanks(7 - |week|);
              AllWeeks(body + [last]) && Flatten(body + [last]) == front + cells + Blanks(Pad(filled))
    ensures |week| == 0 ==> Flatten(body) == front + cells + Blanks(Pad(filled))
  {
    FlattenLength(body);
    PadLastWeek(Flatten(body), week, front, cells, filled);
    if |week| > 0 {
      var last := week + Blanks(7 - |week|);
      CloseWeek(body, last);
      assert Flatten(body) + last == (Flatten(body) + week) + Blanks(7 - |week|);
    }
  }

  /** A keyboard in the shape `generateCalendar` promises: the title row, the
      weekday row, the weeks of the month and the nav row. */
  ghost predicate IsCalendar(keyboard: seq<Row>, kind: string, pref: string, date: Civil.Date, c: Jalali.Converter)
    requires Civil.Valid(date) && (IsShamsi(pref) ==> Jalali.Lawful(c))
  {
    && |keyboard| >= 3
    && keyboard[0] == [Button(View(pref, date, c).title, "ignore")]
    && keyboard[1] == HeaderRow(pref)
    && keyboard[|keyboard| - 1] == NavRow(kind, pref, date)
    && IsBody(keyboard[2..|keyboard| - 1], View(pref, date, c), kind)
  }

  /** `generateCalendar(type, pref, date)`: a title row, the weekday row, the
      weeks of the month and the nav row. */
  method GenerateCalendar(kind: string, pref: string, date: Civil.Date, c: Jalali.Converter)
    returns (keyboard: seq<Row>)
    requires Civil.Valid(date) && (IsShamsi(pref) ==> Jalali.Lawful(c))
    ensures |keyboard| >= 3
    ensures keyboard[0] == [Button(View(pref, date, c).title, "ignore")]
    ensures keyboard[1] == HeaderRow(pref)
    ensures keyboard[|keyboard| - 1] == NavRow(kind, pref, date)
    ensures IsBody(keyboard[2..|keyboard| - 1], View(pref, date, c), kind)
  {
    keyboard := MonthKeyboard(kind, pref, date, View(pref, date, c));
  }

  /** The rows of `generateCalendar` for the month view `v`. */
  method MonthKeyboard(kind: string, pref: string, date: Civil.Date, v: MonthView)
    returns (keyboard: seq<Row>)
    requires v.offset < 7
    ensures |keyboard| >= 3
    ensures keyboard[0] == [Button(v.title, "ignore")]
    ensures keyboard[1] == HeaderRow(pref)
    ensures keyboard[|keyboard| - 1] == NavRow(kind, pref, date)
    ensures IsBody(keyboard[2..|keyboard| - 1], v, kind)
  {
    var body := LayOutDays(v.offset, kind, v.dates);
    var title := [Button(v.title, "ignore")];
    var header := HeaderRow(pref);
    var nav := NavRow(kind, pref, date);
    keyboard := [title, header] + body + [nav];
    Assemble(title, header, body, nav);
  }

  lemma Assemble(title: Row, header: Row, body: seq<Row>, nav: Row)
    ensures var k := [title, header] + body + [nav];
            |k| == |body| + 3 && k[0] == title && k[1] == header
            && k[|k| - 1] == nav && k[2..|k| - 1] == body
  {
    var k := [title, header] + body + [nav];
    assert k[2..|k| - 1] == body;
  }

  // --- Properties of the grid ---

  /** Day d sits in week (offset + d - 1) / 7, column (offset + d - 1) % 7. */
  lemma GridPlacement(body: seq<Row>, v: MonthView, kind: string, d: int)
    requires IsBody(body, v, kind) && 1 <= d <= |v.dates|
    ensures var p := v.offset + d - 1;
            p / 7 < |body|
            && body[p / 7][p % 7] == Button(DayOfMonth(d), Callbacks.SelectData(kind, v.dates[d - 1]))
  {
    var p := v.offset + d - 1;
    var flat := Flatten(body);
    FlattenLength(body);
    assert flat[p] == DayCells(kind, v.dates)[d - 1];
    FlattenIndex(body, p / 7, p % 7);
  }

  /** Reading the body row by row, a cell shows day k exactly at position
      offset + k - 1: each day appears once and the days run in order. */
  lemma DaysOnceInOrder(body: seq<Row>, v: MonthView, kind: string, p: nat, k: int)
    requires IsBody(body, v, kind) && p < |Flatten(body)|
    ensures Flatten(body)[p].shows == DayOfMonth(k) <==> v.offset <= p < v.offset + |v.dates| && k == p - v.offset + 1
  {
    var flat := Flatten(body);
    var n := |v.dates|;
    if p < v.offset {
      assert flat[p] == Filler;
    } else if p < v.offset + n {
      assert flat[p] == DayCells(kind, v.dates)[p - v.offset];
    } else {
      assert flat[p] == Blanks(Pad(v.offset + n))[p - v.offset - n];
    }
  }

  lemma ModShift(a: int, b: int)
    ensures (a % 7 + b) % 7 == (a + b) % 7
  {
  }

  /** In the Gregorian grid every day stands in the column of its weekday,
      Sunday first. */
  lemma GregorianColumns(date: Civil.Date, d: int)
    requires Civil.Valid(date) && 1 <= d <= Civil.DaysInMonth(date.year, date.month)
    ensures (GregorianView(date).offset + d - 1) % 7 == Civil.Weekday(Civil.Date(date.year, date.month, d))
  {
    var first := Civil.Date(date.year, date.month, 1);
    ModShift(Civil.DayNumber(first) + 4, d - 1);
  }

  /** The Jalali month of `date` as the grid shows it: as many cells as the
      month has days, led by the Saturday-first weekday of its first day. */
  lemma ShamsiMonth(date: Civil.Date, c: Jalali.Converter)
    requires Civil.Valid(date) && Jalali.Lawful(c)
    ensures var j := Jalali.JalaliOf(c, date);
            var first := Jalali.GregorianOf(c, Jalali.JDate(j.year, j.month, 1));
            && 1 <= j.month <= 12
            && |ShamsiView(date, c).dates| == Jalali.MonthLength(j.year, j.month)
            && Civil.Valid(first) && ShamsiView(date, c).offset == (Civil.Weekday(first) + 1) % 7
  {
    var j := Jalali.JalaliOf(c, date);
    Jalali.LawfulDate(c, date);
    Jalali.LawfulDay(c, j.year, j.month, 1);
  }

  /** Day cell d of the Jalali month of `date` carries the Gregorian date
      of Jalali day d. */
  lemma ShamsiDay(date: Civil.Date, c: Jalali.Converter, d: int)
    requires Civil.Valid(date) && Jalali.Lawful(c)
    requires 1 <= d <= |ShamsiView(date, c).dates|
    ensures var j := Jalali.JalaliOf(c, date);
            var g := Jalali.GregorianOf(c, Jalali.JDate(j.year, j.month, d));
            && 1 <= j.month <= 12
            && 1 <= d <= Jalali.MonthLength(j.year, j.month)
            && ShamsiView(date, c).dates[d - 1] == Civil.CellIso(g)
  {
    Jalali.LawfulDate(c, date);
  }

  /** In the Jalali grid every day stands in the column of its weekday,
      Saturday first (`(getDay() + 1) % 7`). */
  lemma ShamsiColumns(date: Civil.Date, c: Jalali.Converter, d: int)
    requires Civil.Valid(date) && Jalali.Lawful(c)
    requires 1 <= d <= |ShamsiView(date, c).dates|
    ensures var j := Jalali.JalaliOf(c, date);
            var g := Jalali.GregorianOf(c, Jalali.JDate(j.year, j.month, d));
            Civil.Valid(g) && (ShamsiView(date, c).offset + d - 1) % 7 == (Civil.Weekday(g) + 1) % 7
  {
    ShamsiMonth(date, c);
    var j := Jalali.JalaliOf(c, date);
    MonthColumns(c, j.year, j.month, d, ShamsiView(date, c).offset);
  }

  /** Day d of Jalali month (y, m) stands `d - 1` columns after the month's
      Saturday-first offset. */
  lemma MonthColumns(c: Jalali.Converter, y: int, m: int, d: int, off: int)
    requires Jalali.Lawful(c) && 1 <= m <= 12 && 1 <= d <= Jalali.MonthLength(y, m)
    requires var first := Jalali.GregorianOf(c, Jalali.JDate(y, m, 1));
             Civil.Valid(first) && off == (Civil.Weekday(first) + 1) % 7
    ensures var g := Jalali.GregorianOf(c, Jalali.JDate(y, m, d));
            Civil.Valid(g) && (off + d - 1) % 7 == (Civil.Weekday(g) + 1) % 7
  {
    Jalali.LawfulDay(c, y, m, d);
    ColumnShift(Jalali.GregorianOf(c, Jalali.JDate(y, m, 1)), Jalali.GregorianOf(c, Jalali.JDate(y, m, d)), d, off);
  }

  lemma ColumnShift(first: Civil.Date, g: Civil.Date, d: int, off: int)
    requires Civil.Valid(first) && Civil.Valid(g)
    requires Civil.DayNumber(g) == Civil.DayNumber(first) + d - 1
    requires off == (Civil.Weekday(first) + 1) % 7
    ensures (off + d - 1) % 7 == (Civil.Weekday(g) + 1) % 7
  {
    SaturdayFirst(Civil.DayNumber(first), d, off, Civil.Weekday(g));
  }

  lemma SaturdayFirst(n1: int, d: int, off: int, w: int)
    requires off == ((n1 + 4) % 7 + 1) % 7 && w == (n1 + d - 1 + 4) % 7
    ensures (off + d - 1) % 7 == (w + 1) % 7
  {
    ModShift(n1 + 4, 1);
    ModShift(n1 + 5, d - 1);
    ModShift(n1 + d + 3, 1);
  }

  /** A day cell carrying the date string of g decodes to g. */
  lemma CellSelects(kind: string, g: Civil.Date)
    requires Civil.Valid(g) && g.year >= 0 && '_' !in kind
    ensures Callbacks.DecodeSelect(Callbacks.SelectData(kind, Civil.CellIso(g)))
              == Callbacks.Selection(Some(kind), Some(Civil.CellIso(g)))
    ensures Civil.ParseIso(Civil.CellIso(g)) == Some(g)
  {
    Callbacks.DatesLackUnderscore(g);
    Callbacks.SelectRoundTrip(kind, Civil.CellIso(g));
    Civil.ParseCellIso(g);
  }

  /** A Gregorian day cell selects exactly its date. */
  lemma GregorianCellSelects(kind: string, date: Civil.Date, d: int)
    requires Civil.Valid(date) && date.year >= 0 && '_' !in kind
    requires 1 <= d <= Civil.DaysInMonth(date.year, date.month)
    ensures var sel := Callbacks.DecodeSelect(DayCells(kind, GregorianView(date).dates)[d - 1].data);
            sel.kind == Some(kind) && sel.date.Some?
            && Civil.ParseIso(sel.date.value) == Some(Civil.Date(date.year, date.month, d))
  {
    var g := Civil.Date(date.year, date.month, d);
    assert GregorianView(date).dates[d - 1] == Civil.CellIso(g);
    CellSelects(kind, g);
  }

  /** A Jalali day cell selects the Gregorian date whose Jalali date is the
      day it shows. */
  lemma ShamsiCellSelects(kind: string, date: Civil.Date, c: Jalali.Converter, d: int)
    requires Civil.Valid(date) && Jalali.Lawful(c) && '_' !in kind
    requires 1 <= d <= |ShamsiView(date, c).dates|
    requires var j := Jalali.JalaliOf(c, date); Jalali.GregorianOf(c, Jalali.JDate(j.year, j.month, d)).year >= 0
    ensures var j := Jalali.JalaliOf(c, date);
            var g := Jalali.GregorianOf(c, Jalali.JDate(j.year, j.month, d));
            Callbacks.DecodeSelect(DayCells(kind, ShamsiView(date, c).dates)[d - 1].data)
              == Callbacks.Selection(Some(kind), Some(Civil.CellIso(g)))
            && Civil.ParseIso(Civil.CellIso(g)) == Some(g)
            && Jalali.JalaliOf(c, g) == Jalali.JDate(j.year, j.month, d)
  {
    var j := Jalali.JalaliOf(c, date);
    ShamsiDay(date, c, d);
    Jalali.LawfulDay(c, j.year, j.month, d);
    CellSelects(kind, Jalali.GregorianOf(c, Jalali.JDate(j.year, j.month, d)));
  }

  // --- Navigation ---

  /** The pure part of `handleCalendarNav`: the type and preference carried
      over, and the reference date moved one month back for "prev" and one
      forward otherwise; None when the date part is missing or not a date. */
  function NavTarget(data: string): (r: Option<(string, string, Civil.Date)>)
    ensures r.Some? ==> Civil.Valid(r.value.2)
  {
    var req := Callbacks.DecodeNav(data);
    match req.date
    case None => None
    case Some(s) =>
      match Civil.ParseIso(s)
      case None => None
      case Some(d) =>
        Some((Callbacks.Shown(req.kind), Callbacks.Shown(req.pref),
              Civil.AddMonths(d, Callbacks.MonthOffset(req.direction))))
  }

  /** A nav button's data leads to the month step of its direction. */
  lemma NavStep(kind: string, pref: string, date: Civil.Date, direction: string, k: int)
    requires Civil.Valid(date) && 0 <= date.year <= 9999
    requires '_' !in kind && '_' !in pref && '_' !in direction
    requires k == Callbacks.MonthOffset(Some(direction))
    ensures NavTarget(Callbacks.NavData(kind, pref, Civil.IsoDate(date), direction))
         == Some((kind, pref, Civil.AddMonths(date, k)))
  {
    var navDate := Civil.IsoDate(date);
    Callbacks.DatesLackUnderscore(date);
    Callbacks.NavRoundTrip(kind, pref, navDate, direction);
    Civil.ParseIsoDate(date);
  }

  /** The Prev button steps the reference date one month back, keeping type
      and preference. */
  lemma PrevButtonSteps(kind: string, pref: string, date: Civil.Date)
    requires Civil.Valid(date) && 0 <= date.year <= 9999 && '_' !in kind && '_' !in pref
    ensures NavTarget(NavRow(kind, pref, date)[0].data) == Some((kind, pref, Civil.AddMonths(date, -1)))
  {
    assert NavRow(kind, pref, date)[0].data == Callbacks.NavData(kind, pref, Civil.IsoDate(date), "prev");
    NavStep(kind, pref, date, "prev", -1);
  }

  /** The Next button steps the reference date one month forward, keeping
      type and preference. */
  lemma NextButtonSteps(kind: string, pref: string, date: Civil.Date)
    requires Civil.Valid(date) && 0 <= date.year <= 9999 && '_' !in kind && '_' !in pref
    ensures NavTarget(NavRow(kind, pref, date)[1].data) == Some((kind, pref, Civil.AddMonths(date, 1)))
  {
    assert NavRow(kind, pref, date)[1].data == Callbacks.NavData(kind, pref, Civil.IsoDate(date), "next");
    assert "next"[0] != "prev"[0];
    NavStep(kind, pref, date, "next", 1);
  }

  /** `setMonth` overflow: "Next" from 31 January lands on 3 March, so the grid
      after January shows March. */
  lemma NextFromJanuary31()
    ensures Civil.AddMonths(Civil.Date(2025, 1, 31), 1) == Civil.Date(2025, 3, 3)
  {
  }
}
