/** The call-back data of the inline keyboards: how the handlers write it
    and how they take it apart again with `split`. */
module Callbacks {
  import opened Wrappers
  import opened Text
  import Civil

  /** `datepicker_select_${type}_${dateStr}`: a day cell of the picker. */
  function SelectData(kind: string, dateStr: string): string {
    "datepicker_select_" + kind + "_" + dateStr
  }

  /** `datepicker_nav_${type}_${pref}_${navDate}_${direction}`. */
  function NavData(kind: string, pref: string, navDate: string, direction: string): string {
    "datepicker_nav_" + kind + "_" + pref + "_" + navDate + "_" + direction
  }

  /** `log_select_${type}_${method}`: the start/end choice after a method choice. */
  function LogSelectData(kind: string, how: string): string {
    "log_select_" + kind + "_" + how
  }

  /** A day selection: `const [,, type, dateStr] = data.split('_')`. */
  datatype Selection = Selection(kind: Option<string>, date: Option<string>)

  function DecodeSelect(data: string): Selection {
    var parts := Split(data, "_");
    Selection(Part(parts, 2), Part(parts, 3))
  }

  /** A start/end choice: `const [,, type, method] = data.split('_')`. */
  datatype LogChoice = LogChoice(kind: Option<string>, how: Option<string>)

  function DecodeLogSelect(data: string): LogChoice {
    var parts := Split(data, "_");
    LogChoice(Part(parts, 2), Part(parts, 3))
  }

  /** A navigation request: `parts[2]` to `parts[5]` of `data.split('_')`. */
  datatype NavRequest = NavRequest(kind: Option<string>, pref: Option<string>, date: Option<string>, direction: Option<string>)

  function DecodeNav(data: string): NavRequest {
    var parts := Split(data, "_");
    NavRequest(Part(parts, 2), Part(parts, 3), Part(parts, 4), Part(parts, 5))
  }

  /** `direction === 'prev' ? -1 : 1`: anything but "prev", a missing part
      included, moves forward. */
  function MonthOffset(direction: Option<string>): (k: int)
    ensures k == -1 || k == 1
    ensures k == -1 <==> direction == Some("prev")
  {
    if direction == Some("prev") then -1 else 1
  }

  /** `data.split('_').pop()`. */
  function LastField(data: string): (v: string)
    ensures '_' !in v
  {
    SplitLastFree(data, '_');
    Last(Split(data, "_"))
  }

  /** `data.split(marker)[1]`. */
  function AfterMarker(data: string, marker: string): Option<string>
    requires |marker| > 0
  {
    Part(Split(data, marker), 1)
  }

  /** A template literal shows an absent part as "undefined". */
  function Shown(part: Option<string>): string {
    part.GetOr("undefined")
  }

  /** Splitting `a_rest` on '_' where a has no '_'. */
  lemma PeelField(a: string, rest: string)
    requires '_' !in a
    ensures Split(a + "_" + rest, "_") == [a] + Split(rest, "_")
  {
    SplitCons(a, '_', rest);
  }

  lemma FourFields(a: string, b: string, c: string, d: string)
    requires '_' !in a && '_' !in b && '_' !in c && '_' !in d
    ensures Split(a + "_" + b + "_" + c + "_" + d, "_") == [a, b, c, d]
  {
    Regroup4(a, b, c, d);
    ThreeFields(b, c, d);
    PeelField(a, b + "_" + (c + "_" + d));
    assert [a] + [b, c, d] == [a, b, c, d];
  }

  lemma ThreeFields(b: string, c: string, d: string)
    requires '_' !in b && '_' !in c && '_' !in d
    ensures Split(b + "_" + (c + "_" + d), "_") == [b, c, d]
  {
    TwoFields(c, d);
    PeelField(b, c + "_" + d);
    assert [b] + [c, d] == [b, c, d];
  }

  lemma TwoFields(c: string, d: string)
    requires '_' !in c && '_' !in d
    ensures Split(c + "_" + d, "_") == [c, d]
  {
    SplitSingle(d, '_');
    PeelField(c, d);
  }

  /** The left-nested joins of the templates, regrouped from the right. */
  lemma Regroup4(a: string, b: string, c: string, d: string)
    ensures a + "_" + b + "_" + c + "_" + d == a + "_" + (b + "_" + (c + "_" + d))
  {
  }

  lemma SixFields(a: string, b: string, c: string, d: string, e: string, g: string)
    requires '_' !in a && '_' !in b && '_' !in c && '_' !in d && '_' !in e && '_' !in g
    ensures Split(a + "_" + b + "_" + c + "_" + d + "_" + e + "_" + g, "_") == [a, b, c, d, e, g]
  {
    Regroup6(a, b, c, d, e, g);
    FourFields(c, d, e, g);
    PeelField(b, c + "_" + d + "_" + e + "_" + g);
    PeelField(a, b + "_" + (c + "_" + d + "_" + e + "_" + g));
    assert [a] + ([b] + [c, d, e, g]) == [a, b, c, d, e, g];
  }

  lemma Regroup6(a: string, b: string, c: string, d: string, e: string, g: string)
    ensures a + "_" + b + "_" + c + "_" + d + "_" + e + "_" + g
         == a + "_" + (b + "_" + (c + "_" + d + "_" + e + "_" + g))
  {
  }

  /** A day cell's data decodes to its type and date string. */
  lemma SelectRoundTrip(kind: string, dateStr: string)
    requires '_' !in kind && '_' !in dateStr
    ensures DecodeSelect(SelectData(kind, dateStr)) == Selection(Some(kind), Some(dateStr))
  {
    assert SelectData(kind, dateStr) == "datepicker" + "_" + "select" + "_" + kind + "_" + dateStr;
    FourFields("datepicker", "select", kind, dateStr);
  }

  /** A start/end button's data decodes to its type and method. */
  lemma LogSelectRoundTrip(kind: string, how: string)
    requires '_' !in kind && '_' !in how
    ensures DecodeLogSelect(LogSelectData(kind, how)) == LogChoice(Some(kind), Some(how))
  {
    assert LogSelectData(kind, how) == "log" + "_" + "select" + "_" + kind + "_" + how;
    FourFields("log", "select", kind, how);
  }

  /** A navigation button's data decodes to the type, preference, reference
      date and direction it was written with. */
  lemma NavRoundTrip(kind: string, pref: string, navDate: string, direction: string)
    requires '_' !in kind && '_' !in pref && '_' !in navDate && '_' !in direction
    ensures DecodeNav(NavData(kind, pref, navDate, direction))
         == NavRequest(Some(kind), Some(pref), Some(navDate), Some(direction))
  {
    assert NavData(kind, pref, navDate, direction)
        == "datepicker" + "_" + "nav" + "_" + kind + "_" + pref + "_" + navDate + "_" + direction;
    SixFields("datepicker", "nav", kind, pref, navDate, direction);
  }

  /** The value after the last '_' of `prefix_value` is the value. */
  lemma LastFieldOf(prefix: string, v: string)
    requires '_' !in v
    ensures LastField(prefix + "_" + v) == v
    decreases |prefix|
  {
    var s := prefix + "_" + v;
    match FindFirst(s, "_")
    case None =>
      assert OccursAt(s, "_", |prefix|);
    case Some(i) =>
      if i < |prefix| {
        assert s[i + 1..] == prefix[i + 1..] + "_" + v;
        LastFieldOf(prefix[i + 1..], v);
      } else {
        assert OccursAt(s, "_", |prefix|);
        assert s[i + 1..] == v;
        SplitSingle(v, '_');
      }
  }

  /** `split(marker)[1]` on `marker + k` is k when k does not hold the marker. */
  lemma AfterMarkerOf(marker: string, k: string)
    requires |marker| > 0 && forall j :: !OccursAt(k, marker, j)
    ensures AfterMarker(marker + k, marker) == Some(k)
  {
    SplitAfterPrefix(marker, k);
  }

  /** The date strings the picker writes carry no '_'. */
  lemma DatesLackUnderscore(d: Civil.Date)
    ensures '_' !in Civil.CellIso(d) && '_' !in Civil.IsoDate(d)
  {
    Civil.IsoLacks(d, '_');
  }
}
