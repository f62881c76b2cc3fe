/** The statistics of `handleHistory`: over the closed cycles, oldest first,
    the rounded mean period length, the rounded mean gap between starts and
    the predicted next start. Dates are day numbers. */
module Prediction {
  import Civil

  /** A closed cycle: first and last day of the period. */
  datatype Period = Period(start: int, end: int)

  /** `(end - start) / day + 1`: the days of the period, both ends counted. */
  function Length(p: Period): int {
    p.end - p.start + 1
  }

  /** `Math.round(p / q)` for q > 0: the nearest integer, halves rounding up. */
  function RoundDiv(p: int, q: int): (r: int)
    requires q > 0
    ensures 2 * q * r - q <= 2 * p < 2 * q * r + q
  {
    var r := (2 * p + q) / (2 * q);
    assert 2 * q * r <= 2 * p + q < 2 * q * r + 2 * q by {
      DivBounds(2 * p + q, 2 * q);
    }
    r
  }

  lemma DivBounds(a: int, b: int)
    requires b > 0
    ensures b * (a / b) <= a < b * (a / b) + b
  {
  }

  /** Rounding of a non-negative quotient is non-negative. */
  lemma RoundDivNonNegative(p: int, q: int)
    requires q > 0 && p >= 0
    ensures RoundDiv(p, q) >= 0
  {
  }

  /** Division by one needs no rounding. */
  lemma RoundDivOne(p: int)
    ensures RoundDiv(p, 1) == p
  {
  }

  function SumLengths(ps: seq<Period>): int {
    if |ps| == 0 then 0 else SumLengths(ps[..|ps| - 1]) + Length(ps[|ps| - 1])
  }

  /** The sum of the gaps between consecutive starts. */
  function SumGaps(ps: seq<Period>): int {
    if |ps| <= 1 then 0 else SumGaps(ps[..|ps| - 1]) + (ps[|ps| - 1].start - ps[|ps| - 2].start)
  }

  /** The gaps telescope: their sum is the latest start minus the first. */
  lemma {:induction false} GapsTelescope(ps: seq<Period>)
    requires |ps| >= 1
    ensures SumGaps(ps) == ps[|ps| - 1].start - ps[0].start
  {
    if |ps| > 1 {
      var init := ps[..|ps| - 1];
      GapsTelescope(init);
      assert init[|init| - 1] == ps[|ps| - 2] && init[0] == ps[0];
    }
  }

  function Reverse(ps: seq<Period>): (r: seq<Period>)
    ensures |r| == |ps| && forall i :: 0 <= i < |ps| ==> r[i] == ps[|ps| - 1 - i]
  {
    if |ps| == 0 then [] else [ps[|ps| - 1]] + Reverse(ps[..|ps| - 1])
  }

  /** `start_date DESC`: latest start first. */
  predicate SortedDesc(ps: seq<Period>) {
    forall i, j :: 0 <= i < j < |ps| ==> ps[i].start >= ps[j].start
  }

  /** What the history view shows, from the closed cycles latest first. */
  datatype HistoryView =
    | NotEnoughData
    | NeedOneMore(listed: seq<Period>)
    | Forecast(listed: seq<Period>, avgPeriod: int, avgCycle: int, predicted: int, count: nat)

  /** `cycles.slice(0, 5)`. */
  function Listed(desc: seq<Period>): seq<Period> {
    if |desc| <= 5 then desc else desc[..5]
  }

  /** The view in closed form: the mean gap is the span from the oldest to
      the latest start over the number of gaps. */
  function Expected(desc: seq<Period>): HistoryView {
    if |desc| < 1 then NotEnoughData
    else if |desc| == 1 then NeedOneMore(Listed(desc))
    else
      var n := |desc|;
      var avgCycle := RoundDiv(desc[0].start - desc[n - 1].start, n - 1);
      Forecast(Listed(desc), RoundDiv(SumLengths(Reverse(desc)), n), avgCycle, desc[0].start + avgCycle, n)
  }

  /** The `forEach` over the reversed list: sums the period lengths and the
      gaps to the previous start, then rounds the means. */
  method Averages(ascending: seq<Period>) returns (avgPeriod: int, avgCycle: int)
    requires |ascending| >= 2
    ensures avgPeriod == RoundDiv(SumLengths(ascending), |ascending|)
    ensures avgCycle == RoundDiv(ascending[|ascending| - 1].start - ascending[0].start, |ascending| - 1)
  {
    var totalPeriodLength := 0;
    var totalCycleLength := 0;
    for index := 0 to |ascending|
      invariant totalPeriodLength == SumLengths(ascending[..index])
      invariant totalCycleLength == SumGaps(ascending[..index])
    {
      var cycle := ascending[index];
      assert ascending[..index + 1][..index] == ascending[..index];
      totalPeriodLength := totalPeriodLength + (cycle.end - cycle.start + 1);
      if index > 0 {
        totalCycleLength := totalCycleLength + (cycle.start - ascending[index - 1].start);
      }
    }
    assert ascending[..|ascending|] == ascending;
    GapsTelescope(ascending);
    avgPeriod := RoundDiv(totalPeriodLength, |ascending|);
    avgCycle := RoundDiv(totalCycleLength, |ascending| - 1);
  }

  /** The statistics part of `handleHistory`, on the closed cycles in the
      order of the query (latest start first). */
  method History(desc: seq<Period>) returns (view: HistoryView)
    ensures view == Expected(desc)
  {
    if |desc| < 1 {
      return NotEnoughData;
    }
    var listed := Listed(desc);
    if |desc| >= 2 {
      var ascending := Reverse(desc);
      var avgPeriod, avgCycle := Averages(ascending);
      var lastCycleStart := ascending[|ascending| - 1].start;
      view := Forecast(listed, avgPeriod, avgCycle, lastCycleStart + avgCycle, |desc|);
    } else {
      view := NeedOneMore(listed);
    }
  }

  // --- Properties of the forecast ---

  /** The view depends on the count of closed cycles alone for its kind, and
      lists at most the five latest. */
  lemma ViewKinds(desc: seq<Period>)
    ensures Expected(desc).NotEnoughData? <==> |desc| == 0
    ensures Expected(desc).NeedOneMore? <==> |desc| == 1
    ensures Expected(desc).Forecast? <==> |desc| >= 2
    ensures !Expected(desc).NotEnoughData? ==>
              |Expected(desc).listed| == (if |desc| < 5 then |desc| else 5)
              && Expected(desc).listed == desc[..|Expected(desc).listed|]
  {
  }

  /** With the cycles sorted latest first, the mean gap is not negative and
      the predicted start is not before the latest start. */
  lemma ForecastAfterLatest(desc: seq<Period>)
    requires |desc| >= 2 && SortedDesc(desc)
    ensures Expected(desc).avgCycle >= 0
    ensures forall i :: 0 <= i < |desc| ==> Expected(desc).predicted >= desc[i].start
  {
    RoundDivNonNegative(desc[0].start - desc[|desc| - 1].start, |desc| - 1);
  }

  /** The mean period is the rounded mean of the lengths whatever their order. */
  lemma {:induction false} SumLengthsReverse(ps: seq<Period>)
    ensures SumLengths(Reverse(ps)) == SumLengths(ps)
  {
    if |ps| > 0 {
      var init := ps[..|ps| - 1];
      SumLengthsReverse(init);
      SumLengthsFront(ps[|ps| - 1], Reverse(init));
      assert Reverse(ps) == [ps[|ps| - 1]] + Reverse(init);
    }
  }

  lemma {:induction false} SumLengthsFront(p: Period, ps: seq<Period>)
    ensures SumLengths([p] + ps) == Length(p) + SumLengths(ps)
  {
    if |ps| > 0 {
      var init := ps[..|ps| - 1];
      SumLengthsFront(p, init);
      assert ([p] + ps)[..|ps|] == [p] + init;
    }
  }

  /** Two periods, 1-5 January 2024 and 29 January - 2 February 2024: mean
      period 5 days, mean cycle 28 days, next start 26 February 2024. */
  lemma TwoCycleExample()
    ensures var jan1, jan5 := Civil.DayNumber(Civil.Date(2024, 1, 1)), Civil.DayNumber(Civil.Date(2024, 1, 5));
            var jan29, feb2 := Civil.DayNumber(Civil.Date(2024, 1, 29)), Civil.DayNumber(Civil.Date(2024, 2, 2));
            var desc := [Period(jan29, feb2), Period(jan1, jan5)];
            Expected(desc) == Forecast(desc, 5, 28, Civil.DayNumber(Civil.Date(2024, 2, 26)), 2)
  {
    ExampleDays();
    var desc := [Period(19751, 19755), Period(19723, 19727)];
    var asc := Reverse(desc);
    assert asc == [Period(19723, 19727), Period(19751, 19755)];
    assert asc[..1] == [Period(19723, 19727)];
    assert SumLengths(asc[..1]) == 5;
    assert SumLengths(asc) == 10;
  }

  lemma ExampleDays()
    ensures Civil.DayNumber(Civil.Date(2024, 1, 1)) == 19723 && Civil.DayNumber(Civil.Date(2024, 1, 5)) == 19727
    ensures Civil.DayNumber(Civil.Date(2024, 1, 29)) == 19751 && Civil.DayNumber(Civil.Date(2024, 2, 2)) == 19755
    ensures Civil.DayNumber(Civil.Date(2024, 2, 26)) == 19779
  {
  }

  /** The next start as the scheduler predicts it from the two latest starts. */
  function ReminderPrediction(last: int, prev: int): (p: int)
    ensures p - last == last - prev
  {
    last + (last - prev)
  }

  /** With exactly two closed cycles the history forecast and the reminder
      prediction agree. */
  lemma TwoCyclesAgree(desc: seq<Period>)
    requires |desc| == 2
    ensures Expected(desc).predicted == ReminderPrediction(desc[0].start, desc[1].start)
  {
    RoundDivOne(desc[0].start - desc[1].start);
  }
}
