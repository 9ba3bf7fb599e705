/** myapp/logica_resultado.py: `calculate_metrics`, the single-period summary
    shown by the historical slider, and the start/end-date resolution of
    `fetch_clima_data_ajax`, lifted out of the view as a function of the
    requested year and month, the optional `period_end` limit and today's date. */
module Results {
  import opened Common
  import opened Numeric
  import opened Series
  import opened Calendar

  /** The `metrics` dictionary. */
  datatype Metrics = Metrics(
    numDias: nat,
    tempMaxAvg: real,
    tempMinAvg: real,
    precipSum: real,
    windMax: real,
    radiationSum: real,
    tempMaxAbs: real,
    tempMinAbs: real,
    humidityMaxAbs: real)

  /** The samples of a column without nulls, as the plain numbers `sum` and `max` see. */
  function Reals(s: seq<Sample>): (r: seq<real>)
    requires NoNulls(s)
    ensures |r| == |s| && forall i :: 0 <= i < |s| ==> s[i] == Some(r[i])
  {
    seq(|s|, i requires 0 <= i < |s| => s[i].value)
  }

  /** What `calculate_metrics` reads without raising: once there is at least
      one day, every column it reduces is free of `null` (`sum`, `max` and
      `min` raise on `None`). */
  predicate Summable(d: Daily)
  {
    |Labels(d.time)| > 0 ==>
      && NoNulls(Col(d.tempMax)) && NoNulls(Col(d.tempMin)) && NoNulls(Col(d.precip))
      && NoNulls(Col(d.wind)) && NoNulls(Col(d.radiation)) && NoNulls(Col(d.humidity))
  }

  /** `round(sum(xs) / days, 1) if xs else 0.0` */
  function AverageOver(xs: seq<real>, days: nat): real
    requires days > 0
  {
    if |xs| > 0 then Round(Sum(xs) / days as real, 1) else 0.0
  }

  /** `round(sum(xs), 1) if xs else 0.0` */
  function TotalOrZero(xs: seq<real>): real
  {
    if |xs| > 0 then Round(Sum(xs), 1) else 0.0
  }

  /** `round(max(xs), digits) if xs else 0.0` */
  function HighestOrZero(xs: seq<real>, digits: nat): real
  {
    if |xs| > 0 then Round(Max(xs), digits) else 0.0
  }

  /** `round(min(xs), 1) if xs else 0.0` */
  function LowestOrZero(xs: seq<real>): real
  {
    if |xs| > 0 then Round(Min(xs), 1) else 0.0
  }

  /** `calculate_metrics(daily_data)`: `None` for a period without days;
      otherwise the day count and the nine rounded summaries. */
  function CalculateMetrics(d: Daily): (r: Option<Metrics>)
    requires Summable(d)
    ensures r.None? <==> |Labels(d.time)| == 0
    ensures r.Some? ==> r.value.numDias == |Labels(d.time)|
  {
    var days := |Labels(d.time)|;
    if days == 0 then None
    else
      var tmax := Reals(Col(d.tempMax));
      var tmin := Reals(Col(d.tempMin));
      Some(Metrics(
        days,
        AverageOver(tmax, days),
        AverageOver(tmin, days),
        TotalOrZero(Reals(Col(d.precip))),
        HighestOrZero(Reals(Col(d.wind)), 1),
        TotalOrZero(Reals(Col(d.radiation))),
        HighestOrZero(tmax, 1),
        LowestOrZero(tmin),
        HighestOrZero(Reals(Col(d.humidity)), 0)))
  }

  /** A variable whose key is missing, or whose list is empty, contributes 0.0
      to every metric derived from it. */
  lemma AbsentVariableGivesZero(d: Daily)
    requires Summable(d) && |Labels(d.time)| > 0
    ensures var m := CalculateMetrics(d).value;
      && (|Col(d.tempMax)| == 0 ==> m.tempMaxAvg == 0.0 && m.tempMaxAbs == 0.0)
      && (|Col(d.tempMin)| == 0 ==> m.tempMinAvg == 0.0 && m.tempMinAbs == 0.0)
      && (|Col(d.precip)| == 0 ==> m.precipSum == 0.0)
      && (|Col(d.wind)| == 0 ==> m.windMax == 0.0)
      && (|Col(d.radiation)| == 0 ==> m.radiationSum == 0.0)
      && (|Col(d.humidity)| == 0 ==> m.humidityMaxAbs == 0.0)
  {
  }

  /** The averages divide by the number of days, not by the number of
      samples: one sample of 10.0 over a two-day period averages 5.0. */
  lemma DividesByDayCount()
    ensures var d := Daily(Some(["2024-01-01", "2024-01-02"]), Some([Some(10.0)]), None, None, None, None, None);
      && Mean([10.0]) == 10.0
      && CalculateMetrics(d) == Some(Metrics(2, 5.0, 0.0, 0.0, 0.0, 0.0, 10.0, 0.0, 0.0))
  {
    var d := Daily(Some(["2024-01-01", "2024-01-02"]), Some([Some(10.0)]), None, None, None, None, None);
    assert Reals([Some(10.0)]) == [10.0];
    assert Sum([10.0]) == 10.0 by { assert [10.0][..0] == []; }
    assert Scale(5.0, 1) == 50.0 && Scale(10.0, 1) == 100.0;
    assert Round(5.0, 1) == 5.0;
    assert Round(10.0, 1) == 10.0;
  }

  /** When a temperature column covers every day, the rounded average lies
      between the rounded extremes of that column: the reported mean of the
      maxima never exceeds the reported absolute maximum, and the reported
      mean of the minima is never below the reported absolute minimum. */
  lemma AverageWithinExtremes(d: Daily)
    requires Summable(d) && |Labels(d.time)| > 0
    ensures var m := CalculateMetrics(d).value;
      |Col(d.tempMax)| == |Labels(d.time)| ==> m.tempMaxAvg <= m.tempMaxAbs
    ensures var m := CalculateMetrics(d).value;
      |Col(d.tempMin)| == |Labels(d.time)| ==> m.tempMinAbs <= m.tempMinAvg
  {
    var days := |Labels(d.time)|;
    if |Col(d.tempMax)| == days {
      var xs := Reals(Col(d.tempMax));
      var mean := Mean(xs);
      RoundMonotone(mean, Max(xs), 1);
    }
    if |Col(d.tempMin)| == days {
      var xs := Reals(Col(d.tempMin));
      var mean := Mean(xs);
      RoundMonotone(Min(xs), mean, 1);
    }
  }

  /** The reported absolute maximum is the rounding of an actual sample, and
      no sample rounds higher; likewise for the absolute minimum. */
  lemma ExtremesAreAttained(d: Daily)
    requires Summable(d) && |Labels(d.time)| > 0
    ensures var m := CalculateMetrics(d).value; var s := Col(d.tempMax);
      |s| > 0 ==>
        && (exists i :: 0 <= i < |s| && m.tempMaxAbs == Round(s[i].value, 1))
        && forall i :: 0 <= i < |s| ==> Round(s[i].value, 1) <= m.tempMaxAbs
    ensures var m := CalculateMetrics(d).value; var s := Col(d.tempMin);
      |s| > 0 ==>
        && (exists i :: 0 <= i < |s| && m.tempMinAbs == Round(s[i].value, 1))
        && forall i :: 0 <= i < |s| ==> m.tempMinAbs <= Round(s[i].value, 1)
  {
    var m := CalculateMetrics(d).value;
    var s := Col(d.tempMax);
    if |s| > 0 {
      var xs := Reals(s);
      var i :| 0 <= i < |xs| && xs[i] == Max(xs);
      assert m.tempMaxAbs == Round(s[i].value, 1);
      forall j | 0 <= j < |s|
        ensures Round(s[j].value, 1) <= m.tempMaxAbs
      {
        RoundMonotone(xs[j], Max(xs), 1);
      }
    }
    var t := Col(d.tempMin);
    if |t| > 0 {
      var xs := Reals(t);
      var i :| 0 <= i < |xs| && xs[i] == Min(xs);
      assert m.tempMinAbs == Round(t[i].value, 1);
      forall j | 0 <= j < |t|
        ensures m.tempMinAbs <= Round(t[j].value, 1)
      {
        RoundMonotone(Min(xs), xs[j], 1);
      }
    }
  }

  /** At most one decimal: ten times the value is a whole number. */
  predicate OneDecimal(f: real)
  {
    f * 10.0 == (f * 10.0).Floor as real
  }

  /** Humidity is rounded to a whole number; every other metric keeps at most one decimal. */
  lemma MetricPrecision(d: Daily)
    requires Summable(d) && |Labels(d.time)| > 0
    ensures var h := CalculateMetrics(d).value.humidityMaxAbs; h == h.Floor as real
    ensures var m := CalculateMetrics(d).value;
      && OneDecimal(m.tempMaxAvg) && OneDecimal(m.tempMinAvg) && OneDecimal(m.precipSum)
      && OneDecimal(m.windMax) && OneDecimal(m.radiationSum) && OneDecimal(m.tempMaxAbs)
      && OneDecimal(m.tempMinAbs)
  {
    var days := |Labels(d.time)|;
    var xs := Reals(Col(d.humidity));
    if |xs| > 0 {
      var n := RoundHalfEven(Scale(Max(xs), 0));
      assert Round(Max(xs), 0) == n as real;
    }
    var tmax, tmin := Reals(Col(d.tempMax)), Reals(Col(d.tempMin));
    AverageOneDecimal(tmax, days);
    AverageOneDecimal(tmin, days);
    TotalOneDecimal(Reals(Col(d.precip)));
    TotalOneDecimal(Reals(Col(d.radiation)));
    HighestOneDecimal(Reals(Col(d.wind)));
    HighestOneDecimal(tmax);
    LowestOneDecimal(tmin);
  }

  lemma AverageOneDecimal(xs: seq<real>, days: nat)
    requires days > 0
    ensures OneDecimal(AverageOver(xs, days))
  {
    if |xs| > 0 { RoundOneDecimal(Sum(xs) / days as real); }
  }

  lemma TotalOneDecimal(xs: seq<real>)
    ensures OneDecimal(TotalOrZero(xs))
  {
    if |xs| > 0 { RoundOneDecimal(Sum(xs)); }
  }

  lemma HighestOneDecimal(xs: seq<real>)
    ensures OneDecimal(HighestOrZero(xs, 1))
  {
    if |xs| > 0 { RoundOneDecimal(Max(xs)); }
  }

  lemma LowestOneDecimal(xs: seq<real>)
    ensures OneDecimal(LowestOrZero(xs))
  {
    if |xs| > 0 { RoundOneDecimal(Min(xs)); }
  }

  /** Why a window could not be formed: `monthrange` raises for a month outside
      1..12 and `date` raises for a year outside 1..9999. */
  datatype WindowError = BadMonth | BadYear | NoOverlap

  /** The `start_date` and `end_date` sent to the archive. */
  datatype Window = Window(start: Date, end: Date)

  /** The first day of the requested period; month 0 asks for the whole year. */
  function PeriodStart(year: int, month: int): (d: Date)
    requires 0 <= month <= 12
    ensures d.day == 1 && d.year == year
  {
    if month == 0 then Date(year, 1, 1) else Date(year, month, 1)
  }

  /** The last day of the requested period. */
  function PeriodEnd(year: int, month: int): (d: Date)
    requires 0 <= month <= 12
    ensures d.year == year
  {
    if month == 0 then Date(year, 12, 31) else Date(year, month, DaysInMonth(year, month))
  }

  /** The request is for the year in progress, or for the month in progress. */
  predicate IsCurrentPeriod(year: int, month: int, today: Date)
  {
    year == today.year && (month == 0 || month == today.month)
  }

  /** Lines 93-114 of the view: the nominal window of the period, its end cut
      back to `period_end` when the period is still in progress. */
  function ResolveWindow(year: int, month: int, limit: Option<Date>, today: Date): (r: Result<Window, WindowError>)
    ensures r.Failure? <==> !(0 <= month <= 12) || !(MinYear <= year <= MaxYear)
    ensures r.Failure? ==> (r.error == BadMonth <==> !(0 <= month <= 12)) && r.error != NoOverlap
  {
    if !(0 <= month <= 12) then Failure(BadMonth)
    else if !(MinYear <= year <= MaxYear) then Failure(BadYear)
    else
      var start := PeriodStart(year, month);
      var end := PeriodEnd(year, month);
      var end :=
        if limit.None? then end
        else if month == 0 then
          (if year == today.year && Before(limit.value, end) then limit.value else end)
        else
          (if year == today.year && month == today.month && Before(limit.value, end) then limit.value else end);
      Success(Window(start, end))
  }

  /** Without a limit, the window holds exactly the valid dates of the
      requested year or month, and both of its ends are valid dates. */
  lemma WindowCoversPeriod(year: int, month: int, today: Date, d: Date)
    requires 0 <= month <= 12 && MinYear <= year <= MaxYear && ValidDate(d)
    ensures var w := ResolveWindow(year, month, None, today).value;
      && ValidDate(w.start) && ValidDate(w.end)
      && (NotAfter(w.start, d) && NotAfter(d, w.end) <==> d.year == year && (month == 0 || d.month == month))
  {
  }

  /** February's window ends on the 29th exactly in Gregorian leap years. */
  lemma FebruaryWindow(year: int, today: Date)
    requires MinYear <= year <= MaxYear
    ensures ResolveWindow(year, 2, None, today).value.end.day == 29 <==> IsLeap(year)
  {
  }

  /** A period that is over is never cut back, whatever the limit. */
  lemma PastPeriodNotClipped(year: int, month: int, limit: Option<Date>, today: Date)
    requires 0 <= month <= 12 && MinYear <= year <= MaxYear
    requires !IsCurrentPeriod(year, month, today)
    ensures ResolveWindow(year, month, limit, today) == ResolveWindow(year, month, None, today)
  {
  }

  /** The start never moves; the end is the earlier of the nominal end and the
      limit when the period is in progress, and the nominal end otherwise. */
  lemma ClipTakesEarlier(year: int, month: int, limit: Option<Date>, today: Date)
    requires 0 <= month <= 12 && MinYear <= year <= MaxYear
    ensures var w := ResolveWindow(year, month, limit, today).value;
      && w.start == PeriodStart(year, month)
      && NotAfter(w.end, PeriodEnd(year, month))
      && (limit.Some? && IsCurrentPeriod(year, month, today) ==> NotAfter(w.end, limit.value))
      && (w.end == PeriodEnd(year, month) || (limit.Some? && w.end == limit.value))
  {
  }

  /** A limit earlier than the first day of the current month (the day before,
      on the 1st) produces a window whose end precedes its start. */
  lemma ClipCanInvertWindow()
    ensures var r := ResolveWindow(2024, 3, Some(Date(2024, 2, 29)), Date(2024, 3, 1));
      && r == Success(Window(Date(2024, 3, 1), Date(2024, 2, 29)))
      && Before(r.value.end, r.value.start)
  {
  }

  /** The window with the intended guard: a limit before the period's first
      day leaves nothing to fetch (an inverted window for the period in
      progress, a month or year that has not begun otherwise), and is
      reported as `NoOverlap`; every other request resolves as before. */
  function ResolveWindowChecked(year: int, month: int, limit: Option<Date>, today: Date): (r: Result<Window, WindowError>)
    ensures r.Success? ==> NotAfter(r.value.start, r.value.end)
    ensures r.Failure? && r.error == NoOverlap <==>
      && ResolveWindow(year, month, limit, today).Success?
      && limit.Some? && Before(limit.value, PeriodStart(year, month))
    ensures !(r.Failure? && r.error == NoOverlap) ==> r == ResolveWindow(year, month, limit, today)
  {
    match ResolveWindow(year, month, limit, today)
    case Failure(e) => Failure(e)
    case Success(w) =>
      if limit.Some? && Before(limit.value, w.start) then Failure(NoOverlap)
      else
        PeriodStartNotAfterEnd(year, month);
        Success(w)
  }

  /** The nominal window is never inverted. */
  lemma PeriodStartNotAfterEnd(year: int, month: int)
    requires 0 <= month <= 12
    ensures NotAfter(PeriodStart(year, month), PeriodEnd(year, month))
  {
  }

  /** A month that has not begun is fetched in full by the code as written,
      although no day of it is before the limit. */
  lemma FutureMonthIsFetched()
    ensures var r := ResolveWindow(2024, 5, Some(Date(2024, 3, 14)), Date(2024, 3, 15));
      && r == Success(Window(Date(2024, 5, 1), Date(2024, 5, 31)))
      && Before(Date(2024, 3, 14), r.value.start)
    ensures ResolveWindowChecked(2024, 5, Some(Date(2024, 3, 14)), Date(2024, 3, 15)) == Failure(NoOverlap)
  {
    assert DaysInMonth(2024, 5) == 31;
  }

  /** Every limit that is not before the first day of the period yields a
      window; the guard only removes the inverted ones. */
  lemma CheckedAcceptsOverlappingLimits(year: int, month: int, limit: Option<Date>, today: Date)
    requires 0 <= month <= 12 && MinYear <= year <= MaxYear
    requires limit.Some? ==> NotAfter(PeriodStart(year, month), limit.value)
    ensures ResolveWindowChecked(year, month, limit, today) == ResolveWindow(year, month, limit, today)
  {
  }
}
