/** myapp/logica_pronostico.py: the noon and evening snapshot taken from the
    hourly series (`extract_hourly_temps`), the choice of endpoint, dates and
    label from the slider's day offset, and the merge of the hourly snapshot
    with the daily summary. */
module Forecast {
  import opened Common
  import opened Numeric
  import opened Series
  import Results

  /** The `hourly` block; each field is `None` when its key is absent. */
  datatype Hourly = Hourly(time: Option<seq<string>>, temp: Option<seq<Sample>>)  // temperature_2m

  /** The decoded API response: its `hourly` and `daily` blocks, either of which may be absent. */
  datatype ApiData = ApiData(hourly: Option<Hourly>, daily: Option<Daily>)

  /** The dictionary `extract_hourly_temps` returns. */
  datatype HourlyTemps = HourlyTemps(temp12pm: real, temp6pm: real)

  const Noon := "T12:00"
  const Evening := "T18:00"

  /** `api_data.get('hourly', {})` */
  function HourlyBlock(api: ApiData): Hourly
  {
    if api.hourly.Some? then api.hourly.value else Hourly(None, None)
  }

  /** `api_data.get('daily', {})` */
  function DailyBlock(api: ApiData): Daily
  {
    if api.daily.Some? then api.daily.value else Daily(None, None, None, None, None, None, None)
  }

  /** The last of the first `n` labels that ends with `suffix`. */
  function LastMatch(t: seq<string>, n: nat, suffix: string): (r: Option<nat>)
    requires n <= |t|
    ensures r.Some? ==> r.value < n && EndsWith(t[r.value], suffix)
    ensures r.Some? ==> forall j :: r.value < j < n ==> !EndsWith(t[j], suffix)
    ensures r.None? <==> forall j :: 0 <= j < n ==> !EndsWith(t[j], suffix)
  {
    if n == 0 then None
    else if EndsWith(t[n - 1], suffix) then Some(n - 1)
    else LastMatch(t, n - 1, suffix)
  }

  /** After the first `n` labels both hours have been seen. */
  predicate BothSeen(t: seq<string>, n: nat)
    requires n <= |t|
  {
    LastMatch(t, n, Noon).Some? && LastMatch(t, n, Evening).Some?
  }

  /** How many labels the scan reads when it has read `n` without yet seeing
      both hours: it stops right after the label that completes the pair. */
  function ScanFrom(t: seq<string>, n: nat): (k: nat)
    requires n <= |t| && !BothSeen(t, n)
    ensures n <= k <= |t|
    ensures forall j :: n <= j < k ==> !BothSeen(t, j)
    ensures k < |t| ==> BothSeen(t, k)
    ensures k == |t| || BothSeen(t, k)
    decreases |t| - n
  {
    if n == |t| then n
    else if BothSeen(t, n + 1) then n + 1
    else ScanFrom(t, n + 1)
  }

  /** The number of labels the loop visits before its `break`, or all of them. */
  function ScanLength(t: seq<string>): (k: nat)
    ensures k <= |t|
  {
    ScanFrom(t, 0)
  }

  /** What the loop reads without raising: every visited label for noon or
      six in the evening has a non-null temperature at its index. */
  predicate Scannable(t: seq<string>, temps: seq<Sample>)
  {
    forall i :: 0 <= i < ScanLength(t) && (EndsWith(t[i], Noon) || EndsWith(t[i], Evening)) ==>
      i < |temps| && temps[i].Some?
  }

  predicate Accepts(api: ApiData)
  {
    var h := HourlyBlock(api);
    |Labels(h.time)| > 0 && |Col(h.temp)| > 0 ==> Scannable(Labels(h.time), Col(h.temp))
  }

  /** The rounded temperature at the chosen index, or 0.0 when no label matched. */
  function Reading(temps: seq<Sample>, at: Option<nat>): real
    requires at.Some? ==> at.value < |temps| && temps[at.value].Some?
  {
    if at.None? then 0.0 else Round(temps[at.value].value, 1)
  }

  /** Both readings after the first `n` labels have been visited. */
  function SnapshotAfter(t: seq<string>, temps: seq<Sample>, n: nat): HourlyTemps
    requires Scannable(t, temps) && n <= ScanLength(t)
  {
    HourlyTemps(Reading(temps, LastMatch(t, n, Noon)), Reading(temps, LastMatch(t, n, Evening)))
  }

  /** What `extract_hourly_temps` returns: nothing without hourly labels or
      temperatures, otherwise the readings at the last noon and evening labels
      the scan visits. */
  function HourlySnapshot(api: ApiData): (r: Option<HourlyTemps>)
    requires Accepts(api)
    ensures r.None? <==> |Labels(HourlyBlock(api).time)| == 0 || |Col(HourlyBlock(api).temp)| == 0
  {
    var h := HourlyBlock(api);
    var t := Labels(h.time);
    var temps := Col(h.temp);
    if |t| == 0 || |temps| == 0 then None
    else Some(SnapshotAfter(t, temps, ScanLength(t)))
  }

  /** `extract_hourly_temps(api_data)` */
  method ExtractHourlyTemps(api: ApiData) returns (r: Option<HourlyTemps>)
    requires Accepts(api)
    ensures r == HourlySnapshot(api)
  {
    var hourlyData := HourlyBlock(api);
    var hourlyTime := Labels(hourlyData.time);
    var hourlyTemp := Col(hourlyData.temp);
    if |hourlyTime| == 0 || |hourlyTemp| == 0 {
      return None;
    }
    var snapshot := ScanHours(hourlyTime, hourlyTemp);
    return Some(snapshot);
  }

  /** The loop of `extract_hourly_temps`: it keeps the latest noon and evening
      readings and breaks as soon as it has seen both hours. */
  method ScanHours(hourlyTime: seq<string>, hourlyTemp: seq<Sample>) returns (r: HourlyTemps)
    requires Scannable(hourlyTime, hourlyTemp)
    ensures r == SnapshotAfter(hourlyTime, hourlyTemp, ScanLength(hourlyTime))
  {
    var temp12pm := 0.0;
    var temp6pm := 0.0;
    var found12 := false;
    var found18 := false;
    ghost var scanned := |hourlyTime|;
    for i := 0 to |hourlyTime|
      invariant !BothSeen(hourlyTime, i) && ScanFrom(hourlyTime, i) == ScanLength(hourlyTime)
      invariant found12 <==> LastMatch(hourlyTime, i, Noon).Some?
      invariant found18 <==> LastMatch(hourlyTime, i, Evening).Some?
      invariant HourlyTemps(temp12pm, temp6pm) == SnapshotAfter(hourlyTime, hourlyTemp, i)
    {
      ScanStep(hourlyTime, i);
      var t := hourlyTime[i];
      if EndsWith(t, Noon) {
        temp12pm := Round(hourlyTemp[i].value, 1);
        found12 := true;
      } else if EndsWith(t, Evening) {
        temp6pm := Round(hourlyTemp[i].value, 1);
        found18 := true;
      }
      if found12 && found18 {
        scanned := i + 1;
        break;
      }
    }
    assert scanned == ScanLength(hourlyTime);
    return HourlyTemps(temp12pm, temp6pm);
  }

  /** Visiting label `n` moves the last match of its own hour to `n` (a label
      ends with at most one of the two hours) and either completes the pair,
      which ends the scan, or leaves the scan's length unchanged. */
  lemma ScanStep(t: seq<string>, n: nat)
    requires n < |t| && !BothSeen(t, n)
    ensures EndsWith(t[n], Noon) ==> !EndsWith(t[n], Evening)
    ensures LastMatch(t, n + 1, Noon) == if EndsWith(t[n], Noon) then Some(n) else LastMatch(t, n, Noon)
    ensures LastMatch(t, n + 1, Evening) == if EndsWith(t[n], Evening) then Some(n) else LastMatch(t, n, Evening)
    ensures BothSeen(t, n + 1) ==> ScanFrom(t, n) == n + 1
    ensures !BothSeen(t, n + 1) ==> ScanFrom(t, n) == ScanFrom(t, n + 1)
  {
    HoursDiffer(t[n]);
  }

  /** No label ends with both hours: they differ in their second digit. */
  lemma HoursDiffer(s: string)
    ensures !(EndsWith(s, Noon) && EndsWith(s, Evening))
  {
    if |s| >= 6 {
      assert s[|s| - 6..][2] == s[|s| - 4];
    }
  }

  /** Without any noon label the noon reading is 0.0, and without any evening
      label the evening reading is 0.0. */
  lemma MissingHourGivesZero(api: ApiData)
    requires Accepts(api) && HourlySnapshot(api).Some?
    ensures var t := Labels(HourlyBlock(api).time);
      (forall i :: 0 <= i < |t| ==> !EndsWith(t[i], Noon)) ==> HourlySnapshot(api).value.temp12pm == 0.0
    ensures var t := Labels(HourlyBlock(api).time);
      (forall i :: 0 <= i < |t| ==> !EndsWith(t[i], Evening)) ==> HourlySnapshot(api).value.temp6pm == 0.0
  {
  }

  /** The noon reading depends only on the temperatures at noon labels, and
      the evening reading only on those at evening labels. */
  lemma EachReadingUsesItsOwnHour(t: seq<string>, a: seq<Sample>, b: seq<Sample>)
    requires Scannable(t, a) && Scannable(t, b)
    ensures (forall i :: 0 <= i < |t| && EndsWith(t[i], Noon) && i < |a| && i < |b| ==> a[i] == b[i]) ==>
      SnapshotAfter(t, a, ScanLength(t)).temp12pm == SnapshotAfter(t, b, ScanLength(t)).temp12pm
    ensures (forall i :: 0 <= i < |t| && EndsWith(t[i], Evening) && i < |a| && i < |b| ==> a[i] == b[i]) ==>
      SnapshotAfter(t, a, ScanLength(t)).temp6pm == SnapshotAfter(t, b, ScanLength(t)).temp6pm
  {
  }

  /** Four labels of a two-day series: the morning, noon and evening of the
      first day, then noon of the second. */
  const ExampleLabels := ["2024-01-01T06:00", "2024-01-01T12:00", "2024-01-01T18:00", "2024-01-02T12:00"]

  lemma ExampleScanLength()
    ensures ScanLength(ExampleLabels) == 3
    ensures LastMatch(ExampleLabels, 3, Noon) == Some(1) && LastMatch(ExampleLabels, 3, Evening) == Some(2)
  {
    var t := ExampleLabels;
    assert t[0][10..] == "T06:00" && t[1][10..] == Noon && t[2][10..] == Evening;
    assert LastMatch(t, 1, Noon) == None && LastMatch(t, 1, Evening) == None;
    assert LastMatch(t, 2, Noon) == Some(1) && LastMatch(t, 2, Evening) == None;
    assert LastMatch(t, 3, Noon) == Some(1) && LastMatch(t, 3, Evening) == Some(2);
    assert ScanFrom(t, 2) == 3;
  }

  lemma ExampleReadings()
    ensures Round(2.0, 1) == 2.0 && Round(3.0, 1) == 3.0
  {
    assert Scale(2.0, 1) == 20.0 && Scale(3.0, 1) == 30.0;
  }

  /** One temperature per example label. */
  const ExampleTemps: seq<Sample> := [Some(1.0), Some(2.0), Some(3.0), Some(4.0)]

  const ExampleApi := ApiData(Some(Hourly(Some(ExampleLabels), Some(ExampleTemps))), None)

  /** A series with a temperature for every visited label can be scanned. */
  lemma FullSeriesIsScannable(t: seq<string>, temps: seq<Sample>)
    requires ScanLength(t) <= |temps|
    requires forall i :: 0 <= i < |temps| ==> temps[i].Some?
    ensures Scannable(t, temps)
  {
  }

  lemma ExampleTempsPresent()
    ensures |ExampleTemps| == 4 && forall i :: 0 <= i < |ExampleTemps| ==> ExampleTemps[i].Some?
  {
  }

  lemma ExampleSnapshot()
    ensures Scannable(ExampleLabels, ExampleTemps)
    ensures SnapshotAfter(ExampleLabels, ExampleTemps, ScanLength(ExampleLabels)) == HourlyTemps(2.0, 3.0)
  {
    ExampleTempsPresent();
    ExampleScanLength();
    FullSeriesIsScannable(ExampleLabels, ExampleTemps);
    ExampleReadings();
  }

  /** The scan stops at the first evening label of a day whose noon it has
      already seen: a later noon label does not replace the first day's reading. */
  lemma ScanStopsAtFirstPair()
    ensures Accepts(ExampleApi) && HourlySnapshot(ExampleApi) == Some(HourlyTemps(2.0, 3.0))
  {
    ExampleSnapshot();
    assert HourlyBlock(ExampleApi) == Hourly(Some(ExampleLabels), Some(ExampleTemps));
  }

  /** Which service a query goes to. */
  datatype Endpoint = Archive | ForecastApi

  /** The request chosen for a slider position: dates are day numbers, the
      label keeps the prefix that precedes the formatted date. */
  datatype Query = Query(endpoint: Endpoint, startDay: int, endDay: int, labelPrefix: string, isForecastResult: bool)

  /** Lines 84-106: the single target day `today + days_offset`, the archive
      for past days and the forecast service from today on. */
  function SelectQuery(today: int, daysOffset: int): (q: Query)
    ensures q.startDay == q.endDay == today + daysOffset
    ensures q.endpoint == Archive <==> q.endDay < today
    ensures q.isForecastResult <==> q.endpoint == ForecastApi
    ensures q.labelPrefix == "Actualidad" <==> q.endDay == today
    ensures q.labelPrefix == "Pronóstico" <==> q.endDay > today
    ensures q.labelPrefix == "Histórico" <==> q.endDay < today
  {
    var target := today + daysOffset;
    if daysOffset < 0 then
      Query(Archive, target, target, "Histórico", false)
    else
      Query(ForecastApi, target, target, if daysOffset == 0 then "Actualidad" else "Pronóstico", true)
  }

  /** `{**hourly_metrics, **daily_metrics}`: the two dictionaries have no key
      in common, so the merge keeps both parts whole. */
  datatype ForecastMetrics = ForecastMetrics(hourly: HourlyTemps, daily: Results.Metrics)

  /** Lines 127-131: the merged metrics, produced only when both parts exist. */
  method ForecastMetricsOf(api: ApiData) returns (r: Option<ForecastMetrics>)
    requires Accepts(api) && Results.Summable(DailyBlock(api))
    ensures r.Some? <==> HourlySnapshot(api).Some? && |Labels(DailyBlock(api).time)| > 0
    ensures r.Some? ==> r.value.hourly == HourlySnapshot(api).value
    ensures r.Some? ==> Some(r.value.daily) == Results.CalculateMetrics(DailyBlock(api))
  {
    var hourlyMetrics := ExtractHourlyTemps(api);
    var dailyMetrics := Results.CalculateMetrics(DailyBlock(api));
    if hourlyMetrics.Some? && dailyMetrics.Some? {
      r := Some(ForecastMetrics(hourlyMetrics.value, dailyMetrics.value));
    } else {
      r := None;
    }
  }
}
