# Weather aggregation core, modelled in Dafny

This project models the part of a Django weather application that does the
computing. That part turns the daily and hourly series returned by the
Open-Meteo API into summary records, and decides which date window a request
covers. The series are a `time` list of date labels plus one list of samples
per weather variable, aligned by index. The views then only wrap these
results in JSON responses.

The modules:

- `Common`: optional values and results, and the string operations the views
  apply to date labels: `split('-')`, `int()` on digits, `str()` of a number,
  `endswith`, and the ordering `sorted` uses.
- `Numeric`: `round(x, d)` (ties to even, on exact reals), `sum`, `max`,
  `min` and the mean `sum(xs) / len(xs)`.
- `Series`: the `daily` block of a response. A missing key is `None` and a
  JSON `null` sample is `None`.
- `MonthlyMetrics`: `calculate_monthly_metrics` (myapp/views.py). Days are
  bucketed by the month field of `YYYY-MM-DD` into twelve month buckets. The
  result gives each month its mean maximum temperature and its total
  precipitation. The working dictionary and both loops are kept as in the
  original.
- `Evolution`: `process_daily_to_annual` (myapp/logica_evolucion.py). Days
  are grouped by year prefix and null samples are dropped. A year is emitted
  only if it has both temperature columns. The grouping loop, `sorted`, and
  the emitting loop are kept as separate methods.
- `Calendar`: Gregorian dates, leap years and month lengths
  (`calendar.monthrange`).
- `Results`: covers myapp/logica_resultado.py.
  - `calculate_metrics`, the one-period summary.
  - The start/end window of `fetch_clima_data_ajax`, written as a pure
    function of the requested year and month, the optional `period_end`
    limit and today's date.
- `Forecast`: covers myapp/logica_pronostico.py.
  - `extract_hourly_temps`, the noon and 18:00 scan with its early `break`.
  - The choice of service, target day and label from the slider offset.
  - The merge of the hourly and daily results.
- `Forms`: the `clean_año` year check of myapp/forms.py.

Where a loop in the original fails on bad input, the model states it as a
precondition:

- a `KeyError` on a missing column;
- an `IndexError` on a short column;
- a `TypeError` from `sum` or `round` on `None`;
- a `ValueError` from `int`.

A `None` the original tolerates is modelled as an outcome instead. Examples
are a missing `time` key, an empty list, and a null sample in the annual
series. The one exception, a null date label, is listed under "Left out".

`calculate_metrics` calls `sum`, `max` and `min` directly on its columns, so a
null sample there raises `TypeError`. The model follows the code and requires
null-free columns (`Results.Summable`).

The clipping of the archive window (myapp/logica_resultado.py:105-114) sends a
window even when the limit lies before the period's first day. For the period
in progress the end is cut back below the start, an inverted window the
archive cannot serve; for a month or year that has not begun the whole period
is requested although no day of it is before the limit. The code sends the
request anyway and has no outcome of its own for a window without days before
the limit; what the caller then sees depends on the archive's reply, which is
not part of this model. `Results.ResolveWindow` follows
the code, and the Findings table records the discrepancy.
`Results.ResolveWindowChecked` reports both cases as `NoOverlap` and otherwise
resolves the window unchanged.

## Model

| member | source | states |
|---|---|---|
| Common.NatToString | myapp/views.py:98 | `str(month)` yields a non-empty run of decimal digits |
| Common.ParseNatToString | myapp/views.py:82 | reading back the digits `str` printed gives the number again, so a month key and its label field agree |
| Common.NatToStringInjective | myapp/views.py:98 | distinct months get distinct keys |
| Common.Split | myapp/views.py:82 | `split` yields at least one field, and exactly the whole string when the separator is absent |
| Common.SplitJoin | myapp/views.py:82 | the fields `split` returns hold no separator and, joined with it, give back the label, so `split('-')[1]` is the text between the first and second `-` |
| Common.StrLtTransitive | myapp/logica_evolucion.py:117 | the string order `sorted` uses is transitive |
| Common.StrLtTotal | myapp/logica_evolucion.py:117 | of two distinct strings one sorts first |
| Common.LeastStringExists | myapp/logica_evolucion.py:117 | every non-empty set of year keys has a least key, so sorting them is possible |
| Numeric.RoundHalfEven | myapp/views.py:100-101 | the rounded integer is within one half of the value |
| Numeric.RoundMonotone | myapp/views.py:100-101 | `round` never reverses the order of two values |
| Numeric.RoundOneDecimal | myapp/logica_resultado.py:39-43 | `round(x, 1)` has at most one decimal |
| Numeric.RoundClose | myapp/logica_resultado.py:39-44 | `round(x, d)` moves `x` by at most half a unit in the last kept digit |
| Numeric.SumAppend | myapp/views.py:88 | summing two runs separately and adding the totals equals summing them together |
| Numeric.SumBounds | myapp/views.py:95 | a sum of n samples lies between n times their lower and upper bounds |
| Numeric.Max | myapp/logica_resultado.py:42 | `max` returns a member that no sample exceeds |
| Numeric.Min | myapp/logica_resultado.py:54 | `min` returns a member that is at most every sample |
| Numeric.Mean | myapp/logica_evolucion.py:127-130 | the mean lies between the smallest and the largest sample |
| MonthlyMetrics.MonthOf | myapp/views.py:82 | the month a label names is in 1..12 |
| MonthlyMetrics.AccumulatedEntryStep | myapp/views.py:80-88 | one day appends its temperature and adds its precipitation to its own month's entry; every other month's entry is unchanged |
| MonthlyMetrics.CalculateMonthlyMetrics | myapp/views.py:63-104 | the result's keys are exactly `str(1)`..`str(12)`; each entry is the rounded mean maximum and rounded total precipitation of the days labelled with that month |
| MonthlyMetrics.EmptyMonthTable | myapp/views.py:70-73 | the working dictionary starts with exactly the months 1..12, each with no temperatures and 0.0 precipitation |
| MonthlyMetrics.NothingAccumulatedYet | myapp/views.py:70-73 | the starting entries are what the bucket definitions give before any day |
| MonthlyMetrics.GroupByMonth | myapp/views.py:70-88 | after the first loop, each of the twelve entries holds the maxima of its month's days, in day order, and the sum of their precipitation |
| MonthlyMetrics.FileDay | myapp/views.py:80-88 | one iteration of the first loop takes the working dictionary from the first `i` days to the first `i + 1` |
| MonthlyMetrics.SummarizeMonths | myapp/views.py:91-104 | the second loop writes one entry per month under `str(month)`, its rounded mean (0.0 when empty) and its rounded total |
| MonthlyMetrics.KeysBelowStep | myapp/views.py:98 | `str(month)` differs for different months, so each iteration adds a new key |
| MonthlyMetrics.TwelveKeys | myapp/views.py:70-73 | the key set is exactly "1".."12", whatever the input |
| MonthlyMetrics.UnnamedMonthIsEmpty | myapp/views.py:71 | a month no label names collects no samples |
| MonthlyMetrics.EmptyMonthIsZero | myapp/views.py:95-101 | a month with no days reports 0.0 for both metrics |
| MonthlyMetrics.MonthValuesMembers | myapp/views.py:80-85 | a value is in a month's bucket iff a day of that month recorded it |
| MonthlyMetrics.MonthAverageBounded | myapp/views.py:95-100 | a month's reported mean lies between its rounded lowest and highest maximum |
| MonthlyMetrics.MonthSizesStep | myapp/views.py:80-85 | one more day adds one to the bucket size of its own month and to no other, so the sizes' sum grows by one |
| MonthlyMetrics.MonthTotalsStep | myapp/views.py:85-88 | one more day adds its sample to the total of its own month and to no other |
| MonthlyMetrics.MonthTotalsSumStep | myapp/views.py:85-88 | one more day raises the sum of the twelve totals by exactly its sample |
| Numeric.SumUpdate | myapp/views.py:88 | adding `d` to one element of a list adds `d` to its sum |
| Numeric.SumZeros | myapp/views.py:71 | the twelve zero totals the dictionary starts with sum to zero |
| MonthlyMetrics.MonthCountsPartition | myapp/views.py:80-85 | the twelve bucket sizes add up to the number of days: each day lands in exactly one month |
| MonthlyMetrics.MonthTotalsPartition | myapp/views.py:80-88 | the twelve monthly totals add up to the total over all days |
| Evolution.YearOf | myapp/logica_evolucion.py:100 | the year key has at most four characters |
| Evolution.YearValuesMembers | myapp/logica_evolucion.py:96-113 | a value is in a year's bucket iff some non-empty label of that year holds it as a non-null sample |
| Evolution.AscendingUnique | myapp/logica_evolucion.py:117 | a strictly ascending sequence is fixed by its elements, so the emitted order is the only possible one |
| Evolution.SortedYears | myapp/logica_evolucion.py:117 | `sorted(keys)` holds exactly the keys, strictly ascending |
| Evolution.GroupStep | myapp/logica_evolucion.py:96-113 | a day with a label adds its non-null samples to its own year's bucket and changes no other bucket |
| Evolution.UnseenYearIsEmpty | myapp/logica_evolucion.py:86-91 | a year not yet seen has an empty bucket, as the `defaultdict` factory creates it |
| Evolution.FileYearDay | myapp/logica_evolucion.py:96-113 | one iteration of the grouping loop: skipped for an empty label; otherwise the year's bucket, created empty on first sight, gains the day's non-null samples and the key set gains the year |
| Evolution.GroupByYear | myapp/logica_evolucion.py:93-113 | the buckets are keyed by exactly the year prefixes of the non-empty labels; each holds that year's non-null samples in day order |
| Evolution.EmitRecords | myapp/logica_evolucion.py:116-146 | records come in strictly ascending year order; each is a complete year's rounded means and sums; every complete year gets one |
| Evolution.ProcessDailyToAnnual | myapp/logica_evolucion.py:76-146 | `[]` without data or without `time`; otherwise one record per year with both temperatures, in ascending year order, each computed from that year's non-null samples |
| Calendar.DaysInMonth | myapp/logica_resultado.py:100 | month lengths are 28..31, and 29 exactly for February of a leap year |
| Calendar.YearLength | myapp/logica_resultado.py:100 | the twelve month lengths add up to 366 in leap years and 365 otherwise |
| Results.Reals | myapp/logica_resultado.py:39-44 | a null-free column read as numbers keeps every sample in place |
| Results.CalculateMetrics | myapp/logica_resultado.py:22-56 | `None` exactly when there are no labels; otherwise `num_dias` is the label count |
| Results.AbsentVariableGivesZero | myapp/logica_resultado.py:26-32 | a missing or empty variable gives 0.0 for every metric derived from it |
| Results.DividesByDayCount | myapp/logica_resultado.py:33-39 | averages divide by the number of days: one 10.0 sample over two days averages 5.0 |
| Results.AverageWithinExtremes | myapp/logica_resultado.py:39-40 | with a full column, the average maximum never exceeds the absolute maximum and the average minimum is never below the absolute minimum |
| Results.ExtremesAreAttained | myapp/logica_resultado.py:53-54 | the absolute maximum (minimum) is the rounding of an actual sample and no sample rounds above (below) it |
| Results.MetricPrecision | myapp/logica_resultado.py:39-54 | the humidity maximum is a whole number; the other seven rounded metrics have at most one decimal |
| Results.PeriodStart | myapp/logica_resultado.py:93-101 | the window starts on day 1 of the requested year |
| Results.PeriodEnd | myapp/logica_resultado.py:93-102 | the nominal end lies in the requested year |
| Results.ResolveWindow | myapp/logica_resultado.py:93-114 | fails exactly for a month outside 0..12 (reported first) or a year outside 1..9999 |
| Results.WindowCoversPeriod | myapp/logica_resultado.py:93-102 | without a limit both ends are valid dates and the window holds exactly the dates of the requested year or month |
| Results.FebruaryWindow | myapp/logica_resultado.py:100-102 | February's window ends on the 29th exactly in leap years |
| Results.PastPeriodNotClipped | myapp/logica_resultado.py:105-114 | outside the current year or month the limit has no effect |
| Results.ClipTakesEarlier | myapp/logica_resultado.py:95-114 | the start never moves; the end never passes the nominal end, and for the period in progress it never passes the limit; it is one of the two |
| Results.FutureMonthIsFetched | myapp/logica_resultado.py:105-114 | a month that has not begun is requested in full although the limit precedes it; the checked version reports it as `NoOverlap` |
| Results.PeriodStartNotAfterEnd | myapp/logica_resultado.py:93-102 | the nominal window starts no later than it ends |
| Results.ClipCanInvertWindow | myapp/logica_resultado.py:109-114 | in the period in progress, a limit before the month's first day yields a window whose end precedes its start |
| Results.ResolveWindowChecked | myapp/logica_resultado.py:93-114 | the corrected window: `NoOverlap` exactly when the original would resolve and the limit precedes the period's first day; every other request resolves as in the original; a window it returns is never inverted |
| Results.CheckedAcceptsOverlappingLimits | myapp/logica_resultado.py:106-114 | a limit on or after the period's first day is never refused by the corrected window |
| Forecast.LastMatch | myapp/logica_pronostico.py:42-48 | the index found is the last label among those visited that ends with the suffix; none is found iff no visited label ends with it |
| Forecast.ScanFrom | myapp/logica_pronostico.py:42-51 | the scan stops right after the first label that completes the noon/evening pair, or at the end |
| Forecast.ScanLength | myapp/logica_pronostico.py:42-51 | the scan never visits more labels than there are |
| Forecast.HourlySnapshot | myapp/logica_pronostico.py:28-33 | no snapshot exactly when the hourly labels or temperatures are missing or empty |
| Forecast.ExtractHourlyTemps | myapp/logica_pronostico.py:24-56 | nothing when the hourly labels or temperatures are missing or empty; otherwise the snapshot the scan produces |
| Forecast.ScanHours | myapp/logica_pronostico.py:36-56 | the loop with its flags and `break` returns the rounded temperatures at the last noon and evening labels it visits before the pair is complete |
| Forecast.ScanStep | myapp/logica_pronostico.py:42-51 | visiting a label moves only its own hour's last match to it (a label ends with at most one of the hours) and either completes the pair, ending the scan, or leaves the scan length unchanged |
| Forecast.HoursDiffer | myapp/logica_pronostico.py:43-46 | no label ends with both `T12:00` and `T18:00`, so the `elif` never hides a match |
| Forecast.FullSeriesIsScannable | myapp/logica_pronostico.py:44-47 | a series with a non-null temperature at every visited index can be read without error |
| Forecast.MissingHourGivesZero | myapp/logica_pronostico.py:36-37 | without a noon (evening) label, that reading is 0.0 |
| Forecast.EachReadingUsesItsOwnHour | myapp/logica_pronostico.py:43-48 | the noon reading depends only on noon samples, the evening reading only on evening samples |
| Forecast.ExampleScanLength | myapp/logica_pronostico.py:42-51 | on a morning/noon/evening/next-noon series the scan stops after three labels |
| Forecast.ExampleSnapshot | myapp/logica_pronostico.py:42-51 | on the example series the snapshot is 2.0 at noon and 3.0 in the evening |
| Forecast.ScanStopsAtFirstPair | myapp/logica_pronostico.py:42-51 | after the early stop, a later noon label does not replace the first day's reading |
| Forecast.SelectQuery | myapp/logica_pronostico.py:84-106 | start = end = today + offset; the archive exactly for past days; a forecast result exactly otherwise; the label prefix tells past, today and future apart |
| Forecast.ForecastMetricsOf | myapp/logica_pronostico.py:127-131 | merged metrics exist exactly when both the hourly snapshot and the daily summary exist, and keep both whole |
| Forms.CleanYear | myapp/forms.py:36-50 | accepted exactly when the year is present and in 1950..current year, and then returned unchanged; otherwise the matching message |
| Forms.RangeMessageNamesBounds | myapp/forms.py:46-47 | the range message quotes 1900 as the lowest year and ends with the current year |
| Forms.QuotedLowerBoundIsRejected | myapp/forms.py:44-47 | 1900..1949 are rejected although the message offers 1900 |

## Left out

- Binary floating point. Samples are exact reals and `round` is exact ties-to-even on them. Where a decimal tie is not exact in binary, Python's result can differ.
- HTTP, sessions, JSON decoding, `requests.get`, the response dictionaries and status codes of the views. Only the values they compute are modelled.
- The lookup tables of regions, coordinates and backgrounds. They are data, not behaviour.
- `date.today()` and the module-level `today`. Both are parameters (`today`, `currentYear`). The module-level `today` of myapp/logica_resultado.py is fixed when the module is imported, which the model does not capture.
- `date.fromisoformat(period_end)`. The limit arrives already parsed, as `Option<Date>`, where `None` stands for a missing or empty `period_end`. A malformed string, which raises in the original, is not modelled.
- The period labels. `strftime('%B')` depends on the locale, and the forecast's `YYYY-MM-DD` text needs date formatting. The forecast query keeps only the prefix before the date, and target days are day numbers.
- `timedelta` overflow for offsets beyond the calendar range. The slider stays within -14..14.
- `int()` of `year`, `month` and `days_offset` from the request. The model receives integers.
- MonthlyMetrics.MonthOf: `int()` also accepts surrounding whitespace, a sign, underscores between digits and non-ASCII Unicode decimal digits (Arabic-Indic, fullwidth and others); `HasMonth` admits only plain ASCII digits, so such labels are outside the precondition.
- Evolution.GroupByYear: date labels are strings, so a JSON `null` label, which the loop at myapp/logica_evolucion.py:97 skips exactly like an empty one, cannot be expressed; the model covers the empty label only.
- The monthly-to-annual and other near-duplicate view variants, myapp/models.py, the URL modules and clean.py. None of them is part of this model.

## Findings

| source | as written | input that shows it | evidently intended | confidence | as-written member | corrected member |
|---|---|---|---|---|---|---|
| myapp/logica_resultado.py:105-114 | a window is sent whatever the limit: in the period in progress the end is replaced by a limit before the period's first day, and a period that has not begun is requested in full | year 2024, month 3, today 2024-03-01, limit 2024-02-29 gives start 2024-03-01 and end 2024-02-29; year 2024, month 5, today 2024-03-15, limit 2024-03-14 gives all of May | a limit before the period's first day is reported as a distinct no-overlap outcome instead of sending a window | medium, not executed | Results.ClipCanInvertWindow | Results.ResolveWindowChecked |
