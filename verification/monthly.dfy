/** `calculate_monthly_metrics` of myapp/views.py: daily rows bucketed into the
    twelve months of the year by the `MM` field of their `YYYY-MM-DD` label,
    with the mean daily maximum temperature and the total precipitation of
    each month. */
module MonthlyMetrics {
  import opened Common
  import opened Numeric
  import opened Series

  /** One entry of the result: `{'temp_avg': ..., 'precip_sum': ...}`. */
  datatype MonthStats = MonthStats(tempAvg: real, precipSum: real)

  /** One entry of the working dictionary: `{'temps': [...], 'precip': ...}`. */
  datatype MonthAcc = MonthAcc(temps: seq<real>, precip: real)

  /** `int(label.split('-')[1])` succeeds and names a month. */
  predicate HasMonth(dateLabel: string)
  {
    var fields := Split(dateLabel, '-');
    |fields| >= 2 && IsDigits(fields[1]) && 1 <= ParseNat(fields[1]) <= 12
  }

  function MonthOf(dateLabel: string): (m: int)
    requires HasMonth(dateLabel)
    ensures 1 <= m <= 12
  {
    ParseNat(Split(dateLabel, '-')[1])
  }

  /** `str(month)`, the key of a month in the result. */
  function MonthKey(m: nat): string
  {
    NatToString(m)
  }

  function MonthKeys(): set<string>
  {
    set m: nat | 1 <= m <= 12 :: MonthKey(m)
  }

  /** Every label names a month and the column has a non-null sample for it:
      otherwise the original raises (ValueError, KeyError, IndexError or
      TypeError). */
  predicate Readable(t: seq<string>, v: seq<Sample>)
  {
    |v| >= |t| && forall i :: 0 <= i < |t| ==> HasMonth(t[i]) && v[i].Some?
  }

  /** What `calculate_monthly_metrics` needs of its argument. */
  predicate Accepts(d: Daily)
  {
    && d.time.Some? && d.tempMax.Some? && d.precip.Some?
    && Readable(d.time.value, d.tempMax.value)
    && Readable(d.time.value, d.precip.value)
  }

  /** The samples of the first `n` days that are labelled with month `m`, in day order. */
  function MonthValuesUpTo(t: seq<string>, v: seq<Sample>, m: int, n: nat): seq<real>
    requires Readable(t, v) && n <= |t|
  {
    if n == 0 then []
    else MonthValuesUpTo(t, v, m, n - 1) + (if MonthOf(t[n - 1]) == m then [v[n - 1].value] else [])
  }

  /** The bucket of month `m`: the samples of every day labelled with month `m`. */
  function MonthValues(t: seq<string>, v: seq<Sample>, m: int): seq<real>
    requires Readable(t, v)
  {
    MonthValuesUpTo(t, v, m, |t|)
  }

  /** `sum(xs) / len(xs) if xs else 0.0` */
  function MeanOrZero(xs: seq<real>): real
  {
    if |xs| == 0 then 0.0 else Mean(xs)
  }

  /** What the result holds for month `m`. */
  function MonthSummary(t: seq<string>, tmax: seq<Sample>, prec: seq<Sample>, m: int): MonthStats
    requires Readable(t, tmax) && Readable(t, prec)
  {
    MonthStats(Round(MeanOrZero(MonthValues(t, tmax, m)), 1), Round(Sum(MonthValues(t, prec, m)), 1))
  }

  /** The working dictionary's entry for month `m` after the first `n` days. */
  function Accumulated(t: seq<string>, tmax: seq<Sample>, prec: seq<Sample>, m: int, n: nat): MonthAcc
    requires Readable(t, tmax) && Readable(t, prec) && n <= |t|
  {
    MonthAcc(MonthValuesUpTo(t, tmax, m, n), Sum(MonthValuesUpTo(t, prec, m, n)))
  }

  /** Day `n` extends the entry of its own month and leaves the other eleven alone. */
  lemma AccumulatedEntryStep(t: seq<string>, tmax: seq<Sample>, prec: seq<Sample>, n: nat, m: int)
    requires Readable(t, tmax) && Readable(t, prec) && n < |t|
    ensures var a := Accumulated(t, tmax, prec, m, n);
      Accumulated(t, tmax, prec, m, n + 1)
        == if m == MonthOf(t[n]) then MonthAcc(a.temps + [tmax[n].value], a.precip + prec[n].value) else a
  {
    if m == MonthOf(t[n]) {
      SumSnoc(MonthValuesUpTo(t, prec, m, n), prec[n].value);
    } else {
      assert MonthValuesUpTo(t, tmax, m, n + 1) == MonthValuesUpTo(t, tmax, m, n);
      assert MonthValuesUpTo(t, prec, m, n + 1) == MonthValuesUpTo(t, prec, m, n);
    }
  }

  method CalculateMonthlyMetrics(d: Daily) returns (result: map<string, MonthStats>)
    requires Accepts(d)
    ensures result.Keys == MonthKeys()
    ensures forall m: nat :: 1 <= m <= 12 ==>
      result[MonthKey(m)] == MonthSummary(d.time.value, d.tempMax.value, d.precip.value, m)
  {
    var times, temps, precips := d.time.value, d.tempMax.value, d.precip.value;
    var monthly := GroupByMonth(times, temps, precips);
    result := SummarizeMonths(times, temps, precips, monthly);
  }

  /** The first loop: one pass over the days, filing each day under its month. */
  method GroupByMonth(times: seq<string>, temps: seq<Sample>, precips: seq<Sample>) returns (monthly: map<int, MonthAcc>)
    requires Readable(times, temps) && Readable(times, precips)
    ensures forall m :: 1 <= m <= 12 ==> m in monthly && monthly[m] == Accumulated(times, temps, precips, m, |times|)
  {
    monthly := EmptyMonthTable();
    NothingAccumulatedYet(times, temps, precips);
    var i := 0;
    while i < |times|
      invariant 0 <= i <= |times|
      invariant forall m :: 1 <= m <= 12 ==> m in monthly && monthly[m] == Accumulated(times, temps, precips, m, i)
    {
      monthly := FileDay(times, temps, precips, monthly, i);
      i := i + 1;
    }
  }

  /** `{month: {'temps': [], 'precip': 0.0} for month in range(1, 13)}` */
  method EmptyMonthTable() returns (monthly: map<int, MonthAcc>)
    ensures forall m :: m in monthly <==> 1 <= m <= 12
    ensures forall m :: m in monthly ==> monthly[m] == MonthAcc([], 0.0)
  {
    var empty := MonthAcc([], 0.0);
    monthly := map[1 := empty, 2 := empty, 3 := empty, 4 := empty, 5 := empty, 6 := empty,
                   7 := empty, 8 := empty, 9 := empty, 10 := empty, 11 := empty, 12 := empty];
  }

  /** Before the first day every entry is the empty one the dictionary starts with. */
  lemma NothingAccumulatedYet(t: seq<string>, tmax: seq<Sample>, prec: seq<Sample>)
    requires Readable(t, tmax) && Readable(t, prec)
    ensures forall m :: Accumulated(t, tmax, prec, m, 0) == MonthAcc([], 0.0)
  {
  }

  /** One iteration of the first loop: day `i` joins the entry of its month. */
  method FileDay(times: seq<string>, temps: seq<Sample>, precips: seq<Sample>, monthly: map<int, MonthAcc>, i: nat)
    returns (next: map<int, MonthAcc>)
    requires Readable(times, temps) && Readable(times, precips) && i < |times|
    requires forall m :: 1 <= m <= 12 ==> m in monthly && monthly[m] == Accumulated(times, temps, precips, m, i)
    ensures forall m :: 1 <= m <= 12 ==> m in next && next[m] == Accumulated(times, temps, precips, m, i + 1)
  {
    var month := MonthOf(times[i]);
    var acc := monthly[month];
    next := monthly[month := MonthAcc(acc.temps + [temps[i].value], acc.precip + precips[i].value)];
    forall m | 1 <= m <= 12
      ensures m in next && next[m] == Accumulated(times, temps, precips, m, i + 1)
    {
      AccumulatedEntryStep(times, temps, precips, i, m);
    }
  }

  /** The second loop: one rounded entry per month, keyed by the month's number as text. */
  method SummarizeMonths(times: seq<string>, temps: seq<Sample>, precips: seq<Sample>, monthly: map<int, MonthAcc>)
    returns (result: map<string, MonthStats>)
    requires Readable(times, temps) && Readable(times, precips)
    requires forall m :: 1 <= m <= 12 ==> m in monthly && monthly[m] == Accumulated(times, temps, precips, m, |times|)
    ensures result.Keys == MonthKeys()
    ensures forall m: nat :: 1 <= m <= 12 ==> result[MonthKey(m)] == MonthSummary(times, temps, precips, m)
  {
    result := map[];
    for month: nat := 1 to 13
      invariant result.Keys == KeysBelow(month)
      invariant forall k: nat :: 1 <= k < month ==> result[MonthKey(k)] == MonthSummary(times, temps, precips, k)
    {
      KeysBelowStep(month);
      var acc := monthly[month];
      var tempAvg := if |acc.temps| > 0 then Sum(acc.temps) / |acc.temps| as real else 0.0;
      var stats := MonthStats(Round(tempAvg, 1), Round(acc.precip, 1));
      assert stats == MonthSummary(times, temps, precips, month);
      result := result[MonthKey(month) := stats];
    }
    assert KeysBelow(13) == MonthKeys();
  }

  /** The keys written before month `month` is reached. */
  ghost function KeysBelow(month: nat): set<string>
  {
    set k: nat | 1 <= k < month :: MonthKey(k)
  }

  /** Writing month `month` adds a key no earlier month used. */
  lemma KeysBelowStep(month: nat)
    requires month >= 1
    ensures MonthKey(month) !in KeysBelow(month)
    ensures KeysBelow(month + 1) == KeysBelow(month) + {MonthKey(month)}
  {
    if MonthKey(month) in KeysBelow(month) {
      var k: nat :| 1 <= k < month && MonthKey(k) == MonthKey(month);
      NatToStringInjective(k, month);
      assert false;
    }
  }

  const KeyTable: seq<string> := ["1", "2", "3", "4", "5", "6", "7", "8", "9", "10", "11", "12"]

  lemma MonthKeyInTable(m: nat)
    requires 1 <= m <= 12
    ensures MonthKey(m) == KeyTable[m - 1]
  {
    if m >= 10 { assert NatToString(m) == NatToString(1) + [DigitChar(m - 10)]; }
  }

  /** The result has exactly the twelve keys "1" to "12", whatever the input. */
  lemma TwelveKeys()
    ensures MonthKeys() == {"1", "2", "3", "4", "5", "6", "7", "8", "9", "10", "11", "12"}
  {
    forall m: nat | 1 <= m <= 12 ensures MonthKey(m) in KeyTable { MonthKeyInTable(m); }
    forall k | 0 <= k < 12 ensures KeyTable[k] in MonthKeys() { MonthKeyInTable(k + 1); }
    var literal := {"1", "2", "3", "4", "5", "6", "7", "8", "9", "10", "11", "12"};
    assert forall s :: s in literal <==> s in KeyTable;
    assert forall s :: s in literal <==> s in MonthKeys();
  }

  /** A month no label names collects nothing. */
  lemma {:induction false} UnnamedMonthIsEmpty(t: seq<string>, v: seq<Sample>, m: int, n: nat)
    requires Readable(t, v) && n <= |t|
    requires forall i :: 0 <= i < |t| ==> MonthOf(t[i]) != m
    ensures MonthValuesUpTo(t, v, m, n) == []
  {
    if n > 0 {
      UnnamedMonthIsEmpty(t, v, m, n - 1);
    }
  }

  /** A month with no input days reports 0.0 for both metrics. */
  lemma EmptyMonthIsZero(t: seq<string>, tmax: seq<Sample>, prec: seq<Sample>, m: int)
    requires Readable(t, tmax) && Readable(t, prec)
    requires forall i :: 0 <= i < |t| ==> MonthOf(t[i]) != m
    ensures MonthSummary(t, tmax, prec, m) == MonthStats(0.0, 0.0)
  {
    UnnamedMonthIsEmpty(t, tmax, m, |t|);
    UnnamedMonthIsEmpty(t, prec, m, |t|);
  }

  /** A value is in month `m`'s bucket iff some day of month `m` recorded it. */
  lemma {:induction false} MonthValuesMembers(t: seq<string>, v: seq<Sample>, m: int, n: nat, x: real)
    requires Readable(t, v) && n <= |t|
    ensures x in MonthValuesUpTo(t, v, m, n) <==>
      exists i :: 0 <= i < n && MonthOf(t[i]) == m && v[i] == Some(x)
  {
    if n > 0 {
      MonthValuesMembers(t, v, m, n - 1, x);
      if x in MonthValuesUpTo(t, v, m, n) && x !in MonthValuesUpTo(t, v, m, n - 1) {
        assert MonthOf(t[n - 1]) == m && v[n - 1] == Some(x);
      }
    }
  }

  /** The mean temperature of a month with data lies between that month's
      coldest and warmest maximum, each rounded. */
  lemma MonthAverageBounded(t: seq<string>, tmax: seq<Sample>, prec: seq<Sample>, m: int)
    requires Readable(t, tmax) && Readable(t, prec)
    requires |MonthValues(t, tmax, m)| > 0
    ensures Round(Min(MonthValues(t, tmax, m)), 1) <= MonthSummary(t, tmax, prec, m).tempAvg
    ensures MonthSummary(t, tmax, prec, m).tempAvg <= Round(Max(MonthValues(t, tmax, m)), 1)
  {
    var xs := MonthValues(t, tmax, m);
    RoundMonotone(Min(xs), Mean(xs), 1);
    RoundMonotone(Mean(xs), Max(xs), 1);
  }

  /** The twelve bucket sizes after the first `n` days, January first. */
  function MonthSizes(t: seq<string>, v: seq<Sample>, n: nat): (s: seq<real>)
    requires Readable(t, v) && n <= |t|
    ensures |s| == 12
  {
    seq(12, k requires 0 <= k < 12 => |MonthValuesUpTo(t, v, k + 1, n)| as real)
  }

  /** The twelve bucket totals after the first `n` days, January first. */
  function MonthTotals(t: seq<string>, v: seq<Sample>, n: nat): (s: seq<real>)
    requires Readable(t, v) && n <= |t|
    ensures |s| == 12
  {
    seq(12, k requires 0 <= k < 12 => Sum(MonthValuesUpTo(t, v, k + 1, n)))
  }

  /** One more day adds one to the size of its own month's bucket and to no other. */
  lemma MonthSizesStep(t: seq<string>, v: seq<Sample>, n: nat)
    requires Readable(t, v) && 0 < n <= |t|
    ensures var k := MonthOf(t[n - 1]) - 1;
      MonthSizes(t, v, n) == MonthSizes(t, v, n - 1)[k := MonthSizes(t, v, n - 1)[k] + 1.0]
    ensures Sum(MonthSizes(t, v, n)) == Sum(MonthSizes(t, v, n - 1)) + 1.0
  {
    var k := MonthOf(t[n - 1]) - 1;
    var before := MonthSizes(t, v, n - 1);
    assert MonthSizes(t, v, n) == before[k := before[k] + 1.0];
    SumUpdate(before, k, 1.0);
  }

  /** One more day adds its sample to its own month's total and to no other. */
  lemma MonthTotalsStep(t: seq<string>, v: seq<Sample>, n: nat)
    requires Readable(t, v) && 0 < n <= |t|
    ensures var k := MonthOf(t[n - 1]) - 1;
      MonthTotals(t, v, n) == MonthTotals(t, v, n - 1)[k := MonthTotals(t, v, n - 1)[k] + v[n - 1].value]
  {
    var k := MonthOf(t[n - 1]) - 1;
    var before := MonthTotals(t, v, n - 1);
    forall j | 0 <= j < 12
      ensures MonthTotals(t, v, n)[j] == before[k := before[k] + v[n - 1].value][j]
    {
      var bucket := MonthValuesUpTo(t, v, j + 1, n - 1);
      if j == k {
        SumSnoc(bucket, v[n - 1].value);
      } else {
        assert MonthValuesUpTo(t, v, j + 1, n) == bucket;
      }
    }
  }

  /** Hence one more day raises the sum of the twelve totals by its sample. */
  lemma MonthTotalsSumStep(t: seq<string>, v: seq<Sample>, n: nat)
    requires Readable(t, v) && 0 < n <= |t|
    ensures Sum(MonthTotals(t, v, n)) == Sum(MonthTotals(t, v, n - 1)) + v[n - 1].value
  {
    var k := MonthOf(t[n - 1]) - 1;
    var before := MonthTotals(t, v, n - 1);
    MonthTotalsStep(t, v, n);
    SumUpdate(before, k, v[n - 1].value);
  }

  /** Each day lands in exactly one month: the twelve bucket sizes add up to
      the number of days. */
  lemma {:induction false} MonthCountsPartition(t: seq<string>, v: seq<Sample>, n: nat)
    requires Readable(t, v) && n <= |t|
    ensures Sum(MonthSizes(t, v, n)) == n as real
  {
    if n == 0 {
      SumZeros(MonthSizes(t, v, 0));
    } else {
      MonthCountsPartition(t, v, n - 1);
      MonthSizesStep(t, v, n);
    }
  }

  /** One more non-null sample adds its value to the total of the non-null prefix. */
  lemma PresentSumStep(v: seq<Sample>, n: nat)
    requires 0 < n <= |v| && v[n - 1].Some?
    ensures Sum(Present(v[..n])) == Sum(Present(v[..n - 1])) + v[n - 1].value
  {
    assert v[..n][..n - 1] == v[..n - 1];
    assert Present(v[..n]) == Present(v[..n - 1]) + [v[n - 1].value];
    SumSnoc(Present(v[..n - 1]), v[n - 1].value);
  }

  /** Grouping loses and duplicates nothing: the twelve monthly totals add up to
      the total over all days. */
  lemma {:induction false} MonthTotalsPartition(t: seq<string>, v: seq<Sample>, n: nat)
    requires Readable(t, v) && n <= |t|
    ensures Sum(MonthTotals(t, v, n)) == Sum(Present(v[..n]))
  {
    if n == 0 {
      SumZeros(MonthTotals(t, v, 0));
      assert v[..0] == [];
    } else {
      MonthTotalsPartition(t, v, n - 1);
      MonthTotalsSumStep(t, v, n);
      PresentSumStep(v, n);
    }
  }

}
