/** `process_daily_to_annual` of myapp/logica_evolucion.py: a multi-decade
    daily series grouped by the four-character year prefix of its labels into
    one record per year, null samples skipped, years without both temperature
    extremes dropped, records in ascending year order. */
module Evolution {
  import opened Common
  import opened Numeric
  import opened Series

  /** One element of the result list. */
  datatype YearRecord = YearRecord(
    year: string, tempMaxAvg: real, tempMinAvg: real, precipSum: real, radiationSum: real)

  /** One bucket of `annual_groups`: the non-null samples collected for a year. */
  datatype YearGroup = YearGroup(tmax: seq<real>, tmin: seq<real>, precip: seq<real>, rad: seq<real>)

  const EmptyGroup := YearGroup([], [], [], [])

  /** `date_str[0:4]` (a shorter label is kept whole). */
  function YearOf(dateStr: string): (y: string)
    ensures |y| <= 4
  {
    if |dateStr| <= 4 then dateStr else dateStr[..4]
  }

  /** `xs.append(s)` when `s` is not None. */
  function Add(xs: seq<real>, s: Sample): seq<real>
  {
    if s.Some? then xs + [s.value] else xs
  }

  /** Column `c` can be read at every day with a non-empty label. */
  predicate Reaches(t: seq<string>, c: seq<Sample>)
  {
    forall i :: 0 <= i < |t| && t[i] != "" ==> i < |c|
  }

  /** What the original indexes without raising: each of the four columns
      exists and is long enough wherever a non-empty label needs it. */
  predicate Accepts(d: Option<Daily>)
  {
    d.Some? && d.value.time.Some? ==>
      var t := d.value.time.value;
      && Reaches(t, Col(d.value.tempMax)) && Reaches(t, Col(d.value.tempMin))
      && Reaches(t, Col(d.value.precip)) && Reaches(t, Col(d.value.radiation))
  }

  /** The non-null samples of `c` on the first `n` days of year `y`, in day order. */
  function YearValuesUpTo(t: seq<string>, c: seq<Sample>, y: string, n: nat): seq<real>
    requires Reaches(t, c) && n <= |t|
  {
    if n == 0 then []
    else
      var prev := YearValuesUpTo(t, c, y, n - 1);
      if t[n - 1] != "" && YearOf(t[n - 1]) == y then Add(prev, c[n - 1]) else prev
  }

  /** The year keys created by the first `n` labels. */
  function YearsUpTo(t: seq<string>, n: nat): set<string>
    requires n <= |t|
  {
    set i | 0 <= i < n && t[i] != "" :: YearOf(t[i])
  }

  /** `annual_groups[y]` after the first `n` days. */
  function GroupUpTo(d: Daily, y: string, n: nat): YearGroup
    requires Accepts(Some(d)) && d.time.Some? && n <= |d.time.value|
  {
    var t := d.time.value;
    YearGroup(
      YearValuesUpTo(t, Col(d.tempMax), y, n), YearValuesUpTo(t, Col(d.tempMin), y, n),
      YearValuesUpTo(t, Col(d.precip), y, n), YearValuesUpTo(t, Col(d.radiation), y, n))
  }

  /** The finished bucket of year `y`. */
  function Group(d: Daily, y: string): YearGroup
    requires Accepts(Some(d)) && d.time.Some?
  {
    GroupUpTo(d, y, |d.time.value|)
  }

  function Years(d: Daily): set<string>
    requires d.time.Some?
  {
    YearsUpTo(d.time.value, |d.time.value|)
  }

  /** The completeness gate: at least one maximum and one minimum temperature. */
  predicate Complete(g: YearGroup)
  {
    |g.tmax| > 0 && |g.tmin| > 0
  }

  /** The record emitted for a complete year. */
  function RecordOf(y: string, g: YearGroup): YearRecord
    requires Complete(g)
  {
    YearRecord(y, Round(Mean(g.tmax), 1), Round(Mean(g.tmin), 1), Round(Sum(g.precip), 1), Round(Sum(g.rad), 1))
  }

  predicate StrictlyAscending(ys: seq<string>)
  {
    forall i, j :: 0 <= i < j < |ys| ==> StrLt(ys[i], ys[j])
  }

  predicate AscendingRecords(r: seq<YearRecord>)
  {
    forall i, j :: 0 <= i < j < |r| ==> StrLt(r[i].year, r[j].year)
  }

  /** Some record of `r` is for year `y`. */
  predicate HasYear(r: seq<YearRecord>, y: string)
  {
    exists k :: 0 <= k < |r| && r[k].year == y
  }

  /** A value lands in a year's bucket iff some day labelled with that year
      holds it as a non-null sample: null samples are skipped, nothing else is. */
  lemma {:induction false} YearValuesMembers(t: seq<string>, c: seq<Sample>, y: string, n: nat, x: real)
    requires Reaches(t, c) && n <= |t|
    ensures x in YearValuesUpTo(t, c, y, n) <==>
      exists i :: 0 <= i < n && t[i] != "" && YearOf(t[i]) == y && c[i] == Some(x)
  {
    if n > 0 {
      YearValuesMembers(t, c, y, n - 1, x);
      if t[n - 1] != "" && YearOf(t[n - 1]) == y && c[n - 1] == Some(x) {
        assert x in YearValuesUpTo(t, c, y, n);
      }
    }
  }

  lemma HeadIsMember(b: seq<string>)
    requires |b| > 0
    ensures b[0] in b
  {
  }

  /** A strictly ascending sequence of strings is fixed by its elements: the
      order `sorted` produces is the only one the result can have. */
  lemma {:induction false} AscendingUnique(a: seq<string>, b: seq<string>)
    requires StrictlyAscending(a) && StrictlyAscending(b)
    requires forall y :: y in a <==> y in b
    ensures a == b
    decreases |a|
  {
    if |a| == 0 {
      if |b| > 0 {
        HeadIsMember(b);
        assert false;
      }
    } else {
      assert a[0] in b;
      if a[0] != b[0] {
        assert b[0] in a;
        var i :| 0 <= i < |a| && a[i] == b[0];
        var j :| 0 <= j < |b| && b[j] == a[0];
        assert StrLt(a[0], a[i]) && StrLt(b[0], b[j]);
        StrLtTransitive(a[0], b[0], a[0]);
        StrLtIrreflexive(a[0]);
        assert false;
      }
      forall y
        ensures y in a[1..] <==> y in b[1..]
      {
        if y in a[1..] {
          var i :| 1 <= i < |a| && a[i] == y;
          assert StrLt(a[0], y);
          StrLtIrreflexive(y);
          assert y in b && y != b[0];
          var j :| 0 <= j < |b| && b[j] == y;
          assert b[1..][j - 1] == y;
        }
        if y in b[1..] {
          var j :| 1 <= j < |b| && b[j] == y;
          assert StrLt(b[0], y);
          StrLtIrreflexive(y);
          assert y in a && y != a[0];
          var i :| 0 <= i < |a| && a[i] == y;
          assert a[1..][i - 1] == y;
        }
      }
      AscendingUnique(a[1..], b[1..]);
      assert a == [a[0]] + a[1..] && b == [b[0]] + b[1..];
    }
  }

  /** `sorted(keys)`: the keys in ascending string order. */
  method SortedYears(keys: set<string>) returns (ys: seq<string>)
    ensures StrictlyAscending(ys)
    ensures forall y :: y in ys <==> y in keys
  {
    var rest := keys;
    ys := [];
    while rest != {}
      invariant forall y :: y in keys <==> y in ys || y in rest
      invariant forall i, z :: 0 <= i < |ys| && z in rest ==> StrLt(ys[i], z)
      invariant StrictlyAscending(ys)
      decreases |rest|
    {
      LeastStringExists(rest);
      var least :| least in rest && IsLeast(least, rest);
      ys := ys + [least];
      rest := rest - {least};
    }
  }

  /** One day's step of the grouping loop: a day with a non-empty label adds
      its non-null samples to its year's bucket; no other bucket changes. */
  lemma GroupStep(d: Daily, n: nat)
    requires Accepts(Some(d)) && d.time.Some? && n < |d.time.value|
    ensures forall y :: (d.time.value[n] == "" || y != YearOf(d.time.value[n])) ==>
      GroupUpTo(d, y, n + 1) == GroupUpTo(d, y, n)
    ensures d.time.value[n] != "" ==>
      var y := YearOf(d.time.value[n]);
      var g := GroupUpTo(d, y, n);
      GroupUpTo(d, y, n + 1) == YearGroup(
        Add(g.tmax, Col(d.tempMax)[n]), Add(g.tmin, Col(d.tempMin)[n]),
        Add(g.precip, Col(d.precip)[n]), Add(g.rad, Col(d.radiation)[n]))
  {
  }

  /** A year no label has produced yet has an empty bucket. */
  lemma {:induction false} UnseenYearIsEmpty(t: seq<string>, c: seq<Sample>, y: string, n: nat)
    requires Reaches(t, c) && n <= |t|
    requires y !in YearsUpTo(t, n)
    ensures YearValuesUpTo(t, c, y, n) == []
  {
    if n > 0 {
      assert YearsUpTo(t, n - 1) <= YearsUpTo(t, n);
      UnseenYearIsEmpty(t, c, y, n - 1);
    }
  }

  /** The first loop: every day with a non-empty label files its non-null
      samples under its year, creating the bucket on first sight. */
  method GroupByYear(daily: Daily) returns (groups: map<string, YearGroup>)
    requires Accepts(Some(daily)) && daily.time.Some?
    ensures groups.Keys == Years(daily)
    ensures forall y :: y in groups ==> groups[y] == Group(daily, y)
  {
    var times := daily.time.value;
    groups := map[];
    for i := 0 to |times|
      invariant groups.Keys == YearsUpTo(times, i)
      invariant forall y :: y in groups ==> groups[y] == GroupUpTo(daily, y, i)
    {
      groups := FileYearDay(daily, groups, i);
    }
  }

  /** One iteration of the first loop: day `i` joins its year's bucket. */
  method FileYearDay(daily: Daily, groups: map<string, YearGroup>, i: nat) returns (next: map<string, YearGroup>)
    requires Accepts(Some(daily)) && daily.time.Some? && i < |daily.time.value|
    requires groups.Keys == YearsUpTo(daily.time.value, i)
    requires forall y :: y in groups ==> groups[y] == GroupUpTo(daily, y, i)
    ensures next.Keys == YearsUpTo(daily.time.value, i + 1)
    ensures forall y :: y in next ==> next[y] == GroupUpTo(daily, y, i + 1)
  {
    var times := daily.time.value;
    GroupStep(daily, i);
    var dateStr := times[i];
    if dateStr == "" {
      assert YearsUpTo(times, i + 1) == YearsUpTo(times, i);
      return groups;
    }
    var year := YearOf(dateStr);
    var tmax := daily.tempMax.value[i];
    var tmin := daily.tempMin.value[i];
    var prec := daily.precip.value[i];
    var rad := daily.radiation.value[i];
    var group := EmptyGroup;
    if year in groups {
      group := groups[year];
    } else {
      UnseenYearIsEmpty(times, Col(daily.tempMax), year, i);
      UnseenYearIsEmpty(times, Col(daily.tempMin), year, i);
      UnseenYearIsEmpty(times, Col(daily.precip), year, i);
      UnseenYearIsEmpty(times, Col(daily.radiation), year, i);
    }
    assert group == GroupUpTo(daily, year, i);
    if tmax.Some? { group := group.(tmax := group.tmax + [tmax.value]); }
    if tmin.Some? { group := group.(tmin := group.tmin + [tmin.value]); }
    if prec.Some? { group := group.(precip := group.precip + [prec.value]); }
    if rad.Some? { group := group.(rad := group.rad + [rad.value]); }
    next := groups[year := group];
    assert YearsUpTo(times, i + 1) == YearsUpTo(times, i) + {year};
  }

  /** Appending the record of `sortedYears[k]` to records that all sort before
      `sortedYears[k..]` keeps them ascending and before `sortedYears[k + 1..]`. */
  lemma AppendKeepsOrder(result: seq<YearRecord>, rec: YearRecord, sortedYears: seq<string>, k: nat)
    requires StrictlyAscending(sortedYears) && k < |sortedYears| && rec.year == sortedYears[k]
    requires AscendingRecords(result)
    requires forall a, j :: 0 <= a < |result| && k <= j < |sortedYears| ==> StrLt(result[a].year, sortedYears[j])
    ensures AscendingRecords(result + [rec])
    ensures forall a, j :: 0 <= a < |result| + 1 && k + 1 <= j < |sortedYears| ==>
      StrLt((result + [rec])[a].year, sortedYears[j])
  {
  }

  /** Appending a record keeps every year already present. */
  lemma HasYearAppend(r: seq<YearRecord>, rec: YearRecord, y: string)
    requires HasYear(r, y)
    ensures HasYear(r + [rec], y)
  {
    var k :| 0 <= k < |r| && r[k].year == y;
    assert (r + [rec])[k].year == y;
  }

  /** The second loop: one record per complete year, in the order given. */
  method EmitRecords(groups: map<string, YearGroup>, sortedYears: seq<string>) returns (result: seq<YearRecord>)
    requires StrictlyAscending(sortedYears)
    requires forall i :: 0 <= i < |sortedYears| ==> sortedYears[i] in groups
    ensures AscendingRecords(result)
    ensures forall a :: 0 <= a < |result| ==>
      result[a].year in groups && Complete(groups[result[a].year]) &&
      result[a] == RecordOf(result[a].year, groups[result[a].year])
    ensures forall p :: 0 <= p < |sortedYears| && Complete(groups[sortedYears[p]]) ==> HasYear(result, sortedYears[p])
  {
    result := [];
    for k := 0 to |sortedYears|
      invariant AscendingRecords(result)
      invariant forall a, j :: 0 <= a < |result| && k <= j < |sortedYears| ==> StrLt(result[a].year, sortedYears[j])
      invariant forall a :: 0 <= a < |result| ==>
        result[a].year in groups && Complete(groups[result[a].year]) &&
        result[a] == RecordOf(result[a].year, groups[result[a].year])
      invariant forall p :: 0 <= p < k && Complete(groups[sortedYears[p]]) ==> HasYear(result, sortedYears[p])
    {
      var year := sortedYears[k];
      var g := groups[year];
      if |g.tmax| > 0 && |g.tmin| > 0 {
        var avgTmax := Mean(g.tmax);
        var avgTmin := Mean(g.tmin);
        var sumPrecip := Sum(g.precip);
        var sumRad := Sum(g.rad);
        var rec := YearRecord(year, Round(avgTmax, 1), Round(avgTmin, 1), Round(sumPrecip, 1), Round(sumRad, 1));
        assert rec == RecordOf(year, g);
        AppendKeepsOrder(result, rec, sortedYears, k);
        forall p | 0 <= p < k && Complete(groups[sortedYears[p]])
          ensures HasYear(result + [rec], sortedYears[p])
        {
          HasYearAppend(result, rec, sortedYears[p]);
        }
        assert (result + [rec])[|result|].year == year;
        result := result + [rec];
      }
    }
  }

  method ProcessDailyToAnnual(d: Option<Daily>) returns (result: seq<YearRecord>)
    requires Accepts(d)
    ensures d.None? || d.value.time.None? ==> result == []
    ensures AscendingRecords(result)
    ensures d.Some? && d.value.time.Some? ==> forall k :: 0 <= k < |result| ==>
      && result[k].year in Years(d.value)
      && Complete(Group(d.value, result[k].year))
      && result[k] == RecordOf(result[k].year, Group(d.value, result[k].year))
    ensures d.Some? && d.value.time.Some? ==> forall y :: y in Years(d.value) && Complete(Group(d.value, y)) ==>
      HasYear(result, y)
  {
    if d.None? || d.value.time.None? {
      return [];
    }
    var daily := d.value;
    var groups := GroupByYear(daily);
    var sortedYears := SortedYears(groups.Keys);
    result := EmitRecords(groups, sortedYears);
  }
}
