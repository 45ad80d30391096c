/** The month-bucketed series of `updateTimelineChart`: one bar per calendar
    month that holds at least one dated application, in chronological order. */
module Timeline {
  import opened Wrappers
  import opened Records

  /** `new Date(app['Date Applied'] || app['Timestamp'])`: the timestamp is used
      only when the application date is empty, not when it fails to parse. */
  function EffectiveDate(p: Platform, r: Record): Option<int> {
    DateValue(p, Or(Get(r, DateApplied), Get(r, Timestamp)))
  }

  /** The month a record is bucketed under, or `None` when its date is invalid
      and the record is skipped. */
  function MonthKey(p: Platform, r: Record): Option<Month> {
    match EffectiveDate(p, r)
    case None => None
    case Some(t) => Some(p.monthOf(t))
  }

  /** Number of records bucketed under month `m`. */
  function BucketCount(p: Platform, data: seq<Record>, m: Month): nat {
    if data == [] then 0
    else BucketCount(p, data[..|data| - 1], m) + (if MonthKey(p, data[|data| - 1]) == Some(m) then 1 else 0)
  }

  /** Number of records whose effective date parses. */
  function DatedCount(p: Platform, data: seq<Record>): nat {
    if data == [] then 0
    else DatedCount(p, data[..|data| - 1]) + (if MonthKey(p, data[|data| - 1]).Some? then 1 else 0)
  }

  /** One bar of the chart: a month and the number of applications in it. */
  datatype Bar = Bar(month: Month, count: nat)

  /** Months strictly increase along the series. */
  predicate Ascending(series: seq<Bar>) {
    forall i, j :: 0 <= i < j < |series| ==> MonthBefore(series[i].month, series[j].month)
  }

  /** `m` has a bar in the series. */
  predicate HasBar(series: seq<Bar>, m: Month) {
    exists i :: 0 <= i < |series| && series[i].month == m
  }

  /** Sum of the bar heights. */
  function Total(series: seq<Bar>): nat {
    if series == [] then 0 else series[0].count + Total(series[1..])
  }

  /** The bucket counts of the months of `series`, summed. */
  function SumBuckets(p: Platform, data: seq<Record>, series: seq<Bar>): nat {
    if series == [] then 0 else BucketCount(p, data, series[0].month) + SumBuckets(p, data, series[1..])
  }

  /** Number of bars for month `m`. */
  function Occurrences(series: seq<Bar>, m: Month): nat {
    if series == [] then 0 else (if series[0].month == m then 1 else 0) + Occurrences(series[1..], m)
  }

  /** The loop that fills `monthCounts`: afterwards it holds exactly the months
      with at least one record, each with its number of records. */
  method CountByMonth(p: Platform, data: seq<Record>) returns (counts: map<Month, nat>)
    ensures forall m :: m in counts <==> BucketCount(p, data, m) > 0
    ensures forall m :: m in counts ==> counts[m] == BucketCount(p, data, m)
  {
    counts := map[];
    var i := 0;
    while i < |data|
      invariant 0 <= i <= |data|
      invariant forall m :: m in counts <==> BucketCount(p, data[..i], m) > 0
      invariant forall m :: m in counts ==> counts[m] == BucketCount(p, data[..i], m)
    {
      assert data[..i + 1][..i] == data[..i];
      match MonthKey(p, data[i]) {
        case None =>
        case Some(key) =>
          counts := counts[key := (if key in counts then counts[key] else 0) + 1];
      }
      i := i + 1;
    }
    assert data[..i] == data;
  }

  /** The chronologically first month of a non-empty set. */
  method Earliest(months: set<Month>) returns (m: Month)
    requires months != {}
    ensures m in months
    ensures forall k :: k in months ==> !MonthBefore(k, m)
  {
    var rest := months;
    m :| m in rest;
    rest := rest - {m};
    while rest != {}
      invariant rest <= months && m in months
      invariant forall k :: k in months && k !in rest ==> !MonthBefore(k, m)
      decreases |rest|
    {
      var k :| k in rest;
      if MonthBefore(k, m) {
        m := k;
      }
      rest := rest - {k};
    }
  }

  /** `Object.keys(monthCounts).sort(…)` with each key's count: the bars of
      the dictionary, earliest month first. */
  method SortedBars(counts: map<Month, nat>) returns (series: seq<Bar>)
    ensures Ascending(series)
    ensures forall i :: 0 <= i < |series| ==> series[i].month in counts && series[i].count == counts[series[i].month]
    ensures forall m :: m in counts <==> HasBar(series, m)
  {
    var remaining := counts.Keys;
    series := [];
    while remaining != {}
      invariant SortedPrefix(counts, remaining, series)
      decreases |remaining|
    {
      var m := Earliest(remaining);
      ghost var before := series;
      series := series + [Bar(m, counts[m])];
      SortedPrefixStep(counts, remaining, before, m);
      remaining := remaining - {m};
    }
  }

  /** The loop state of `SortedBars`: the bars so far are the months no longer
      remaining, in order, each before every remaining month. */
  ghost predicate SortedPrefix(counts: map<Month, nat>, remaining: set<Month>, series: seq<Bar>) {
    && remaining <= counts.Keys
    && (forall m :: m in counts && m !in remaining <==> HasBar(series, m))
    && (forall i :: 0 <= i < |series| ==> series[i].month in counts && series[i].count == counts[series[i].month])
    && Ascending(series)
    && (forall i, m :: 0 <= i < |series| && m in remaining ==> MonthBefore(series[i].month, m))
  }

  /** Appending the earliest remaining month keeps the loop state. */
  lemma SortedPrefixStep(counts: map<Month, nat>, remaining: set<Month>, series: seq<Bar>, m: Month)
    requires SortedPrefix(counts, remaining, series)
    requires m in remaining && forall k :: k in remaining ==> !MonthBefore(k, m)
    ensures SortedPrefix(counts, remaining - {m}, series + [Bar(m, counts[m])])
  {
    var b := Bar(m, counts[m]);
    var s := series + [b];
    forall k ensures HasBar(s, k) <==> HasBar(series, k) || k == m {
      HasBarAppend(series, b, k);
    }
    forall i, j | 0 <= i < j < |s| ensures MonthBefore(s[i].month, s[j].month) {
      if j < |series| {
        assert s[i] == series[i] && s[j] == series[j];
      } else {
        assert s[i] == series[i];
      }
    }
    forall i, k | 0 <= i < |s| && k in remaining - {m} ensures MonthBefore(s[i].month, k) {
      if i < |series| {
        assert s[i] == series[i];
      }
    }
  }

  lemma HasBarAppend(series: seq<Bar>, b: Bar, m: Month)
    ensures HasBar(series + [b], m) <==> HasBar(series, m) || b.month == m
  {
    var s := series + [b];
    if HasBar(series, m) {
      var i :| 0 <= i < |series| && series[i].month == m;
      assert s[i].month == m;
    }
    if b.month == m {
      assert s[|series|].month == m;
    }
    if HasBar(s, m) && b.month != m {
      var i :| 0 <= i < |s| && s[i].month == m;
      assert series[i].month == m;
    }
  }

  /** `updateTimelineChart`'s data: the months are sorted chronologically and
      each carries its count. Every bar has a count of at least one, every
      month with a dated record has a bar, and the bars add up to the number of
      records whose date parses. */
  method UpdateTimeline(p: Platform, data: seq<Record>) returns (series: seq<Bar>)
    ensures Ascending(series)
    ensures forall i :: 0 <= i < |series| ==> series[i].count == BucketCount(p, data, series[i].month) >= 1
    ensures forall m :: HasBar(series, m) <==> BucketCount(p, data, m) > 0
    ensures Total(series) == DatedCount(p, data)
  {
    var counts := CountByMonth(p, data);
    series := SortedBars(counts);
    SeriesTotal(p, data, series);
  }

  /** A series whose months are distinct, whose counts are the bucket counts,
      and which has a bar for every month of a dated record, adds up to the
      number of dated records. */
  lemma SeriesTotal(p: Platform, data: seq<Record>, series: seq<Bar>)
    requires Ascending(series)
    requires forall i :: 0 <= i < |series| ==> series[i].count == BucketCount(p, data, series[i].month)
    requires forall m :: BucketCount(p, data, m) > 0 ==> HasBar(series, m)
    ensures Total(series) == DatedCount(p, data)
  {
    TotalIsSumBuckets(p, data, series);
    forall m | HasBar(series, m) ensures Occurrences(series, m) == 1 {
      OccursOnce(series, m);
    }
    SumBucketsIsDated(p, data, series);
  }

  lemma {:induction false} TotalIsSumBuckets(p: Platform, data: seq<Record>, series: seq<Bar>)
    requires forall i :: 0 <= i < |series| ==> series[i].count == BucketCount(p, data, series[i].month)
    ensures Total(series) == SumBuckets(p, data, series)
  {
    if series != [] {
      TotalIsSumBuckets(p, data, series[1..]);
    }
  }

  /** In an ascending series a month has at most one bar. */
  lemma {:induction false} OccursOnce(series: seq<Bar>, m: Month)
    requires Ascending(series)
    requires HasBar(series, m)
    ensures Occurrences(series, m) == 1
  {
    if series[0].month == m {
      NoLaterBar(series[1..], m);
    } else {
      var i :| 0 <= i < |series| && series[i].month == m;
      assert series[1..][i - 1].month == m;
      OccursOnce(series[1..], m);
    }
  }

  lemma {:induction false} NoLaterBar(series: seq<Bar>, m: Month)
    requires forall i :: 0 <= i < |series| ==> MonthBefore(m, series[i].month)
    ensures Occurrences(series, m) == 0
  {
    if series != [] {
      NoLaterBar(series[1..], m);
    }
  }

  /** Appending a record adds, to the summed buckets, the number of bars for
      its month. */
  lemma {:induction false} SumBucketsSnoc(p: Platform, data: seq<Record>, series: seq<Bar>)
    requires data != []
    ensures SumBuckets(p, data, series) ==
            SumBuckets(p, data[..|data| - 1], series) +
            match MonthKey(p, data[|data| - 1]) case None => 0 case Some(m) => Occurrences(series, m)
  {
    if series != [] {
      SumBucketsSnoc(p, data, series[1..]);
    }
  }

  /** Summing the buckets over a set of months that covers every dated record,
      each month once, counts every dated record once. */
  lemma {:induction false} SumBucketsIsDated(p: Platform, data: seq<Record>, series: seq<Bar>)
    requires forall m :: BucketCount(p, data, m) > 0 ==> HasBar(series, m)
    requires forall m :: HasBar(series, m) ==> Occurrences(series, m) == 1
    ensures SumBuckets(p, data, series) == DatedCount(p, data)
  {
    if data == [] {
      ZeroBuckets(p, data, series);
    } else {
      var n := |data| - 1;
      forall m | BucketCount(p, data[..n], m) > 0 ensures HasBar(series, m) {
        assert BucketCount(p, data, m) > 0;
      }
      SumBucketsIsDated(p, data[..n], series);
      SumBucketsSnoc(p, data, series);
      match MonthKey(p, data[n]) {
        case None =>
        case Some(m) =>
          assert BucketCount(p, data, m) > 0;
      }
    }
  }

  lemma {:induction false} ZeroBuckets(p: Platform, data: seq<Record>, series: seq<Bar>)
    requires data == []
    ensures SumBuckets(p, data, series) == 0
  {
    if series != [] {
      ZeroBuckets(p, data, series[1..]);
    }
  }
}
