/** The status counts shown on the dashboard: the four counters of
    `updateStatistics` and the doughnut data of `updateStatusChart`, and the
    status icon of `getStatusIcon`. */
module Stats {
  import opened Records

  const Applied: string := "Applied"
  const Interview: string := "Interview"
  const Selected: string := "Selected"
  const Rejected: string := "Rejected"

  /** The four statuses the dashboard recognises. */
  predicate IsCanonical(status: string) {
    status == Applied || status == Interview || status == Selected || status == Rejected
  }

  /** `app['Application Status']`, with an absent key read as `''`; neither
      equals a canonical status, so the counts do not tell them apart. */
  function StatusOf(r: Record): string {
    Get(r, ApplicationStatus)
  }

  /** Number of records whose status is exactly `status`. */
  function CountStatus(data: seq<Record>, status: string): nat {
    if data == [] then 0
    else CountStatus(data[..|data| - 1], status) + (if StatusOf(data[|data| - 1]) == status then 1 else 0)
  }

  /** Extending the scanned prefix by one record raises only the count of that
      record's status. */
  lemma CountStatusStep(data: seq<Record>, i: int)
    requires 0 <= i < |data|
    ensures forall s :: CountStatus(data[..i + 1], s) == CountStatus(data[..i], s) + (if StatusOf(data[i]) == s then 1 else 0)
  {
    assert data[..i + 1][..i] == data[..i];
  }

  /** Number of records whose status is one of the four. */
  function CountCanonical(data: seq<Record>): nat {
    if data == [] then 0
    else CountCanonical(data[..|data| - 1]) + (if IsCanonical(StatusOf(data[|data| - 1])) then 1 else 0)
  }

  /** The `stats` object of `updateStatistics`. */
  datatype Statistics = Statistics(total: nat, applied: nat, interview: nat, selected: nat, rejected: nat)

  /** `updateStatistics`: one pass over the records with an `if`/`else if`
      chain on the status; any other status falls through uncounted. */
  method UpdateStatistics(data: seq<Record>) returns (stats: Statistics)
    ensures stats.total == |data|
    ensures stats.applied == CountStatus(data, Applied)
    ensures stats.interview == CountStatus(data, Interview)
    ensures stats.selected == CountStatus(data, Selected)
    ensures stats.rejected == CountStatus(data, Rejected)
  {
    stats := Statistics(|data|, 0, 0, 0, 0);
    var i := 0;
    while i < |data|
      invariant 0 <= i <= |data|
      invariant stats.total == |data|
      invariant stats.applied == CountStatus(data[..i], Applied)
      invariant stats.interview == CountStatus(data[..i], Interview)
      invariant stats.selected == CountStatus(data[..i], Selected)
      invariant stats.rejected == CountStatus(data[..i], Rejected)
    {
      CountStatusStep(data, i);
      var status := StatusOf(data[i]);
      if status == Applied {
        stats := stats.(applied := stats.applied + 1);
      } else if status == Interview {
        stats := stats.(interview := stats.interview + 1);
      } else if status == Selected {
        stats := stats.(selected := stats.selected + 1);
      } else if status == Rejected {
        stats := stats.(rejected := stats.rejected + 1);
      }
      i := i + 1;
    }
    assert data[..i] == data;
  }

  /** The four counts add up to the number of records with a canonical status. */
  lemma {:induction false} CanonicalSum(data: seq<Record>)
    ensures CountStatus(data, Applied) + CountStatus(data, Interview)
            + CountStatus(data, Selected) + CountStatus(data, Rejected) == CountCanonical(data)
  {
    if data != [] {
      CanonicalSum(data[..|data| - 1]);
    }
  }

  /** At most every record is canonical, and all are exactly when the count
      reaches the total. */
  lemma {:induction false} CanonicalBound(data: seq<Record>)
    ensures CountCanonical(data) <= |data|
    ensures CountCanonical(data) == |data| <==> forall k :: 0 <= k < |data| ==> IsCanonical(StatusOf(data[k]))
  {
    if data != [] {
      var n := |data| - 1;
      CanonicalBound(data[..n]);
      if CountCanonical(data) == |data| {
        forall k | 0 <= k < |data| ensures IsCanonical(StatusOf(data[k])) {
          if k < n { assert data[k] == data[..n][k]; }
        }
      }
      if forall k :: 0 <= k < |data| ==> IsCanonical(StatusOf(data[k])) {
        forall k | 0 <= k < n ensures IsCanonical(StatusOf(data[..n][k])) {
          assert data[..n][k] == data[k];
        }
      }
    }
  }

  /** The sum law of the counters: the four counts never exceed the total, and
      they reach it exactly when every record's status is one of the four. */
  lemma StatisticsSumLaw(data: seq<Record>)
    ensures CountStatus(data, Applied) + CountStatus(data, Interview)
            + CountStatus(data, Selected) + CountStatus(data, Rejected) <= |data|
    ensures CountStatus(data, Applied) + CountStatus(data, Interview)
            + CountStatus(data, Selected) + CountStatus(data, Rejected) == |data|
            <==> forall k :: 0 <= k < |data| ==> IsCanonical(StatusOf(data[k]))
  {
    CanonicalSum(data);
    CanonicalBound(data);
  }

  // ---------------------------------------------------------------------------
  // The doughnut chart

  /** The `statusCounts` object the chart starts from. */
  const InitialChartCounts: map<string, int> := map[Applied := 0, Interview := 0, Selected := 0, Rejected := 0]

  /** `updateStatusChart`'s counting loop: a status is counted when the
      dictionary already has it (`statusCounts[status] !== undefined`), here
      read as an own key of the dictionary. */
  method StatusChartCounts(data: seq<Record>) returns (counts: map<string, int>)
    ensures counts.Keys == InitialChartCounts.Keys
    ensures forall s :: s in counts ==> counts[s] == CountStatus(data, s)
  {
    counts := InitialChartCounts;
    var i := 0;
    while i < |data|
      invariant 0 <= i <= |data|
      invariant counts.Keys == InitialChartCounts.Keys
      invariant forall s :: s in counts ==> counts[s] == CountStatus(data[..i], s)
    {
      CountStatusStep(data, i);
      var status := StatusOf(data[i]);
      if status in counts {
        counts := counts[status := counts[status] + 1];
      }
      i := i + 1;
    }
    assert data[..i] == data;
  }

  /** The chart and the counters agree: each doughnut slice is the counter of
      the same status. */
  lemma ChartMatchesStatistics(data: seq<Record>, counts: map<string, int>, stats: Statistics)
    requires counts.Keys == InitialChartCounts.Keys
    requires forall s :: s in counts ==> counts[s] == CountStatus(data, s)
    requires stats.applied == CountStatus(data, Applied) && stats.interview == CountStatus(data, Interview)
    requires stats.selected == CountStatus(data, Selected) && stats.rejected == CountStatus(data, Rejected)
    ensures counts == map[Applied := stats.applied, Interview := stats.interview,
                          Selected := stats.selected, Rejected := stats.rejected]
  {
    assert Applied in InitialChartCounts && Interview in InitialChartCounts;
    assert Selected in InitialChartCounts && Rejected in InitialChartCounts;
  }

  // ---------------------------------------------------------------------------
  // `statusCounts[status]` on a plain JavaScript object

  /** Names every plain object inherits from `Object.prototype` as methods
      (ECMA-262 section 20.1.3 and Annex B.2.2). */
  const InheritedMethodNames: set<string> :=
    {"constructor", "hasOwnProperty", "isPrototypeOf", "propertyIsEnumerable",
     "toLocaleString", "toString", "valueOf",
     "__defineGetter__", "__defineSetter__", "__lookupGetter__", "__lookupSetter__"}

  /** A number as the chart's data array holds it. */
  datatype JsNumber = Num(n: int) | NaN

  /** The doughnut's label set as the source computes it: the four statuses,
      plus every inherited method name that occurs as a status. */
  function ChartLabelsAsWritten(data: seq<Record>): set<string> {
    if data == [] then InitialChartCounts.Keys
    else
      var status := StatusOf(data[|data| - 1]);
      ChartLabelsAsWritten(data[..|data| - 1]) + (if status in InheritedMethodNames then {status} else {})
  }

  /** Extending the scanned prefix by one record adds its status to the labels
      exactly when it is an inherited method name. */
  lemma ChartLabelsStep(data: seq<Record>, i: int)
    requires 0 <= i < |data|
    ensures ChartLabelsAsWritten(data[..i + 1]) ==
            ChartLabelsAsWritten(data[..i]) + (if StatusOf(data[i]) in InheritedMethodNames then {StatusOf(data[i])} else {})
  {
    assert data[..i + 1][..i] == data[..i];
  }

  /** `updateStatusChart`'s loop as written: `statusCounts[status]` also finds
      the methods inherited from `Object.prototype`, so `!== undefined` holds
      for a status such as `toString`; `++` on a function value gives NaN and
      stores it as a new own key, which `Object.keys` then hands to the chart.
      For `__proto__` the read finds `Object.prototype` and the write of NaN
      goes to the `__proto__` setter, which ignores it: nothing changes. */
  method StatusChartCountsAsWritten(data: seq<Record>) returns (counts: map<string, JsNumber>)
    ensures counts.Keys == ChartLabelsAsWritten(data)
    ensures InitialChartCounts.Keys <= counts.Keys
    ensures forall s :: s in InitialChartCounts ==> counts[s] == Num(CountStatus(data, s))
    ensures forall s :: s in counts && s !in InitialChartCounts ==> counts[s] == NaN
  {
    counts := map[Applied := Num(0), Interview := Num(0), Selected := Num(0), Rejected := Num(0)];
    var i := 0;
    while i < |data|
      invariant 0 <= i <= |data|
      invariant ChartState(data[..i], counts)
    {
      ghost var before := counts;
      var status := StatusOf(data[i]);
      if status in counts {
        counts := counts[status := match counts[status] case Num(n) => Num(n + 1) case NaN => NaN];
      } else if status in InheritedMethodNames {
        counts := counts[status := NaN];
      }
      ChartStateStep(data, i, before, counts);
      i := i + 1;
    }
    assert data[..i] == data;
  }

  /** The loop state of `StatusChartCountsAsWritten` after scanning `prefix`. */
  ghost predicate ChartState(prefix: seq<Record>, counts: map<string, JsNumber>) {
    && counts.Keys == ChartLabelsAsWritten(prefix)
    && InitialChartCounts.Keys <= counts.Keys
    && (forall s :: s in InitialChartCounts ==> counts[s] == Num(CountStatus(prefix, s)))
    && (forall s :: s in counts && s !in InitialChartCounts ==> counts[s] == NaN)
  }

  /** One iteration of the as-written loop keeps its state. */
  lemma ChartStateStep(data: seq<Record>, i: int, before: map<string, JsNumber>, after: map<string, JsNumber>)
    requires 0 <= i < |data|
    requires ChartState(data[..i], before)
    requires var status := StatusOf(data[i]);
      after == if status in before then before[status := match before[status] case Num(n) => Num(n + 1) case NaN => NaN]
               else if status in InheritedMethodNames then before[status := NaN]
               else before
    ensures ChartState(data[..i + 1], after)
  {
    var status := StatusOf(data[i]);
    CountStatusStep(data, i);
    ChartLabelsStep(data, i);
    forall s | s in InitialChartCounts ensures after[s] == Num(CountStatus(data[..i + 1], s)) {
      if s != status {
        assert after[s] == before[s];
      }
    }
    forall s | s in after && s !in InitialChartCounts ensures after[s] == NaN {
      if s != status {
        assert after[s] == before[s];
      }
    }
  }

  /** The discrepancy: one record with the status `toString` gives the doughnut
      a fifth label, whose value is NaN. */
  lemma ChartGainsInheritedLabel(r: Record)
    requires StatusOf(r) == "toString"
    ensures ChartLabelsAsWritten([r]) == InitialChartCounts.Keys + {"toString"}
    ensures |ChartLabelsAsWritten([r])| == 5
  {
    assert [r][..0] == [];
  }

  // ---------------------------------------------------------------------------
  // Status icons

  /** `getStatusIcon` as intended: one icon per canonical status, a clipboard
      for every other status. */
  function StatusIcon(status: string): string {
    if status == Applied then "\U{1F4DD}"
    else if status == Interview then "\U{1F4DE}"
    else if status == Selected then "\U{2705}"
    else if status == Rejected then "\U{274C}"
    else "\U{1F4CB}"
  }

  /** The fallback icon is shown exactly for non-canonical statuses, and the
      four canonical statuses get four different icons. */
  lemma StatusIconSpec(a: string, b: string)
    ensures StatusIcon(a) == "\U{1F4CB}" <==> !IsCanonical(a)
    ensures IsCanonical(a) && IsCanonical(b) && a != b ==> StatusIcon(a) != StatusIcon(b)
  {
  }

  /** The names a plain object has through `Object.prototype`: its methods and
      the `__proto__` accessor (ECMA-262 section 20.1.3 and Annex B.2.2). */
  const ObjectPrototypeNames: set<string> := InheritedMethodNames + {"__proto__"}

  /** A JavaScript value as a property read of a plain object yields it. */
  datatype JsValue = Str(s: string) | Method(name: string) | PrototypeObject | Undefined

  /** `obj[key]` on a plain object whose own properties are the strings `own`:
      an own property first, then the `__proto__` accessor, which returns
      `Object.prototype`, then an inherited method, else `undefined`. */
  function Lookup(own: map<string, string>, key: string): JsValue {
    if key in own then Str(own[key])
    else if key == "__proto__" then PrototypeObject
    else if key in InheritedMethodNames then Method(key)
    else Undefined
  }

  /** JavaScript truthiness of a value. */
  predicate Truthy(v: JsValue) {
    match v
    case Str(s) => s != ""
    case Undefined => false
    case _ => true
  }

  /** The `icons` object of `getStatusIcon`. */
  const IconTable: map<string, string> :=
    map[Applied := "\U{1F4DD}", Interview := "\U{1F4DE}", Selected := "\U{2705}", Rejected := "\U{274C}"]

  /** `getStatusIcon` as written: `icons[status] || '📋'`. The lookup also
      reaches `Object.prototype`, whose members are truthy, so for their names
      a function or the prototype object comes back, which the templates
      render as source text or `[object Object]`. A string comes back exactly
      when the status is not such a name, and it is then the intended icon. */
  function StatusIconAsWritten(status: string): (v: JsValue)
    ensures v.Str? <==> status !in ObjectPrototypeNames
    ensures v.Str? ==> v.s == StatusIcon(status)
  {
    var found := Lookup(IconTable, status);
    if Truthy(found) then found else Str("\U{1F4CB}")
  }

  /** The discrepancy: for the statuses `toString` and `__proto__` no icon
      string comes back. */
  lemma IconForInheritedName()
    ensures StatusIconAsWritten("toString") == Method("toString")
    ensures StatusIconAsWritten("__proto__") == PrototypeObject
  {
  }
}
