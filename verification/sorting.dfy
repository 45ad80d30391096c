/** The orders of the application list: the recency order of `processData`
    and the four choices of `sortApplications`, each a comparator handed to
    `Array.prototype.sort`. */
module Sorting {
  import opened Wrappers
  import opened Records
  import Timeline

  /** The comparators: `ByRecency` is the one `processData` uses; the others
      are the values of the sort selector, `Unsorted` being its `default`. */
  datatype Order = ByRecency | ByNewest | ByOldest | ByCompany | ByDeadline | Unsorted

  /** The `switch (sortBy)` of `sortApplications`. */
  function OrderOf(sortBy: string): Order {
    if sortBy == "newest" then ByNewest
    else if sortBy == "oldest" then ByOldest
    else if sortBy == "company" then ByCompany
    else if sortBy == "deadline" then ByDeadline
    else Unsorted
  }

  /** The date a comparator subtracts, `None` standing for an invalid date. */
  function SortDate(p: Platform, key: Order, r: Record): Option<int> {
    match key
    case ByRecency => Timeline.EffectiveDate(p, r)
    case ByNewest => DateValue(p, Get(r, DateApplied))
    case ByOldest => DateValue(p, Get(r, DateApplied))
    case ByDeadline => DateValue(p, Get(r, Deadline))
    case _ => None
  }

  /** `dateX - dateY` as the sort sees it: a NaN difference counts as +0. */
  function DateDiff(x: Option<int>, y: Option<int>): int {
    if x.Some? && y.Some? then x.value - y.value else 0
  }

  /** The comparator of each order; a positive result places `a` after `b`. */
  function Compare(p: Platform, key: Order, a: Record, b: Record): int {
    match key
    case ByRecency => DateDiff(SortDate(p, key, b), SortDate(p, key, a))
    case ByNewest => DateDiff(SortDate(p, key, b), SortDate(p, key, a))
    case ByOldest => DateDiff(SortDate(p, key, a), SortDate(p, key, b))
    case ByCompany => p.localeCompare(Get(a, CompanyName), Get(b, CompanyName))
    case ByDeadline =>
      if Get(a, Deadline) == "" then 1
      else if Get(b, Deadline) == "" then -1
      else DateDiff(SortDate(p, key, a), SortDate(p, key, b))
    case Unsorted => 0
  }

  /** The comparator handed to `sort` for an order. */
  function Comparator(p: Platform, key: Order): (Record, Record) -> int {
    (a, b) => Compare(p, key, a, b)
  }

  /** `a` may stay before `b`. */
  predicate Le<T>(cmp: (T, T) -> int, a: T, b: T) {
    cmp(a, b) <= 0
  }

  /** Places `x` after the sorted `t`, moving it in front of every trailing
      element that compares greater than it: one step of a stable sort. */
  function Insert<T>(cmp: (T, T) -> int, t: seq<T>, x: T): (r: seq<T>)
    ensures |r| == |t| + 1
    ensures multiset(r) == multiset(t) + multiset{x}
  {
    if t == [] then [x]
    else
      assert t == t[..|t| - 1] + [t[|t| - 1]];
      if cmp(t[|t| - 1], x) > 0 then Insert(cmp, t[..|t| - 1], x) + [t[|t| - 1]]
      else t + [x]
  }

  /** `Insert` adds `x` and nothing else. */
  lemma InsertMembers<T>(cmp: (T, T) -> int, t: seq<T>, x: T, e: T)
    ensures e in Insert(cmp, t, x) ==> e in t || e == x
  {
    if e in Insert(cmp, t, x) {
      assert e in multiset(Insert(cmp, t, x));
    }
  }

  /** One step of `Insert` on a sequence written as `init + [last]`. */
  lemma InsertStep<T>(cmp: (T, T) -> int, init: seq<T>, last: T, x: T)
    ensures Insert(cmp, init + [last], x) == if cmp(last, x) > 0 then Insert(cmp, init, x) + [last] else init + [last] + [x]
  {
    var t := init + [last];
    assert t[..|t| - 1] == init;
  }

  /** The stable sort behind `Array.prototype.sort`: the result is a
      permutation of the input. */
  function SortBy<T>(cmp: (T, T) -> int, s: seq<T>): (r: seq<T>)
    ensures |r| == |s|
    ensures multiset(r) == multiset(s)
  {
    if s == [] then []
    else
      var init, last := s[..|s| - 1], s[|s| - 1];
      assert s == init + [last];
      Insert(cmp, SortBy(cmp, init), last)
  }

  // ---------------------------------------------------------------------------
  // Sortedness

  /** Every element may stay before every later one. */
  ghost predicate Sorted<T>(cmp: (T, T) -> int, t: seq<T>) {
    forall i, j :: 0 <= i < j < |t| ==> Le(cmp, t[i], t[j])
  }

  /** The comparator is a total preorder on the elements of `s`: what
      ECMA-262 calls a consistent comparator. */
  ghost predicate ConsistentOn<T>(cmp: (T, T) -> int, s: seq<T>) {
    && (forall a, b {:trigger a in s, b in s} :: a in s && b in s ==> Le(cmp, a, b) || Le(cmp, b, a))
    && (forall a, b, c {:trigger a in s, b in s, c in s} :: a in s && b in s && c in s && Le(cmp, a, b) && Le(cmp, b, c) ==> Le(cmp, a, c))
  }

  lemma ConsistentSub<T>(cmp: (T, T) -> int, s: seq<T>, t: seq<T>)
    requires ConsistentOn(cmp, s)
    requires multiset(t) <= multiset(s)
    ensures ConsistentOn(cmp, t)
  {
    forall a | a in t ensures a in s {
      assert a in multiset(t);
    }
  }

  /** A sorted sequence stays sorted when an element that every element may
      precede is appended. */
  lemma SortedSnoc<T>(cmp: (T, T) -> int, u: seq<T>, y: T)
    requires Sorted(cmp, u)
    requires forall e :: e in u ==> Le(cmp, e, y)
    ensures Sorted(cmp, u + [y])
  {
    var r := u + [y];
    forall i, j | 0 <= i < j < |r| ensures Le(cmp, r[i], r[j]) {
      assert r[i] == u[i] && u[i] in u;
      if j < |u| {
        assert r[j] == u[j];
      }
    }
  }

  /** Inserting keeps a common upper bound of the elements. */
  lemma InsertBounded<T>(cmp: (T, T) -> int, t: seq<T>, x: T, y: T)
    requires forall e :: e in t ==> Le(cmp, e, y)
    requires Le(cmp, x, y)
    ensures forall e :: e in Insert(cmp, t, x) ==> Le(cmp, e, y)
  {
    forall e | e in Insert(cmp, t, x) ensures Le(cmp, e, y) {
      assert e in multiset(Insert(cmp, t, x));
      if e != x {
        assert e in multiset(t);
      }
    }
  }

  lemma {:induction false} InsertSorted<T>(cmp: (T, T) -> int, t: seq<T>, x: T)
    requires Sorted(cmp, t)
    requires ConsistentOn(cmp, t + [x])
    ensures Sorted(cmp, Insert(cmp, t, x))
  {
    if t != [] {
      var init := t[..|t| - 1];
      if cmp(t[|t| - 1], x) > 0 {
        assert t == init + [t[|t| - 1]];
        ConsistentSub(cmp, t + [x], init + [x]);
        InsertSorted(cmp, init, x);
        MovedPastLast(cmp, t, x);
      } else {
        StaysAfterLast(cmp, t, x);
      }
    }
  }

  /** The step of `InsertSorted` where `x` moves in front of the last element. */
  lemma MovedPastLast<T>(cmp: (T, T) -> int, t: seq<T>, x: T)
    requires t != [] && cmp(t[|t| - 1], x) > 0
    requires Sorted(cmp, t)
    requires ConsistentOn(cmp, t + [x])
    requires Sorted(cmp, Insert(cmp, t[..|t| - 1], x))
    ensures Sorted(cmp, Insert(cmp, t, x))
  {
    var n := |t| - 1;
    var init, last := t[..n], t[n];
    assert x in t + [x] && last in t + [x];
    assert Le(cmp, x, last);
    forall e | e in init ensures Le(cmp, e, last) {
      var i :| 0 <= i < n && init[i] == e;
      assert Le(cmp, t[i], t[n]);
    }
    InsertBounded(cmp, init, x, last);
    SortedSnoc(cmp, Insert(cmp, init, x), last);
  }

  /** The step of `InsertSorted` where `x` stays at the end. */
  lemma StaysAfterLast<T>(cmp: (T, T) -> int, t: seq<T>, x: T)
    requires t != [] && cmp(t[|t| - 1], x) <= 0
    requires Sorted(cmp, t)
    requires ConsistentOn(cmp, t + [x])
    ensures Sorted(cmp, t + [x])
  {
    var n := |t| - 1;
    assert x in t + [x] && t[n] in t + [x];
    forall e | e in t ensures Le(cmp, e, x) {
      var i :| 0 <= i < |t| && t[i] == e;
      if i < n {
        assert Le(cmp, t[i], t[n]);
        assert t[i] in t + [x];
      }
    }
    SortedSnoc(cmp, t, x);
  }

  /** Under a consistent comparator the result is sorted. */
  lemma {:induction false} SortSorted<T>(cmp: (T, T) -> int, s: seq<T>)
    requires ConsistentOn(cmp, s)
    ensures Sorted(cmp, SortBy(cmp, s))
  {
    if s != [] {
      var init := s[..|s| - 1];
      assert s == init + [s[|s| - 1]];
      ConsistentSub(cmp, s, init);
      SortSorted(cmp, init);
      ConsistentSub(cmp, s, SortBy(cmp, init) + [s[|s| - 1]]);
      InsertSorted(cmp, SortBy(cmp, init), s[|s| - 1]);
    }
  }

  // ---------------------------------------------------------------------------
  // Stability

  /** The elements of `s` that `keep` selects, in order. */
  function Filter<T>(s: seq<T>, keep: T -> bool): seq<T> {
    if s == [] then []
    else Filter(s[..|s| - 1], keep) + (if keep(s[|s| - 1]) then [s[|s| - 1]] else [])
  }

  /** The elements `keep` selects may stay before one another in either order:
      the comparator ties all of them. */
  ghost predicate Tied<T>(cmp: (T, T) -> int, s: seq<T>, keep: T -> bool) {
    forall a, b {:trigger Le(cmp, a, b)} :: a in s && b in s && keep(a) && keep(b) ==> Le(cmp, a, b)
  }

  lemma FilterSnoc<T>(s: seq<T>, x: T, keep: T -> bool)
    ensures Filter(s + [x], keep) == Filter(s, keep) + (if keep(x) then [x] else [])
  {
    assert (s + [x])[..|s|] == s;
  }

  lemma TiedSub<T>(cmp: (T, T) -> int, s: seq<T>, t: seq<T>, keep: T -> bool)
    requires Tied(cmp, s, keep)
    requires multiset(t) <= multiset(s)
    ensures Tied(cmp, t, keep)
  {
    forall a | a in t ensures a in s {
      assert a in multiset(t);
    }
  }

  lemma {:induction false} InsertStable<T>(cmp: (T, T) -> int, t: seq<T>, x: T, keep: T -> bool)
    requires Tied(cmp, t + [x], keep)
    ensures Filter(Insert(cmp, t, x), keep) == Filter(t, keep) + (if keep(x) then [x] else [])
  {
    if t == [] {
      FilterSnoc([], x, keep);
    } else if cmp(t[|t| - 1], x) > 0 {
      var init := t[..|t| - 1];
      assert t == init + [t[|t| - 1]];
      TiedSub(cmp, t + [x], init + [x], keep);
      InsertStable(cmp, init, x, keep);
      NotBothKept(cmp, t, x, keep);
      MovedStable(cmp, init, t[|t| - 1], x, keep);
    } else {
      FilterSnoc(t, x, keep);
    }
  }

  /** An element that moves in front of another is not tied with it. */
  lemma NotBothKept<T>(cmp: (T, T) -> int, t: seq<T>, x: T, keep: T -> bool)
    requires t != [] && cmp(t[|t| - 1], x) > 0
    requires Tied(cmp, t + [x], keep)
    ensures !(keep(x) && keep(t[|t| - 1]))
  {
    var n := |t| - 1;
    assert (t + [x])[n] == t[n] && (t + [x])[n + 1] == x;
    assert keep(t[n]) && keep(x) ==> Le(cmp, t[n], x);
  }

  /** The step of `InsertStable` where `x` moves in front of the last
      element: the two are not tied, so at most one of them is kept. */
  lemma MovedStable<T>(cmp: (T, T) -> int, init: seq<T>, last: T, x: T, keep: T -> bool)
    requires cmp(last, x) > 0
    requires !(keep(x) && keep(last))
    requires Filter(Insert(cmp, init, x), keep) == Filter(init, keep) + (if keep(x) then [x] else [])
    ensures Filter(Insert(cmp, init + [last], x), keep) == Filter(init + [last], keep) + (if keep(x) then [x] else [])
  {
    var u := Insert(cmp, init, x);
    InsertStep(cmp, init, last, x);
    FilterSnoc(u, last, keep);
    FilterSnoc(init, last, keep);
  }

  /** Stability: the elements that the comparator ties come out in the order
      they went in. */
  lemma {:induction false} SortStable<T>(cmp: (T, T) -> int, s: seq<T>, keep: T -> bool)
    requires Tied(cmp, s, keep)
    ensures Filter(SortBy(cmp, s), keep) == Filter(s, keep)
  {
    if s != [] {
      var init, last := s[..|s| - 1], s[|s| - 1];
      assert s == init + [last];
      var u := SortBy(cmp, init);
      forall a | a in u + [last] ensures a in s {
        assert a in multiset(u + [last]);
      }
      forall a | a in init ensures a in s {
        var i :| 0 <= i < |init| && init[i] == a;
        assert s[i] == a;
      }
      SortStable(cmp, init, keep);
      InsertStable(cmp, u, last, keep);
      FilterSnoc(init, last, keep);
    }
  }

  /** The records the comparator ties with `v`. */
  function TiedWith<T>(cmp: (T, T) -> int, v: T): T -> bool {
    x => Le(cmp, x, v) && Le(cmp, v, x)
  }

  /** Under a consistent comparator, the records equivalent to any `v` keep
      their relative order. */
  lemma EquivalentsKeepOrder<T>(cmp: (T, T) -> int, s: seq<T>, v: T)
    requires ConsistentOn(cmp, s + [v])
    ensures Filter(SortBy(cmp, s), TiedWith(cmp, v)) == Filter(s, TiedWith(cmp, v))
  {
    var keep := TiedWith(cmp, v);
    forall a, b | a in s && b in s && keep(a) && keep(b) ensures Le(cmp, a, b) {
      assert a in s + [v] && b in s + [v] && v in s + [v];
    }
    SortStable(cmp, s, keep);
  }

  /** The records whose company name is `name`. */
  function SameCompany(name: string): Record -> bool {
    x => Get(x, CompanyName) == name
  }

  /** Sorting by company keeps records with equal names in input order,
      whenever the collation compares a name equal to itself. */
  lemma CompanySortStable(p: Platform, s: seq<Record>, name: string)
    requires p.localeCompare(name, name) == 0
    ensures Filter(SortBy(Comparator(p, ByCompany), s), SameCompany(name)) == Filter(s, SameCompany(name))
  {
    SortStable(Comparator(p, ByCompany), s, SameCompany(name));
  }

  // ---------------------------------------------------------------------------
  // Properties of the individual orders

  /** Every record of `s` has a valid date for the order. */
  ghost predicate AllDated(p: Platform, key: Order, s: seq<Record>) {
    forall r :: r in s ==> SortDate(p, key, r).Some?
  }

  /** With every date valid, each date order is consistent. */
  lemma DatesConsistent(p: Platform, key: Order, s: seq<Record>)
    requires key == ByRecency || key == ByNewest || key == ByOldest || key == ByDeadline
    requires AllDated(p, key, s)
    ensures ConsistentOn(Comparator(p, key), s)
  {
    forall r | r in s && key == ByDeadline ensures Get(r, Deadline) != "" {
      assert SortDate(p, key, r).Some?;
    }
  }

  /** `a` and `b` have valid dates in the direction of the order: later
      first for recency and newest, earlier first for oldest and deadline. */
  predicate DatesInOrder(p: Platform, key: Order, a: Record, b: Record) {
    && SortDate(p, key, a).Some? && SortDate(p, key, b).Some?
    && if key == ByRecency || key == ByNewest
       then SortDate(p, key, a).value >= SortDate(p, key, b).value
       else SortDate(p, key, a).value <= SortDate(p, key, b).value
  }

  lemma DatePair(p: Platform, key: Order, a: Record, b: Record)
    requires key == ByRecency || key == ByNewest || key == ByOldest || key == ByDeadline
    requires SortDate(p, key, a).Some? && SortDate(p, key, b).Some?
    requires Le(Comparator(p, key), a, b)
    ensures DatesInOrder(p, key, a, b)
  {
    if key == ByDeadline {
      assert Get(a, Deadline) != "" && Get(b, Deadline) != "";
    }
  }

  /** With every date valid, the recency and newest orders put later dates
      first, and the oldest and deadline orders put earlier dates first. */
  lemma DateSortOrder(p: Platform, key: Order, s: seq<Record>)
    requires key == ByRecency || key == ByNewest || key == ByOldest || key == ByDeadline
    requires AllDated(p, key, s)
    ensures var t := SortBy(Comparator(p, key), s);
      forall i, j :: 0 <= i < j < |t| ==> DatesInOrder(p, key, t[i], t[j])
  {
    var cmp := Comparator(p, key);
    var t := SortBy(cmp, s);
    DatesConsistent(p, key, s);
    SortSorted(cmp, s);
    forall i, j | 0 <= i < j < |t| ensures DatesInOrder(p, key, t[i], t[j]) {
      assert t[i] in multiset(s) && t[j] in multiset(s);
      assert Le(cmp, t[i], t[j]);
      DatePair(p, key, t[i], t[j]);
    }
  }

  /** The `default` branch returns 0 for every pair, and a stable sort then
      leaves the list as it was. */
  lemma {:induction false} UnsortedKeepsOrder(p: Platform, s: seq<Record>)
    ensures SortBy(Comparator(p, Unsorted), s) == s
  {
    if s != [] {
      var init := s[..|s| - 1];
      UnsortedKeepsOrder(p, init);
      if init != [] {
        assert Comparator(p, Unsorted)(init[|init| - 1], s[|s| - 1]) == 0;
      }
      assert init + [s[|s| - 1]] == s;
    }
  }

  /** A non-empty `Deadline`. */
  predicate HasDeadline(r: Record) {
    Get(r, Deadline) != ""
  }

  /** Every record with a deadline precedes every record without one. */
  ghost predicate DeadlinesFirst(t: seq<Record>) {
    forall i, j :: 0 <= i < j < |t| && HasDeadline(t[j]) ==> HasDeadline(t[i])
  }

  /** What the sign of the deadline comparator says about the deadlines: a
      record is placed after one without a deadline, and a record without a
      deadline is placed after every other. */
  lemma DeadlineSign(p: Platform, a: Record, b: Record)
    ensures Comparator(p, ByDeadline)(a, b) > 0 && HasDeadline(a) ==> HasDeadline(b)
    ensures Comparator(p, ByDeadline)(a, b) <= 0 ==> HasDeadline(a)
  {
  }

  lemma DeadlinesFirstSnoc(u: seq<Record>, y: Record)
    requires DeadlinesFirst(u)
    requires HasDeadline(y) ==> forall e :: e in u ==> HasDeadline(e)
    ensures DeadlinesFirst(u + [y])
  {
    var r := u + [y];
    forall i, j | 0 <= i < j < |r| && HasDeadline(r[j]) ensures HasDeadline(r[i]) {
      assert r[i] == u[i] && u[i] in u;
      if j < |u| {
        assert r[j] == u[j];
      }
    }
  }

  lemma {:induction false} InsertDeadlinesFirst(p: Platform, t: seq<Record>, x: Record)
    requires DeadlinesFirst(t)
    ensures DeadlinesFirst(Insert(Comparator(p, ByDeadline), t, x))
    decreases |t|, 1
  {
    if t != [] {
      var init, last := t[..|t| - 1], t[|t| - 1];
      assert t == init + [last];
      InsertDeadlinesFirstStep(p, init, last, x);
    }
  }

  lemma {:induction false} InsertDeadlinesFirstStep(p: Platform, init: seq<Record>, last: Record, x: Record)
    requires DeadlinesFirst(init + [last])
    ensures DeadlinesFirst(Insert(Comparator(p, ByDeadline), init + [last], x))
    decreases |init| + 1, 0
  {
    var cmp := Comparator(p, ByDeadline);
    var t := init + [last];
    InsertStep(cmp, init, last, x);
    DeadlineSign(p, last, x);
    if HasDeadline(last) {
      forall e | e in init ensures HasDeadline(e) {
        var i :| 0 <= i < |init| && init[i] == e;
        assert t[i] == e && t[|init|] == last;
      }
    }
    if cmp(last, x) > 0 {
      assert DeadlinesFirst(init) by {
        forall i, j | 0 <= i < j < |init| && HasDeadline(init[j]) ensures HasDeadline(init[i]) {
          assert init[i] == t[i] && init[j] == t[j];
        }
      }
      InsertDeadlinesFirst(p, init, x);
      var u := Insert(cmp, init, x);
      if HasDeadline(last) {
        forall e | e in u ensures HasDeadline(e) {
          InsertMembers(cmp, init, x, e);
        }
      }
      DeadlinesFirstSnoc(u, last);
    } else {
      DeadlinesFirstSnoc(t, x);
    }
  }

  /** Under the deadline order, records with a deadline come first, whatever
      the dates: the partition does not rely on a consistent comparator. */
  lemma {:induction false} DeadlineSortPartitions(p: Platform, s: seq<Record>)
    ensures DeadlinesFirst(SortBy(Comparator(p, ByDeadline), s))
  {
    if s != [] {
      DeadlineSortPartitions(p, s[..|s| - 1]);
      InsertDeadlinesFirst(p, SortBy(Comparator(p, ByDeadline), s[..|s| - 1]), s[|s| - 1]);
    }
  }

  /** The deadline comparator is not consistent: two records without a
      deadline each claim to belong after the other, so ECMA-262 leaves their
      final order to the implementation. */
  lemma DeadlineComparatorInconsistent(p: Platform, a: Record, b: Record)
    requires !HasDeadline(a) && !HasDeadline(b)
    ensures Compare(p, ByDeadline, a, b) > 0 && Compare(p, ByDeadline, b, a) > 0
    ensures !ConsistentOn(Comparator(p, ByDeadline), [a, b])
  {
    assert a in [a, b] && b in [a, b];
  }
}
