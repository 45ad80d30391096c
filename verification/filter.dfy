/** The search of `filterApplications`: a case-insensitive substring match on
    the company or the position, combined with an exact status match. */
module Filtering {
  import opened Wrappers
  import opened Text
  import opened Records
  import opened Sequences

  /** The record can be tested without a `TypeError`: `toLowerCase` is called
      on the company name, and on the position only when the company name does
      not already match (the `||` short-circuits). */
  predicate Searchable(r: Record, term: string) {
    CompanyName in r && (Contains(Lower(r[CompanyName]), term) || Position in r)
  }

  /** The status filter: `'all'`, or exactly the record's status. */
  predicate StatusMatches(r: Record, status: string) {
    status == "all" || (ApplicationStatus in r && r[ApplicationStatus] == status)
  }

  /** The record is shown for the lower-cased search term `term`. */
  predicate Matches(r: Record, term: string, status: string) {
    && (Contains(Lower(Get(r, CompanyName)), term) || Contains(Lower(Get(r, Position)), term))
    && StatusMatches(r, status)
  }

  /** `applicationsData.filter(...)`: `None` when the callback throws on some
      record, otherwise the records shown, in their original order. */
  function FilterView(data: seq<Record>, term: string, status: string): Option<seq<Record>> {
    if data == [] then Some([])
    else if !Searchable(data[0], term) then None
    else
      match FilterView(data[1..], term, status)
      case None => None
      case Some(rest) => Some(if Matches(data[0], term, status) then [data[0]] + rest else rest)
  }

  /** The filter throws exactly when some record lacks the fields its test
      reads. */
  lemma {:induction false} FilterViewFails(data: seq<Record>, term: string, status: string)
    ensures FilterView(data, term, status).None? <==> exists k :: 0 <= k < |data| && !Searchable(data[k], term)
  {
    if data != [] {
      FilterViewFails(data[1..], term, status);
      if exists k :: 0 <= k < |data| - 1 && !Searchable(data[1..][k], term) {
        var k :| 0 <= k < |data| - 1 && !Searchable(data[1..][k], term);
        assert !Searchable(data[k + 1], term);
      }
      if exists k :: 0 <= k < |data| && !Searchable(data[k], term) {
        var k :| 0 <= k < |data| && !Searchable(data[k], term);
        if k > 0 {
          assert !Searchable(data[1..][k - 1], term);
        }
      }
    }
  }

  /** The view is an order-preserving selection of the data holding exactly
      the matching records, each as often as it occurs in the data. */
  lemma {:induction false} FilterViewSpec(data: seq<Record>, term: string, status: string)
    requires FilterView(data, term, status).Some?
    ensures var t := FilterView(data, term, status).value;
      && IsSubsequence(t, data)
      && (forall k :: 0 <= k < |t| ==> Matches(t[k], term, status))
      && (forall r :: multiset(t)[r] == if Matches(r, term, status) then multiset(data)[r] else 0)
  {
    if data != [] {
      var t := FilterView(data, term, status).value;
      var rest := FilterView(data[1..], term, status).value;
      FilterViewSpec(data[1..], term, status);
      assert data == [data[0]] + data[1..];
      if Matches(data[0], term, status) {
        assert t[1..] == rest;
        forall k | 0 <= k < |t| ensures Matches(t[k], term, status) {
          if k > 0 { assert t[k] == rest[k - 1]; }
        }
      } else {
        assert IsSubsequence(t, data) by {
          if t != [] {
            assert IsSubsequence(t, data[1..]);
          }
        }
      }
    }
  }

  /** With an empty search term and the status `'all'` the view is the whole
      data, provided every record has a company name; without one the filter
      throws. */
  lemma {:induction false} EmptySearchShowsAll(data: seq<Record>)
    ensures FilterView(data, "", "all") == Some(data) <==> forall k :: 0 <= k < |data| ==> CompanyName in data[k]
    ensures FilterView(data, "", "all").None? <==> exists k :: 0 <= k < |data| && CompanyName !in data[k]
  {
    if data != [] {
      EmptySearchShowsAll(data[1..]);
      if forall k :: 0 <= k < |data| ==> CompanyName in data[k] {
        assert forall k :: 0 <= k < |data| - 1 ==> CompanyName in data[1..][k] by {
          forall k | 0 <= k < |data| - 1 ensures CompanyName in data[1..][k] {
            assert data[1..][k] == data[k + 1];
          }
        }
        ContainsEmpty(Lower(Get(data[0], CompanyName)));
        assert [data[0]] + data[1..] == data;
      } else {
        var k :| 0 <= k < |data| && CompanyName !in data[k];
        if k > 0 {
          assert CompanyName !in data[1..][k - 1];
        }
      }
    }
  }

  /** The search ignores letter case: the sample record of `ABC Enterprises`
      is found by the term typed as `abc`. */
  lemma SearchIgnoresCase(r: Record)
    requires CompanyName in r && r[CompanyName] == "ABC Enterprises"
    ensures Searchable(r, Lower("abc")) && Matches(r, Lower("ABC"), "all")
  {
    var name := Lower(r[CompanyName]);
    assert name[0] == 'a' && name[1] == 'b' && name[2] == 'c';
    assert name[..3] == "abc";
    assert StartsWith(name, "abc");
    var lower := Lower("ABC");
    assert lower[0] == 'a' && lower[1] == 'b' && lower[2] == 'c';
    assert lower == "abc";
    var typed := Lower("abc");
    assert typed[0] == 'a' && typed[1] == 'b' && typed[2] == 'c';
    assert typed == "abc";
  }
}
