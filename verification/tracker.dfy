/** The dashboard's state: the loaded applications and the view of them that
    the list shows, with the operations that replace, filter, sort and extend
    them. */
module Tracking {
  import opened Wrappers
  import opened Text
  import opened Records
  import Csv
  import Stats
  import Timeline
  import Filtering
  import Sorting

  /** The values of the add-application form. */
  datatype Form = Form(companyName: string, position: string, dateApplied: string,
                       status: string, deadline: string, notes: string)

  /** The record `submitApplication` builds; `now` is the submission time as
      `new Date().toLocaleString()` renders it. */
  function NewApplication(form: Form, now: string): Record {
    map[Timestamp := now, CompanyName := form.companyName, Position := form.position,
        DateApplied := form.dateApplied, ApplicationStatus := form.status,
        Deadline := form.deadline, Notes := form.notes, SummaryArea := ""]
  }

  /** A new application has every column, an empty summary, the form's status,
      and the form's date, or the submission time when the date is left blank. */
  lemma NewApplicationSpec(p: Platform, form: Form, now: string)
    ensures var r := NewApplication(form, now);
      && r.Keys == {Timestamp, CompanyName, Position, DateApplied, ApplicationStatus, Deadline, Notes, SummaryArea}
      && r[SummaryArea] == ""
      && Stats.StatusOf(r) == form.status
      && Timeline.EffectiveDate(p, r) == (if form.dateApplied != "" then p.parseDate(form.dateApplied) else DateValue(p, now))
  {
  }

  /** Prepending a record raises exactly the counter of its own status. */
  lemma {:induction false} PrependCounts(r: Record, data: seq<Record>, status: string)
    ensures Stats.CountStatus([r] + data, status) == Stats.CountStatus(data, status) + (if Stats.StatusOf(r) == status then 1 else 0)
  {
    if data != [] {
      var n := |data| - 1;
      PrependCounts(r, data[..n], status);
      assert ([r] + data)[..n + 1] == [r] + data[..n];
    }
  }

  class Tracker {
    /** `applicationsData`: every loaded application. */
    var applications: seq<Record>
    /** `filteredData`: what the application list shows. */
    var filtered: seq<Record>

    /** The view never holds a record more often than the data does. */
    ghost predicate Valid()
      reads this
    {
      multiset(filtered) <= multiset(applications)
    }

    constructor()
      ensures applications == [] && filtered == []
      ensures Valid()
    {
      applications := [];
      filtered := [];
    }

    /** `processData`: the view becomes a copy of the data, most recent first. */
    method ProcessData(p: Platform)
      modifies this
      ensures applications == old(applications)
      ensures filtered == Sorting.SortBy(Sorting.Comparator(p, Sorting.ByRecency), applications)
      ensures multiset(filtered) == multiset(applications)
      ensures Valid()
    {
      filtered := Sorting.SortBy(Sorting.Comparator(p, Sorting.ByRecency), applications);
    }

    /** `loadFromCSV` followed by `processData`: when the text has no
        non-blank line `parseCSV` throws and nothing changes. */
    method LoadFromCsv(csv: string, p: Platform) returns (ok: bool)
      modifies this
      ensures ok <==> Csv.ParseCSV(csv).Some?
      ensures ok ==> applications == Csv.ParseCSV(csv).value
      ensures ok ==> filtered == Sorting.SortBy(Sorting.Comparator(p, Sorting.ByRecency), applications)
      ensures !ok ==> applications == old(applications) && filtered == old(filtered)
      ensures old(Valid()) ==> Valid()
    {
      match Csv.ParseCSV(csv) {
        case None =>
          ok := false;
        case Some(records) =>
          applications := records;
          ProcessData(p);
          ok := true;
      }
    }

    /** `loadFromAPI` followed by `processData`: the rows of the sheet after
        the header row become records. */
    method LoadFromApi(rows: seq<seq<string>>, p: Platform)
      modifies this
      ensures applications == Csv.RecordsFromRows(rows)
      ensures filtered == Sorting.SortBy(Sorting.Comparator(p, Sorting.ByRecency), applications)
      ensures Valid()
    {
      applications := Csv.RecordsFromRows(rows);
      ProcessData(p);
    }

    /** `filterApplications` for the typed search text and the selected
        status: the view is rebuilt from all the data; when a record lacks a
        field the test reads, the callback throws and the view is left as it
        was. */
    method FilterApplications(input: string, status: string) returns (ok: bool)
      requires Valid()
      modifies this
      ensures applications == old(applications)
      ensures ok <==> Filtering.FilterView(applications, Lower(input), status).Some?
      ensures ok ==> filtered == Filtering.FilterView(applications, Lower(input), status).value
      ensures !ok ==> filtered == old(filtered)
      ensures Valid()
    {
      var term := Lower(input);
      match Filtering.FilterView(applications, term, status) {
        case None =>
          ok := false;
        case Some(shown) =>
          Filtering.FilterViewSpec(applications, term, status);
          forall r ensures multiset(shown)[r] <= multiset(applications)[r] {
          }
          filtered := shown;
          ok := true;
      }
    }

    /** `sortApplications` for the selected order, in place on the view. The
        company comparator calls `localeCompare` on the company name, so with
        two or more records of which one has none it throws and the view is
        left as it was. */
    method SortApplications(sortBy: string, p: Platform) returns (ok: bool)
      requires Valid()
      modifies this
      ensures applications == old(applications)
      ensures ok <==> !(Sorting.OrderOf(sortBy) == Sorting.ByCompany && |old(filtered)| >= 2
                        && exists r :: r in old(filtered) && CompanyName !in r)
      ensures ok ==> filtered == Sorting.SortBy(Sorting.Comparator(p, Sorting.OrderOf(sortBy)), old(filtered))
      ensures !ok ==> filtered == old(filtered)
      ensures multiset(filtered) == multiset(old(filtered))
      ensures Valid()
    {
      var key := Sorting.OrderOf(sortBy);
      if key == Sorting.ByCompany && |filtered| >= 2 && exists r :: r in filtered && CompanyName !in r {
        ok := false;
      } else {
        filtered := Sorting.SortBy(Sorting.Comparator(p, key), filtered);
        ok := true;
      }
    }

    /** `submitApplication`: after the user confirms, the new record is put
        in front of the data and the view is rebuilt; otherwise nothing
        changes. */
    method SubmitApplication(form: Form, now: string, confirmed: bool, p: Platform)
      modifies this
      ensures confirmed ==> applications == [NewApplication(form, now)] + old(applications)
      ensures confirmed ==> |applications| == |old(applications)| + 1 && applications[0] == NewApplication(form, now)
      ensures confirmed ==> forall i :: 0 <= i < |old(applications)| ==> applications[i + 1] == old(applications)[i]
      ensures confirmed ==> filtered == Sorting.SortBy(Sorting.Comparator(p, Sorting.ByRecency), applications)
      ensures !confirmed ==> applications == old(applications) && filtered == old(filtered)
      ensures old(Valid()) ==> Valid()
    {
      if confirmed {
        applications := [NewApplication(form, now)] + applications;
        ProcessData(p);
      }
    }
  }
}
