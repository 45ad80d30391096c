# Internship Tracker — a verified model of the dashboard's data core

The Internship Tracker is a browser dashboard over a spreadsheet of internship
applications. Each row has these columns: `Timestamp`, `Company Name`,
`Position`, `Date Applied`, `Application Status`, `Deadline`, `Notes` and
`Summary Area`. This project models the part of `Script.js` that computes
things rather than draws them:

- **Tokenizer and record builder.** `parseCSVLine` is a one-pass scanner.
  A `"` toggles the quote mode and is dropped, and a comma separates fields
  only outside quotes. It is a simplified RFC 4180 section 2 with no
  doubled-quote escape. `parseCSV` splits the text into lines, drops the
  blank ones, and takes the first remaining line as the header row. The
  header-to-cell zip is also used by `loadFromAPI`.
- **Aggregator.** The four status counters of `updateStatistics`, the
  doughnut counts of `updateStatusChart`, the month buckets of
  `updateTimelineChart`, and the icon lookup of `getStatusIcon`.
- **View engine.** `processData` copies the data and sorts it most recent
  first. `filterApplications` does a case-insensitive search plus a status
  filter. `sortApplications` offers newest, oldest, company, deadline and a
  default. `submitApplication` prepends a locally entered application.

The model is split into these modules:

| module | contents |
|---|---|
| `Wrappers` (`wrappers.dfy`), `Sequences` (`sequences.dfy`) | the optional value, and the subsequence relation shared by the two filters |
| `Records` (`records.dfy`) | the record type, the column names, and the host-library parameters (`Platform`) |
| `Text` (`text.dfy`) | `trim`, `toLowerCase`, `includes` and `split` on strings |
| `Csv` (`csv.dfy`) | the scanner, the parser and the zip |
| `Stats` (`stats.dfy`) | the counters, the doughnut counts and the icons |
| `Timeline` (`timeline.dfy`) | the month buckets |
| `Filtering` (`filter.dfy`) | the search |
| `Sorting` (`sorting.dfy`) | the comparators and the stable sort |
| `Tracking` (`tracker.dfy`) | a `Tracker` class holding `applicationsData` and `filteredData` and the operations that reassign them |

Some parts of the source are loops, and those are modelled as methods with
loop invariants, each proved against a specification function:

- `parseCSVLine`;
- the counting `forEach` loops;
- the filling of `monthCounts`.

The keys of `monthCounts` are sorted chronologically. This is modelled as a
selection loop.

A record is a `map<string, string>`, and a key that is absent plays the part
of JavaScript's `undefined`. The foreign library behaviour is passed in as a
`Platform` value:

- `new Date(s).getTime()`, with `None` for NaN;
- the calendar month of an instant;
- `String.prototype.localeCompare`.

Nothing is assumed about these functions beyond what each lemma requires.
`new Date('')` is invalid whatever the parser does. Every spot where the
source would throw on `undefined` is modelled as an explicit failure result:

- `parseCSV` on text without a non-blank line;
- the filter callback on a record without `Company Name`, or without
  `Position` when the company does not match;
- the company comparator on a record without `Company Name`.

In each case the `Tracker` state is left unchanged.

The effective date of a record is `Date Applied || Timestamp`. The timestamp
is used only when `Date Applied` is empty. A `Date Applied` that is non-empty
but does not parse is not replaced by the timestamp, and the record is
skipped. This follows `Script.js:199-201` and `Script.js:322-326`. The
comment at `Script.js:321` ("Prefer Date Applied, fallback to Timestamp")
leaves open when the fallback applies. The model follows the `||` of the
code: the fallback applies only when `Date Applied` is empty.

`Array.prototype.sort` is modelled as one specific stable sort,
`Sorting.SortBy`. It is a generic insertion sort over an arbitrary
comparator, and a comparator result of NaN counts as 0. These are proved
for every comparator:

- the result is a permutation of the input;
- under `deadline`, every record with a deadline comes before every record
  without one;
- the default order leaves the list unchanged.

These are proved for comparators that are consistent on the elements being
sorted:

- the result is sorted;
- the sort is stable, which covers the company order and valid dates.

## Model

| member | source | states |
|---|---|---|
| Text.TrimSlice | Script.js:98-99 | `trim` removes a run of whitespace from each end only: the result is a contiguous slice of the input whose first and last characters are not whitespace |
| Text.TrimEmptyIff | Script.js:98 | `line.trim()` is falsy exactly when the line consists of whitespace only |
| Text.TrimIdempotent | Script.js:106 | trimming an already trimmed value changes nothing |
| Text.Lower | Script.js:454 | `toLowerCase` keeps the length and maps each character separately |
| Text.LowerIdempotent | Script.js:454-460 | lower-casing twice is lower-casing once, so the already lower-cased search term is not changed by the search |
| Text.ContainsIff | Script.js:459-460 | `includes` holds exactly when the needle occurs at some index of the haystack |
| Text.ContainsEmpty | Script.js:459 | every string includes the empty search term |
| Text.SplitJoin | Script.js:98 | `split('\n')` loses nothing: joining the pieces with the separator gives back the text |
| Text.SplitCount | Script.js:98-99 | `split` gives one piece more than there are separators, and no piece contains the separator |
| Csv.ParseCSVLine | Script.js:112-131 | the character loop computes exactly the field list of the quote-toggling grammar `ParseFields` |
| Csv.FieldCount | Script.js:112-131 | a line has exactly one field more than it has commas outside quotes, so it never has zero fields, even when empty or with an unterminated quote |
| Csv.FieldsQuoteFree | Script.js:119-120 | no field contains a double quote |
| Csv.FieldsConcat | Script.js:117-127 | the fields concatenated give the line with every `"` and every comma outside quotes removed |
| Csv.QuotedStretch | Script.js:119-126 | inside quotes, a stretch of text without a quote is field data, commas included |
| Csv.QuotedField | Script.js:117-128 | a quoted field followed by a comma is one field holding the text between the quotes, and the rest of the line parses independently |
| Csv.QuotedLastField | Script.js:117-129 | a quoted field at the end of a line is one field holding the text between the quotes |
| Csv.UnquotedIsSplit | Script.js:112-131 | on a line without quotes the scanner agrees with `split(',')` |
| Csv.ZipSpec | Script.js:87-89 | the object built by `headers.forEach` has exactly the headers as keys, and a repeated header keeps the cell of its last occurrence |
| Csv.NonBlank | Script.js:98 | filtering out blank lines never adds lines |
| Csv.NonBlankSpec | Script.js:98 | every kept line is non-blank, and kept plus blank lines account for all lines |
| Csv.NonBlankSelects | Script.js:98 | the kept lines are the input's non-blank lines in their original order: an order-preserving subsequence holding each non-blank line as often as the input does, and no blank line |
| Csv.NonBlankEmptyIff | Script.js:98 | no line survives the filter exactly when every line is blank |
| Csv.CsvRecordSpec | Script.js:101-107 | one data line's record has the headers as keys, and each header holds the trimmed field at its index, or `''` past the end of the line |
| Csv.ParseCSVFails | Script.js:97-99 | `parseCSV` throws exactly when every line of the text is blank |
| Csv.ParseCSVRecords | Script.js:97-109 | otherwise there is one record per non-blank line after the header line, in order, keyed by the trimmed headers split on every comma, each holding the trimmed field at its index or `''`, with extra fields dropped |
| Csv.CsvCellTrimmed | Script.js:106 | every value `parseCSV` stores is already trimmed |
| Csv.CsvCellDefault | Script.js:106 | a missing field becomes `''`, and a present one its trimmed text |
| Csv.RecordsFromRowsSpec | Script.js:82-91 | `loadFromAPI` yields one record per row after the header row, keyed by the untrimmed headers, each holding the cell at its index or `''` when the row is short |
| Stats.UpdateStatistics | Script.js:213-228 | the loop's total is the number of records, and each counter is the number of records whose status is exactly that status |
| Stats.StatisticsSumLaw | Script.js:214-228 | the four counters never exceed the total, and they reach it exactly when every status is one of the four canonical strings |
| Stats.StatusChartCounts | Script.js:263-275 | the intended doughnut, the corrected half of the first finding: a status is counted only under an own key, so the chart has exactly the four canonical labels, each with its number of records |
| Stats.ChartMatchesStatistics | Script.js:213-228 | the doughnut slices equal the statistics counters of the same statuses |
| Stats.StatusChartCountsAsWritten | Script.js:263-275 | with JavaScript property lookup, the labels are the four statuses plus every inherited `Object.prototype` method name that occurs as a status; the four keep their counts and every extra label holds NaN |
| Stats.ChartGainsInheritedLabel | Script.js:270-275 | one record with the status `toString` gives the doughnut a fifth label |
| Stats.StatusIconSpec | Script.js:663-671 | of the intended icon lookup, the corrected half of the second finding: the fallback icon is returned exactly for statuses that are not canonical, and the four canonical statuses get four distinct icons |
| Stats.StatusIconAsWritten | Script.js:663-671 | `icons[status] \|\| '📋'` with JavaScript property lookup (own key, then `Object.prototype`): a string comes back exactly when the status is not an `Object.prototype` property name, and it is then the intended icon of `Stats.StatusIcon` |
| Stats.IconForInheritedName | Script.js:663-671 | the status `toString` yields the inherited method, and the status `__proto__` yields the prototype object, instead of an icon string |
| Timeline.CountByMonth | Script.js:320-334 | after the loop `monthCounts` holds exactly the months with at least one record whose effective date parses, each with its number of such records |
| Timeline.Earliest | Script.js:336-338 | the month picked is in the set and no month of the set comes before it |
| Timeline.SortedBars | Script.js:336-348 | the bars are the entries of `monthCounts`, each month once, in strictly ascending chronological order |
| Timeline.UpdateTimeline | Script.js:316-348 | the series is chronological, each bar is its month's count and at least 1, there is a bar exactly for the months of dated records, and the bars add up to the number of records whose date parses |
| Timeline.SeriesTotal | Script.js:320-348 | a series of distinct months carrying the bucket counts and covering every dated record adds up to the number of dated records |
| Timeline.OccursOnce | Script.js:336-338 | in a chronologically ascending series a month has exactly one bar |
| Filtering.FilterViewFails | Script.js:457-460 | the filter throws exactly when some record lacks the company name, or lacks the position while its company does not match |
| Filtering.FilterViewSpec | Script.js:457-467 | the view is an order-preserving subsequence of the data, every shown record matches, and each matching record is shown as often as it occurs, the others never |
| Filtering.EmptySearchShowsAll | Script.js:453-467 | with an empty term and `'all'` the view is the whole data exactly when every record has a company name, and otherwise the filter throws |
| Filtering.SearchIgnoresCase | Script.js:454-460 | the sample company `ABC Enterprises` is found by the term typed as `ABC` or `abc` |
| Sorting.Insert | Script.js:199-203 | one insertion step adds exactly the inserted element |
| Sorting.SortBy | Script.js:475-491 | sorting only permutes: same length, same multiset |
| Sorting.InsertSorted | Script.js:475-491 | inserting into a sorted list under a consistent comparator keeps it sorted |
| Sorting.SortSorted | Script.js:475-491 | under a comparator that is a total preorder on the elements, the result is sorted |
| Sorting.SortStable | Script.js:475-491 | the elements the comparator ties keep their input order |
| Sorting.EquivalentsKeepOrder | Script.js:475-491 | under a consistent comparator, the records equivalent to any given one keep their input order |
| Sorting.CompanySortStable | Script.js:482-483 | under the company order, records with the same company name keep their input order |
| Sorting.DatesConsistent | Script.js:199-203 | with every date valid, the recency, newest, oldest and deadline comparators are consistent |
| Sorting.DateSortOrder | Script.js:477-487 | with every date valid, recency and newest put later dates first, and oldest and deadline put earlier dates first |
| Sorting.UnsortedKeepsOrder | Script.js:488-489 | the default comparator leaves the list unchanged |
| Sorting.DeadlineSign | Script.js:484-487 | a positive deadline comparison places a record with a deadline only after another with a deadline, and a non-positive one means the first record has a deadline |
| Sorting.InsertDeadlinesFirst | Script.js:484-487 | inserting under the deadline comparator keeps records with a deadline ahead of those without |
| Sorting.DeadlineSortPartitions | Script.js:484-487 | under the deadline order every record with a non-empty deadline precedes every record without one, whatever the dates |
| Sorting.DeadlineComparatorInconsistent | Script.js:484-485 | two records without deadlines each compare as belonging after the other, so the deadline comparator is not consistent |
| Tracking.NewApplicationSpec | Script.js:513-524 | the new record has every column, an empty `Summary Area`, the form's status, and the form's date as its effective date, or the submission time when the date is blank |
| Tracking.PrependCounts | Script.js:526 | prepending a record raises only the counter of its own status, by one |
| Tracking.Tracker.constructor | Script.js:25-26 | both collections start empty |
| Tracking.Tracker.ProcessData | Script.js:195-204 | the view becomes a most-recent-first permutation of the data, and the data is unchanged |
| Tracking.Tracker.LoadFromCsv | Script.js:69-74 | the data becomes the parsed records and the view is rebuilt; when `parseCSV` throws, nothing changes |
| Tracking.Tracker.LoadFromApi | Script.js:77-94 | the data becomes the zipped rows after the header row, and the view is rebuilt |
| Tracking.Tracker.FilterApplications | Script.js:453-470 | the view becomes the filter of all the data for the lower-cased input and the status; when the callback throws, the view is unchanged; the view never holds a record more often than the data does |
| Tracking.Tracker.SortApplications | Script.js:472-494 | the view is re-sorted with the selected comparator, which only permutes it; when the company comparator throws, the view is unchanged |
| Tracking.Tracker.SubmitApplication | Script.js:496-538 | after confirmation the data grows by one, index 0 is the new record, every old record moves up one index unchanged, and the view is rebuilt; without confirmation nothing changes |

## Left out

- Network and loading are left out: `fetch` in `loadFromCSV` and `loadFromAPI`, the `USE_API` switch, the `try`/`catch` fallback to `loadSampleData`, and the console output. The loaders are modelled from the response text or rows onwards.
- The DOM, Chart.js and UI are left out: rendering, the modal, sections, toasts, the loading spinner, the form reset and the `confirm` dialog. The dialog's answer is the `confirmed` parameter.
- `animateValue`, `setupAutoRefresh`, `getDaysUntil` and `formatDate` are left out. They depend on timers, the clock, floating point and locale formatting.
- The real behaviour of `new Date(string)`, `toLocaleDateString` and `localeCompare` is not modelled. These are the `Platform` parameters, and `new Date().toLocaleString()` for a submission is the `now` parameter.
- Text.Lower: lower-cases ASCII letters only. Full Unicode case mapping, including mappings that change the length, is not modelled.
- Text.Trim: uses the ECMAScript whitespace and line-terminator characters as a fixed set. It does not track Unicode versions.
- Timeline.SortedBars: sorts `(year, month)` pairs chronologically. The source instead re-parses its `Mon YYYY` labels with `new Date(label)` and subtracts. The model assumes that re-parse yields a time inside that month, and that distinct months get distinct labels.
- Sorting.SortBy: fixes one stable order, that of an insertion sort. ECMA-262 leaves the order implementation-defined when the comparator is inconsistent, which happens with invalid dates, or under `deadline` with two records without a deadline. So for such inputs only the permutation, the deadline partition and the default order are claimed.
- Tracking.Tracker.SortApplications: under `company`, any record without a company name in a view of two or more records counts as a throw. An engine throws only when such a record is passed as the first argument of the comparator, which depends on its algorithm.
- Tracking.Tracker.FilterApplications: a record without `Position` whose company matches the term is handled as the source does, since the `||` short-circuits. A thrown exception is modelled as the result `false` and an unchanged view, not as an exception reaching the caller.
- A header named `__proto__`, which a JavaScript object treats specially, is modelled as an ordinary key.

## Findings

| source | as written | input that shows it | evidently intended | confidence | as-written member | corrected member |
|---|---|---|---|---|---|---|
| Script.js:270-275 | `statusCounts[status] !== undefined` also finds the methods every object inherits from `Object.prototype`; `++` on such a method stores NaN under a new own key | a record whose `Application Status` is `toString` | only the four canonical statuses are labels of the doughnut, and other statuses are ignored | not executed; follows from ECMAScript property lookup | Stats.StatusChartCountsAsWritten, Stats.ChartGainsInheritedLabel | Stats.StatusChartCounts, Stats.ChartMatchesStatistics |
| Script.js:663-671 | `icons[status] \|\| '📋'` returns the inherited member of `Object.prototype` for a status that names one: a method, or for `__proto__` the prototype object, which the templates render as `[object Object]` | the status `toString` or `__proto__` | an icon string for every status, the clipboard for unknown ones | not executed; follows from ECMAScript property lookup | Stats.StatusIconAsWritten, Stats.IconForInheritedName | Stats.StatusIcon, Stats.StatusIconSpec |
