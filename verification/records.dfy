/** An application record as the dashboard holds it, and the host-library
    behaviour (date parsing, calendar months, locale collation) that the
    tracker's logic consumes but does not define. */
module Records {
  import opened Wrappers

  /** A record is a JavaScript object whose keys are the spreadsheet's column
      headers; a key that is absent reads as `undefined`. */
  type Record = map<string, string>

  const Timestamp: string := "Timestamp"
  const CompanyName: string := "Company Name"
  const Position: string := "Position"
  const DateApplied: string := "Date Applied"
  const ApplicationStatus: string := "Application Status"
  const Deadline: string := "Deadline"
  const Notes: string := "Notes"
  const SummaryArea: string := "Summary Area"

  /** `r[key]` where only its truthiness or its text matters: an absent key
      (`undefined`) and the empty string are both falsy. */
  function Get(r: Record, key: string): string {
    if key in r then r[key] else ""
  }

  /** `a || b` on two string operands. */
  function Or(a: string, b: string): string {
    if a != "" then a else b
  }

  /** A calendar month: the key the timeline groups by. */
  datatype Month = Month(year: int, month: int)

  /** Chronological order of months. */
  predicate MonthBefore(a: Month, b: Month) {
    a.year < b.year || (a.year == b.year && a.month < b.month)
  }

  /** What the host library supplies:
      - `parseDate(s)` is `new Date(s).getTime()`, `None` standing for NaN;
      - `monthOf(t)` is the local calendar month of the instant `t`;
      - `localeCompare(a, b)` is `a.localeCompare(b)`. */
  datatype Platform = Platform(
    parseDate: string -> Option<int>,
    monthOf: int -> Month,
    localeCompare: (string, string) -> int)

  /** `new Date(s)` for a field value: `new Date('')` and `new Date(undefined)`
      are both invalid, whatever the parser does with other text. */
  function DateValue(p: Platform, s: string): Option<int> {
    if s == "" then None else p.parseDate(s)
  }
}
