/** The tabular parser: one CSV line into fields (`parseCSVLine`), CSV text
    into header-keyed records (`parseCSV`), and the same header/row zip over
    the rows of the spreadsheet API (`loadFromAPI`). */
module Csv {
  import opened Wrappers
  import opened Text
  import opened Sequences
  import opened Records

  // ---------------------------------------------------------------------------
  // One line into fields

  /** `x` glued onto the front of the first field of `fields`. */
  function Prepend(x: string, fields: seq<string>): (r: seq<string>)
    requires |fields| >= 1
    ensures |r| == |fields|
  {
    [x + fields[0]] + fields[1..]
  }

  lemma PrependEmpty(fields: seq<string>)
    requires |fields| >= 1
    ensures Prepend("", fields) == fields
  {
    assert "" + fields[0] == fields[0];
    assert [fields[0]] + fields[1..] == fields;
  }

  lemma PrependTwice(x: string, y: string, fields: seq<string>)
    requires |fields| >= 1
    ensures Prepend(x, Prepend(y, fields)) == Prepend(x + y, fields)
  {
    var r := Prepend(y, fields);
    assert r[0] == y + fields[0] && r[1..] == fields[1..];
    assert x + (y + fields[0]) == (x + y) + fields[0];
  }

  lemma PrependSeparated(x: string, fields: seq<string>)
    ensures Prepend(x, [""] + fields) == [x] + fields
  {
    var r := [""] + fields;
    assert r[0] == "" && r[1..] == fields;
    assert x + "" == x;
  }

  /** The fields of `line` when scanning starts with the quote mode `inQuotes`:
      a `"` flips the mode and is dropped, a `,` outside quotes ends a field,
      and every other character belongs to the current field. */
  function SplitFields(line: string, inQuotes: bool): (r: seq<string>)
    ensures |r| >= 1
  {
    if line == [] then [""]
    else if line[0] == '"' then SplitFields(line[1..], !inQuotes)
    else if line[0] == ',' && !inQuotes then [""] + SplitFields(line[1..], inQuotes)
    else Prepend([line[0]], SplitFields(line[1..], inQuotes))
  }

  /** The fields of a whole line: scanning starts outside quotes. */
  function ParseFields(line: string): seq<string> {
    SplitFields(line, false)
  }

  /** Number of commas met while outside quotes. */
  function SeparatorCount(line: string, inQuotes: bool): nat {
    if line == [] then 0
    else if line[0] == '"' then SeparatorCount(line[1..], !inQuotes)
    else if line[0] == ',' && !inQuotes then 1 + SeparatorCount(line[1..], inQuotes)
    else SeparatorCount(line[1..], inQuotes)
  }

  /** `line` with every `"` and every comma met outside quotes removed. */
  function Stripped(line: string, inQuotes: bool): string {
    if line == [] then ""
    else if line[0] == '"' then Stripped(line[1..], !inQuotes)
    else if line[0] == ',' && !inQuotes then Stripped(line[1..], inQuotes)
    else [line[0]] + Stripped(line[1..], inQuotes)
  }

  /** The concatenation of a sequence of fields. */
  function Concat(fields: seq<string>): string {
    if fields == [] then "" else fields[0] + Concat(fields[1..])
  }

  /** `parseCSVLine`: the characters are scanned once, left to right, with the
      current field and the quote mode as the loop's state. */
  method ParseCSVLine(line: string) returns (result: seq<string>)
    ensures result == ParseFields(line)
  {
    result := [];
    var current := "";
    var inQuotes := false;
    var i := 0;
    assert line[0..] == line;
    PrependEmpty(ParseFields(line));
    while i < |line|
      invariant 0 <= i <= |line|
      invariant ParseFields(line) == result + Prepend(current, SplitFields(line[i..], inQuotes))
    {
      var c := line[i];
      var rest := SplitFields(line[i + 1..], inQuotes);
      assert line[i..][1..] == line[i + 1..];
      if c == '"' {
        inQuotes := !inQuotes;
      } else if c == ',' && !inQuotes {
        PrependSeparated(current, rest);
        PrependEmpty(rest);
        result := result + [current];
        current := "";
      } else {
        PrependTwice(current, [c], rest);
        current := current + [c];
      }
      i := i + 1;
    }
    assert line[i..] == [];
    assert SplitFields(line[i..], inQuotes) == [""];
    assert [""][1..] == [];
    assert Prepend(current, [""]) == [current + ""] + [];
    assert current + "" == current;
    result := result + [current];
  }

  /** There is exactly one field more than there are commas outside quotes:
      never zero fields, even for an empty line or an unterminated quote. */
  lemma {:induction false} FieldCount(line: string, inQuotes: bool)
    ensures |SplitFields(line, inQuotes)| == SeparatorCount(line, inQuotes) + 1
  {
    if line != [] {
      FieldCount(line[1..], if line[0] == '"' then !inQuotes else inQuotes);
    }
  }

  /** No field contains a double quote. */
  lemma {:induction false} FieldsQuoteFree(line: string, inQuotes: bool)
    ensures forall k :: 0 <= k < |SplitFields(line, inQuotes)| ==> '"' !in SplitFields(line, inQuotes)[k]
  {
    if line != [] {
      var q := if line[0] == '"' then !inQuotes else inQuotes;
      FieldsQuoteFree(line[1..], q);
      var rest := SplitFields(line[1..], q);
      var r := SplitFields(line, inQuotes);
      if line[0] == ',' && !inQuotes {
        forall k | 0 <= k < |r| ensures '"' !in r[k] {
          if k > 0 { assert r[k] == rest[k - 1]; }
        }
      } else if line[0] != '"' {
        forall k | 0 <= k < |r| ensures '"' !in r[k] {
          if k > 0 { assert r[k] == rest[k]; }
          else { assert '"' !in rest[0]; }
        }
      }
    }
  }

  lemma {:induction false} ConcatPrepend(x: string, fields: seq<string>)
    requires |fields| >= 1
    ensures Concat(Prepend(x, fields)) == x + Concat(fields)
  {
    var r := Prepend(x, fields);
    assert r[1..] == fields[1..];
  }

  /** Gluing the fields back together gives the line without its quotes and
      without the commas that separated fields. */
  lemma {:induction false} FieldsConcat(line: string, inQuotes: bool)
    ensures Concat(SplitFields(line, inQuotes)) == Stripped(line, inQuotes)
  {
    if line != [] {
      var q := if line[0] == '"' then !inQuotes else inQuotes;
      FieldsConcat(line[1..], q);
      var rest := SplitFields(line[1..], q);
      if line[0] == ',' && !inQuotes {
        assert ([""] + rest)[1..] == rest;
      } else if line[0] != '"' {
        ConcatPrepend([line[0]], rest);
      }
    }
  }

  /** Inside quotes, a stretch without `"` is data, commas included. */
  lemma {:induction false} QuotedStretch(x: string, tail: string)
    requires '"' !in x
    ensures SplitFields(x + tail, true) == Prepend(x, SplitFields(tail, true))
  {
    if x == [] {
      assert x + tail == tail;
      PrependEmpty(SplitFields(tail, true));
    } else {
      assert (x + tail)[1..] == x[1..] + tail;
      QuotedStretch(x[1..], tail);
      var r := SplitFields(tail, true);
      PrependTwice([x[0]], x[1..], r);
      assert [x[0]] + x[1..] == x;
    }
  }

  /** A quoted field followed by a comma is one field holding the text between
      the quotes, embedded commas kept; the rest of the line parses on its own. */
  lemma QuotedField(x: string, rest: string)
    requires '"' !in x
    ensures ParseFields("\"" + x + "\"," + rest) == [x] + ParseFields(rest)
  {
    var line := "\"" + x + "\"," + rest;
    assert line[1..] == x + ("\"," + rest);
    QuotedStretch(x, "\"," + rest);
    assert ("\"," + rest)[1..] == "," + rest;
    assert ("," + rest)[1..] == rest;
    PrependSeparated(x, ParseFields(rest));
  }

  /** A quoted field that ends the line is one field holding the text between
      the quotes. */
  lemma QuotedLastField(x: string)
    requires '"' !in x
    ensures ParseFields("\"" + x + "\"") == [x]
  {
    var line := "\"" + x + "\"";
    assert line[1..] == x + "\"";
    QuotedStretch(x, "\"");
    assert "\""[1..] == [];
    assert SplitFields("\"", true) == [""];
    assert x + "" == x;
  }

  /** On a line without quotes the scanner is a plain `split(',')`. */
  lemma {:induction false} UnquotedIsSplit(line: string)
    requires '"' !in line
    ensures ParseFields(line) == SplitOn(line, ',')
  {
    if line != [] {
      UnquotedIsSplit(line[1..]);
    }
  }

  // ---------------------------------------------------------------------------
  // Header/row zip

  /** Index `i` is the last position of its header: `obj[header] = …` runs in
      index order, so that is the assignment that survives. */
  predicate LastOccurrence(headers: seq<string>, i: int) {
    0 <= i < |headers| && forall j :: i < j < |headers| ==> headers[j] != headers[i]
  }

  /** The object built by assigning `cells[i]` to key `headers[i]` for every
      index in increasing order. */
  function Zip(headers: seq<string>, cells: seq<string>): Record
    requires |cells| == |headers|
  {
    if headers == [] then map[]
    else
      var n := |headers| - 1;
      Zip(headers[..n], cells[..n])[headers[n] := cells[n]]
  }

  /** The record's keys are exactly the headers, and each header maps to the
      cell at its last position. */
  lemma ZipSpec(headers: seq<string>, cells: seq<string>)
    requires |cells| == |headers|
    ensures Zip(headers, cells).Keys == set h | h in headers
    ensures forall i :: LastOccurrence(headers, i) ==> Zip(headers, cells)[headers[i]] == cells[i]
  {
    ZipKeys(headers, cells);
    ZipValues(headers, cells);
  }

  lemma {:induction false} ZipKeys(headers: seq<string>, cells: seq<string>)
    requires |cells| == |headers|
    ensures Zip(headers, cells).Keys == set h | h in headers
  {
    if headers != [] {
      var n := |headers| - 1;
      ZipKeys(headers[..n], cells[..n]);
      assert headers == headers[..n] + [headers[n]];
    }
  }

  lemma {:induction false} ZipValues(headers: seq<string>, cells: seq<string>)
    requires |cells| == |headers|
    ensures forall i :: LastOccurrence(headers, i) ==>
      headers[i] in Zip(headers, cells) && Zip(headers, cells)[headers[i]] == cells[i]
  {
    if headers != [] {
      var n := |headers| - 1;
      ZipValues(headers[..n], cells[..n]);
      forall i | LastOccurrence(headers, i)
        ensures headers[i] in Zip(headers, cells) && Zip(headers, cells)[headers[i]] == cells[i]
      {
        if i < n {
          assert LastOccurrence(headers[..n], i);
        }
      }
    }
  }

  /** `values[index] ? values[index].trim() : ''` */
  function CsvCell(values: seq<string>, i: nat): string {
    if i < |values| && values[i] != "" then Trim(values[i]) else ""
  }

  /** `row[index] || ''` */
  function ApiCell(row: seq<string>, i: nat): string {
    if i < |row| && row[i] != "" then row[i] else ""
  }

  /** The record built from one data line of the CSV text. */
  function CsvRecord(headers: seq<string>, line: string): Record {
    var values := ParseFields(line);
    Zip(headers, seq(|headers|, i requires 0 <= i < |headers| => CsvCell(values, i)))
  }

  /** The record built from one row of the API response. */
  function ApiRecord(headers: seq<string>, row: seq<string>): Record {
    Zip(headers, seq(|headers|, i requires 0 <= i < |headers| => ApiCell(row, i)))
  }

  // ---------------------------------------------------------------------------
  // Whole text into records

  /** `lines.filter(line => line.trim())` */
  function NonBlank(lines: seq<string>): (r: seq<string>)
    ensures |r| <= |lines|
  {
    if lines == [] then []
    else if Trim(lines[0]) != "" then [lines[0]] + NonBlank(lines[1..])
    else NonBlank(lines[1..])
  }

  /** The non-blank lines of the text, in order. */
  function DataLines(csv: string): seq<string> {
    NonBlank(SplitOn(csv, '\n'))
  }

  /** `lines[0].split(',').map(h => h.trim())`: the header line is split on
      every comma, quotes or not. */
  function Headers(line: string): seq<string> {
    var parts := SplitOn(line, ',');
    seq(|parts|, i requires 0 <= i < |parts| => Trim(parts[i]))
  }

  /** `parseCSV`. `None` when every line is blank: `lines[0]` is then undefined
      and reading its `split` throws. */
  function ParseCSV(csv: string): Option<seq<Record>> {
    var lines := DataLines(csv);
    if lines == [] then None
    else
      var headers := Headers(lines[0]);
      var body := lines[1..];
      Some(seq(|body|, k requires 0 <= k < |body| => CsvRecord(headers, body[k])))
  }

  /** `rows.slice(1).map(…)` in `loadFromAPI`: with no rows at all the header
      row is never read, and the result is empty. */
  function RecordsFromRows(rows: seq<seq<string>>): seq<Record> {
    if rows == [] then []
    else
      var body := rows[1..];
      seq(|body|, k requires 0 <= k < |body| => ApiRecord(rows[0], body[k]))
  }

  /** `NonBlank` keeps exactly the lines that are not all whitespace, in order:
      what it keeps is non-blank, and a line not kept is blank. */
  lemma {:induction false} NonBlankSpec(lines: seq<string>)
    ensures forall k :: 0 <= k < |NonBlank(lines)| ==> !AllWhitespace(NonBlank(lines)[k])
    ensures |NonBlank(lines)| + BlankCount(lines) == |lines|
  {
    if lines != [] {
      NonBlankSpec(lines[1..]);
      TrimEmptyIff(lines[0]);
      var r := NonBlank(lines);
      var rest := NonBlank(lines[1..]);
      if Trim(lines[0]) != "" {
        forall k | 0 <= k < |r| ensures !AllWhitespace(r[k]) {
          if k > 0 { assert r[k] == rest[k - 1]; }
        }
      }
    }
  }

  /** The kept lines are the input's non-blank lines in their original order:
      an order-preserving selection holding each non-blank line as often as
      the input does, and no blank line. */
  lemma {:induction false} NonBlankSelects(lines: seq<string>)
    ensures IsSubsequence(NonBlank(lines), lines)
    ensures forall l :: multiset(NonBlank(lines))[l] == if AllWhitespace(l) then 0 else multiset(lines)[l]
  {
    if lines != [] {
      NonBlankSelects(lines[1..]);
      TrimEmptyIff(lines[0]);
      var r := NonBlank(lines);
      var rest := NonBlank(lines[1..]);
      assert lines == [lines[0]] + lines[1..];
      if Trim(lines[0]) != "" {
        assert r[1..] == rest;
      } else {
        assert IsSubsequence(r, lines) by {
          if r != [] {
            assert IsSubsequence(r, lines[1..]);
          }
        }
      }
    }
  }

  /** Every line is all whitespace. */
  predicate AllBlank(lines: seq<string>) {
    forall k :: 0 <= k < |lines| ==> AllWhitespace(lines[k])
  }

  /** Number of lines that are all whitespace. */
  function BlankCount(lines: seq<string>): nat {
    if lines == [] then 0
    else (if AllWhitespace(lines[0]) then 1 else 0) + BlankCount(lines[1..])
  }

  /** `NonBlank` is empty exactly when every line is blank. */
  lemma {:induction false} NonBlankEmptyIff(lines: seq<string>)
    ensures NonBlank(lines) == [] <==> AllBlank(lines)
  {
    if lines != [] {
      NonBlankEmptyIff(lines[1..]);
      TrimEmptyIff(lines[0]);
      AllBlankCons(lines);
    }
  }

  lemma AllBlankCons(lines: seq<string>)
    requires lines != []
    ensures AllBlank(lines) <==> AllWhitespace(lines[0]) && AllBlank(lines[1..])
  {
    var rest := lines[1..];
    if AllWhitespace(lines[0]) && AllBlank(rest) {
      forall k | 0 <= k < |lines| ensures AllWhitespace(lines[k]) {
        if k > 0 { assert lines[k] == rest[k - 1]; }
      }
    }
    if AllBlank(lines) {
      forall k | 0 <= k < |rest| ensures AllWhitespace(rest[k]) {
        assert rest[k] == lines[k + 1];
      }
    }
  }

  /** One data line's record: its keys are the headers, and each header holds
      the trimmed field at its index, or `''` past the end of the line. */
  lemma CsvRecordSpec(headers: seq<string>, line: string)
    ensures CsvRecord(headers, line).Keys == (set h | h in headers)
    ensures forall i :: LastOccurrence(headers, i) ==>
              CsvRecord(headers, line)[headers[i]] == CsvCell(ParseFields(line), i)
  {
    var values := ParseFields(line);
    ZipSpec(headers, seq(|headers|, i requires 0 <= i < |headers| => CsvCell(values, i)));
  }

  /** `parseCSV` throws exactly when the text has no non-blank line. */
  lemma ParseCSVFails(csv: string)
    ensures ParseCSV(csv).None? <==> AllBlank(SplitOn(csv, '\n'))
  {
    NoHeaderLine(csv);
    NonBlankEmptyIff(SplitOn(csv, '\n'));
  }

  lemma NoHeaderLine(csv: string)
    ensures ParseCSV(csv).None? <==> DataLines(csv) == []
  {
  }

  /** Otherwise it yields one record per non-blank line after the header line,
      whose keys are the trimmed headers, each mapped to the trimmed field at
      its index (or `''` past the end of the line; extra fields are dropped). */
  lemma ParseCSVRecords(csv: string)
    requires ParseCSV(csv).Some?
    ensures var lines := DataLines(csv);
            var headers := Headers(lines[0]);
            var records := ParseCSV(csv).value;
            && |records| == |lines| - 1
            && forall k :: 0 <= k < |records| ==>
                 && records[k].Keys == (set h | h in headers)
                 && forall i :: LastOccurrence(headers, i) ==>
                      records[k][headers[i]] == CsvCell(ParseFields(lines[1..][k]), i)
  {
    var lines := DataLines(csv);
    var headers := Headers(lines[0]);
    var body := lines[1..];
    var records := ParseCSV(csv).value;
    forall k | 0 <= k < |body|
      ensures records[k].Keys == (set h | h in headers)
      ensures forall i :: LastOccurrence(headers, i) ==>
                records[k][headers[i]] == CsvCell(ParseFields(body[k]), i)
    {
      assert records[k] == CsvRecord(headers, body[k]);
      CsvRecordSpec(headers, body[k]);
    }
  }

  /** Every value `parseCSV` stores is already trimmed. */
  lemma CsvCellTrimmed(values: seq<string>, i: nat)
    ensures Trim(CsvCell(values, i)) == CsvCell(values, i)
  {
    if i < |values| && values[i] != "" {
      TrimIdempotent(values[i]);
    }
  }

  /** A data line with fewer fields than headers leaves the missing ones `''`,
      and a field that is present keeps its trimmed text. */
  lemma CsvCellDefault(values: seq<string>, i: nat)
    ensures i >= |values| ==> CsvCell(values, i) == ""
    ensures i < |values| ==> CsvCell(values, i) == Trim(values[i])
  {
  }

  /** `loadFromAPI` yields one record per row after the header row, keyed by
      the untrimmed headers, each mapped to the cell at its index or `''`. */
  lemma RecordsFromRowsSpec(rows: seq<seq<string>>)
    ensures |RecordsFromRows(rows)| == if rows == [] then 0 else |rows| - 1
    ensures forall k :: 0 <= k < |RecordsFromRows(rows)| ==>
              && RecordsFromRows(rows)[k].Keys == (set h | h in rows[0])
              && forall i :: LastOccurrence(rows[0], i) ==>
                   RecordsFromRows(rows)[k][rows[0][i]] == ApiCell(rows[1..][k], i)
  {
    if rows != [] {
      var headers := rows[0];
      var body := rows[1..];
      forall k | 0 <= k < |body| {
        ZipSpec(headers, seq(|headers|, i requires 0 <= i < |headers| => ApiCell(body[k], i)));
      }
    }
  }
}
