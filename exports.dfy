/** The CSV writer of server/src/modules/exports/exports.service.ts: the
    cell escaper, the serialiser and the per-row mapper of the marks export.
    The query results are given as sequences of rows; `String()` of a
    number is the parameter numberText. */
module Exports {
  import opened Common

  /** A cell handed to the escaper: null/undefined, a string or a number. */
  datatype CsvValue = Null | Text(text: string) | Number(n: real)

  /** `String(value)` for a value that is not null. */
  function Render(v: CsvValue, numberText: real -> string): string
    requires !v.Null?
  {
    match v
    case Text(s) => s
    case Number(n) => numberText(n)
  }

  /** The escaper quotes a string holding a quote, a comma or a line feed. */
  predicate NeedsQuoting(s: string) {
    '"' in s || ',' in s || '\n' in s
  }

  /** `str.replace(/"/g, '""')` */
  function DoubleQuotes(s: string): (r: string)
    ensures |r| >= |s|
  {
    if s == [] then []
    else (if s[0] == '"' then "\"\"" else [s[0]]) + DoubleQuotes(s[1..])
  }

  /** A string without quotes is left as it is. */
  lemma {:induction false} DoubleQuotesNoQuote(s: string)
    requires '"' !in s
    ensures DoubleQuotes(s) == s
  {
    if s != [] {
      assert s == [s[0]] + s[1..];
      DoubleQuotesNoQuote(s[1..]);
    }
  }

  /** escapeCsv */
  function EscapeCsv(v: CsvValue, numberText: real -> string): (r: string)
    ensures v.Null? ==> r == []
    ensures !v.Null? && !NeedsQuoting(Render(v, numberText)) ==> r == Render(v, numberText)
    ensures !v.Null? && NeedsQuoting(Render(v, numberText)) ==>
      && |r| >= 2 && r[0] == '"' && r[|r| - 1] == '"'
      && r[1..|r| - 1] == DoubleQuotes(Render(v, numberText))
  {
    if v.Null? then ""
    else
      var s := Render(v, numberText);
      if NeedsQuoting(s) then "\"" + DoubleQuotes(s) + "\"" else s
  }

  /** An escaped cell holds a separator, a line feed or a quote only when
      it is wrapped in quotes. */
  lemma EscapedSeparatorsAreQuoted(v: CsvValue, numberText: real -> string)
    ensures var r := EscapeCsv(v, numberText);
      ('"' in r || ',' in r || '\n' in r) ==> |r| >= 2 && r[0] == '"' && r[|r| - 1] == '"'
  {
  }

  /** One data line: the escaped cells joined by commas. */
  function RowLine(row: seq<CsvValue>, numberText: real -> string): string {
    Join(seq(|row|, j requires 0 <= j < |row| => EscapeCsv(row[j], numberText)), ",")
  }

  /** The lines toCsv joins: the header line (not escaped), then one line
      per row. */
  function Lines(headers: seq<string>, rows: seq<seq<CsvValue>>, numberText: real -> string): (r: seq<string>)
    ensures |r| == |rows| + 1
    ensures r[0] == Join(headers, ",")
    ensures forall i :: 0 <= i < |rows| ==> r[i + 1] == RowLine(rows[i], numberText)
  {
    if rows == [] then [Join(headers, ",")]
    else
      var n := |rows| - 1;
      assert forall i :: 0 <= i < n ==> rows[..n][i] == rows[i];
      Lines(headers, rows[..n], numberText) + [RowLine(rows[n], numberText)]
  }

  /** toCsv */
  method ToCsv(headers: seq<string>, rows: seq<seq<CsvValue>>, numberText: real -> string) returns (csv: string)
    ensures csv == Join(Lines(headers, rows, numberText), "\n")
  {
    var lines := [Join(headers, ",")];
    for i := 0 to |rows|
      invariant lines == Lines(headers, rows[..i], numberText)
    {
      assert rows[..i + 1][..i] == rows[..i];
      lines := lines + [RowLine(rows[i], numberText)];
    }
    assert rows[..|rows|] == rows;
    csv := Join(lines, "\n");
  }

  // ---------------------------------------------------------------------
  // The marks export
  // ---------------------------------------------------------------------

  /** One row of the marks export query. The SQLite integers is_absent,
      is_optional and is_enrolled are booleans here; None is SQL null from
      the LEFT JOINs. */
  datatype MarksExportRow = MarksExportRow(
    examName: string, className: string, subjectName: string,
    admissionNo: string, firstName: string, lastName: string,
    entryMaxMarks: Option<real>, marksObtained: Option<real>, isAbsent: Option<bool>,
    isOptional: Option<bool>, isEnrolled: Option<bool>, ruleMaxMarks: Option<real>)

  const MarksExportHeaders: seq<string> :=
    ["exam", "class", "subject", "admission_no", "first_name", "last_name", "max_marks", "marks_obtained", "is_absent"]

  /** `r.is_optional && r.is_enrolled === 0` */
  predicate NotApplicable(r: MarksExportRow) {
    r.isOptional == Some(true) && r.isEnrolled == Some(false)
  }

  /** The row mapper of exportMarks. */
  function MarksExportCells(r: MarksExportRow): (cells: seq<CsvValue>)
    ensures |cells| == |MarksExportHeaders|
    ensures cells[..6] == [Text(r.examName), Text(r.className), Text(r.subjectName),
                           Text(r.admissionNo), Text(r.firstName), Text(r.lastName)]
    // max_marks: the entry's, else the rule's, else empty
    ensures r.entryMaxMarks.Some? ==> cells[6] == Number(r.entryMaxMarks.value)
    ensures r.entryMaxMarks.None? && r.ruleMaxMarks.Some? ==> cells[6] == Number(r.ruleMaxMarks.value)
    ensures r.entryMaxMarks.None? && r.ruleMaxMarks.None? ==> cells[6] == Text("")
    // a not-applicable row: NA and an empty absent column
    ensures NotApplicable(r) ==> cells[7] == Text("NA") && cells[8] == Text("")
    // any other row: the marks or empty, and true/false
    ensures !NotApplicable(r) ==>
      && cells[7] == (if r.marksObtained.Some? then Number(r.marksObtained.value) else Text(""))
      && cells[8] in {Text("true"), Text("false")}
      && (cells[8] == Text("true") <==> r.isAbsent == Some(true))
  {
    var maxMarks :=
      if r.entryMaxMarks.Some? then Number(r.entryMaxMarks.value)
      else if r.ruleMaxMarks.Some? then Number(r.ruleMaxMarks.value)
      else Text("");
    var na := NotApplicable(r);
    var marksValue := if na then Text("NA") else if r.marksObtained.Some? then Number(r.marksObtained.value) else Text("");
    var absentValue := if na then Text("") else if r.isAbsent == Some(true) then Text("true") else Text("false");
    [Text(r.examName), Text(r.className), Text(r.subjectName), Text(r.admissionNo),
     Text(r.firstName), Text(r.lastName), maxMarks, marksValue, absentValue]
  }

  /** A missing enrollment row (null is_enrolled) never makes a row
      not-applicable, even for an optional subject. */
  lemma MissingEnrollmentIsApplicable(r: MarksExportRow)
    requires r.isEnrolled.None?
    ensures MarksExportCells(r)[7] != Text("NA")
    ensures MarksExportCells(r)[8] != Text("")
  {
  }

  /** exportMarks after the query: the CSV text of the mapped rows. */
  method ExportMarks(rows: seq<MarksExportRow>, numberText: real -> string) returns (csv: string)
    ensures csv == Join(Lines(MarksExportHeaders,
                              seq(|rows|, i requires 0 <= i < |rows| => MarksExportCells(rows[i])),
                              numberText), "\n")
  {
    csv := ToCsv(MarksExportHeaders, seq(|rows|, i requires 0 <= i < |rows| => MarksExportCells(rows[i])), numberText);
  }
}
