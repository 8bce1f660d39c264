/** The CSV reader of client/src/utils/csv.ts: a character loop with the
    state inQuotes/field/row/rows, the header normalisation, the record
    builder and the two cell readers getCsvValue and parseCsvBoolean. */
module Csv {
  import opened Common
  import Exports

  // ---------------------------------------------------------------------
  // normalizeHeader
  // ---------------------------------------------------------------------

  predicate IsLowerAlnum(c: char) {
    'a' <= c <= 'z' || '0' <= c <= '9'
  }

  predicate IsHeaderChar(c: char) {
    IsLowerAlnum(c) || c == '_'
  }

  /** No two consecutive underscores. */
  predicate NoDoubleUnderscore(s: string) {
    forall i :: 0 <= i < |s| - 1 ==> !(s[i] == '_' && s[i + 1] == '_')
  }

  /** `.replace(/[^a-z0-9]+/g, "_")`: every maximal run of other characters
      becomes one underscore. */
  function CollapseRuns(s: string): (r: string)
    ensures forall i :: 0 <= i < |r| ==> IsHeaderChar(r[i])
    ensures NoDoubleUnderscore(r)
    ensures (|r| > 0 && r[|r| - 1] == '_') <==> (|s| > 0 && !IsLowerAlnum(s[|s| - 1]))
  {
    if s == [] then []
    else
      var p := CollapseRuns(s[..|s| - 1]);
      var c := s[|s| - 1];
      if IsLowerAlnum(c) then p + [c]
      else if |p| > 0 && p[|p| - 1] == '_' then p
      else p + ['_']
  }

  /** The letters and digits of s, in order. */
  function Alnums(s: string): string {
    if s == [] then []
    else Alnums(s[..|s| - 1]) + (if IsLowerAlnum(s[|s| - 1]) then [s[|s| - 1]] else [])
  }

  lemma AlnumsSnoc(s: string, c: char)
    ensures Alnums(s + [c]) == Alnums(s) + (if IsLowerAlnum(c) then [c] else [])
  {
    assert (s + [c])[..|s|] == s;
  }

  /** The letters and digits survive the collapse, in order. */
  lemma {:induction false} CollapseRunsKeepsAlnum(s: string)
    ensures Alnums(CollapseRuns(s)) == Alnums(s)
  {
    if s != [] {
      var init := s[..|s| - 1];
      var c := s[|s| - 1];
      CollapseRunsKeepsAlnum(init);
      var p := CollapseRuns(init);
      if IsLowerAlnum(c) {
        AlnumsSnoc(p, c);
      } else if !(|p| > 0 && p[|p| - 1] == '_') {
        AlnumsSnoc(p, '_');
      }
    }
  }

  /** The index of the first character at or after i that is not '_'. */
  function SkipUnderscores(s: string, i: nat): (j: nat)
    requires i <= |s|
    ensures i <= j <= |s|
    ensures forall k :: i <= k < j ==> s[k] == '_'
    ensures j == |s| || s[j] != '_'
    decreases |s| - i
  {
    if i < |s| && s[i] == '_' then SkipUnderscores(s, i + 1) else i
  }

  /** The end of s[lo..j] once trailing underscores are dropped. */
  function DropTrailingUnderscores(s: string, lo: nat, j: nat): (e: nat)
    requires lo <= j <= |s|
    ensures lo <= e <= j
    ensures forall k :: e <= k < j ==> s[k] == '_'
    ensures e == lo || s[e - 1] != '_'
  {
    if lo < j && s[j - 1] == '_' then DropTrailingUnderscores(s, lo, j - 1) else j
  }

  /** `.replace(/^_+|_+$/g, "")` */
  function StripUnderscores(s: string): (r: string)
    ensures r == [] || (r[0] != '_' && r[|r| - 1] != '_')
    ensures forall i :: 0 <= i < |r| ==> r[i] in s
    ensures NoDoubleUnderscore(s) ==> NoDoubleUnderscore(r)
  {
    var start := SkipUnderscores(s, 0);
    var end := DropTrailingUnderscores(s, start, |s|);
    assert forall i :: 0 <= i < end - start ==> s[start..end][i] == s[start + i];
    s[start..end]
  }

  /** normalizeHeader: only [a-z0-9_], no underscore at either end and
      never two in a row. */
  function NormalizeHeader(header: string): (r: string)
    ensures forall i :: 0 <= i < |r| ==> IsHeaderChar(r[i])
    ensures r == [] || (r[0] != '_' && r[|r| - 1] != '_')
    ensures NoDoubleUnderscore(r)
  {
    StripUnderscores(CollapseRuns(Lower(Trim(header))))
  }

  // ---------------------------------------------------------------------
  // pushRow
  // ---------------------------------------------------------------------

  /** Every cell is empty after trim. */
  predicate BlankRow(row: seq<string>) {
    forall i :: 0 <= i < |row| ==> IsBlank(row[i])
  }

  /** `row.some((cell) => cell.trim() !== "")` */
  predicate SomeCellFilled(row: seq<string>) {
    row != [] && (|Trim(row[0])| != 0 || SomeCellFilled(row[1..]))
  }

  lemma {:induction false} SomeCellFilledIffNotBlank(row: seq<string>)
    ensures SomeCellFilled(row) <==> !BlankRow(row)
  {
    if row != [] {
      TrimEmptyIffBlank(row[0]);
      SomeCellFilledIffNotBlank(row[1..]);
      assert forall i :: 1 <= i < |row| ==> row[1..][i - 1] == row[i];
    }
  }

  /** pushRow: a row is kept when some cell is not blank. */
  function PushRow(rows: seq<seq<string>>, row: seq<string>): seq<seq<string>> {
    if |row| == 1 && |row[0]| == 0 then rows
    else if !SomeCellFilled(row) then rows
    else rows + [row]
  }

  /** A row is kept exactly when not all its cells are blank. */
  lemma PushRowKeepsFilled(rows: seq<seq<string>>, row: seq<string>)
    ensures PushRow(rows, row) == if BlankRow(row) then rows else rows + [row]
  {
    SomeCellFilledIffNotBlank(row);
    if |row| == 1 && |row[0]| == 0 {
      TrimEmptyIffBlank(row[0]);
    }
  }

  // ---------------------------------------------------------------------
  // The character loop of parseCsv
  // ---------------------------------------------------------------------

  datatype ScanState = ScanState(rows: seq<seq<string>>, row: seq<string>, field: string, inQuotes: bool)

  const Start := ScanState([], [], "", false)

  /** One pass of the loop body at index i: the next index and state. */
  function Step(text: string, i: nat, s: ScanState): (r: (nat, ScanState))
    requires i < |text|
    ensures i < r.0 <= |text|
  {
    var c := text[i];
    var nextIsQuote := i + 1 < |text| && text[i + 1] == '"';
    if s.inQuotes then
      if c == '"' then
        if nextIsQuote then (i + 2, s.(field := s.field + ['"']))
        else (i + 1, s.(inQuotes := false))
      else (i + 1, s.(field := s.field + [c]))
    else if c == '"' then (i + 1, s.(inQuotes := true))
    else if c == ',' then (i + 1, s.(row := s.row + [s.field], field := ""))
    else if c == '\n' || c == '\r' then
      var j := if c == '\r' && i + 1 < |text| && text[i + 1] == '\n' then i + 2 else i + 1;
      (j, s.(rows := PushRow(s.rows, s.row + [s.field]), row := [], field := ""))
    else (i + 1, s.(field := s.field + [c]))
  }

  /** The loop from index i in state s to the end of the text. */
  function Scan(text: string, i: nat, s: ScanState): ScanState
    requires i <= |text|
    decreases |text| - i
  {
    if i == |text| then s
    else
      var (j, t) := Step(text, i, s);
      Scan(text, j, t)
  }

  /** After the loop: the last field and row are pushed. */
  function Finish(s: ScanState): seq<seq<string>> {
    PushRow(s.rows, s.row + [s.field])
  }

  /** The byte-order mark U+FEFF. */
  const Bom: char := '\U{FEFF}'

  /** `text.replace(/^\uFEFF/, "")`: one leading byte-order mark goes. */
  function Clean(text: string): (r: string)
    ensures |text| > 0 && text[0] == Bom ==> r == text[1..]
    ensures (|text| == 0 || text[0] != Bom) ==> r == text
  {
    if |text| > 0 && text[0] == Bom then text[1..] else text
  }

  /** Outside quotes a line feed, a carriage return or the pair CR LF ends
      exactly one row: the row with its last field is pushed, and the pair
      is consumed as one break. */
  lemma LineBreakEndsOneRow(text: string, i: nat, s: ScanState)
    requires i < |text| && !s.inQuotes && (text[i] == '\n' || text[i] == '\r')
    ensures Step(text, i, s).1 == ScanState(PushRow(s.rows, s.row + [s.field]), [], "", false)
    ensures Step(text, i, s).0 == if text[i] == '\r' && i + 1 < |text| && text[i + 1] == '\n' then i + 2 else i + 1
  {
  }

  /** No kept row is blank: the loop keeps this for every state it starts
      from, and so does the final push. */
  lemma {:induction false} KeptRowsNotBlank(text: string, i: nat, s: ScanState)
    requires i <= |text|
    requires forall k :: 0 <= k < |s.rows| ==> !BlankRow(s.rows[k])
    ensures var rows := Finish(Scan(text, i, s));
      forall k :: 0 <= k < |rows| ==> !BlankRow(rows[k])
    decreases |text| - i
  {
    if i < |text| {
      var (j, t) := Step(text, i, s);
      PushRowKeepsFilled(s.rows, s.row + [s.field]);
      assert forall k :: 0 <= k < |t.rows| ==> !BlankRow(t.rows[k]);
      KeptRowsNotBlank(text, j, t);
      assert Scan(text, i, s) == Scan(text, j, t);
    } else {
      PushRowKeepsFilled(s.rows, s.row + [s.field]);
    }
  }

  // ---------------------------------------------------------------------
  // Reading an escaped field back
  // ---------------------------------------------------------------------

  predicate IsPlain(c: char) {
    c != '"' && c != ',' && c != '\n' && c != '\r'
  }

  /** Outside quotes, ordinary characters are appended to the field. */
  lemma {:induction false} ScanPlain(text: string, i: nat, j: nat, s: ScanState)
    requires i <= j <= |text| && !s.inQuotes
    requires forall k :: i <= k < j ==> IsPlain(text[k])
    ensures Scan(text, i, s) == Scan(text, j, s.(field := s.field + text[i..j]))
    decreases j - i
  {
    if i < j {
      var t := s.(field := s.field + [text[i]]);
      assert Step(text, i, s) == (i + 1, t);
      ScanPlain(text, i + 1, j, t);
      assert t.field + text[i + 1..j] == s.field + text[i..j];
    } else {
      assert s.(field := s.field + text[i..j]) == s;
    }
  }

  /** text holds d at index i. */
  predicate HoldsAt(text: string, i: nat, d: string) {
    i + |d| <= |text| && forall k :: 0 <= k < |d| ==> text[i + k] == d[k]
  }

  /** The width of the first character of v once quotes are doubled. */
  function QuotedWidth(v: string): nat
    requires v != []
  {
    if v[0] == '"' then 2 else 1
  }

  /** text holds a + b at i exactly when it holds a at i and b right after. */
  lemma HoldsAtConcat(text: string, i: nat, a: string, b: string)
    requires HoldsAt(text, i, a + b)
    ensures HoldsAt(text, i, a) && HoldsAt(text, i + |a|, b)
  {
    forall k | 0 <= k < |b|
      ensures text[i + |a| + k] == b[k]
    {
      assert (a + b)[|a| + k] == b[k];
    }
    forall k | 0 <= k < |a|
      ensures text[i + k] == a[k]
    {
      assert (a + b)[k] == a[k];
    }
  }

  lemma DoubleQuotesFirst(text: string, i: nat, v: string)
    requires v != [] && HoldsAt(text, i, Exports.DoubleQuotes(v))
    ensures HoldsAt(text, i + QuotedWidth(v), Exports.DoubleQuotes(v[1..]))
    ensures text[i] == v[0]
    ensures v[0] == '"' ==> i + 1 < |text| && text[i + 1] == '"'
    ensures |Exports.DoubleQuotes(v)| == QuotedWidth(v) + |Exports.DoubleQuotes(v[1..])|
  {
    var head: string := if v[0] == '"' then "\"\"" else [v[0]];
    assert Exports.DoubleQuotes(v) == head + Exports.DoubleQuotes(v[1..]);
    HoldsAtConcat(text, i, head, Exports.DoubleQuotes(v[1..]));
    assert text[i + 0] == head[0];
    if v[0] == '"' {
      assert text[i + 1] == head[1];
    }
  }

  /** Inside quotes, one character of a doubled-quote body: a doubled
      quote yields one quote, any other character is kept literally. */
  lemma QuotedStep(text: string, i: nat, v: string, s: ScanState)
    requires s.inQuotes && v != [] && i < |text| && text[i] == v[0]
    requires v[0] == '"' ==> i + 1 < |text| && text[i + 1] == '"'
    ensures i + QuotedWidth(v) <= |text|
    ensures Scan(text, i, s) == Scan(text, i + QuotedWidth(v), s.(field := s.field + [v[0]]))
  {
    assert Step(text, i, s) == (i + QuotedWidth(v), s.(field := s.field + [v[0]]));
  }

  /** Inside quotes, a doubled quote yields one quote and every other
      character, comma and line break included, is kept literally. */
  lemma {:induction false} ScanQuotedBody(text: string, i: nat, v: string, s: ScanState)
    requires s.inQuotes
    requires HoldsAt(text, i, Exports.DoubleQuotes(v))
    ensures Scan(text, i, s) == Scan(text, i + |Exports.DoubleQuotes(v)|, s.(field := s.field + v))
    decreases |v|
  {
    if v == [] {
      assert s.(field := s.field + v) == s;
    } else {
      var t := s.(field := s.field + [v[0]]);
      var j := i + QuotedWidth(v);
      assert j <= |text| && Scan(text, i, s) == Scan(text, j, t)
          && HoldsAt(text, j, Exports.DoubleQuotes(v[1..]))
          && |Exports.DoubleQuotes(v)| == QuotedWidth(v) + |Exports.DoubleQuotes(v[1..])| by {
        DoubleQuotesFirst(text, i, v);
        QuotedStep(text, i, v, s);
      }
      ScanQuotedBody(text, j, v[1..], t);
      assert t.(field := t.field + v[1..]) == s.(field := s.field + v) by {
        assert t.field + v[1..] == s.field + v;
      }
    }
  }

  /** Reading back a cell written by the export escaper: after the cell,
      the field holds exactly the original text and the scan is outside
      quotes. The cell must be followed by the end of the text or by a
      character that is not a quote (a comma or a line feed in a CSV line),
      and a carriage return is only safe inside quotes. */
  lemma EscapedFieldRoundTrip(v: string, rest: string, s: ScanState, numberText: real -> string)
    requires !s.inQuotes
    requires Exports.NeedsQuoting(v) || '\r' !in v
    requires rest == [] || rest[0] != '"'
    ensures var e := Exports.EscapeCsv(Exports.Text(v), numberText);
      Scan(e + rest, 0, s) == Scan(e + rest, |e|, s.(field := s.field + v))
  {
    var e := Exports.EscapeCsv(Exports.Text(v), numberText);
    var text := e + rest;
    if Exports.NeedsQuoting(v) {
      var d := Exports.DoubleQuotes(v);
      assert e == "\"" + d + "\"";
      var open := s.(inQuotes := true);
      assert Step(text, 0, s) == (1, open);
      assert HoldsAt(text, 1, d) by {
        forall k | 0 <= k < |d|
          ensures text[1 + k] == d[k]
        {
          assert e[1 + k] == d[k];
        }
      }
      ScanQuotedBody(text, 1, v, open);
      var closing := 1 + |d|;
      assert text[closing] == '"';
      assert closing + 1 == |e|;
      assert Step(text, closing, open.(field := s.field + v)) == (|e|, s.(field := s.field + v));
    } else {
      assert e == v;
      assert forall k :: 0 <= k < |v| ==> v[k] in v;
      ScanPlain(text, 0, |v|, s);
      assert text[0..|v|] == v;
    }
  }

  // ---------------------------------------------------------------------
  // Records
  // ---------------------------------------------------------------------

  /** `values[index] ?? ""` */
  function CellAt(values: seq<string>, index: nat): string {
    if index < |values| then values[index] else ""
  }

  /** No later header repeats the one at index i. */
  predicate LastAt(headers: seq<string>, i: nat)
    requires i < |headers|
  {
    forall j :: i < j < |headers| ==> headers[j] != headers[i]
  }

  /** Keys paired with values by index, left to right: a repeated key
      keeps the value of its last index. */
  function Assign<K, V>(keys: seq<K>, vals: seq<V>): map<K, V>
    requires |keys| <= |vals|
  {
    if keys == [] then map[]
    else
      var n := |keys| - 1;
      Assign(keys[..n], vals)[keys[n] := vals[n]]
  }

  /** The trimmed cells at indices 0 .. count - 1. */
  function Cells(values: seq<string>, count: nat): seq<string> {
    seq(count, i requires 0 <= i < count => Trim(CellAt(values, i)))
  }

  /** The forEach over the headers: each header gets the trimmed cell at
      its index; a repeated header keeps its last cell. */
  function Record(headers: seq<string>, values: seq<string>): map<string, string> {
    Assign(headers, Cells(values, |headers|))
  }

  lemma {:induction false} AssignKeys<K, V>(keys: seq<K>, vals: seq<V>)
    requires |keys| <= |vals|
    ensures forall k :: k in Assign(keys, vals) <==> k in keys
  {
    if keys != [] {
      var n := |keys| - 1;
      AssignKeys(keys[..n], vals);
      assert keys == keys[..n] + [keys[n]];
    }
  }

  lemma {:induction false} AssignValueAt<K, V>(keys: seq<K>, vals: seq<V>, i: nat)
    requires |keys| <= |vals| && i < |keys|
    requires forall j :: i < j < |keys| ==> keys[j] != keys[i]
    ensures keys[i] in Assign(keys, vals) && Assign(keys, vals)[keys[i]] == vals[i]
  {
    var n := |keys| - 1;
    if i < n {
      var init := keys[..n];
      assert init[i] == keys[i];
      AssignValueAt(init, vals, i);
    }
  }

  lemma {:induction false} AssignValueFrom<K, V>(keys: seq<K>, vals: seq<V>, k: K)
    requires |keys| <= |vals| && k in Assign(keys, vals)
    ensures exists j :: 0 <= j < |keys| && Assign(keys, vals)[k] == vals[j]
  {
    var n := |keys| - 1;
    if k != keys[n] {
      AssignValueFrom(keys[..n], vals, k);
    }
  }

  /** A record has exactly the header keys. */
  lemma RecordKeys(headers: seq<string>, values: seq<string>)
    ensures forall k :: k in Record(headers, values) <==> k in headers
  {
    AssignKeys(headers, Cells(values, |headers|));
  }

  /** A header's value is the trimmed cell at its last index. */
  lemma RecordValueAt(headers: seq<string>, values: seq<string>, i: nat)
    requires i < |headers| && LastAt(headers, i)
    ensures headers[i] in Record(headers, values)
    ensures Record(headers, values)[headers[i]] == Trim(CellAt(values, i))
  {
    AssignValueAt(headers, Cells(values, |headers|), i);
  }

  /** The normalised header row. */
  function Headers(first: seq<string>): (r: seq<string>)
    ensures |r| == |first|
    ensures forall j :: 0 <= j < |r| ==> r[j] == NormalizeHeader(first[j])
  {
    seq(|first|, j requires 0 <= j < |first| => NormalizeHeader(first[j]))
  }

  /** The records: none without a kept row, otherwise the first kept row
      (normalised) is the header and every later row is a record with
      exactly the header keys. */
  function Records(rows: seq<seq<string>>): (r: seq<map<string, string>>)
    ensures rows == [] ==> r == []
    ensures rows != [] ==> |r| == |rows| - 1
    ensures rows != [] ==> forall i :: 0 <= i < |r| ==> r[i] == Record(Headers(rows[0]), rows[i + 1])
  {
    if rows == [] then [] else RecordsOf(Headers(rows[0]), rows[1..])
  }

  /** One record per body row, all over the same headers. */
  function RecordsOf(headers: seq<string>, body: seq<seq<string>>): (r: seq<map<string, string>>)
    ensures |r| == |body|
    ensures forall i :: 0 <= i < |body| ==> r[i] == Record(headers, body[i])
  {
    if body == [] then []
    else RecordsOf(headers, body[..|body| - 1]) + [Record(headers, body[|body| - 1])]
  }

  /** Every record has exactly the normalised header keys, and every value
      is the trimmed cell under the last column of that header (empty for
      a missing cell). */
  lemma RecordsShape(rows: seq<seq<string>>, i: nat)
    requires rows != [] && i < |rows| - 1
    ensures var rec := Records(rows)[i];
      && (forall k :: k in rec <==> k in Headers(rows[0]))
      && (forall j :: 0 <= j < |rows[0]| && LastAt(Headers(rows[0]), j) ==>
            rec[Headers(rows[0])[j]] == Trim(CellAt(rows[i + 1], j)))
  {
    var headers := Headers(rows[0]);
    var rec := Records(rows)[i];
    assert rec == Record(headers, rows[i + 1]);
    RecordKeys(headers, rows[i + 1]);
    forall j | 0 <= j < |rows[0]| && LastAt(headers, j)
      ensures rec[headers[j]] == Trim(CellAt(rows[i + 1], j))
    {
      RecordValueAt(headers, rows[i + 1], j);
    }
  }

  /** parseCsv as a function of the text. */
  function ParseCsvSpec(text: string): seq<map<string, string>> {
    Records(Finish(Scan(Clean(text), 0, Start)))
  }

  /** Every value of every record is trimmed. */
  lemma RecordValuesTrimmed(text: string, i: nat, k: string)
    requires i < |ParseCsvSpec(text)| && k in ParseCsvSpec(text)[i]
    ensures Trimmed(ParseCsvSpec(text)[i][k])
  {
    var rows := Finish(Scan(Clean(text), 0, Start));
    RecordTrimmed(Headers(rows[0]), rows[i + 1], k);
  }

  lemma RecordTrimmed(headers: seq<string>, values: seq<string>, k: string)
    requires k in Record(headers, values)
    ensures Trimmed(Record(headers, values)[k])
  {
    var cells := Cells(values, |headers|);
    AssignValueFrom(headers, cells, k);
    var j :| 0 <= j < |headers| && Record(headers, values)[k] == cells[j];
    assert cells[j] == Trim(CellAt(values, j));
  }

  /** The record builder of parseCsv. */
  method BuildRecord(headers: seq<string>, values: seq<string>) returns (record: map<string, string>)
    ensures record == Record(headers, values)
  {
    ghost var cells := Cells(values, |headers|);
    record := map[];
    for index := 0 to |headers|
      invariant record == Assign(headers[..index], cells)
    {
      assert headers[..index + 1][..index] == headers[..index];
      var value := if index < |values| then values[index] else "";
      assert Trim(value) == cells[index];
      record := record[headers[index] := Trim(value)];
    }
    assert headers[..|headers|] == headers;
  }

  /** The character loop of parseCsv and the final push: the kept rows. */
  method ScanRows(clean: string) returns (rows: seq<seq<string>>)
    ensures rows == Finish(Scan(clean, 0, Start))
  {
    rows := [];
    var row: seq<string> := [];
    var field := "";
    var inQuotes := false;
    var i := 0;
    while i < |clean|
      invariant i <= |clean|
      invariant Scan(clean, i, ScanState(rows, row, field, inQuotes)) == Scan(clean, 0, Start)
      decreases |clean| - i
    {
      ghost var before := ScanState(rows, row, field, inQuotes);
      ghost var i0 := i;
      var c := clean[i];
      if inQuotes {
        if c == '"' {
          if i + 1 < |clean| && clean[i + 1] == '"' {
            field := field + ['"'];
            i := i + 1;
          } else {
            inQuotes := false;
          }
        } else {
          field := field + [c];
        }
      } else if c == '"' {
        inQuotes := true;
      } else if c == ',' {
        row := row + [field];
        field := "";
      } else if c == '\n' || c == '\r' {
        if c == '\r' && i + 1 < |clean| && clean[i + 1] == '\n' {
          i := i + 1;
        }
        row := row + [field];
        field := "";
        rows := PushRow(rows, row);
        row := [];
      } else {
        field := field + [c];
      }
      i := i + 1;
      assert (i, ScanState(rows, row, field, inQuotes)) == Step(clean, i0, before);
    }
    row := row + [field];
    rows := PushRow(rows, row);
  }

  /** parseCsv */
  method ParseCsv(text: string) returns (records: seq<map<string, string>>)
    ensures records == ParseCsvSpec(text)
  {
    var clean := if |text| > 0 && text[0] == Bom then text[1..] else text;
    var rows := ScanRows(clean);
    if |rows| == 0 {
      return [];
    }
    var headers := HeaderRow(rows[0]);
    records := RecordRows(headers, rows);
  }

  /** `rows[0].map(normalizeHeader)` */
  method HeaderRow(first: seq<string>) returns (headers: seq<string>)
    ensures headers == Headers(first)
  {
    headers := [];
    for j := 0 to |first|
      invariant headers == Headers(first)[..j]
    {
      headers := headers + [NormalizeHeader(first[j])];
    }
  }

  /** `rows.slice(1).map(...)`: one record per row after the header row. */
  method RecordRows(headers: seq<string>, rows: seq<seq<string>>) returns (records: seq<map<string, string>>)
    requires rows != [] && headers == Headers(rows[0])
    ensures records == Records(rows)
  {
    var body := rows[1..];
    records := [];
    for i := 0 to |body|
      invariant records == RecordsOf(headers, body[..i])
    {
      var record := BuildRecord(headers, body[i]);
      assert body[..i + 1][..i] == body[..i];
      records := records + [record];
    }
    assert body[..|body|] == body;
  }

  // ---------------------------------------------------------------------
  // Reading cells
  // ---------------------------------------------------------------------

  /** getCsvValue: the first non-empty value among the keys, else "". */
  function GetCsvValue(row: map<string, string>, keys: seq<string>): (r: string)
    ensures |r| == 0 <==> forall i :: 0 <= i < |keys| ==> keys[i] !in row || |row[keys[i]]| == 0
    ensures |r| != 0 ==> exists i ::
      (0 <= i < |keys| && keys[i] in row && row[keys[i]] == r &&
       forall j :: 0 <= j < i ==> keys[j] !in row || |row[keys[j]]| == 0)
  {
    if keys == [] then ""
    else if keys[0] in row && |row[keys[0]]| != 0 then row[keys[0]]
    else
      var r := GetCsvValue(row, keys[1..]);
      assert forall i :: 1 <= i < |keys| ==> keys[1..][i - 1] == keys[i];
      r
  }

  const TrueWords: seq<string> := ["true", "1", "yes", "y"]
  const FalseWords: seq<string> := ["false", "0", "no", "n"]

  /** parseCsvBoolean */
  function ParseCsvBoolean(value: string): (r: Option<bool>)
    ensures |value| == 0 ==> r.None?
    ensures r == Some(true) <==> |value| != 0 && Lower(Trim(value)) in TrueWords
    ensures r == Some(false) <==> |value| != 0 && Lower(Trim(value)) in FalseWords
    ensures r.None? <==> |value| == 0 || (Lower(Trim(value)) !in TrueWords && Lower(Trim(value)) !in FalseWords)
  {
    if |value| == 0 then None
    else
      var normalized := Lower(Trim(value));
      if normalized in TrueWords then Some(true)
      else if normalized in FalseWords then Some(false)
      else None
  }

  /** The reading ignores case. */
  lemma ParseCsvBooleanIgnoresCase(value: string)
    ensures ParseCsvBoolean(Upper(value)) == ParseCsvBoolean(value)
  {
    TrimUpper(value);
    LowerOfUpper(Trim(value));
  }

  /** The absent column of a marks export reads back as the row's flag. */
  lemma ExportedAbsentReadsBack(r: Exports.MarksExportRow)
    requires !Exports.NotApplicable(r)
    ensures Exports.MarksExportCells(r)[8].Text?
    ensures ParseCsvBoolean(Exports.MarksExportCells(r)[8].text) == Some(r.isAbsent == Some(true))
  {
    var cell := Exports.MarksExportCells(r)[8];
    if r.isAbsent == Some(true) {
      assert cell.text == "true";
      assert Lower(Trim("true")) == "true" by {
        TrimOfTrimmed("true");
      }
    } else {
      assert cell.text == "false";
      assert Lower(Trim("false")) == "false" by {
        TrimOfTrimmed("false");
      }
    }
  }

  /** parseCsvNumber: an empty cell is null, anything else is what
      `Number()` makes of it, null standing for NaN. `Number()` is the
      parameter number. */
  function ParseCsvNumber(value: string, number: string -> Option<real>): (r: Option<real>)
    ensures |value| == 0 ==> r.None?
    ensures |value| != 0 ==> r == number(value)
  {
    if |value| == 0 then None else number(value)
  }
}
