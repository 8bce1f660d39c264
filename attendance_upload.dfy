/** The attendance sheet of client/src/pages/AttendancePage.tsx: the entries
    held for the loaded class, the CSV upload that classifies each record
    and merges the accepted ones, "Mark All Present" and the header
    statistics. The CSV text is given already parsed into records (module
    Csv); the session save and the export download are network calls. */
module AttendanceUpload {
  import opened Common
  import opened Roster
  import Csv

  datatype Status = Present | Absent | Late | Excused

  function StatusText(s: Status): string {
    match s
    case Present => "present"
    case Absent => "absent"
    case Late => "late"
    case Excused => "excused"
  }

  /** The includes test of the upload loop: one of the four words, exactly. */
  function ParseStatus(raw: string): (r: Option<Status>)
    ensures r.Some? ==> StatusText(r.value) == raw
    ensures r.None? ==> forall s: Status :: StatusText(s) != raw
  {
    if raw == "present" then Some(Present)
    else if raw == "absent" then Some(Absent)
    else if raw == "late" then Some(Late)
    else if raw == "excused" then Some(Excused)
    else None
  }

  /** Every status word reads back as itself. */
  lemma ParseStatusText(s: Status)
    ensures ParseStatus(StatusText(s)) == Some(s)
  {
  }

  datatype Entry = Entry(studentId: nat, status: Status, reason: string)

  /** The partial entry an accepted row stores: `{ status, reason }`. */
  datatype Update = Update(status: Status, reason: string)

  /** The messages of the import summary. */
  datatype UploadError =
    | NoDataRows
    | StudentNotFound(row: nat)
    | InvalidStatus(row: nat, raw: string)

  function Message(e: UploadError): string {
    match e
    case NoDataRows => "No data rows found in CSV."
    case StudentNotFound(row) => "Row " + NatToString(row) + ": Student not found (admission_no/roll_no)."
    case InvalidStatus(row, raw) =>
      "Row " + NatToString(row) + ": Invalid status \"" + (if |raw| == 0 then "--" else raw) + "\"."
  }

  const AdmissionKeys: seq<string> := ["admission_no", "admission", "admissionnumber"]
  const RollKeys: seq<string> := ["roll_no", "roll", "rollnumber"]
  const StatusKeys: seq<string> := ["status", "attendance", "state"]
  const ReasonKeys: seq<string> := ["reason", "remarks", "note"]

  /** What one record does: it updates one student's entry, or it is
      skipped with an error. */
  datatype Outcome = Applied(studentId: nat, update: Update) | Skipped(error: UploadError)

  function RowStudent(students: seq<Student>, row: map<string, string>): Option<Student> {
    FindStudent(students, Csv.GetCsvValue(row, AdmissionKeys), Csv.GetCsvValue(row, RollKeys))
  }

  function RowStatusText(row: map<string, string>): string {
    Lower(Csv.GetCsvValue(row, StatusKeys))
  }

  /** The body of the forEach for the record at index. */
  function ClassifyRow(students: seq<Student>, row: map<string, string>, index: nat): (o: Outcome)
    ensures RowStudent(students, row).None? ==> o == Skipped(StudentNotFound(index + 2))
    ensures RowStudent(students, row).Some? && ParseStatus(RowStatusText(row)).None? ==>
      o == Skipped(InvalidStatus(index + 2, RowStatusText(row)))
    ensures RowStudent(students, row).Some? && ParseStatus(RowStatusText(row)).Some? ==>
      o == Applied(RowStudent(students, row).value.id,
                   Update(ParseStatus(RowStatusText(row)).value, Csv.GetCsvValue(row, ReasonKeys)))
    ensures o.Applied? ==>
      && RowStudent(students, row).Some?
      && o.studentId == RowStudent(students, row).value.id
      && StatusText(o.update.status) == RowStatusText(row)
      && o.update.reason == Csv.GetCsvValue(row, ReasonKeys)
  {
    var student := RowStudent(students, row);
    if student.None? then Skipped(StudentNotFound(index + 2))
    else
      var status := ParseStatus(RowStatusText(row));
      if status.None? then Skipped(InvalidStatus(index + 2, RowStatusText(row)))
      else Applied(student.value.id, Update(status.value, Csv.GetCsvValue(row, ReasonKeys)))
  }

  /** The counters, the error list and the updates map of the loop. */
  datatype Tally = Tally(applied: nat, skipped: nat, errors: seq<UploadError>, updates: map<nat, Update>)

  function Record(t: Tally, o: Outcome): Tally {
    match o
    case Applied(id, u) => t.(applied := t.applied + 1, updates := t.updates[id := u])
    case Skipped(e) => t.(skipped := t.skipped + 1, errors := t.errors + [e])
  }

  /** The outcome of every record, in order. */
  function Outcomes(students: seq<Student>, rows: seq<map<string, string>>): (os: seq<Outcome>)
    ensures |os| == |rows|
    ensures forall k :: 0 <= k < |rows| ==> os[k] == ClassifyRow(students, rows[k], k)
  {
    seq(|rows|, k requires 0 <= k < |rows| => ClassifyRow(students, rows[k], k))
  }

  /** The state after the loop has recorded the outcomes in order. */
  function TallyOf(os: seq<Outcome>): (t: Tally)
    ensures t.applied + t.skipped == |os|
    ensures |t.errors| == t.skipped
    ensures forall e :: e in t.errors <==> Skipped(e) in os
    ensures forall id :: id in t.updates <==> exists k :: 0 <= k < |os| && os[k].Applied? && os[k].studentId == id
  {
    if os == [] then Tally(0, 0, [], map[])
    else
      var n := |os| - 1;
      assert forall k :: 0 <= k < n ==> os[..n][k] == os[k];
      Record(TallyOf(os[..n]), os[n])
  }

  /** A later record for the same student overrides an earlier one: the
      update kept is that of the last accepted record for the student. */
  lemma {:induction false} LastUpdateWins(os: seq<Outcome>, k: nat)
    requires k < |os| && os[k].Applied?
    requires forall j :: k < j < |os| ==> !(os[j].Applied? && os[j].studentId == os[k].studentId)
    ensures os[k].studentId in TallyOf(os).updates && TallyOf(os).updates[os[k].studentId] == os[k].update
    decreases |os|
  {
    var n := |os| - 1;
    var prev := TallyOf(os[..n]);
    assert TallyOf(os) == Record(prev, os[n]);
    if k < n {
      assert os[..n][k] == os[k];
      assert forall j :: k < j < n ==> os[..n][j] == os[j];
      LastUpdateWins(os[..n], k);
      assert !(os[n].Applied? && os[n].studentId == os[k].studentId);
    }
  }

  /** The merge of the updates into the entries: an entry with an update
      takes its status and reason, every other entry stays as it was. */
  function Merge(entries: seq<Entry>, updates: map<nat, Update>): (r: seq<Entry>)
    ensures |r| == |entries|
    ensures forall i :: 0 <= i < |r| ==> r[i].studentId == entries[i].studentId
    ensures forall i :: 0 <= i < |r| && entries[i].studentId !in updates ==> r[i] == entries[i]
    ensures forall i :: 0 <= i < |r| && entries[i].studentId in updates ==>
      r[i].status == updates[entries[i].studentId].status && r[i].reason == updates[entries[i].studentId].reason
  {
    seq(|entries|, i requires 0 <= i < |entries| =>
      var e := entries[i];
      if e.studentId in updates then Entry(e.studentId, updates[e.studentId].status, updates[e.studentId].reason) else e)
  }

  /** Merging no updates changes nothing. */
  lemma MergeNothing(entries: seq<Entry>)
    ensures Merge(entries, map[]) == entries
  {
  }

  /** The status counts the page header shows. */
  function CountStatus(entries: seq<Entry>, s: Status): (n: nat)
    ensures n <= |entries|
  {
    if entries == [] then 0
    else CountStatus(entries[..|entries| - 1], s) + (if entries[|entries| - 1].status == s then 1 else 0)
  }

  datatype Stats = Stats(total: nat, marked: nat, absentees: nat, late: nat)

  /** The stats memo. */
  function StatsOf(students: seq<Student>, entries: seq<Entry>): (r: Stats)
    ensures r.total == |students| && r.marked == |entries|
    ensures r.absentees <= r.marked && r.late <= r.marked
  {
    Stats(|students|, |entries|, CountStatus(entries, Absent), CountStatus(entries, Late))
  }

  /** No entry is both absent and late, so the two counts fit in the marked one. */
  lemma {:induction false} AbsentAndLateWithinMarked(entries: seq<Entry>)
    ensures CountStatus(entries, Absent) + CountStatus(entries, Late) <= |entries|
    decreases |entries|
  {
    if entries != [] {
      AbsentAndLateWithinMarked(entries[..|entries| - 1]);
    }
  }

  lemma StatsBound(students: seq<Student>, entries: seq<Entry>)
    ensures var st := StatsOf(students, entries); st.absentees + st.late <= st.marked
  {
    AbsentAndLateWithinMarked(entries);
  }

  /** The sheet for the loaded class: the students and their entries. */
  class AttendanceSheet {
    var students: seq<Student>
    var entries: seq<Entry>

    /** Loading a class: every student present with an empty reason. */
    constructor Load(roster: seq<Student>)
      ensures students == roster
      ensures |entries| == |roster|
      ensures forall i :: 0 <= i < |entries| ==> entries[i] == Entry(roster[i].id, Present, "")
    {
      students := roster;
      entries := seq(|roster|, i requires 0 <= i < |roster| => Entry(roster[i].id, Present, ""));
    }

    /** "Mark All Present": every status present, every reason empty, the
        same students in the same order. */
    method MarkAllPresent()
      modifies this
      ensures students == old(students)
      ensures |entries| == |old(entries)|
      ensures forall i :: 0 <= i < |entries| ==> entries[i] == Entry(old(entries)[i].studentId, Present, "")
      ensures StatsOf(students, entries).absentees == 0 && StatsOf(students, entries).late == 0
    {
      var prev := entries;
      entries := seq(|prev|, i requires 0 <= i < |prev| => Entry(prev[i].studentId, Present, ""));
      NoneAbsentOrLate(entries);
    }

    /** handleCsvUpload after parsing: an empty file leaves the entries alone
        and reports one error; otherwise every record is classified in order
        and the accepted updates are merged. */
    method HandleCsvUpload(rows: seq<map<string, string>>) returns (applied: nat, skipped: nat, errors: seq<UploadError>)
      modifies this
      ensures students == old(students)
      ensures rows == [] ==> applied == 0 && skipped == 0 && errors == [NoDataRows] && entries == old(entries)
      ensures rows != [] ==>
        var t := TallyOf(Outcomes(students, rows));
        && applied == t.applied && skipped == t.skipped && errors == t.errors
        && entries == Merge(old(entries), t.updates)
      ensures rows != [] ==> applied + skipped == |rows|
    {
      if rows == [] {
        return 0, 0, [NoDataRows];
      }
      var updates;
      applied, skipped, errors, updates := RunRows(Outcomes(students, rows));
      entries := Merge(entries, updates);
    }
  }

  /** The forEach over the records, given the outcome of each: each
      outcome bumps one counter, and an accepted record sets its student's
      update. */
  method RunRows(os: seq<Outcome>)
    returns (applied: nat, skipped: nat, errors: seq<UploadError>, updates: map<nat, Update>)
    ensures Tally(applied, skipped, errors, updates) == TallyOf(os)
  {
    updates := map[];
    applied, skipped, errors := 0, 0, [];
    for index := 0 to |os|
      invariant Tally(applied, skipped, errors, updates) == TallyOf(os[..index])
    {
      assert os[..index + 1][..index] == os[..index];
      match os[index]
      case Applied(id, u) =>
        updates := updates[id := u];
        applied := applied + 1;
      case Skipped(e) =>
        skipped := skipped + 1;
        errors := errors + [e];
    }
    assert os[..|os|] == os;
  }

  lemma {:induction false} NoneAbsentOrLate(entries: seq<Entry>)
    requires forall i :: 0 <= i < |entries| ==> entries[i].status == Present
    ensures CountStatus(entries, Absent) == 0 && CountStatus(entries, Late) == 0
    decreases |entries|
  {
    if entries != [] {
      NoneAbsentOrLate(entries[..|entries| - 1]);
    }
  }
}
