/** The student import of server/src/modules/data/data.service.ts
    (importStudentsFromCsv): each parsed CSV record is validated against
    the target class, then the valid rows are inserted or updated by
    admission number. */
module StudentImport {
  import opened Common

  // ---------------------------------------------------------------------
  // Normalisation
  // ---------------------------------------------------------------------

  /** normalizeSection: trimmed and upper-cased. */
  function NormalizeSection(value: string): (r: string)
    ensures |r| == |Trim(value)|
    ensures Trimmed(r)
  {
    Upper(Trim(value))
  }

  /** normalizeName: trimmed and lower-cased. */
  function NormalizeName(value: string): (r: string)
    ensures |r| == |Trim(value)|
    ensures Trimmed(r)
  {
    Lower(Trim(value))
  }

  /** Normalising twice gives what normalising once gives. */
  lemma NormalizeIdempotent(value: string)
    ensures NormalizeSection(NormalizeSection(value)) == NormalizeSection(value)
    ensures NormalizeName(NormalizeName(value)) == NormalizeName(value)
  {
    TrimOfTrimmed(NormalizeSection(value));
    TrimOfTrimmed(NormalizeName(value));
    CaseIdempotent(Trim(value));
  }

  // ---------------------------------------------------------------------
  // Reading a record
  // ---------------------------------------------------------------------

  /** A parsed CSV record: column name to cell; a missing column is undefined. */
  type RawRow = map<string, string>

  /** `String(row.key || "")` */
  function Cell(raw: RawRow, key: string): string {
    if key in raw then raw[key] else ""
  }

  /** `row.k1 || row.k2 || ...`: the first non-empty cell, else "". */
  function FirstCell(raw: RawRow, keys: seq<string>): (r: string)
    ensures |r| == 0 <==> forall i :: 0 <= i < |keys| ==> |Cell(raw, keys[i])| == 0
  {
    if keys == [] then ""
    else if |Cell(raw, keys[0])| != 0 then Cell(raw, keys[0])
    else
      var r := FirstCell(raw, keys[1..]);
      assert forall i :: 1 <= i < |keys| ==> keys[1..][i - 1] == keys[i];
      r
  }

  /** The values the row loop reads from a record. `Number()` is the
      parameter parseNumber, None standing for NaN. */
  datatype Fields = Fields(
    admissionNo: string, firstName: string, lastName: string, grade: Option<real>,
    section: string, className: string, rollNo: Option<real>, status: string)

  function ReadFields(raw: RawRow, parseNumber: string -> Option<real>): Fields {
    var gradeText := FirstCell(raw, ["class_grade", "grade"]);
    var rollText := Cell(raw, "roll_no");
    var status := Trim(Cell(raw, "status"));
    Fields(
      Trim(Cell(raw, "admission_no")),
      Trim(Cell(raw, "first_name")),
      Trim(Cell(raw, "last_name")),
      if |gradeText| == 0 then None else parseNumber(gradeText),
      NormalizeSection(Cell(raw, "section")),
      Trim(FirstCell(raw, ["class_name", "stream", "class"])),
      if |rollText| == 0 then None else parseNumber(rollText),
      if |status| == 0 then "active" else status)
  }

  /** The class the CSV is imported into. */
  datatype ClassInfo = ClassInfo(grade: nat, section: string, name: string)

  /** Why a record or a row was not imported. */
  datatype Problem =
    | ClassNotFound
    | MissingAdmissionNo
    | MissingName
    | InvalidGrade
    | MissingSection
    | ClassMismatch
    | StreamMismatch
    | InAnotherClass(admissionNo: string)

  /** An entry of the result's errors; its message is MessageOf(problem). */
  datatype ImportError = ImportError(row: nat, problem: Problem)

  /** The message text the service puts in each error. */
  function MessageOf(problem: Problem, cls: ClassInfo): string {
    match problem
    case ClassNotFound => "Class not found."
    case MissingAdmissionNo => "Missing admission_no"
    case MissingName => "Missing first_name or last_name"
    case InvalidGrade => "Missing or invalid class_grade"
    case MissingSection => "Missing section"
    case ClassMismatch =>
      "Class mismatch. Expected " + NatToString(cls.grade) + NormalizeSection(cls.section) + " " + cls.name
    case StreamMismatch => "Class stream mismatch. Expected " + cls.name
    case InAnotherClass(adm) => "Admission no " + adm + " already exists in another class."
  }

  datatype StudentRow = StudentRow(
    rowNumber: nat, admissionNo: string, firstName: string, lastName: string, grade: real,
    section: string, className: Option<string>, rollNo: Option<real>, status: string)

  datatype Checked = Accepted(row: StudentRow) | Rejected(error: ImportError)

  /** The checks in the order the loop runs them; true means passed. */
  function Checks(f: Fields, cls: ClassInfo): (r: seq<bool>)
    ensures |r| == 6
  {
    [ |f.admissionNo| != 0,
      |f.firstName| != 0 && |f.lastName| != 0,
      f.grade.Some? && f.grade.value != 0.0,
      |f.section| != 0,
      f.grade == Some(cls.grade as real) && f.section == NormalizeSection(cls.section),
      |f.className| == 0 || NormalizeName(f.className) == NormalizeName(cls.name) ]
  }

  /** The problem each check reports. */
  const CheckProblems: seq<Problem> :=
    [MissingAdmissionNo, MissingName, InvalidGrade, MissingSection, ClassMismatch, StreamMismatch]

  /** The index of the first failed check. */
  function FirstFailed(checks: seq<bool>): (r: Option<nat>)
    ensures r.None? <==> forall i :: 0 <= i < |checks| ==> checks[i]
    ensures r.Some? ==> r.value < |checks| && !checks[r.value] && forall i :: 0 <= i < r.value ==> checks[i]
  {
    if checks == [] then None
    else if !checks[0] then Some(0)
    else
      var r := FirstFailed(checks[1..]);
      assert forall i :: 1 <= i < |checks| ==> checks[1..][i - 1] == checks[i];
      if r.Some? then Some(r.value + 1) else None
  }

  lemma FirstFailedAt(checks: seq<bool>, k: nat)
    requires k < |checks| && !checks[k]
    requires forall i :: 0 <= i < k ==> checks[i]
    ensures FirstFailed(checks) == Some(k)
  {
  }

  /** The checks of the forEach on the values read from one record: one
      error, for the first check that fails, or one row. */
  function CheckFields(f: Fields, rowNumber: nat, cls: ClassInfo): (r: Checked)
    ensures r.Rejected? ==> r.error.row == rowNumber
    ensures r.Accepted? ==>
      && r.row.rowNumber == rowNumber
      && |r.row.admissionNo| != 0 && |r.row.firstName| != 0 && |r.row.lastName| != 0
      && r.row.grade == cls.grade as real
      && r.row.section == NormalizeSection(cls.section)
      && (r.row.className.None? || NormalizeName(r.row.className.value) == NormalizeName(cls.name))
    ensures r.Accepted? ==>
      && r.row.admissionNo == f.admissionNo && r.row.firstName == f.firstName && r.row.lastName == f.lastName
      && r.row.rollNo == f.rollNo && r.row.status == f.status
  {
    var c := Checks(f, cls);
    if !c[0] then Rejected(ImportError(rowNumber, MissingAdmissionNo))
    else if !c[1] then Rejected(ImportError(rowNumber, MissingName))
    else if !c[2] then Rejected(ImportError(rowNumber, InvalidGrade))
    else if !c[3] then Rejected(ImportError(rowNumber, MissingSection))
    else if !c[4] then Rejected(ImportError(rowNumber, ClassMismatch))
    else if !c[5] then Rejected(ImportError(rowNumber, StreamMismatch))
    else
      Accepted(StudentRow(rowNumber, f.admissionNo, f.firstName, f.lastName, f.grade.value, f.section,
        if |f.className| == 0 then None else Some(f.className), f.rollNo, f.status))
  }

  /** A record is rejected exactly when some check fails, and the error
      carries the message of the first check that fails. */
  lemma CheckFieldsFirstFailure(f: Fields, rowNumber: nat, cls: ClassInfo)
    ensures var r := CheckFields(f, rowNumber, cls);
      var failed := FirstFailed(Checks(f, cls));
      && (r.Rejected? <==> failed.Some?)
      && (r.Rejected? ==> r.error == ImportError(rowNumber, CheckProblems[failed.value]))
  {
    FirstOfSix(Checks(f, cls));
  }

  /** The first failed check of six, as the if-chain finds it. */
  lemma FirstOfSix(c: seq<bool>)
    requires |c| == 6
    ensures FirstFailed(c) ==
      if !c[0] then Some(0) else if !c[1] then Some(1) else if !c[2] then Some(2)
      else if !c[3] then Some(3) else if !c[4] then Some(4) else if !c[5] then Some(5) else None
  {
    if !c[0] { FirstFailedAt(c, 0); }
    else if !c[1] { FirstFailedAt(c, 1); }
    else if !c[2] { FirstFailedAt(c, 2); }
    else if !c[3] { FirstFailedAt(c, 3); }
    else if !c[4] { FirstFailedAt(c, 4); }
    else if !c[5] { FirstFailedAt(c, 5); }
  }

  /** The body of the forEach for the record at index (row number index + 2). */
  function CheckRow(raw: RawRow, index: nat, cls: ClassInfo, parseNumber: string -> Option<real>): (r: Checked)
    ensures r.Rejected? ==> r.error.row == index + 2
    ensures r.Accepted? ==> r.row.rowNumber == index + 2
  {
    CheckFields(ReadFields(raw, parseNumber), index + 2, cls)
  }

  /** A blank status becomes "active" and a blank roll_no becomes null. */
  lemma AcceptedDefaults(raw: RawRow, index: nat, cls: ClassInfo, parseNumber: string -> Option<real>)
    requires CheckRow(raw, index, cls, parseNumber).Accepted?
    ensures var row := CheckRow(raw, index, cls, parseNumber).row;
      && (IsBlank(Cell(raw, "status")) ==> row.status == "active")
      && (!IsBlank(Cell(raw, "status")) ==> row.status == Trim(Cell(raw, "status")))
      && (|Cell(raw, "roll_no")| == 0 ==> row.rollNo.None?)
  {
    var f := ReadFields(raw, parseNumber);
    assert CheckRow(raw, index, cls, parseNumber) == CheckFields(f, index + 2, cls);
    TrimEmptyIffBlank(Cell(raw, "status"));
  }

  /** The outcome of the forEach body for every record, in record order. */
  function CheckAll(raws: seq<RawRow>, cls: ClassInfo, parseNumber: string -> Option<real>): (r: seq<Checked>)
    ensures |r| == |raws|
    ensures forall i :: 0 <= i < |raws| ==> r[i] == CheckRow(raws[i], i, cls, parseNumber)
    ensures forall i :: 0 <= i < |raws| && r[i].Rejected? ==> r[i].error.row == i + 2
    ensures forall i :: 0 <= i < |raws| && r[i].Accepted? ==> r[i].row.rowNumber == i + 2
  {
    seq(|raws|, i requires 0 <= i < |raws| => CheckRow(raws[i], i, cls, parseNumber))
  }

  /** Splits the outcomes into the errors array and the valid rows array,
      each in record order. */
  function Partition(checked: seq<Checked>): (r: (seq<ImportError>, seq<StudentRow>))
    ensures |r.0| + |r.1| == |checked|
  {
    if checked == [] then ([], [])
    else
      var n := |checked| - 1;
      assert checked == checked[..n] + [checked[n]];
      File(Partition(checked[..n]), checked[n])
  }

  /** One outcome into its list. */
  function File(acc: (seq<ImportError>, seq<StudentRow>), outcome: Checked): (seq<ImportError>, seq<StudentRow>) {
    match outcome
    case Accepted(row) => (acc.0, acc.1 + [row])
    case Rejected(error) => (acc.0 + [error], acc.1)
  }

  /** Every rejected outcome lands in the errors, every accepted one in the
      valid rows, and nothing else does. */
  lemma {:induction false} PartitionMembers(checked: seq<Checked>)
    ensures forall e :: e in Partition(checked).0 <==> Rejected(e) in checked
    ensures forall row :: row in Partition(checked).1 <==> Accepted(row) in checked
  {
    if checked != [] {
      var n := |checked| - 1;
      PartitionMembers(checked[..n]);
      assert checked == checked[..n] + [checked[n]];
    }
  }

  /** The validation pass: the errors and the valid rows. */
  function Validate(raws: seq<RawRow>, cls: ClassInfo, parseNumber: string -> Option<real>): (r: (seq<ImportError>, seq<StudentRow>))
    ensures |r.0| + |r.1| == |raws|
  {
    Partition(CheckAll(raws, cls, parseNumber))
  }

  /** Every error carries the spreadsheet row number of its record (the
      header is row 1). */
  lemma ValidateErrorRows(raws: seq<RawRow>, cls: ClassInfo, parseNumber: string -> Option<real>)
    ensures forall e :: e in Validate(raws, cls, parseNumber).0 ==> 2 <= e.row <= |raws| + 1
  {
    PartitionRowNumbers(CheckAll(raws, cls, parseNumber));
  }

  lemma ValidateRowNumbers(raws: seq<RawRow>, cls: ClassInfo, parseNumber: string -> Option<real>)
    ensures forall row :: row in Validate(raws, cls, parseNumber).1 ==> 2 <= row.rowNumber <= |raws| + 1
  {
    PartitionRowNumbers(CheckAll(raws, cls, parseNumber));
  }

  /** Outcomes numbered by position keep their numbers in range once filed. */
  lemma PartitionRowNumbers(checked: seq<Checked>)
    requires forall i :: 0 <= i < |checked| && checked[i].Rejected? ==> checked[i].error.row == i + 2
    requires forall i :: 0 <= i < |checked| && checked[i].Accepted? ==> checked[i].row.rowNumber == i + 2
    ensures forall e :: e in Partition(checked).0 ==> 2 <= e.row <= |checked| + 1
    ensures forall row :: row in Partition(checked).1 ==> 2 <= row.rowNumber <= |checked| + 1
  {
    PartitionMembers(checked);
    forall e | e in Partition(checked).0
      ensures 2 <= e.row <= |checked| + 1
    {
      var i :| 0 <= i < |checked| && checked[i] == Rejected(e);
    }
    forall row | row in Partition(checked).1
      ensures 2 <= row.rowNumber <= |checked| + 1
    {
      var i :| 0 <= i < |checked| && checked[i] == Accepted(row);
    }
  }


  // ---------------------------------------------------------------------
  // The upsert loop
  // ---------------------------------------------------------------------

  /** A row of students, keyed by admission number. */
  datatype Student = Student(classId: nat, firstName: string, lastName: string, rollNo: Option<real>, status: string)

  datatype ImportState = ImportState(
    students: map<string, Student>, inserted: nat, updated: nat, skipped: nat, errors: seq<ImportError>)

  /** One iteration: skip an admission number of another class with an
      error, update one of this class, insert a new one. */
  function ImportStep(s: ImportState, classId: nat, row: StudentRow): ImportState {
    var adm := row.admissionNo;
    if adm in s.students && s.students[adm].classId != classId then
      s.(skipped := s.skipped + 1,
         errors := s.errors + [ImportError(row.rowNumber, InAnotherClass(adm))])
    else if adm in s.students then
      s.(students := s.students[adm := s.students[adm].(firstName := row.firstName, lastName := row.lastName,
                                                         rollNo := row.rollNo, status := row.status)],
         updated := s.updated + 1)
    else
      s.(students := s.students[adm := Student(classId, row.firstName, row.lastName, row.rollNo, row.status)],
         inserted := s.inserted + 1)
  }

  function ImportAll(s: ImportState, classId: nat, rows: seq<StudentRow>): (r: ImportState)
    ensures r.inserted + r.updated + r.skipped == s.inserted + s.updated + s.skipped + |rows|
    ensures r.skipped >= s.skipped
    ensures |r.errors| == |s.errors| + (r.skipped - s.skipped)
    ensures r.errors[..|s.errors|] == s.errors
  {
    if rows == [] then s
    else
      var mid := ImportAll(s, classId, rows[..|rows| - 1]);
      var r := ImportStep(mid, classId, rows[|rows| - 1]);
      assert r.errors[..|mid.errors|] == mid.errors;
      r
  }

  /** A student of another class is never modified, and every row carrying
      that admission number is skipped with an "in another class" error. */
  lemma {:induction false} OtherClassUntouched(s: ImportState, classId: nat, rows: seq<StudentRow>, adm: string)
    requires adm in s.students && s.students[adm].classId != classId
    ensures var r := ImportAll(s, classId, rows);
      adm in r.students && r.students[adm] == s.students[adm]
    ensures var r := ImportAll(s, classId, rows);
      forall k :: k in s.students && s.students[k].classId != classId ==> k in r.students && r.students[k] == s.students[k]
    ensures var r := ImportAll(s, classId, rows);
      forall i :: 0 <= i < |rows| && rows[i].admissionNo == adm ==>
        ImportError(rows[i].rowNumber, InAnotherClass(adm)) in r.errors[|s.errors|..]
  {
    if rows != [] {
      var n := |rows| - 1;
      var prefix := rows[..n];
      OtherClassUntouched(s, classId, prefix, adm);
      var mid := ImportAll(s, classId, prefix);
      var r := ImportAll(s, classId, rows);
      assert r == ImportStep(mid, classId, rows[n]);
      assert mid.errors[|s.errors|..] <= r.errors[|s.errors|..];
      forall i | 0 <= i < |rows| && rows[i].admissionNo == adm
        ensures ImportError(rows[i].rowNumber, InAnotherClass(adm)) in r.errors[|s.errors|..]
      {
        if i < n {
          assert prefix[i] == rows[i];
        } else {
          assert r.errors == mid.errors + [ImportError(rows[n].rowNumber, InAnotherClass(adm))];
          assert r.errors[|s.errors|..][|r.errors| - 1 - |s.errors|] == r.errors[|r.errors| - 1];
        }
      }
    }
  }

  /** Every student the import writes belongs to the class, and students
      the rows do not name are left alone. */
  lemma {:induction false} ImportTouchesOnlyNamedStudents(s: ImportState, classId: nat, rows: seq<StudentRow>, adm: string)
    requires forall i :: 0 <= i < |rows| ==> rows[i].admissionNo != adm
    ensures var r := ImportAll(s, classId, rows);
      (adm in r.students <==> adm in s.students) && (adm in s.students ==> r.students[adm] == s.students[adm])
  {
    if rows != [] {
      ImportTouchesOnlyNamedStudents(s, classId, rows[..|rows| - 1], adm);
    }
  }

  datatype ImportResult = ImportResult(inserted: nat, updated: nat, skipped: nat, errors: seq<ImportError>)

  /** `mode === "replace"` first deletes the class's students. */
  function WithoutClass(students: map<string, Student>, classId: nat): (r: map<string, Student>)
    ensures forall k :: k in r <==> k in students && students[k].classId != classId
  {
    map k | k in students && students[k].classId != classId :: students[k]
  }

  class StudentTable {
    var students: map<string, Student>

    constructor (students: map<string, Student>)
      ensures this.students == students
    {
      this.students := students;
    }

    /** The validation forEach. */
    static method ValidateRows(raws: seq<RawRow>, cls: ClassInfo, parseNumber: string -> Option<real>)
      returns (errors: seq<ImportError>, rows: seq<StudentRow>)
      ensures (errors, rows) == Validate(raws, cls, parseNumber)
    {
      errors, rows := FileAll(CheckAll(raws, cls, parseNumber));
    }

    /** importStudentsFromCsv after the CSV text is parsed into records. */
    method ImportStudents(classes: map<nat, ClassInfo>, classId: nat, raws: seq<RawRow>, replace: bool,
                          parseNumber: string -> Option<real>)
      returns (result: ImportResult)
      modifies this
      ensures classId !in classes ==>
        result == ImportResult(0, 0, 0, [ImportError(0, ClassNotFound)]) && students == old(students)
      ensures classId in classes && Validate(raws, classes[classId], parseNumber).1 == [] ==>
        && result == ImportResult(0, 0, |raws|, Validate(raws, classes[classId], parseNumber).0)
        && students == old(students)
      ensures classId in classes && Validate(raws, classes[classId], parseNumber).1 != [] ==>
        var (errors, rows) := Validate(raws, classes[classId], parseNumber);
        var start := if replace then WithoutClass(old(students), classId) else old(students);
        var r := ImportAll(ImportState(start, 0, 0, 0, errors), classId, rows);
        && students == r.students
        && result == ImportResult(r.inserted, r.updated, r.skipped, r.errors)
    {
      if classId !in classes {
        return ImportResult(0, 0, 0, [ImportError(0, ClassNotFound)]);
      }
      var errors, rows := ValidateRows(raws, classes[classId], parseNumber);
      if |rows| == 0 {
        return ImportResult(0, 0, |raws|, errors);
      }
      if replace {
        students := WithoutClass(students, classId);
      }
      var r := UpsertRows(ImportState(students, 0, 0, 0, errors), classId, rows);
      students := r.students;
      result := ImportResult(r.inserted, r.updated, r.skipped, r.errors);
    }
  }

  /** The loop that files each checked record into the errors or the
      valid rows. */
  method FileAll(checked: seq<Checked>) returns (errors: seq<ImportError>, rows: seq<StudentRow>)
    ensures (errors, rows) == Partition(checked)
  {
    errors, rows := [], [];
    for index := 0 to |checked|
      invariant (errors, rows) == Partition(checked[..index])
    {
      assert checked[..index + 1][..index] == checked[..index];
      match checked[index]
      case Rejected(error) =>
        errors := errors + [error];
      case Accepted(row) =>
        rows := rows + [row];
    }
    assert checked[..|checked|] == checked;
  }

  /** The upsert loop over the valid rows. */
  method UpsertRows(start: ImportState, classId: nat, rows: seq<StudentRow>) returns (r: ImportState)
    ensures r == ImportAll(start, classId, rows)
  {
    var students, errors := start.students, start.errors;
    var inserted, updated, skipped := start.inserted, start.updated, start.skipped;
    for i := 0 to |rows|
      invariant ImportState(students, inserted, updated, skipped, errors) == ImportAll(start, classId, rows[..i])
    {
      var row := rows[i];
      var adm := row.admissionNo;
      assert rows[..i + 1][..i] == rows[..i];
      if adm in students && students[adm].classId != classId {
        errors := errors + [ImportError(row.rowNumber, InAnotherClass(adm))];
        skipped := skipped + 1;
      } else if adm in students {
        students := students[adm := students[adm].(firstName := row.firstName, lastName := row.lastName,
                                                   rollNo := row.rollNo, status := row.status)];
        updated := updated + 1;
      } else {
        students := students[adm := Student(classId, row.firstName, row.lastName, row.rollNo, row.status)];
        inserted := inserted + 1;
      }
    }
    assert rows[..|rows|] == rows;
    r := ImportState(students, inserted, updated, skipped, errors);
  }
}
