/** The marks sheet of client/src/pages/MarksPage.tsx and its CSV upload:
    each record is resolved to a class, an exam, a subject and a student,
    then classified as not applicable, absent or scored; accepted records
    are grouped by exam, subject and class for saving, and those of the
    current selection are merged into the on-screen entries. `Number()` and
    `String()` of a number are the parameters number and numberText; the
    save of the groups is a network call and not part of this model. */
module MarksUpload {
  import opened Common
  import opened Roster
  import Csv
  import Format

  datatype ClassItem = ClassItem(id: nat, name: string, grade: int, section: string)
  datatype ClassSubject = ClassSubject(subjectId: nat, name: string, code: Option<string>)
  datatype Exam = Exam(id: nat, name: string)

  /** The page state the upload reads: the lists loaded for the selection,
      the selected class, subject and exam (None is null) and maxMarks. */
  datatype Selection = Selection(
    classes: seq<ClassItem>, classSubjects: seq<ClassSubject>, exams: seq<Exam>, students: seq<Student>,
    classId: Option<nat>, subjectId: Option<nat>, examId: Option<nat>, maxMarks: real)

  datatype MarkEntry = MarkEntry(studentId: nat, marks: string, isAbsent: bool, isNotApplicable: bool)

  /** The partial entry stored for a student of the current selection. */
  datatype MarkUpdate = MarkUpdate(marks: string, isAbsent: bool, isNotApplicable: bool)

  /** An entry of a group to save; None marks a property the literal leaves out. */
  datatype GroupEntry = GroupEntry(
    studentId: nat, maxMarks: real, marksObtained: Option<real>, isAbsent: Option<bool>, isNotApplicable: Option<bool>)

  /** The group key `${exam}:${subject}:${class}`. */
  datatype GroupKey = GroupKey(examId: real, subjectId: real, classId: real)

  datatype Group = Group(key: GroupKey, entries: seq<GroupEntry>)

  datatype Problem =
    | ClassMismatchOrMissing
    | MissingExamOrSubject
    | StudentNotFound
    | InvalidAbsent(raw: string)
    | InvalidMarks(raw: string)
    | MarksExceedMax(marks: real, cap: real)

  datatype UploadError = NoDataRows | RowError(row: nat, problem: Problem)

  function Message(e: UploadError, numberText: real -> string): string {
    match e
    case NoDataRows => "No data rows found in CSV."
    case RowError(row, p) =>
      "Row " + NatToString(row) + ": " +
      match p
      case ClassMismatchOrMissing => "Class mismatch or missing class."
      case MissingExamOrSubject => "Missing exam or subject."
      case StudentNotFound => "Student not found (admission_no/roll_no)."
      case InvalidAbsent(raw) => "Invalid is_absent value \"" + raw + "\"."
      case InvalidMarks(raw) => "Invalid marks \"" + raw + "\"."
      case MarksExceedMax(m, cap) => "Marks " + numberText(m) + " exceed max " + numberText(cap) + "."
  }

  const ClassKeys: seq<string> := ["class", "class_name", "classid", "class_id"]
  const ExamKeys: seq<string> := ["exam", "exam_name", "examid", "exam_id"]
  const SubjectKeys: seq<string> := ["subject", "subject_name", "subjectcode", "subject_code", "subjectid", "subject_id"]
  const AdmissionKeys: seq<string> := ["admission_no", "admission", "admissionnumber"]
  const RollKeys: seq<string> := ["roll_no", "roll", "rollnumber"]
  const MaxKeys: seq<string> := ["max_marks", "max"]
  const AbsentKeys: seq<string> := ["is_absent", "absent", "absent_flag"]
  const MarksKeys: seq<string> := ["marks_obtained", "marks", "score"]

  // ---------------------------------------------------------------------
  // Resolving a record
  // ---------------------------------------------------------------------

  /** `normalize` of the upload handler. */
  function Normalize(value: string): string {
    Lower(Trim(value))
  }

  /** isNotApplicableValue */
  predicate IsNaMarker(value: string) {
    var n := Normalize(value);
    n == "na" || n == "n/a" || n == "not applicable"
  }

  /** The marker is read without regard to case. */
  lemma NaMarkerIgnoresCase(value: string)
    ensures IsNaMarker(Upper(value)) <==> IsNaMarker(value)
  {
    TrimUpper(value);
    LowerOfUpper(Trim(value));
  }

  /** A JavaScript number used as a condition: null and 0 are falsy. */
  predicate Truthy(id: Option<real>) {
    id.Some? && id.value != 0.0
  }

  function AsReal(id: Option<nat>): Option<real> {
    if id.Some? then Some(id.value as real) else None
  }

  /** A cell is read as an id when `Number()` parses it and `String()` of
      the number gives back the trimmed cell. */
  function CanonicalNumber(raw: string, number: string -> Option<real>, numberText: real -> string): (r: Option<real>)
    ensures r.Some? ==> number(raw) == r && numberText(r.value) == Trim(raw)
  {
    var candidate := number(raw);
    if candidate.Some? && numberText(candidate.value) == Trim(raw) then candidate else None
  }

  /** The classByName pairs: every class under its normalised name, then
      under its normalised label. */
  function ClassPairs(classes: seq<ClassItem>): (r: seq<(string, ClassItem)>)
    ensures |r| == 2 * |classes|
  {
    KeyedTwice(classes, (c: ClassItem) => Normalize(c.name), (c: ClassItem) => Normalize(ClassLabel(c)))
  }

  /** Every item under its first key, then under its second, in order. */
  function KeyedTwice<T>(items: seq<T>, first: T -> string, second: T -> string): (r: seq<(string, T)>)
    ensures |r| == 2 * |items|
  {
    if items == [] then []
    else
      var n := |items| - 1;
      KeyedTwice(items[..n], first, second) + [(first(items[n]), items[n]), (second(items[n]), items[n])]
  }

  lemma {:induction false} KeyedTwiceMembers<T>(items: seq<T>, first: T -> string, second: T -> string)
    ensures forall p :: p in KeyedTwice(items, first, second) ==>
      p.1 in items && (p.0 == first(p.1) || p.0 == second(p.1))
  {
    if items != [] {
      var n := |items| - 1;
      KeyedTwiceMembers(items[..n], first, second);
      forall p | p in KeyedTwice(items, first, second)
        ensures p.1 in items && (p.0 == first(p.1) || p.0 == second(p.1))
      {
        if p in KeyedTwice(items[..n], first, second) {
          assert p.1 in items[..n];
        }
      }
    }
  }

  /** Every pair is a listed class under its normalised name or label. */
  lemma ClassPairsMembers(classes: seq<ClassItem>)
    ensures forall p :: p in ClassPairs(classes) ==>
      p.1 in classes && (p.0 == Normalize(p.1.name) || p.0 == Normalize(ClassLabel(p.1)))
  {
    KeyedTwiceMembers(classes, (c: ClassItem) => Normalize(c.name), (c: ClassItem) => Normalize(ClassLabel(c)));
  }

  function ClassLabel(c: ClassItem): string {
    Format.FormatClassLabel(Format.ClassLabelInput(c.name, Some(c.grade), Some(c.section)))
  }

  function ExamPairs(exams: seq<Exam>): seq<(string, Exam)> {
    seq(|exams|, i requires 0 <= i < |exams| => (Normalize(exams[i].name), exams[i]))
  }

  function SubjectNamePairs(subjects: seq<ClassSubject>): seq<(string, ClassSubject)> {
    seq(|subjects|, i requires 0 <= i < |subjects| => (Normalize(subjects[i].name), subjects[i]))
  }

  /** The subjectByCode pairs: only subjects with a non-empty code. */
  function SubjectCodePairs(subjects: seq<ClassSubject>): (r: seq<(string, ClassSubject)>)
    ensures forall p :: p in r ==> p.1.code.Some? && |p.1.code.value| != 0 && p.0 == Normalize(p.1.code.value)
  {
    if subjects == [] then []
    else
      var n := |subjects| - 1;
      var s := subjects[n];
      SubjectCodePairs(subjects[..n]) +
        (if s.code.Some? && |s.code.value| != 0 then [(Normalize(s.code.value), s)] else [])
  }

  /** rowClassId: the selected class when the cell is empty, else the id
      written in the cell, else the class the cell names. */
  function RowClassId(sel: Selection, row: map<string, string>, number: string -> Option<real>, numberText: real -> string): Option<real> {
    var raw := Csv.GetCsvValue(row, ClassKeys);
    if |raw| == 0 then AsReal(sel.classId)
    else
      var id := CanonicalNumber(raw, number, numberText);
      if id.Some? then id
      else
        var c := LastValue(ClassPairs(sel.classes), Normalize(raw));
        if c.Some? then Some(c.value.id as real) else None
  }

  /** rowExamId */
  function RowExamId(sel: Selection, row: map<string, string>, number: string -> Option<real>, numberText: real -> string): Option<real> {
    var raw := Csv.GetCsvValue(row, ExamKeys);
    if |raw| == 0 then AsReal(sel.examId)
    else
      var id := CanonicalNumber(raw, number, numberText);
      if id.Some? then id
      else
        var e := LastValue(ExamPairs(sel.exams), Normalize(raw));
        if e.Some? then Some(e.value.id as real) else None
  }

  /** rowSubjectId: a code match comes before a name match. */
  function RowSubjectId(sel: Selection, row: map<string, string>, number: string -> Option<real>, numberText: real -> string): Option<real> {
    var raw := Csv.GetCsvValue(row, SubjectKeys);
    if |raw| == 0 then AsReal(sel.subjectId)
    else
      var id := CanonicalNumber(raw, number, numberText);
      if id.Some? then id
      else
        var byCode := LastValue(SubjectCodePairs(sel.classSubjects), Normalize(raw));
        if byCode.Some? then Some(byCode.value.subjectId as real)
        else
          var byName := LastValue(SubjectNamePairs(sel.classSubjects), Normalize(raw));
          if byName.Some? then Some(byName.value.subjectId as real) else None
  }

  /** `!rowClassId || (classId && rowClassId !== classId)` */
  predicate ClassRejected(sel: Selection, rowClassId: Option<real>) {
    !Truthy(rowClassId) || (Truthy(AsReal(sel.classId)) && rowClassId != AsReal(sel.classId))
  }

  function RowStudent(sel: Selection, row: map<string, string>): Option<Student> {
    FindStudent(sel.students, Csv.GetCsvValue(row, AdmissionKeys), Csv.GetCsvValue(row, RollKeys))
  }

  datatype Resolution = Unresolved(problem: Problem) | Resolved(key: GroupKey, student: Student)

  /** The three checks before the cells are read: class, then exam and
      subject, then student. */
  function Resolve(sel: Selection, row: map<string, string>, number: string -> Option<real>, numberText: real -> string): (r: Resolution)
    ensures r == Unresolved(ClassMismatchOrMissing) <==> ClassRejected(sel, RowClassId(sel, row, number, numberText))
    ensures !ClassRejected(sel, RowClassId(sel, row, number, numberText)) ==>
      (r == Unresolved(MissingExamOrSubject) <==>
        !Truthy(RowExamId(sel, row, number, numberText)) || !Truthy(RowSubjectId(sel, row, number, numberText)))
    ensures r == Unresolved(StudentNotFound) <==>
      && !ClassRejected(sel, RowClassId(sel, row, number, numberText))
      && Truthy(RowExamId(sel, row, number, numberText)) && Truthy(RowSubjectId(sel, row, number, numberText))
      && RowStudent(sel, row).None?
    ensures r.Resolved? <==>
      && !ClassRejected(sel, RowClassId(sel, row, number, numberText))
      && Truthy(RowExamId(sel, row, number, numberText)) && Truthy(RowSubjectId(sel, row, number, numberText))
      && RowStudent(sel, row).Some?
    ensures r.Unresolved? ==> r.problem in {ClassMismatchOrMissing, MissingExamOrSubject, StudentNotFound}
    ensures r.Resolved? ==>
      && r.key.classId != 0.0 && r.key.examId != 0.0 && r.key.subjectId != 0.0
      && (Truthy(AsReal(sel.classId)) ==> r.key.classId == sel.classId.value as real)
      && Some(r.key.examId) == RowExamId(sel, row, number, numberText)
      && Some(r.key.subjectId) == RowSubjectId(sel, row, number, numberText)
      && RowStudent(sel, row) == Some(r.student) && r.student in sel.students
  {
    var classId := RowClassId(sel, row, number, numberText);
    if ClassRejected(sel, classId) then Unresolved(ClassMismatchOrMissing)
    else
      var examId := RowExamId(sel, row, number, numberText);
      var subjectId := RowSubjectId(sel, row, number, numberText);
      if !Truthy(examId) || !Truthy(subjectId) then Unresolved(MissingExamOrSubject)
      else
        var student := RowStudent(sel, row);
        if student.None? then Unresolved(StudentNotFound)
        else Resolved(GroupKey(examId.value, subjectId.value, classId.value), student.value)
  }

  // ---------------------------------------------------------------------
  // Classifying a resolved record
  // ---------------------------------------------------------------------

  /** What one record does. maxValue is the max_marks cell the row adds to
      the set of seen maxima (rows rejected before the student is found add
      none). */
  datatype Outcome =
    | Skipped(error: Option<UploadError>, maxValue: Option<real>)
    | Applied(key: GroupKey, studentId: nat, entry: GroupEntry, update: Option<MarkUpdate>, maxValue: Option<real>)

  /** `rowExamId === examId && rowSubjectId === subjectId` */
  predicate IsCurrent(sel: Selection, key: GroupKey) {
    AsReal(sel.examId) == Some(key.examId) && AsReal(sel.subjectId) == Some(key.subjectId)
  }

  predicate MarkedNotApplicable(absentRaw: string, marksRaw: string) {
    (|marksRaw| != 0 && IsNaMarker(marksRaw)) || (|absentRaw| != 0 && IsNaMarker(absentRaw))
  }

  /** Neither cell holds an NA marker, the absent cell is blank or false,
      and a marks cell is given: the marks decide the record. */
  predicate MarksDecide(absentRaw: string, marksRaw: string) {
    && !MarkedNotApplicable(absentRaw, marksRaw)
    && (|absentRaw| == 0 || Csv.ParseCsvBoolean(absentRaw) == Some(false))
    && |marksRaw| != 0
  }

  /** The record once its student is known: the NA marker first, then the
      absent flag, then the marks against the cap. */
  function ClassifyCells(sel: Selection, key: GroupKey, studentId: nat, index: nat, maxValue: Option<real>,
                         absentRaw: string, marksRaw: string,
                         number: string -> Option<real>, numberText: real -> string): (o: Outcome)
    ensures o.maxValue == maxValue
    ensures o.Applied? ==> o.key == key && o.studentId == studentId && o.entry.studentId == studentId
    ensures o.Applied? ==> (o.update.Some? <==> IsCurrent(sel, key))
    ensures o.Skipped? && o.error.Some? ==> o.error.value.RowError? && o.error.value.row == index + 2
    // an NA marker in either cell wins over the other checks
    ensures MarkedNotApplicable(absentRaw, marksRaw) ==>
      && o.Applied? && o.entry == GroupEntry(studentId, maxValue.GetOr(sel.maxMarks), None, None, Some(true))
      && (o.update.Some? ==> o.update.value == MarkUpdate("", false, true))
    // an unreadable absent cell is an error
    ensures !MarkedNotApplicable(absentRaw, marksRaw) && |absentRaw| != 0 && Csv.ParseCsvBoolean(absentRaw).None? ==>
      o == Skipped(Some(RowError(index + 2, InvalidAbsent(absentRaw))), maxValue)
    ensures !MarkedNotApplicable(absentRaw, marksRaw) && Csv.ParseCsvBoolean(absentRaw) == Some(true) ==>
      && o.Applied? && o.entry == GroupEntry(studentId, maxValue.GetOr(sel.maxMarks), None, Some(true), None)
      && (o.update.Some? ==> o.update.value == MarkUpdate("", true, false))
    // a blank marks cell on a row not marked absent is skipped silently
    ensures (!MarkedNotApplicable(absentRaw, marksRaw) && |marksRaw| == 0 &&
             (|absentRaw| == 0 || Csv.ParseCsvBoolean(absentRaw) == Some(false))) ==>
      o == Skipped(None, maxValue)
    // accepted marks are a number within a non-zero cap
    ensures o.Applied? && o.entry.marksObtained.Some? ==>
      && !MarkedNotApplicable(absentRaw, marksRaw) && Csv.ParseCsvBoolean(absentRaw) != Some(true)
      && Csv.ParseCsvNumber(marksRaw, number) == o.entry.marksObtained
      && (maxValue.GetOr(sel.maxMarks) == 0.0 || o.entry.marksObtained.value <= maxValue.GetOr(sel.maxMarks))
      && o.entry.isAbsent == Some(false)
      && (o.update.Some? ==> o.update.value == MarkUpdate(numberText(o.entry.marksObtained.value), false, false))
    // the marks cell against the cap
    ensures MarksDecide(absentRaw, marksRaw) && Csv.ParseCsvNumber(marksRaw, number).None? ==>
      o == Skipped(Some(RowError(index + 2, InvalidMarks(marksRaw))), maxValue)
    ensures MarksDecide(absentRaw, marksRaw) && Csv.ParseCsvNumber(marksRaw, number).Some? ==>
      var m := Csv.ParseCsvNumber(marksRaw, number).value;
      var cap := maxValue.GetOr(sel.maxMarks);
      && (cap != 0.0 && m > cap ==> o == Skipped(Some(RowError(index + 2, MarksExceedMax(m, cap))), maxValue))
      && ((cap == 0.0 || m <= cap) ==>
            o.Applied? && o.entry == GroupEntry(studentId, if cap != 0.0 then cap else sel.maxMarks, Some(m), Some(false), None))
    ensures o.Applied? && o.entry.isNotApplicable == Some(true) ==> MarkedNotApplicable(absentRaw, marksRaw)
    ensures o.Applied? ==> o.entry.marksObtained.Some? || o.entry.isAbsent == Some(true) || o.entry.isNotApplicable == Some(true)
  {
    var current := IsCurrent(sel, key);
    if MarkedNotApplicable(absentRaw, marksRaw) then
      Applied(key, studentId, GroupEntry(studentId, maxValue.GetOr(sel.maxMarks), None, None, Some(true)),
              if current then Some(MarkUpdate("", false, true)) else None, maxValue)
    else
      var isAbsent := Csv.ParseCsvBoolean(absentRaw);
      if |absentRaw| != 0 && isAbsent.None? then
        Skipped(Some(RowError(index + 2, InvalidAbsent(absentRaw))), maxValue)
      else if isAbsent == Some(true) then
        Applied(key, studentId, GroupEntry(studentId, maxValue.GetOr(sel.maxMarks), None, Some(true), None),
                if current then Some(MarkUpdate("", true, false)) else None, maxValue)
      else if |marksRaw| == 0 then
        Skipped(None, maxValue)
      else
        var marks := Csv.ParseCsvNumber(marksRaw, number);
        if marks.None? then
          Skipped(Some(RowError(index + 2, InvalidMarks(marksRaw))), maxValue)
        else
          var cap := maxValue.GetOr(sel.maxMarks);
          if cap != 0.0 && marks.value > cap then
            Skipped(Some(RowError(index + 2, MarksExceedMax(marks.value, cap))), maxValue)
          else
            Applied(key, studentId,
                    GroupEntry(studentId, if cap != 0.0 then cap else sel.maxMarks, marks, Some(false), None),
                    if current then Some(MarkUpdate(numberText(marks.value), false, false)) else None, maxValue)
  }

  /** The body of the forEach for the record at index. */
  function ClassifyRow(sel: Selection, row: map<string, string>, index: nat,
                       number: string -> Option<real>, numberText: real -> string): (o: Outcome)
    ensures Resolve(sel, row, number, numberText).Unresolved? ==>
      o == Skipped(Some(RowError(index + 2, Resolve(sel, row, number, numberText).problem)), None)
    ensures Resolve(sel, row, number, numberText).Resolved? ==>
      var res := Resolve(sel, row, number, numberText);
      o == ClassifyCells(sel, res.key, res.student.id, index,
                         Csv.ParseCsvNumber(Csv.GetCsvValue(row, MaxKeys), number),
                         Csv.GetCsvValue(row, AbsentKeys), Csv.GetCsvValue(row, MarksKeys), number, numberText)
  {
    match Resolve(sel, row, number, numberText)
    case Unresolved(p) => Skipped(Some(RowError(index + 2, p)), None)
    case Resolved(key, student) =>
      ClassifyCells(sel, key, student.id, index,
                    Csv.ParseCsvNumber(Csv.GetCsvValue(row, MaxKeys), number),
                    Csv.GetCsvValue(row, AbsentKeys), Csv.GetCsvValue(row, MarksKeys), number, numberText)
  }

  /** An accepted record is always for the selected class when one is selected. */
  lemma AppliedRowInSelectedClass(sel: Selection, row: map<string, string>, index: nat,
                                  number: string -> Option<real>, numberText: real -> string)
    requires ClassifyRow(sel, row, index, number, numberText).Applied?
    requires sel.classId.Some? && sel.classId.value != 0
    ensures ClassifyRow(sel, row, index, number, numberText).key.classId == sel.classId.value as real
  {
  }

  // ---------------------------------------------------------------------
  // The groups to save
  // ---------------------------------------------------------------------

  predicate DistinctKeys(groups: seq<Group>) {
    forall i, j :: 0 <= i < j < |groups| ==> groups[i].key != groups[j].key
  }

  /** The number of entries over all groups. */
  function TotalEntries(groups: seq<Group>): nat {
    if groups == [] then 0 else TotalEntries(groups[..|groups| - 1]) + |groups[|groups| - 1].entries|
  }

  lemma {:induction false} TotalEntriesUpdate(groups: seq<Group>, i: nat, g: Group)
    requires i < |groups|
    ensures TotalEntries(groups[i := g]) + |groups[i].entries| == TotalEntries(groups) + |g.entries|
    decreases |groups|
  {
    var n := |groups| - 1;
    if i < n {
      assert groups[i := g][..n] == groups[..n][i := g];
      TotalEntriesUpdate(groups[..n], i, g);
    } else {
      assert groups[i := g][..n] == groups[..n];
    }
  }

  function GroupIndex(groups: seq<Group>, key: GroupKey): (r: Option<nat>)
    ensures r.Some? ==> r.value < |groups| && groups[r.value].key == key
    ensures r.None? ==> forall i :: 0 <= i < |groups| ==> groups[i].key != key
  {
    if groups == [] then None
    else if groups[|groups| - 1].key == key then Some(|groups| - 1)
    else GroupIndex(groups[..|groups| - 1], key)
  }

  /** `groupedEntries.get(key) ?? new group`, push, `set(key, group)`: a Map
      keeps its first insertion position, so a new key goes last. */
  function AddToGroup(groups: seq<Group>, key: GroupKey, entry: GroupEntry): (r: seq<Group>)
    requires DistinctKeys(groups)
    ensures DistinctKeys(r)
    ensures TotalEntries(r) == TotalEntries(groups) + 1
    ensures (forall i :: 0 <= i < |groups| ==> groups[i].key != key) ==> r == groups + [Group(key, [entry])]
    ensures (exists i :: 0 <= i < |groups| && groups[i].key == key) ==>
      && |r| == |groups|
      && forall i :: 0 <= i < |groups| ==>
           r[i].key == groups[i].key &&
           r[i].entries == (if groups[i].key == key then groups[i].entries + [entry] else groups[i].entries)
  {
    match GroupIndex(groups, key)
    case None => groups + [Group(key, [entry])]
    case Some(i) =>
      var r := groups[i := Group(key, groups[i].entries + [entry])];
      TotalEntriesUpdate(groups, i, Group(key, groups[i].entries + [entry]));
      r
  }

  // ---------------------------------------------------------------------
  // The loop
  // ---------------------------------------------------------------------

  /** The counters, the errors, the updates map, the groups and the set of
      max_marks values (insertion order kept, as a Set does). */
  datatype Tally = Tally(applied: nat, skipped: nat, errors: seq<UploadError>,
                         updates: map<nat, MarkUpdate>, groups: seq<Group>, maxValues: seq<real>)

  /** `maxValues.add(value)` */
  function AddMax(values: seq<real>, v: Option<real>): (r: seq<real>)
    ensures v.Some? ==> v.value in r
    ensures forall x :: x in r <==> x in values || v == Some(x)
  {
    if v.Some? && v.value !in values then values + [v.value] else values
  }

  function Record(t: Tally, o: Outcome): Tally
    requires DistinctKeys(t.groups)
  {
    match o
    case Skipped(e, mv) =>
      t.(skipped := t.skipped + 1, errors := if e.Some? then t.errors + [e.value] else t.errors,
         maxValues := AddMax(t.maxValues, mv))
    case Applied(key, id, entry, u, mv) =>
      t.(applied := t.applied + 1, updates := if u.Some? then t.updates[id := u.value] else t.updates,
         groups := AddToGroup(t.groups, key, entry), maxValues := AddMax(t.maxValues, mv))
  }

  function Outcomes(sel: Selection, rows: seq<map<string, string>>,
                    number: string -> Option<real>, numberText: real -> string): (os: seq<Outcome>)
    ensures |os| == |rows|
    ensures forall k :: 0 <= k < |rows| ==> os[k] == ClassifyRow(sel, rows[k], k, number, numberText)
  {
    seq(|rows|, k requires 0 <= k < |rows| => ClassifyRow(sel, rows[k], k, number, numberText))
  }

  /** The updates map of the loop: an accepted record of the current
      selection sets its student's update. */
  function UpdatesOf(os: seq<Outcome>): (m: map<nat, MarkUpdate>)
    ensures forall id :: id in m <==>
      exists k :: 0 <= k < |os| && os[k].Applied? && os[k].update.Some? && os[k].studentId == id
  {
    if os == [] then map[]
    else
      var n := |os| - 1;
      assert forall k :: 0 <= k < n ==> os[..n][k] == os[k];
      var o := os[n];
      if o.Applied? && o.update.Some? then UpdatesOf(os[..n])[o.studentId := o.update.value] else UpdatesOf(os[..n])
  }

  /** The state after the loop has recorded the outcomes in order. */
  function TallyOf(os: seq<Outcome>): (t: Tally)
    ensures t.applied + t.skipped == |os|
    ensures TotalEntries(t.groups) == t.applied
    ensures DistinctKeys(t.groups)
    ensures |t.errors| <= t.skipped
    ensures t.updates == UpdatesOf(os)
  {
    if os == [] then Tally(0, 0, [], map[], [], [])
    else
      var n := |os| - 1;
      var prev := TallyOf(os[..n]);
      var o := os[n];
      assert UpdatesOf(os) ==
        if o.Applied? && o.update.Some? then UpdatesOf(os[..n])[o.studentId := o.update.value] else UpdatesOf(os[..n]);
      Record(prev, o)
  }

  /** A later record for the same on-screen student overrides an earlier one. */
  lemma {:induction false} LastUpdateWins(os: seq<Outcome>, k: nat)
    requires k < |os| && os[k].Applied? && os[k].update.Some?
    requires forall j :: k < j < |os| ==> !(os[j].Applied? && os[j].update.Some? && os[j].studentId == os[k].studentId)
    ensures os[k].studentId in UpdatesOf(os) && UpdatesOf(os)[os[k].studentId] == os[k].update.value
    decreases |os|
  {
    var n := |os| - 1;
    var o := os[n];
    assert UpdatesOf(os) == if o.Applied? && o.update.Some? then UpdatesOf(os[..n])[o.studentId := o.update.value] else UpdatesOf(os[..n]);
    if k < n {
      assert os[..n][k] == os[k];
      assert forall j :: k < j < n ==> os[..n][j] == os[j];
      LastUpdateWins(os[..n], k);
    }
  }

  /** The forEach over the records, given the outcome of each. */
  method RunRows(os: seq<Outcome>) returns (t: Tally)
    ensures t == TallyOf(os)
  {
    t := Tally(0, 0, [], map[], [], []);
    for index := 0 to |os|
      invariant t == TallyOf(os[..index])
    {
      assert os[..index + 1][..index] == os[..index];
      t := Record(t, os[index]);
    }
    assert os[..|os|] == os;
  }

  /** The merge: `{ ...entry, ...update }` for a student with an update. */
  function Merge(entries: seq<MarkEntry>, updates: map<nat, MarkUpdate>): (r: seq<MarkEntry>)
    ensures |r| == |entries|
    ensures forall i :: 0 <= i < |r| ==> r[i].studentId == entries[i].studentId
    ensures forall i :: 0 <= i < |r| && entries[i].studentId !in updates ==> r[i] == entries[i]
    ensures forall i :: 0 <= i < |r| && entries[i].studentId in updates ==>
      var u := updates[entries[i].studentId];
      r[i].marks == u.marks && r[i].isAbsent == u.isAbsent && r[i].isNotApplicable == u.isNotApplicable
  {
    seq(|entries|, i requires 0 <= i < |entries| =>
      var e := entries[i];
      if e.studentId in updates then
        MarkEntry(e.studentId, updates[e.studentId].marks, updates[e.studentId].isAbsent, updates[e.studentId].isNotApplicable)
      else e)
  }

  /** maxMarks after the upload: the one max_marks value seen, when there
      was exactly one and exam, subject and class are all selected. */
  function NewMaxMarks(sel: Selection, maxValues: seq<real>): (r: real)
    ensures |maxValues| != 1 ==> r == sel.maxMarks
    ensures !FullySelected(sel) ==> r == sel.maxMarks
    ensures |maxValues| == 1 && FullySelected(sel) ==> r == maxValues[0]
    ensures r != sel.maxMarks ==> r in maxValues
  {
    if |maxValues| == 1 && FullySelected(sel) then maxValues[0] else sel.maxMarks
  }

  /** `examId && subjectId && classId` */
  predicate FullySelected(sel: Selection) {
    Truthy(AsReal(sel.examId)) && Truthy(AsReal(sel.subjectId)) && Truthy(AsReal(sel.classId))
  }

  /** The marks page for its current selection. */
  class MarksSheet {
    var selection: Selection
    var entries: seq<MarkEntry>

    constructor (sel: Selection, initial: seq<MarkEntry>)
      ensures selection == sel && entries == initial
    {
      selection := sel;
      entries := initial;
    }

    /** handleCsvUpload after parsing: an empty file reports one error;
        otherwise the records are classified in order, maxMarks may take the
        single max_marks value seen, the updates are merged and the groups
        are returned for saving. */
    method HandleCsvUpload(rows: seq<map<string, string>>, number: string -> Option<real>, numberText: real -> string)
      returns (applied: nat, skipped: nat, errors: seq<UploadError>, groups: seq<Group>)
      modifies this
      ensures rows == [] ==>
        applied == 0 && skipped == 0 && errors == [NoDataRows] && groups == []
        && selection == old(selection) && entries == old(entries)
      ensures rows != [] ==>
        var t := TallyOf(Outcomes(old(selection), rows, number, numberText));
        && applied == t.applied && skipped == t.skipped && errors == t.errors && groups == t.groups
        && selection == old(selection).(maxMarks := NewMaxMarks(old(selection), t.maxValues))
        && entries == Merge(old(entries), t.updates)
      ensures applied + skipped == |rows| && TotalEntries(groups) == applied
    {
      if rows == [] {
        return 0, 0, [NoDataRows], [];
      }
      var t := RunRows(Outcomes(selection, rows, number, numberText));
      applied, skipped, errors, groups := t.applied, t.skipped, t.errors, t.groups;
      entries := Merge(entries, t.updates);
      selection := selection.(maxMarks := NewMaxMarks(selection, t.maxValues));
    }
  }
}
