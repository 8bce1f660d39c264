/** getStudentAnalytics of server/src/modules/analytics/analytics.service.ts:
    the student's attendance counts, the per-exam and per-subject marks
    aggregates built in one loop over the marks rows, the exam ordering,
    strengths and gaps, the trend and the month-by-month correlation pairs. */
module StudentAnalytics {
  import opened Common
  import opened AnalyticsPrimitives

  /** A row of the student's attendance query. */
  datatype AttendanceRow = AttendanceRow(date: string, status: string)

  /** A row of the student's marks query: the entry with its exam and subject. */
  datatype MarksRow = MarksRow(
    examId: nat, examName: string, startDate: Option<string>,
    subjectId: nat, subjectName: string,
    maxMarks: real, obtained: Option<real>, absent: bool)

  // ---------------------------------------------------------------------
  // Date window (startDate / endDate; "" means no bound)
  // ---------------------------------------------------------------------

  /** `s.date >= ?` and `s.date <= ?`, each only when its bound is given. */
  predicate DateInWindow(date: string, startDate: string, endDate: string) {
    (startDate == "" || LexLe(startDate, date)) && (endDate == "" || LexLe(date, endDate))
  }

  /** The same bounds on e.start_date: a null start date fails any bound. */
  predicate ExamInWindow(start: Option<string>, startDate: string, endDate: string) {
    (startDate == "" || (start.Some? && LexLe(startDate, start.value))) &&
    (endDate == "" || (start.Some? && LexLe(start.value, endDate)))
  }

  /** Without bounds every exam is kept; with one, undated exams drop out. */
  lemma WindowOnUndatedExams(startDate: string, endDate: string)
    ensures ExamInWindow(None, startDate, endDate) <==> startDate == "" && endDate == ""
  {
  }

  // ---------------------------------------------------------------------
  // Attendance counts
  // ---------------------------------------------------------------------

  datatype AttendanceCounts = AttendanceCounts(total: nat, present: nat, absent: nat, late: nat, excused: nat)

  predicate MarkedPresent(a: AttendanceRow) { a.status == "present" }
  predicate MarkedAbsent(a: AttendanceRow) { a.status == "absent" }
  predicate MarkedLate(a: AttendanceRow) { a.status == "late" }
  predicate MarkedExcused(a: AttendanceRow) { a.status == "excused" }

  /** The reduce over the attendance rows: every row counts towards the
      total, and each status count is the number of rows with that status. */
  function CountAttendance(rows: seq<AttendanceRow>): (c: AttendanceCounts)
    ensures c.total == |rows|
    ensures c.present == |Filter(rows, MarkedPresent)|
    ensures c.absent == |Filter(rows, MarkedAbsent)|
    ensures c.late == |Filter(rows, MarkedLate)|
    ensures c.excused == |Filter(rows, MarkedExcused)|
    ensures c.present + c.absent + c.late + c.excused <= c.total
  {
    if rows == [] then AttendanceCounts(0, 0, 0, 0, 0)
    else
      var c := CountAttendance(rows[..|rows| - 1]);
      var s := rows[|rows| - 1].status;
      AttendanceCounts(
        c.total + 1,
        c.present + (if s == "present" then 1 else 0),
        c.absent + (if s == "absent" then 1 else 0),
        c.late + (if s == "late" then 1 else 0),
        c.excused + (if s == "excused" then 1 else 0))
  }

  /** rate: present / total, null when there is no row. */
  function AttendanceRate(c: AttendanceCounts): (r: Option<real>)
    ensures r.None? <==> c.total == 0
  {
    if c.total != 0 then Some(c.present as real / c.total as real) else None
  }

  /** The rate is null exactly when no attendance row is in the window and
      otherwise lies in [0, 1]. */
  lemma AttendanceRateBounded(rows: seq<AttendanceRow>)
    ensures AttendanceRate(CountAttendance(rows)).None? <==> rows == []
    ensures AttendanceRate(CountAttendance(rows)).Some? ==>
      0.0 <= AttendanceRate(CountAttendance(rows)).value <= 1.0
  {
    var c := CountAttendance(rows);
    if c.total != 0 {
      RatioBounded(c.present as real, c.total as real);
    }
  }

  // ---------------------------------------------------------------------
  // The marks loop: examMap, subjectMap, absentExams
  // ---------------------------------------------------------------------

  datatype ExamAgg = ExamAgg(
    examId: nat, examName: string, startDate: Option<string>,
    maxTotal: real, obtainedTotal: real, absentCount: nat, missingCount: nat)

  datatype SubjectAgg = SubjectAgg(subjectId: nat, subjectName: string, maxTotal: real, obtainedTotal: real)

  datatype AbsentExam = AbsentExam(examId: nat, examName: string, subjectName: string)

  /** The initial exam record taken from the first row of an exam. */
  function NewExam(row: MarksRow): ExamAgg {
    ExamAgg(row.examId, row.examName, row.startDate, 0.0, 0.0, 0, 0)
  }

  /** One row's effect on its exam: an absent row adds max_marks and bumps
      absent_count, a marked row adds max_marks and marks_obtained, an
      unmarked row bumps missing_count. */
  function AddToExam(x: ExamAgg, row: MarksRow): ExamAgg {
    if row.absent then x.(absentCount := x.absentCount + 1, maxTotal := x.maxTotal + row.maxMarks)
    else if row.obtained.Some? then
      x.(maxTotal := x.maxTotal + row.maxMarks, obtainedTotal := x.obtainedTotal + row.obtained.value)
    else x.(missingCount := x.missingCount + 1)
  }

  function NewSubject(row: MarksRow): SubjectAgg {
    SubjectAgg(row.subjectId, row.subjectName, 0.0, 0.0)
  }

  /** One row's effect on its subject: unmarked rows change nothing. */
  function AddToSubject(x: SubjectAgg, row: MarksRow): SubjectAgg {
    if row.absent then x.(maxTotal := x.maxTotal + row.maxMarks)
    else if row.obtained.Some? then
      x.(maxTotal := x.maxTotal + row.maxMarks, obtainedTotal := x.obtainedTotal + row.obtained.value)
    else x
  }

  /** examMap.get(id) after the loop has seen `rows`. */
  function ExamAggOf(rows: seq<MarksRow>, id: nat): (r: Option<ExamAgg>)
    ensures r.Some? ==> r.value.examId == id
  {
    if rows == [] then None
    else
      var prev := ExamAggOf(rows[..|rows| - 1], id);
      var row := rows[|rows| - 1];
      if row.examId != id then prev
      else Some(AddToExam(if prev.Some? then prev.value else NewExam(row), row))
  }

  /** examMap after the loop has seen `rows`. */
  function ExamMapOf(rows: seq<MarksRow>): map<nat, ExamAgg> {
    if rows == [] then map[]
    else
      var m := ExamMapOf(rows[..|rows| - 1]);
      var row := rows[|rows| - 1];
      m[row.examId := AddToExam(if row.examId in m then m[row.examId] else NewExam(row), row)]
  }

  /** subjectMap after the loop has seen `rows`. */
  function SubjectMapOf(rows: seq<MarksRow>): map<nat, SubjectAgg> {
    if rows == [] then map[]
    else
      var m := SubjectMapOf(rows[..|rows| - 1]);
      var row := rows[|rows| - 1];
      m[row.subjectId := AddToSubject(if row.subjectId in m then m[row.subjectId] else NewSubject(row), row)]
  }

  /** The map holds exactly the records the per-exam definition gives. */
  lemma {:induction false} ExamMapAgrees(rows: seq<MarksRow>)
    ensures forall id :: ExamAggOf(rows, id) == (if id in ExamMapOf(rows) then Some(ExamMapOf(rows)[id]) else None)
  {
    if rows != [] {
      ExamMapAgrees(rows[..|rows| - 1]);
    }
  }

  lemma {:induction false} SubjectMapAgrees(rows: seq<MarksRow>)
    ensures forall id :: SubjectAggOf(rows, id) == (if id in SubjectMapOf(rows) then Some(SubjectMapOf(rows)[id]) else None)
  {
    if rows != [] {
      SubjectMapAgrees(rows[..|rows| - 1]);
    }
  }

  /** The insertion order of examMap's keys. */
  function ExamOrder(rows: seq<MarksRow>): seq<nat> {
    if rows == [] then []
    else
      var prefix := rows[..|rows| - 1];
      var id := rows[|rows| - 1].examId;
      ExamOrder(prefix) + (if id !in ExamMapOf(prefix) then [id] else [])
  }

  function SubjectAggOf(rows: seq<MarksRow>, id: nat): (r: Option<SubjectAgg>)
    ensures r.Some? ==> r.value.subjectId == id
  {
    if rows == [] then None
    else
      var prev := SubjectAggOf(rows[..|rows| - 1], id);
      var row := rows[|rows| - 1];
      if row.subjectId != id then prev
      else Some(AddToSubject(if prev.Some? then prev.value else NewSubject(row), row))
  }

  function SubjectOrder(rows: seq<MarksRow>): seq<nat> {
    if rows == [] then []
    else
      var prefix := rows[..|rows| - 1];
      var id := rows[|rows| - 1].subjectId;
      SubjectOrder(prefix) + (if id !in SubjectMapOf(prefix) then [id] else [])
  }

  function AbsentExamsOf(rows: seq<MarksRow>): seq<AbsentExam> {
    if rows == [] then []
    else
      var row := rows[|rows| - 1];
      AbsentExamsOf(rows[..|rows| - 1]) +
        (if row.absent then [AbsentItem(row)] else [])
  }

  /** Every key in the insertion order has a record, and every record's key
      is there exactly once. */
  lemma {:induction false} ExamOrderKeys(rows: seq<MarksRow>)
    ensures forall id :: id in ExamOrder(rows) <==> ExamAggOf(rows, id).Some?
    ensures forall i, j :: 0 <= i < j < |ExamOrder(rows)| ==> ExamOrder(rows)[i] != ExamOrder(rows)[j]
  {
    ExamMapAgrees(rows);
    if rows != [] {
      ExamOrderKeys(rows[..|rows| - 1]);
      ExamMapAgrees(rows[..|rows| - 1]);
    }
  }

  lemma {:induction false} SubjectOrderKeys(rows: seq<MarksRow>)
    ensures forall id :: id in SubjectOrder(rows) <==> SubjectAggOf(rows, id).Some?
    ensures forall i, j :: 0 <= i < j < |SubjectOrder(rows)| ==> SubjectOrder(rows)[i] != SubjectOrder(rows)[j]
  {
    SubjectMapAgrees(rows);
    if rows != [] {
      SubjectOrderKeys(rows[..|rows| - 1]);
      SubjectMapAgrees(rows[..|rows| - 1]);
    }
  }

  /** Array.from(examMap.values()): the exam records in insertion order. */
  function ExamsOf(rows: seq<MarksRow>): seq<ExamAgg> {
    var order := ExamOrder(rows);
    ExamOrderKeys(rows);
    seq(|order|, k requires 0 <= k < |order| => ExamAggOf(rows, order[k]).value)
  }

  function SubjectsOf(rows: seq<MarksRow>): seq<SubjectAgg> {
    var order := SubjectOrder(rows);
    SubjectOrderKeys(rows);
    seq(|order|, k requires 0 <= k < |order| => SubjectAggOf(rows, order[k]).value)
  }

  /** The for-of loop over the marks rows, then the maps' values in
      insertion order. */
  method AggregateMarks(rows: seq<MarksRow>) returns (exams: seq<ExamAgg>, subjects: seq<SubjectAgg>,
                                                     absentExams: seq<AbsentExam>)
    ensures exams == ExamsOf(rows)
    ensures subjects == SubjectsOf(rows)
    ensures absentExams == AbsentExamsOf(rows)
  {
    var examMap, examKeys, subjectMap, subjectKeys;
    examMap, examKeys, subjectMap, subjectKeys, absentExams := ScanMarks(rows);
    ExamMapAgrees(rows);
    SubjectMapAgrees(rows);
    ExamOrderKeys(rows);
    SubjectOrderKeys(rows);
    exams := seq(|examKeys|, k requires 0 <= k < |examKeys| => examMap[examKeys[k]]);
    subjects := seq(|subjectKeys|, k requires 0 <= k < |subjectKeys| => subjectMap[subjectKeys[k]]);
  }

  /** The loop over every row: examMap and subjectMap with their key
      orders, and the absent exams. */
  method ScanMarks(rows: seq<MarksRow>)
    returns (examMap: map<nat, ExamAgg>, examKeys: seq<nat>, subjectMap: map<nat, SubjectAgg>,
             subjectKeys: seq<nat>, absentExams: seq<AbsentExam>)
    ensures examMap == ExamMapOf(rows) && subjectMap == SubjectMapOf(rows)
    ensures examKeys == ExamOrder(rows)
    ensures subjectKeys == SubjectOrder(rows)
    ensures absentExams == AbsentExamsOf(rows)
  {
    examMap, examKeys, subjectMap, subjectKeys := map[], [], map[], [];
    absentExams := [];
    for i := 0 to |rows|
      invariant examMap == ExamMapOf(rows[..i]) && subjectMap == SubjectMapOf(rows[..i])
      invariant examKeys == ExamOrder(rows[..i])
      invariant subjectKeys == SubjectOrder(rows[..i])
      invariant absentExams == AbsentExamsOf(rows[..i])
    {
      var row := rows[i];
      assert rows[..i + 1][..i] == rows[..i];
      var exam := if row.examId in examMap then examMap[row.examId] else NewExam(row);
      if row.absent {
        absentExams := absentExams + [AbsentExam(row.examId, row.examName, row.subjectName)];
      }
      if row.examId !in examMap {
        examKeys := examKeys + [row.examId];
      }
      examMap := examMap[row.examId := AddToExam(exam, row)];

      var subject := if row.subjectId in subjectMap then subjectMap[row.subjectId] else NewSubject(row);
      if row.subjectId !in subjectMap {
        subjectKeys := subjectKeys + [row.subjectId];
      }
      subjectMap := subjectMap[row.subjectId := AddToSubject(subject, row)];
    }
    assert rows[..|rows|] == rows;
  }

  // ---------------------------------------------------------------------
  // What the aggregates count
  // ---------------------------------------------------------------------

  function OfExam(id: nat): MarksRow -> bool {
    (r: MarksRow) => r.examId == id
  }

  function RowsOfExam(rows: seq<MarksRow>, id: nat): seq<MarksRow> {
    Filter(rows, OfExam(id))
  }

  predicate IsMarked(r: MarksRow) {
    !r.absent && r.obtained.Some?
  }

  predicate IsMissing(r: MarksRow) {
    !r.absent && r.obtained.None?
  }

  predicate IsAbsentRow(r: MarksRow) {
    r.absent
  }

  /** The rows an exam's record has seen: those of the prefix, plus the
      last row when it belongs to the exam. */
  lemma RowsOfExamSnoc(rows: seq<MarksRow>, id: nat)
    requires rows != []
    ensures RowsOfExam(rows, id) == RowsOfExam(rows[..|rows| - 1], id)
      + (if rows[|rows| - 1].examId == id then [rows[|rows| - 1]] else [])
  {
    assert rows == rows[..|rows| - 1] + [rows[|rows| - 1]];
    FilterSnoc(rows[..|rows| - 1], rows[|rows| - 1], OfExam(id));
  }

  /** absent_count counts the exam's absent rows. */
  lemma {:induction false} ExamAbsentCount(rows: seq<MarksRow>, id: nat)
    requires ExamAggOf(rows, id).Some?
    ensures ExamAggOf(rows, id).value.absentCount == |Filter(RowsOfExam(rows, id), IsAbsentRow)|
  {
    var prefix := rows[..|rows| - 1];
    var row := rows[|rows| - 1];
    RowsOfExamSnoc(rows, id);
    if row.examId != id {
      assert RowsOfExam(rows, id) == RowsOfExam(prefix, id);
      assert ExamAggOf(rows, id) == ExamAggOf(prefix, id);
      ExamAbsentCount(prefix, id);
    } else {
      if ExamAggOf(prefix, id).Some? {
        ExamAbsentCount(prefix, id);
      } else {
        NoRecordNoRows(prefix, id);
      }
      FilterSnoc(RowsOfExam(prefix, id), row, IsAbsentRow);
    }
  }

  /** missing_count counts the exam's unmarked rows. */
  lemma {:induction false} ExamMissingCount(rows: seq<MarksRow>, id: nat)
    requires ExamAggOf(rows, id).Some?
    ensures ExamAggOf(rows, id).value.missingCount == |Filter(RowsOfExam(rows, id), IsMissing)|
  {
    var prefix := rows[..|rows| - 1];
    var row := rows[|rows| - 1];
    RowsOfExamSnoc(rows, id);
    if row.examId != id {
      assert RowsOfExam(rows, id) == RowsOfExam(prefix, id);
      assert ExamAggOf(rows, id) == ExamAggOf(prefix, id);
      ExamMissingCount(prefix, id);
    } else {
      if ExamAggOf(prefix, id).Some? {
        ExamMissingCount(prefix, id);
      } else {
        NoRecordNoRows(prefix, id);
      }
      FilterSnoc(RowsOfExam(prefix, id), row, IsMissing);
    }
  }

  /** Every row is exactly one of absent, marked and unmarked. */
  lemma {:induction false} RowKindsPartition(rows: seq<MarksRow>)
    ensures |Filter(rows, IsAbsentRow)| + |Filter(rows, IsMissing)| + |Filter(rows, IsMarked)| == |rows|
  {
    if rows != [] {
      var prefix := rows[..|rows| - 1];
      var row := rows[|rows| - 1];
      RowKindsPartition(prefix);
      assert rows == prefix + [row];
      FilterSnoc(prefix, row, IsAbsentRow);
      FilterSnoc(prefix, row, IsMissing);
      FilterSnoc(prefix, row, IsMarked);
    }
  }

  /** Per exam: absent + missing + marked rows = the exam's rows. */
  lemma ExamCountsAddUp(rows: seq<MarksRow>, id: nat)
    requires ExamAggOf(rows, id).Some?
    ensures ExamAggOf(rows, id).value.absentCount + ExamAggOf(rows, id).value.missingCount
      + |Filter(RowsOfExam(rows, id), IsMarked)| == |RowsOfExam(rows, id)|
  {
    ExamAbsentCount(rows, id);
    ExamMissingCount(rows, id);
    RowKindsPartition(RowsOfExam(rows, id));
  }

  /** An exam without a record has no rows. */
  lemma {:induction false} NoRecordNoRows(rows: seq<MarksRow>, id: nat)
    requires ExamAggOf(rows, id).None?
    ensures RowsOfExam(rows, id) == []
  {
    if rows != [] {
      var prefix := rows[..|rows| - 1];
      assert rows == prefix + [rows[|rows| - 1]];
      FilterSnoc(prefix, rows[|rows| - 1], OfExam(id));
      NoRecordNoRows(prefix, id);
      assert rows[|rows| - 1].examId != id;
      assert !OfExam(id)(rows[|rows| - 1]);
      assert Filter(prefix + [rows[|rows| - 1]], OfExam(id)) == [];
    }
  }

  function AbsentItem(row: MarksRow): AbsentExam {
    AbsentExam(row.examId, row.examName, row.subjectName)
  }

  /** absent_exams holds one item per absent row, in row order. */
  lemma {:induction false} AbsentExamsPerAbsentRow(rows: seq<MarksRow>)
    ensures |AbsentExamsOf(rows)| == |Filter(rows, IsAbsentRow)|
    ensures forall k :: 0 <= k < |AbsentExamsOf(rows)| ==>
      AbsentExamsOf(rows)[k] == AbsentItem(Filter(rows, IsAbsentRow)[k])
  {
    if rows != [] {
      var prefix := rows[..|rows| - 1];
      AbsentExamsPerAbsentRow(prefix);
      assert Filter(rows, IsAbsentRow) == Filter(prefix, IsAbsentRow)
        + (if IsAbsentRow(rows[|rows| - 1]) then [rows[|rows| - 1]] else []);
    }
  }

  // ---------------------------------------------------------------------
  // Exams: percent and ordering
  // ---------------------------------------------------------------------

  function ExamPercent(x: ExamAgg): Option<real> {
    ToPercent(x.obtainedTotal, x.maxTotal)
  }

  /** `!start_date` is true for null and for the empty string. */
  predicate HasDate(x: ExamAgg) {
    x.startDate.Some? && x.startDate.value != ""
  }

  /** The exam comparator as "may precede": dated exams by date, undated
      ones after them by exam id. */
  predicate ExamBefore(a: ExamAgg, b: ExamAgg) {
    if !HasDate(a) && !HasDate(b) then a.examId <= b.examId
    else if !HasDate(a) then false
    else if !HasDate(b) then true
    else LexLe(a.startDate.value, b.startDate.value)
  }

  lemma ExamBeforeIsPreorder()
    ensures TotalPreorder(ExamBefore)
  {
    forall a: ExamAgg, b: ExamAgg ensures ExamBefore(a, b) || ExamBefore(b, a) {
      if HasDate(a) && HasDate(b) {
        LexLeTotal(a.startDate.value, b.startDate.value);
      }
    }
    forall a: ExamAgg, b: ExamAgg, c: ExamAgg | ExamBefore(a, b) && ExamBefore(b, c)
      ensures ExamBefore(a, c)
    {
      if HasDate(a) && HasDate(b) && HasDate(c) {
        LexLeTransitive(a.startDate.value, b.startDate.value, c.startDate.value);
      }
    }
  }

  function SortExams(exams: seq<ExamAgg>): seq<ExamAgg> {
    SortBy(exams, ExamBefore)
  }

  /** The sorted exams: dated exams ascend by start date and every undated
      exam comes after every dated one, ordered by id; nothing is lost. */
  lemma SortedExamsOrder(exams: seq<ExamAgg>)
    ensures multiset(SortExams(exams)) == multiset(exams)
    ensures forall i, j :: 0 <= i < j < |SortExams(exams)| && !HasDate(SortExams(exams)[i]) ==>
      !HasDate(SortExams(exams)[j]) && SortExams(exams)[i].examId <= SortExams(exams)[j].examId
    ensures forall i, j ::
      0 <= i < j < |SortExams(exams)| && HasDate(SortExams(exams)[i]) && HasDate(SortExams(exams)[j])
      ==> LexLe(SortExams(exams)[i].startDate.value, SortExams(exams)[j].startDate.value)
  {
    ExamBeforeIsPreorder();
    SortBySorted(exams, ExamBefore);
  }

  /** Dated exams on one start date. */
  function OnStartDate(d: string): ExamAgg -> bool {
    (x: ExamAgg) => HasDate(x) && x.startDate.value == d
  }

  /** Exams sharing a start date keep their record order (the sort is
      stable). */
  lemma SortedExamsStable(exams: seq<ExamAgg>, d: string)
    ensures Filter(SortExams(exams), OnStartDate(d)) == Filter(exams, OnStartDate(d))
  {
    LexLeTotal(d, d);
    assert TiedUnder(OnStartDate(d), ExamBefore);
    SortByStable(exams, ExamBefore, OnStartDate(d));
  }

  // ---------------------------------------------------------------------
  // Subjects: strengths and gaps
  // ---------------------------------------------------------------------

  function SubjectPercent(x: SubjectAgg): Option<real> {
    ToPercent(x.obtainedTotal, x.maxTotal)
  }

  function SubjectKey(x: SubjectAgg): real {
    SubjectPercent(x).GetOr(0.0)
  }

  /** (b.avg_percent ?? 0) - (a.avg_percent ?? 0) as "may precede". */
  const SubjectDescending: (SubjectAgg, SubjectAgg) -> bool :=
    (a: SubjectAgg, b: SubjectAgg) => SubjectKey(b) <= SubjectKey(a)

  function SortSubjects(subjects: seq<SubjectAgg>): seq<SubjectAgg> {
    SortBy(subjects, SubjectDescending)
  }

  function Strengths(subjects: seq<SubjectAgg>): seq<SubjectAgg> {
    Take(SortSubjects(subjects), 3)
  }

  function Gaps(subjects: seq<SubjectAgg>): seq<SubjectAgg> {
    Take(Reverse(SortSubjects(subjects)), 3)
  }

  lemma SortedSubjectsFacts(subjects: seq<SubjectAgg>)
    ensures SortedBy(SortSubjects(subjects), SubjectDescending)
    ensures multiset(SortSubjects(subjects)) == multiset(subjects)
  {
    assert TotalPreorder(SubjectDescending);
    SortBySorted(subjects, SubjectDescending);
  }

  /** Subjects of one percent (null read as 0). */
  function WithSubjectKey(v: real): SubjectAgg -> bool {
    (x: SubjectAgg) => SubjectKey(x) == v
  }

  /** Subjects with equal percents keep their record order in the ranking
      (the sort is stable), which decides the tied strengths and gaps. */
  lemma SortedSubjectsStable(subjects: seq<SubjectAgg>, v: real)
    ensures Filter(SortSubjects(subjects), WithSubjectKey(v)) == Filter(subjects, WithSubjectKey(v))
  {
    SortByStable(subjects, SubjectDescending, WithSubjectKey(v));
  }

  /** strengths: min(3, n) subjects, none ranked below a subject left out. */
  lemma StrengthsRankFirst(subjects: seq<SubjectAgg>)
    ensures |Strengths(subjects)| == Min(3, |subjects|)
    ensures forall i, j :: 0 <= i < |Strengths(subjects)| <= j < |subjects| ==>
      SubjectKey(SortSubjects(subjects)[j]) <= SubjectKey(Strengths(subjects)[i])
    ensures forall s :: s in Strengths(subjects) ==> s in subjects
  {
    var sorted := SortSubjects(subjects);
    var strengths := Strengths(subjects);
    SortedSubjectsFacts(subjects);
    forall i, j | 0 <= i < |strengths| <= j < |subjects|
      ensures SubjectKey(sorted[j]) <= SubjectKey(strengths[i])
    {
      assert strengths[i] == sorted[i];
      assert SubjectDescending(sorted[i], sorted[j]);
    }
    forall s | s in strengths ensures s in subjects {
      assert s in multiset(sorted);
    }
  }

  /** gaps: the min(3, n) lowest-ranked subjects, lowest first. */
  lemma GapsRankLast(subjects: seq<SubjectAgg>)
    ensures |Gaps(subjects)| == Min(3, |subjects|)
    ensures |SortSubjects(subjects)| == |subjects|
    ensures forall i :: 0 <= i < |Gaps(subjects)| ==>
      Gaps(subjects)[i] == SortSubjects(subjects)[|subjects| - 1 - i]
    ensures forall i, j :: 0 <= i < j < |Gaps(subjects)| ==>
      SubjectKey(Gaps(subjects)[i]) <= SubjectKey(Gaps(subjects)[j])
    ensures forall i, j :: 0 <= i < |Gaps(subjects)| && 0 <= j < |subjects| - |Gaps(subjects)| ==>
      SubjectKey(Gaps(subjects)[i]) <= SubjectKey(SortSubjects(subjects)[j])
    ensures forall s :: s in Gaps(subjects) ==> s in subjects
  {
    var sorted := SortSubjects(subjects);
    var gaps := Gaps(subjects);
    SortedSubjectsFacts(subjects);
    assert |sorted| == |multiset(sorted)| == |subjects|;
    ReversedTakeSorted(sorted, SubjectDescending, 3);
    ReversedTakeLast(sorted, SubjectDescending, 3);
    forall i, j | 0 <= i < j < |gaps|
      ensures SubjectKey(gaps[i]) <= SubjectKey(gaps[j])
    {
      assert SubjectDescending(gaps[j], gaps[i]);
    }
    forall i, j | 0 <= i < |gaps| && 0 <= j < |subjects| - |gaps|
      ensures SubjectKey(gaps[i]) <= SubjectKey(sorted[j])
    {
      assert SubjectDescending(sorted[j], gaps[i]);
    }
    forall s | s in gaps ensures s in subjects {
      assert s in multiset(sorted);
    }
  }

  // ---------------------------------------------------------------------
  // Trend
  // ---------------------------------------------------------------------

  datatype Direction = Improving | Declining | Steady | NoTrend

  datatype Trend = Trend(direction: Direction, delta: Option<real>)

  /** The trend from the non-null exam percents in exam order: the change
      between the last two, steady under 0.02 in absolute value. */
  function TrendOf(percents: seq<real>): (t: Trend)
    ensures t.direction == NoTrend <==> |percents| < 2
    ensures t.delta.None? <==> |percents| < 2
    ensures t.delta.Some? ==> t.delta.value == percents[|percents| - 1] - percents[|percents| - 2]
    ensures t.direction == Steady ==> -0.02 < t.delta.value < 0.02
    ensures t.direction == Improving ==> t.delta.value >= 0.02
    ensures t.direction == Declining ==> t.delta.value <= -0.02
  {
    if |percents| < 2 then Trend(NoTrend, None)
    else
      var delta := percents[|percents| - 1] - percents[|percents| - 2];
      if -0.02 < delta < 0.02 then Trend(Steady, Some(delta))
      else if delta > 0.0 then Trend(Improving, Some(delta))
      else Trend(Declining, Some(delta))
  }

  function ExamPercents(exams: seq<ExamAgg>): seq<Option<real>> {
    seq(|exams|, k requires 0 <= k < |exams| => ExamPercent(exams[k]))
  }

  // ---------------------------------------------------------------------
  // Correlation pairs: one per dated, scored exam whose month has attendance
  // ---------------------------------------------------------------------

  function PresentIndicators(rows: seq<AttendanceRow>): seq<Option<real>> {
    seq(|rows|, k requires 0 <= k < |rows| => Some(if rows[k].status == "present" then 1.0 else 0.0))
  }

  /** present_rate for one month over all the student's attendance rows:
      null when the month has none. */
  function MonthRate(attendance: seq<AttendanceRow>, month: string): (r: Option<real>)
    ensures r.None? <==> forall i :: 0 <= i < |attendance| ==> Take(attendance[i].date, 7) != month
    ensures r.Some? ==> 0.0 <= r.value <= 1.0
  {
    var inMonth := (a: AttendanceRow) => Take(a.date, 7) == month;
    var own := Filter(attendance, inMonth);
    FilterMembers(attendance, inMonth);
    var values := PresentIndicators(own);
    PresentAllSome(values);
    AverageWithinBounds(values, 0.0, 1.0);
    assert own != [] ==> own[0] in attendance;
    assert forall i :: 0 <= i < |attendance| && Take(attendance[i].date, 7) == month ==> attendance[i] in own;
    Average(values)
  }

  /** The pair an exam contributes, if any. */
  function ExamPair(x: ExamAgg, attendance: seq<AttendanceRow>): Option<Pair> {
    if !HasDate(x) || ExamPercent(x).None? then None
    else
      var rate := MonthRate(attendance, Take(x.startDate.value, 7));
      if rate.Some? then Some(Pair(rate.value, ExamPercent(x).value)) else None
  }

  function PairsOf(exams: seq<ExamAgg>, attendance: seq<AttendanceRow>): seq<Pair> {
    if exams == [] then []
    else
      var p := ExamPair(exams[|exams| - 1], attendance);
      PairsOf(exams[..|exams| - 1], attendance) + (if p.Some? then [p.value] else [])
  }

  /** The loop over the sorted exams that pushes the pairs. */
  method CorrelationPairs(exams: seq<ExamAgg>, attendance: seq<AttendanceRow>) returns (pairs: seq<Pair>)
    ensures pairs == PairsOf(exams, attendance)
  {
    pairs := [];
    for i := 0 to |exams|
      invariant pairs == PairsOf(exams[..i], attendance)
    {
      assert exams[..i + 1][..i] == exams[..i];
      var exam := exams[i];
      if !HasDate(exam) || ExamPercent(exam).None? {
        continue;
      }
      var month := Take(exam.startDate.value, 7);
      var rate := MonthRate(attendance, month);
      if rate.Some? {
        pairs := pairs + [Pair(rate.value, ExamPercent(exam).value)];
      }
    }
    assert exams[..|exams|] == exams;
  }

  /** Each pair comes from a dated exam with a percent and an attendance
      rate in [0, 1]; there are at most as many pairs as exams. */
  lemma {:induction false} PairsFromDatedScoredExams(exams: seq<ExamAgg>, attendance: seq<AttendanceRow>)
    ensures |PairsOf(exams, attendance)| <= |exams|
    ensures forall k :: 0 <= k < |PairsOf(exams, attendance)| ==>
      0.0 <= PairsOf(exams, attendance)[k].attendance <= 1.0 &&
      exists i :: 0 <= i < |exams| && HasDate(exams[i]) && ExamPercent(exams[i]) == Some(PairsOf(exams, attendance)[k].marks)
  {
    if exams != [] {
      var prefix := exams[..|exams| - 1];
      PairsFromDatedScoredExams(prefix, attendance);
      var ps := PairsOf(exams, attendance);
      forall k | 0 <= k < |ps|
        ensures 0.0 <= ps[k].attendance <= 1.0 &&
          exists i :: 0 <= i < |exams| && HasDate(exams[i]) && ExamPercent(exams[i]) == Some(ps[k].marks)
      {
        if k < |PairsOf(prefix, attendance)| {
          var i :| 0 <= i < |prefix| && HasDate(prefix[i]) && ExamPercent(prefix[i]) == Some(PairsOf(prefix, attendance)[k].marks);
          assert exams[i] == prefix[i];
        } else {
          assert HasDate(exams[|exams| - 1]);
        }
      }
    }
  }

  // ---------------------------------------------------------------------
  // The report
  // ---------------------------------------------------------------------

  datatype StudentReport = StudentReport(
    counts: AttendanceCounts, rate: Option<real>, log: seq<AttendanceRow>,
    overallPercent: Option<real>, exams: seq<ExamAgg>, subjects: seq<SubjectAgg>,
    strengths: seq<SubjectAgg>, gaps: seq<SubjectAgg>, absentExams: seq<AbsentExam>,
    trend: Trend, correlation: Option<real>)

  function AttendanceInWindow(attendance: seq<AttendanceRow>, startDate: string, endDate: string): (r: seq<AttendanceRow>)
    ensures forall a :: a in r <==> a in attendance && DateInWindow(a.date, startDate, endDate)
  {
    var inWindow := (a: AttendanceRow) => DateInWindow(a.date, startDate, endDate);
    FilterMembers(attendance, inWindow);
    Filter(attendance, inWindow)
  }

  function MarksInWindow(marks: seq<MarksRow>, startDate: string, endDate: string): seq<MarksRow> {
    Filter(marks, (m: MarksRow) => ExamInWindow(m.startDate, startDate, endDate))
  }

  /** getStudentAnalytics after the student lookup. `attendance` and
      `marks` are all the student's rows in query order; `sqrt` stands for
      Math.sqrt. */
  function StudentReportOf(attendance: seq<AttendanceRow>, marks: seq<MarksRow>,
                           startDate: string, endDate: string, sqrt: real -> real): StudentReport
  {
    var log := AttendanceInWindow(attendance, startDate, endDate);
    var counts := CountAttendance(log);
    var rows := MarksInWindow(marks, startDate, endDate);
    var exams := SortExams(ExamsOf(rows));
    var subjects := SubjectsOf(rows);
    StudentReport(
      counts, AttendanceRate(counts), log,
      Average(ExamPercents(exams)), exams, subjects,
      Strengths(subjects), Gaps(subjects), AbsentExamsOf(rows),
      TrendOf(Present(ExamPercents(exams))),
      CorrelationOf(PairsOf(exams, attendance), sqrt))
  }

  /** getStudentAnalytics: null for an unknown student. */
  method GetStudentAnalytics(studentExists: bool, attendance: seq<AttendanceRow>, marks: seq<MarksRow>,
                             startDate: string, endDate: string, sqrt: real -> real)
    returns (r: Option<StudentReport>)
    ensures r.None? <==> !studentExists
    ensures r.Some? ==> r.value == StudentReportOf(attendance, marks, startDate, endDate, sqrt)
  {
    if !studentExists {
      return None;
    }
    var log := AttendanceInWindow(attendance, startDate, endDate);
    var counts := CountAttendance(log);
    var rows := MarksInWindow(marks, startDate, endDate);
    var examRecords, subjects, absentExams := AggregateMarks(rows);
    var exams := SortExams(examRecords);
    var pairs := CorrelationPairs(exams, attendance);
    var c := Correlation(pairs, sqrt);
    r := Some(StudentReport(
      counts, AttendanceRate(counts), log,
      Average(ExamPercents(exams)), exams, subjects,
      Strengths(subjects), Gaps(subjects), absentExams,
      TrendOf(Present(ExamPercents(exams))), c));
  }

  /** The log and the counts cover exactly the rows in the window, and
      every exam row kept is in the window. */
  lemma ReportWindow(attendance: seq<AttendanceRow>, marks: seq<MarksRow>,
                     startDate: string, endDate: string, sqrt: real -> real)
    ensures var r := StudentReportOf(attendance, marks, startDate, endDate, sqrt);
      r.counts.total == |r.log| &&
      (forall a :: a in r.log <==> a in attendance && DateInWindow(a.date, startDate, endDate)) &&
      (forall x :: x in r.exams ==> ExamInWindow(x.startDate, startDate, endDate))
  {
    var rows := MarksInWindow(marks, startDate, endDate);
    var exams := ExamsOf(rows);
    forall x | x in SortExams(exams) ensures ExamInWindow(x.startDate, startDate, endDate) {
      SortedExamsOrder(exams);
      assert x in multiset(exams);
      var k :| 0 <= k < |exams| && exams[k] == x;
      ExamOrderKeys(rows);
      ExamRecordDate(rows, ExamOrder(rows)[k]);
    }
  }

  /** An exam's record carries the start date of one of its rows. */
  lemma {:induction false} ExamRecordDate(rows: seq<MarksRow>, id: nat)
    requires ExamAggOf(rows, id).Some?
    ensures exists i :: 0 <= i < |rows| && rows[i].examId == id && rows[i].startDate == ExamAggOf(rows, id).value.startDate
  {
    var prefix := rows[..|rows| - 1];
    if ExamAggOf(prefix, id).Some? {
      ExamRecordDate(prefix, id);
      var i :| 0 <= i < |prefix| && prefix[i].examId == id && prefix[i].startDate == ExamAggOf(prefix, id).value.startDate;
      assert rows[i] == prefix[i];
    } else {
      assert rows[|rows| - 1].examId == id;
    }
  }
}
