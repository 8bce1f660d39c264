/** The two class reports of server/src/modules/analytics/analytics.service.ts:
    getClassAnalytics (the monthly report) and getClassExamAnalytics (the
    per-exam report). Each SQL aggregate is a fold over the marks_entries or
    attendance rows the query reads; the post-processing follows the
    TypeScript. */
module ClassAnalytics {
  import opened Common
  import opened AnalyticsPrimitives

  /** A row of marks_entries. */
  datatype MarksEntry = MarksEntry(
    examId: nat, classId: nat, subjectId: nat, studentId: nat,
    maxMarks: real, obtained: Option<real>, absent: bool)

  /** Neither absent nor marked: the row counts as missing. */
  predicate Unmarked(e: MarksEntry) {
    !e.absent && e.obtained.None?
  }

  datatype Subject = Subject(id: nat, name: string)

  // ---------------------------------------------------------------------
  // Subject averages (both reports)
  // ---------------------------------------------------------------------

  /** The per-row ratio the AVG reads: NULL for an absent or unmarked row,
      and NULL (SQLite's division by zero) when max_marks is 0. */
  function EntryRatio(e: MarksEntry): (r: Option<real>)
    ensures r.Some? ==> !e.absent && e.obtained.Some? && e.maxMarks != 0.0
  {
    if e.absent || e.obtained.None? || e.maxMarks == 0.0 then None
    else Some(e.obtained.value / e.maxMarks)
  }

  function Ratios(rows: seq<MarksEntry>): seq<Option<real>> {
    seq(|rows|, k requires 0 <= k < |rows| => EntryRatio(rows[k]))
  }

  datatype SubjectAverage = SubjectAverage(subjectId: nat, subjectName: string, avgPercent: Option<real>)

  const ByName: (Subject, Subject) -> bool := (a: Subject, b: Subject) => LexLe(a.name, b.name)

  /** The subject-average query: one row per subject that has entries for
      the exam and class, ordered by subject name, holding the AVG of the
      row ratios. */
  function SubjectAverages(entries: seq<MarksEntry>, examId: nat, classId: nat, subjects: seq<Subject>)
    : (r: seq<SubjectAverage>)
    ensures |r| <= |subjects|
  {
    var rows := Filter(entries, (e: MarksEntry) => e.examId == examId && e.classId == classId);
    var withRows := Filter(SortBy(subjects, ByName),
      (sb: Subject) => exists i :: 0 <= i < |rows| && rows[i].subjectId == sb.id);
    seq(|withRows|, k requires 0 <= k < |withRows| =>
      SubjectAverage(withRows[k].id, withRows[k].name,
        Average(Ratios(Filter(rows, (e: MarksEntry) => e.subjectId == withRows[k].id)))))
  }

  /** A subject's average is null exactly when none of its rows yields a
      ratio: every row is absent, unmarked or has max_marks 0. */
  lemma {:induction false} RatiosNullIff(rows: seq<MarksEntry>)
    ensures |Present(Ratios(rows))| == 0 <==>
      forall i :: 0 <= i < |rows| ==> rows[i].absent || rows[i].obtained.None? || rows[i].maxMarks == 0.0
  {
    if rows != [] {
      RatiosNullIff(rows[1..]);
      assert Ratios(rows)[1..] == Ratios(rows[1..]);
      forall i | 1 <= i < |rows| ensures rows[i] == rows[1..][i - 1] { }
    }
  }

  /** Every subject average lies in [0, 1] when each scored row has
      0 <= marks_obtained <= max_marks. */
  lemma SubjectAverageBounded(rows: seq<MarksEntry>)
    requires forall e :: e in rows && e.obtained.Some? ==> 0.0 <= e.obtained.value <= e.maxMarks
    ensures Average(Ratios(rows)).Some? ==> 0.0 <= Average(Ratios(rows)).value <= 1.0
  {
    var values := Ratios(rows);
    forall v | Some(v) in values ensures 0.0 <= v <= 1.0 {
      var k :| 0 <= k < |values| && values[k] == Some(v);
      var e := rows[k];
      assert e in rows;
      RatioBounded(e.obtained.value, e.maxMarks);
    }
    AverageWithinBounds(values, 0.0, 1.0);
  }

  // ---------------------------------------------------------------------
  // getClassAnalytics
  // ---------------------------------------------------------------------

  /** The marks aggregate of the monthly report: an absent row adds its
      max_marks only, a marked row adds max_marks and marks_obtained, an
      unmarked row adds 1 to missing_count only. */
  datatype MonthlyTotals = MonthlyTotals(maxTotal: real, obtainedTotal: real, missingCount: nat)

  function MonthlyTotalsOf(rows: seq<MarksEntry>): (t: MonthlyTotals)
    ensures t.missingCount == |Filter(rows, Unmarked)|
    ensures t.missingCount <= |rows|
    ensures (forall i :: 0 <= i < |rows| ==> !Unmarked(rows[i])) ==> t.missingCount == 0
  {
    if rows == [] then MonthlyTotals(0.0, 0.0, 0)
    else
      var t := MonthlyTotalsOf(rows[..|rows| - 1]);
      var e := rows[|rows| - 1];
      if e.absent then t.(maxTotal := t.maxTotal + e.maxMarks)
      else if e.obtained.Some? then
        t.(maxTotal := t.maxTotal + e.maxMarks, obtainedTotal := t.obtainedTotal + e.obtained.value)
      else t.(missingCount := t.missingCount + 1)
  }

  /** The rows of one student for one exam and class. */
  function StudentRows(entries: seq<MarksEntry>, examId: nat, classId: nat, studentId: nat): seq<MarksEntry> {
    Filter(entries, (e: MarksEntry) => e.examId == examId && e.classId == classId && e.studentId == studentId)
  }

  /** marks_percent: null unless the accumulated max_total is positive. */
  function MarksPercent(t: MonthlyTotals): (r: Option<real>)
    ensures r.None? <==> t.maxTotal <= 0.0
  {
    if t.maxTotal > 0.0 then Some(t.obtainedTotal / t.maxTotal) else None
  }

  /** An attendance entry of one of the class's sessions. */
  datatype AttendanceMark = AttendanceMark(studentId: nat, status: string)

  function PresentIndicators(marks: seq<AttendanceMark>): seq<Option<real>> {
    seq(|marks|, k requires 0 <= k < |marks| => Some(if marks[k].status == "present" then 1.0 else 0.0))
  }

  /** attendance_rate: AVG over the student's entries of 1 for present and
      0 otherwise; no row (null) for a student without entries. */
  function AttendanceRate(marks: seq<AttendanceMark>, studentId: nat): (r: Option<real>)
    ensures r.None? <==> forall i :: 0 <= i < |marks| ==> marks[i].studentId != studentId
    ensures r.Some? ==> 0.0 <= r.value <= 1.0
  {
    var ofStudent := (a: AttendanceMark) => a.studentId == studentId;
    var own := Filter(marks, ofStudent);
    FilterMembers(marks, ofStudent);
    var values := PresentIndicators(own);
    PresentAllSome(values);
    AverageWithinBounds(values, 0.0, 1.0);
    assert own != [] ==> own[0] in marks;
    assert forall i :: 0 <= i < |marks| && marks[i].studentId == studentId ==> marks[i] in own;
    Average(values)
  }

  datatype StudentPerformance = StudentPerformance(
    studentId: nat, attendanceRate: Option<real>, marksPercent: Option<real>,
    performanceScore: Option<real>, riskLevel: Risk, missingMarks: nat)

  function Performance(studentId: nat, attendance: seq<AttendanceMark>, latestExam: Option<nat>,
                       entries: seq<MarksEntry>, classId: nat): (p: StudentPerformance)
    ensures p.studentId == studentId
    ensures p.riskLevel == Unknown <==> p.attendanceRate.None? && p.marksPercent.None?
    ensures latestExam.None? ==> p.marksPercent.None? && p.missingMarks == 0
  {
    var rate := AttendanceRate(attendance, studentId);
    var t := if latestExam.Some? then MonthlyTotalsOf(StudentRows(entries, latestExam.value, classId, studentId))
             else MonthlyTotals(0.0, 0.0, 0);
    var pct := MarksPercent(t);
    StudentPerformance(studentId, rate, pct, ComputeScore(rate, pct), ComputeRisk(rate, pct), t.missingCount)
  }

  datatype ClassReport = ClassReport(
    averageAttendance: Option<real>, averageMarks: Option<real>, correlation: Option<real>,
    riskCounts: RiskCounts, subjectAverages: seq<SubjectAverage>,
    marksDistribution: seq<Bucket>, studentPerformance: seq<StudentPerformance>)

  function AttendanceRates(ps: seq<StudentPerformance>): seq<Option<real>> {
    seq(|ps|, k requires 0 <= k < |ps| => ps[k].attendanceRate)
  }

  function MarksPercents(ps: seq<StudentPerformance>): seq<Option<real>> {
    seq(|ps|, k requires 0 <= k < |ps| => ps[k].marksPercent)
  }

  function RiskLevels(ps: seq<StudentPerformance>): seq<Risk> {
    seq(|ps|, k requires 0 <= k < |ps| => ps[k].riskLevel)
  }

  /** `attendance_rate !== null && marks_percent !== null` */
  predicate HasBothRates(s: StudentPerformance) {
    s.attendanceRate.Some? && s.marksPercent.Some?
  }

  function PairOf(s: StudentPerformance): Pair
    requires HasBothRates(s)
  {
    Pair(s.attendanceRate.value, s.marksPercent.value)
  }

  /** The students with both rates, as correlation pairs. */
  function CorrelationPairs(ps: seq<StudentPerformance>): (r: seq<Pair>)
    ensures |r| <= |ps|
  {
    var both := Filter(ps, HasBothRates);
    seq(|both|, k requires 0 <= k < |both| => PairOf(both[k]))
  }

  /** The filter then map, one student at a time: a student adds its pair
      at the end exactly when it has both rates. */
  lemma CorrelationPairsSnoc(ps: seq<StudentPerformance>, s: StudentPerformance)
    ensures CorrelationPairs([]) == []
    ensures CorrelationPairs(ps + [s]) == CorrelationPairs(ps) + (if HasBothRates(s) then [PairOf(s)] else [])
  {
    FilterSnoc(ps, s, HasBothRates);
  }

  /** A pair is taken exactly from a student with both rates. */
  lemma CorrelationPairsMembers(ps: seq<StudentPerformance>)
    ensures forall s :: s in ps && HasBothRates(s) ==> PairOf(s) in CorrelationPairs(ps)
    ensures forall p :: p in CorrelationPairs(ps) ==> exists s :: s in ps && HasBothRates(s) && p == PairOf(s)
  {
    var both := Filter(ps, HasBothRates);
    FilterMembers(ps, HasBothRates);
    forall s | s in ps && HasBothRates(s)
      ensures PairOf(s) in CorrelationPairs(ps)
    {
      var k :| 0 <= k < |both| && both[k] == s;
      assert CorrelationPairs(ps)[k] == PairOf(s);
    }
    forall p | p in CorrelationPairs(ps)
      ensures exists s :: s in ps && HasBothRates(s) && p == PairOf(s)
    {
      var k :| 0 <= k < |CorrelationPairs(ps)| && CorrelationPairs(ps)[k] == p;
      assert both[k] in ps && HasBothRates(both[k]);
    }
  }

  /** getClassAnalytics after the class lookup: `students` are the active
      students of the class in query order, `attendance` the entries of the
      class's sessions, `latestExam` the exam the latest-exam query picked,
      `sqrt` stands for Math.sqrt. */
  function ClassReportOf(students: seq<nat>, attendance: seq<AttendanceMark>, latestExam: Option<nat>,
                         entries: seq<MarksEntry>, classId: nat, subjects: seq<Subject>,
                         sqrt: real -> real): (r: ClassReport)
    ensures |r.studentPerformance| == |students|
    ensures forall k :: 0 <= k < |students| ==> r.studentPerformance[k].studentId == students[k]
    ensures r.riskCounts.Total() == |students|
    ensures latestExam.None? ==> r.subjectAverages == [] && r.averageMarks.None?
  {
    var ps := Performances(students, attendance, latestExam, entries, classId);
    var pairs := CorrelationPairs(ps);
    ClassReport(
      Average(AttendanceRates(ps)),
      Average(MarksPercents(ps)),
      CorrelationOf(pairs, sqrt),
      TallyRisks(RiskLevels(ps)),
      if latestExam.Some? then SubjectAverages(entries, latestExam.value, classId, subjects) else [],
      BuildDistribution(MarksPercents(ps)),
      ps)
  }

  /** A class without active students has no averages, no coefficient,
      zero risk counts and no performance rows; its distribution is the
      five empty buckets. */
  lemma EmptyClassReport(attendance: seq<AttendanceMark>, latestExam: Option<nat>,
                         entries: seq<MarksEntry>, classId: nat, subjects: seq<Subject>, sqrt: real -> real)
    ensures var r := ClassReportOf([], attendance, latestExam, entries, classId, subjects, sqrt);
      r.averageAttendance.None? && r.averageMarks.None? && r.correlation.None? &&
      |r.marksDistribution| == 5 && TotalCount(r.marksDistribution) == 0 &&
      r.riskCounts == RiskCounts(0, 0, 0, 0) && r.studentPerformance == []
  {
    var ps := Performances([], attendance, latestExam, entries, classId);
    assert AttendanceRates(ps) == [] && MarksPercents(ps) == [] && CorrelationPairs(ps) == [];
    DistributionPartition(MarksPercents(ps));
  }

  /** Every student lands in exactly one bucket of the marks distribution
      when the marks entries are well formed. */
  lemma ClassDistributionCountsEveryStudent(students: seq<nat>, attendance: seq<AttendanceMark>,
      latestExam: Option<nat>, entries: seq<MarksEntry>, classId: nat, subjects: seq<Subject>, sqrt: real -> real)
    requires forall e :: e in entries ==> WellFormed(e)
    ensures TotalCount(ClassReportOf(students, attendance, latestExam, entries, classId, subjects, sqrt)
      .marksDistribution) == |students|
  {
    var ps := Performances(students, attendance, latestExam, entries, classId);
    var values := MarksPercents(ps);
    forall i | 0 <= i < |values| && values[i].Some? ensures 0.0 <= values[i].value < 1.01 {
      var rows := StudentRows(entries, latestExam.value, classId, students[i]);
      MarksPercentBounded(rows);
    }
    DistributionPartition(values);
  }

  /** studentPerformance: one row per student, in the students' order. */
  function Performances(students: seq<nat>, attendance: seq<AttendanceMark>, latestExam: Option<nat>,
                        entries: seq<MarksEntry>, classId: nat): (ps: seq<StudentPerformance>)
    ensures |ps| == |students|
    ensures forall k :: 0 <= k < |students| ==> ps[k].studentId == students[k]
    ensures latestExam.None? ==> Present(MarksPercents(ps)) == []
  {
    var ps := seq(|students|, k requires 0 <= k < |students| =>
      Performance(students[k], attendance, latestExam, entries, classId));
    assert latestExam.None? ==> Present(MarksPercents(ps)) == [] by {
      if latestExam.None? {
        NoPresentWhenAllNull(MarksPercents(ps));
      }
    }
    ps
  }

  lemma {:induction false} NoPresentWhenAllNull(values: seq<Option<real>>)
    requires forall i :: 0 <= i < |values| ==> values[i].None?
    ensures Present(values) == []
  {
    if values != [] {
      NoPresentWhenAllNull(values[1..]);
    }
  }

  /** With every row's 0 <= marks_obtained <= max_marks, marks_percent lies
      in [0, 1]. */
  lemma MarksPercentBounded(rows: seq<MarksEntry>)
    requires forall e :: e in rows ==> WellFormed(e)
    ensures MarksPercent(MonthlyTotalsOf(rows)).Some? ==> 0.0 <= MarksPercent(MonthlyTotalsOf(rows)).value <= 1.0
  {
    var t := MonthlyTotalsOf(rows);
    MonthlyTotalsOrdered(rows);
    if t.maxTotal > 0.0 {
      RatioBounded(t.obtainedTotal, t.maxTotal);
    }
  }

  /** max_marks is not negative and a mark lies between 0 and max_marks. */
  predicate WellFormed(e: MarksEntry) {
    0.0 <= e.maxMarks && (e.obtained.Some? ==> 0.0 <= e.obtained.value <= e.maxMarks)
  }

  lemma {:induction false} MonthlyTotalsOrdered(rows: seq<MarksEntry>)
    requires forall e :: e in rows ==> WellFormed(e)
    ensures 0.0 <= MonthlyTotalsOf(rows).obtainedTotal <= MonthlyTotalsOf(rows).maxTotal
  {
    if rows != [] {
      assert rows[|rows| - 1] in rows;
      MonthlyTotalsOrdered(rows[..|rows| - 1]);
    }
  }

  // ---------------------------------------------------------------------
  // getClassExamAnalytics
  // ---------------------------------------------------------------------

  /** The per-student aggregate of the exam report: every matched row counts
      and adds its max_marks, absent or not. */
  datatype ExamTotals = ExamTotals(
    entryCount: nat, maxTotal: real, obtainedTotal: real, absentCount: nat, missingCount: nat)

  function ExamTotalsOf(rows: seq<MarksEntry>): (t: ExamTotals)
    ensures t.entryCount == |rows|
    ensures t.absentCount + t.missingCount <= t.entryCount
    ensures t.absentCount == t.entryCount <==> forall i :: 0 <= i < |rows| ==> rows[i].absent
    ensures (forall i :: 0 <= i < |rows| ==> rows[i].absent) ==> t.obtainedTotal == 0.0
    ensures (forall i :: 0 <= i < |rows| ==> rows[i].maxMarks > 0.0) && rows != [] ==> t.maxTotal > 0.0
    ensures rows == [] ==> t.maxTotal == 0.0
  {
    if rows == [] then ExamTotals(0, 0.0, 0.0, 0, 0)
    else
      var t := ExamTotalsOf(rows[..|rows| - 1]);
      var e := rows[|rows| - 1];
      ExamTotals(
        t.entryCount + 1,
        t.maxTotal + e.maxMarks,
        t.obtainedTotal + (if e.absent then 0.0 else e.obtained.GetOr(0.0)),
        t.absentCount + (if e.absent then 1 else 0),
        t.missingCount + (if Unmarked(e) then 1 else 0))
  }

  function UnmarkedMax(rows: seq<MarksEntry>): real {
    if rows == [] then 0.0
    else UnmarkedMax(rows[..|rows| - 1]) + (if Unmarked(rows[|rows| - 1]) then rows[|rows| - 1].maxMarks else 0.0)
  }

  /** The two reports aggregate the same rows differently: the exam report's
      max_total exceeds the monthly one by the max_marks of the unmarked
      rows; obtained_total and missing_count agree. */
  lemma {:induction false} ExamMaxCountsUnmarkedRows(rows: seq<MarksEntry>)
    ensures ExamTotalsOf(rows).maxTotal == MonthlyTotalsOf(rows).maxTotal + UnmarkedMax(rows)
    ensures ExamTotalsOf(rows).obtainedTotal == MonthlyTotalsOf(rows).obtainedTotal
    ensures ExamTotalsOf(rows).missingCount == MonthlyTotalsOf(rows).missingCount
  {
    if rows != [] {
      ExamMaxCountsUnmarkedRows(rows[..|rows| - 1]);
    }
  }

  datatype ExamStudent = ExamStudent(
    studentId: nat, maxTotal: real, obtainedTotal: real, missingCount: nat,
    entryCount: nat, percent: Option<real>, isAbsent: bool)

  function ExamStudentOf(studentId: nat, t: ExamTotals): (s: ExamStudent)
    ensures s.isAbsent <==> t.entryCount > 0 && t.absentCount == t.entryCount
    ensures s.percent.None? <==> t.maxTotal == 0.0
  {
    ExamStudent(studentId, t.maxTotal, t.obtainedTotal, t.missingCount, t.entryCount,
      ToPercent(t.obtainedTotal, t.maxTotal), t.entryCount > 0 && t.absentCount == t.entryCount)
  }

  /** The class_subjects row of the requested subject, when there is one. */
  datatype ClassSubjectRow = ClassSubjectRow(id: nat, isOptional: bool)

  /** A student_subjects row. */
  datatype Enrollment = Enrollment(studentId: nat, classSubjectId: nat, isEnrolled: bool)

  /** `input.subjectId ? … : …`: absent, null and 0 all mean "every subject". */
  predicate SubjectGiven(subjectId: Option<nat>) {
    subjectId.Some? && subjectId.value != 0
  }

  /** The NOT EXISTS filter: a student drops out only with an explicit
      is_enrolled = 0 row for an optional class subject; no row keeps them. */
  predicate OptedOut(enrollment: seq<Enrollment>, classSubject: Option<ClassSubjectRow>, studentId: nat) {
    classSubject.Some? && classSubject.value.isOptional &&
    exists e :: e in enrollment && e.studentId == studentId &&
      e.classSubjectId == classSubject.value.id && !e.isEnrolled
  }

  /** The LEFT JOIN's match condition for one student. */
  predicate ExamRowOf(e: MarksEntry, examId: nat, classId: nat, subjectId: Option<nat>, studentId: nat) {
    e.studentId == studentId && e.examId == examId && e.classId == classId &&
    (SubjectGiven(subjectId) ==> e.subjectId == subjectId.value)
  }

  /** The active students the optional-subject filter keeps, in order. */
  function KeptStudents(students: seq<nat>, classSubject: Option<ClassSubjectRow>, enrollment: seq<Enrollment>): (r: seq<nat>)
    ensures |r| <= |students|
    ensures forall sid :: sid in r <==> sid in students && !OptedOut(enrollment, classSubject, sid)
  {
    var kept := (sid: nat) => !OptedOut(enrollment, classSubject, sid);
    FilterMembers(students, kept);
    Filter(students, kept)
  }

  /** A student of the class gets a row exactly when the filter keeps them. */
  lemma ExamStudentsRows(students: seq<nat>, entries: seq<MarksEntry>, examId: nat, classId: nat,
                         subjectId: Option<nat>, classSubject: Option<ClassSubjectRow>,
                         enrollment: seq<Enrollment>, sid: nat)
    ensures var xs := ExamStudents(students, entries, examId, classId, subjectId, classSubject, enrollment);
      (exists k :: 0 <= k < |xs| && xs[k].studentId == sid) <==> sid in students && !OptedOut(enrollment, classSubject, sid)
  {
    var xs := ExamStudents(students, entries, examId, classId, subjectId, classSubject, enrollment);
    var kept := KeptStudents(students, classSubject, enrollment);
    if sid in students && !OptedOut(enrollment, classSubject, sid) {
      var k :| 0 <= k < |kept| && kept[k] == sid;
      assert xs[k].studentId == sid;
    }
    if exists k :: 0 <= k < |xs| && xs[k].studentId == sid {
      var k :| 0 <= k < |xs| && xs[k].studentId == sid;
      assert kept[k] in kept;
    }
  }

  function ExamStudents(students: seq<nat>, entries: seq<MarksEntry>, examId: nat, classId: nat,
                        subjectId: Option<nat>, classSubject: Option<ClassSubjectRow>,
                        enrollment: seq<Enrollment>): (r: seq<ExamStudent>)
    ensures |r| == |KeptStudents(students, classSubject, enrollment)|
    ensures forall k :: 0 <= k < |r| ==> r[k].studentId == KeptStudents(students, classSubject, enrollment)[k]
  {
    var kept := KeptStudents(students, classSubject, enrollment);
    seq(|kept|, k requires 0 <= k < |kept| =>
      ExamStudentOf(kept[k], ExamTotalsOf(Filter(entries,
        (e: MarksEntry) => ExamRowOf(e, examId, classId, subjectId, kept[k])))))
  }

  predicate IsScored(s: ExamStudent) {
    s.percent.Some? && !s.isAbsent
  }

  function PercentKey(s: ExamStudent): real {
    s.percent.GetOr(0.0)
  }

  /** The comparator (b.percent ?? 0) - (a.percent ?? 0) as "may precede". */
  const Descending: (ExamStudent, ExamStudent) -> bool :=
    (a: ExamStudent, b: ExamStudent) => PercentKey(b) <= PercentKey(a)

  lemma DescendingIsPreorder()
    ensures TotalPreorder(Descending)
  {
  }

  function Scored(xs: seq<ExamStudent>): seq<ExamStudent> {
    Filter(xs, IsScored)
  }

  function Ranked(xs: seq<ExamStudent>): seq<ExamStudent> {
    SortBy(Scored(xs), Descending)
  }

  function Highest(sorted: seq<ExamStudent>): Option<real> {
    if |sorted| > 0 then sorted[0].percent else None
  }

  function Lowest(sorted: seq<ExamStudent>): Option<real> {
    if |sorted| > 0 then sorted[|sorted| - 1].percent else None
  }

  function PassCount(scored: seq<ExamStudent>): nat {
    |Filter(scored, (s: ExamStudent) => PercentKey(s) >= PassThreshold)|
  }

  function FailCount(scored: seq<ExamStudent>): nat {
    |Filter(scored, (s: ExamStudent) => PercentKey(s) < PassThreshold)|
  }

  datatype ExamSummary = ExamSummary(
    averagePercent: Option<real>, highestPercent: Option<real>, lowestPercent: Option<real>,
    passCount: nat, failCount: nat, absentCount: nat, missingCount: nat, totalStudents: nat)

  datatype ExamReport = ExamReport(
    summary: ExamSummary, distribution: seq<Bucket>, subjectBreakdown: seq<SubjectAverage>,
    topPerformers: seq<ExamStudent>, bottomPerformers: seq<ExamStudent>)

  function ScoredPercents(scored: seq<ExamStudent>): seq<Option<real>> {
    seq(|scored|, k requires 0 <= k < |scored| => scored[k].percent)
  }

  function AllPercents(xs: seq<ExamStudent>): seq<Option<real>> {
    seq(|xs|, k requires 0 <= k < |xs| => xs[k].percent)
  }

  /** getClassExamAnalytics: null when the class or the exam does not
      exist; otherwise the summary, distribution, breakdown and the top and
      bottom five of the scored students. */
  function ClassExamReport(classExists: bool, examExists: bool, students: seq<nat>,
                           entries: seq<MarksEntry>, examId: nat, classId: nat,
                           subjectId: Option<nat>, classSubject: Option<ClassSubjectRow>,
                           enrollment: seq<Enrollment>, subjects: seq<Subject>): (r: Option<ExamReport>)
    ensures r.None? <==> !classExists || !examExists
    ensures r.Some? ==> |r.value.topPerformers| <= 5 && |r.value.bottomPerformers| <= 5
    ensures r.Some? ==> SubjectGiven(subjectId) ==> r.value.subjectBreakdown == []
  {
    if !classExists || !examExists then None
    else
      var xs := ExamStudents(students, entries, examId, classId, subjectId,
                             if SubjectGiven(subjectId) then classSubject else None, enrollment);
      Some(ReportOf(xs, if SubjectGiven(subjectId) then [] else SubjectAverages(entries, examId, classId, subjects)))
  }

  /** The in-memory post-processing of getClassExamAnalytics over the kept
      students: the summary, the distribution and the top and bottom five. */
  function ReportOf(xs: seq<ExamStudent>, breakdown: seq<SubjectAverage>): (r: ExamReport)
    ensures r.subjectBreakdown == breakdown
    ensures |r.topPerformers| <= 5 && |r.bottomPerformers| <= 5
  {
    var scored := Scored(xs);
    var sorted := Ranked(xs);
    ExamReport(
      ExamSummary(
        Average(ScoredPercents(scored)),
        Highest(sorted),
        Lowest(sorted),
        PassCount(scored),
        FailCount(scored),
        |Filter(xs, (s: ExamStudent) => s.isAbsent)|,
        |Filter(xs, (s: ExamStudent) => s.entryCount == 0)|,
        |xs|),
      BuildDistribution(AllPercents(xs)),
      breakdown,
      Take(sorted, 5),
      Take(Reverse(sorted), 5))
  }

  /** pass_count + fail_count is the number of scored students. */
  lemma PassFailSplitScored(scored: seq<ExamStudent>)
    ensures PassCount(scored) + FailCount(scored) == |scored|
  {
    FilterComplement(scored, (s: ExamStudent) => PercentKey(s) >= PassThreshold,
                             (s: ExamStudent) => PercentKey(s) < PassThreshold);
  }

  /** highest and lowest: null exactly when nobody is scored; otherwise
      every scored percent lies between them. */
  lemma RankedFacts(xs: seq<ExamStudent>)
    ensures multiset(Ranked(xs)) == multiset(Scored(xs))
    ensures SortedBy(Ranked(xs), Descending)
    ensures forall j :: 0 <= j < |Ranked(xs)| ==> IsScored(Ranked(xs)[j])
  {
    DescendingIsPreorder();
    SortBySorted(Scored(xs), Descending);
    forall j | 0 <= j < |Ranked(xs)| ensures IsScored(Ranked(xs)[j]) {
      assert Ranked(xs)[j] in multiset(Scored(xs));
    }
  }

  /** Scored students of one percent. */
  function WithPercentKey(v: real): ExamStudent -> bool {
    (s: ExamStudent) => PercentKey(s) == v
  }

  /** Students with equal percents keep their query order in the ranking
      (the sort is stable), which decides the tied top and bottom
      performers. */
  lemma RankedStable(xs: seq<ExamStudent>, v: real)
    ensures Filter(Ranked(xs), WithPercentKey(v)) == Filter(Scored(xs), WithPercentKey(v))
  {
    SortByStable(Scored(xs), Descending, WithPercentKey(v));
  }

  lemma HighestAndLowest(xs: seq<ExamStudent>)
    ensures Highest(Ranked(xs)).None? <==> |Scored(xs)| == 0
    ensures Lowest(Ranked(xs)).None? <==> |Scored(xs)| == 0
    ensures forall s :: s in Scored(xs) ==>
      Lowest(Ranked(xs)).value <= s.percent.value <= Highest(Ranked(xs)).value
  {
    RankedFacts(xs);
    EndsBound(Ranked(xs), Scored(xs));
  }

  /** A descending ranking of scored students, as a permutation of them,
      has its highest percent first and its lowest last. */
  lemma EndsBound(sorted: seq<ExamStudent>, scored: seq<ExamStudent>)
    requires multiset(sorted) == multiset(scored)
    requires SortedBy(sorted, Descending)
    requires forall j :: 0 <= j < |sorted| ==> IsScored(sorted[j])
    ensures Highest(sorted).None? <==> |scored| == 0
    ensures Lowest(sorted).None? <==> |scored| == 0
    ensures forall s :: s in scored ==>
      && Lowest(sorted).Some? && Highest(sorted).Some? && IsScored(s)
      && Lowest(sorted).value <= s.percent.value <= Highest(sorted).value
  {
    assert |sorted| == |scored| by {
      assert |multiset(sorted)| == |multiset(scored)|;
    }
    forall s | s in scored
      ensures && Lowest(sorted).Some? && Highest(sorted).Some? && IsScored(s)
              && Lowest(sorted).value <= s.percent.value <= Highest(sorted).value
    {
      assert s in multiset(sorted);
      var j :| 0 <= j < |sorted| && sorted[j] == s;
      SortedEnds(sorted, Descending, j);
    }
  }

  /** The summary of an existing exam: pass and fail split the scored
      students, total_students counts every kept student, highest and
      lowest are null exactly when nobody is scored and otherwise ordered,
      the top performers are the first (up to) five of the descending
      ranking and the bottom performers the last five, lowest first. */
  lemma ClassExamReportFacts(xs: seq<ExamStudent>, breakdown: seq<SubjectAverage>)
    ensures var r := ReportOf(xs, breakdown);
      var ranked := Ranked(xs);
      && r.summary.passCount + r.summary.failCount == |Scored(xs)|
      && r.summary.totalStudents == |xs|
      && (r.summary.highestPercent.None? <==> |Scored(xs)| == 0)
      && (r.summary.lowestPercent.None? <==> |Scored(xs)| == 0)
      && (|Scored(xs)| > 0 ==> r.summary.lowestPercent.value <= r.summary.highestPercent.value)
      && |r.topPerformers| == Min(5, |Scored(xs)|)
      && r.topPerformers == ranked[..|r.topPerformers|]
      && |r.bottomPerformers| == |r.topPerformers|
      && forall j :: 0 <= j < |r.bottomPerformers| ==> r.bottomPerformers[j] == ranked[|ranked| - 1 - j]
  {
    var scored := Scored(xs);
    RankedFacts(xs);
    HighestAndLowest(xs);
    PassFailSplitScored(scored);
    var ranked := Ranked(xs);
    assert |ranked| == |scored| by {
      assert |multiset(ranked)| == |multiset(scored)|;
    }
    if |scored| > 0 {
      assert scored[0] in scored;
    }
  }

  /** A student whose every matched entry is absent scores 0, not null,
      because the absent rows still add their max_marks. */
  lemma FullyAbsentScoresZero(studentId: nat, rows: seq<MarksEntry>)
    requires rows != []
    requires forall i :: 0 <= i < |rows| ==> rows[i].absent && rows[i].maxMarks > 0.0
    ensures ExamStudentOf(studentId, ExamTotalsOf(rows)).isAbsent
    ensures ExamStudentOf(studentId, ExamTotalsOf(rows)).percent == Some(0.0)
  {
    var t := ExamTotalsOf(rows);
    assert t.obtainedTotal == 0.0 && t.maxTotal > 0.0;
    assert 0.0 / t.maxTotal == 0.0;
  }

  /** A student without matched entries has no percent: "No data". */
  lemma NoEntriesNoPercent(studentId: nat)
    ensures ExamStudentOf(studentId, ExamTotalsOf([])).percent.None?
    ensures !ExamStudentOf(studentId, ExamTotalsOf([])).isAbsent
  {
  }

  /** The three categories of a student when every max_marks is positive:
      scored, fully absent, or without entries, and exactly one of them. */
  predicate ExactlyOne(a: bool, b: bool, c: bool) {
    (if a then 1 else 0) + (if b then 1 else 0) + (if c then 1 else 0) == 1
  }

  lemma {:induction false} CountThreeWays(xs: seq<ExamStudent>)
    requires forall i :: 0 <= i < |xs| ==> ExactlyOne(IsScored(xs[i]), xs[i].isAbsent, xs[i].entryCount == 0)
    ensures |Filter(xs, IsScored)| + |Filter(xs, (s: ExamStudent) => s.isAbsent)|
      + |Filter(xs, (s: ExamStudent) => s.entryCount == 0)| == |xs|
  {
    if xs != [] {
      CountThreeWays(xs[..|xs| - 1]);
    }
  }

  /** With every max_marks positive, scored + absent + missing students
      make up total_students. */
  lemma ExamStudentsPartition(students: seq<nat>, entries: seq<MarksEntry>, examId: nat, classId: nat,
                              subjectId: Option<nat>, classSubject: Option<ClassSubjectRow>,
                              enrollment: seq<Enrollment>)
    requires forall i :: 0 <= i < |entries| ==> entries[i].maxMarks > 0.0
    ensures var xs := ExamStudents(students, entries, examId, classId, subjectId, classSubject, enrollment);
      |Scored(xs)| + |Filter(xs, (s: ExamStudent) => s.isAbsent)|
        + |Filter(xs, (s: ExamStudent) => s.entryCount == 0)| == |xs|
  {
    var xs := ExamStudents(students, entries, examId, classId, subjectId, classSubject, enrollment);
    var kept := Filter(students, (sid: nat) => !OptedOut(enrollment, classSubject, sid));
    forall i | 0 <= i < |xs|
      ensures ExactlyOne(IsScored(xs[i]), xs[i].isAbsent, xs[i].entryCount == 0)
    {
      var rows := Filter(entries, (e: MarksEntry) => ExamRowOf(e, examId, classId, subjectId, kept[i]));
      assert forall j :: 0 <= j < |rows| ==> rows[j] in entries;
      var t := ExamTotalsOf(rows);
      assert xs[i] == ExamStudentOf(kept[i], t);
    }
    CountThreeWays(xs);
  }

  lemma {:induction false} ExamTotalsOrdered(rows: seq<MarksEntry>)
    requires forall e :: e in rows ==> WellFormed(e)
    ensures 0.0 <= ExamTotalsOf(rows).obtainedTotal <= ExamTotalsOf(rows).maxTotal
  {
    if rows != [] {
      assert rows[|rows| - 1] in rows;
      ExamTotalsOrdered(rows[..|rows| - 1]);
    }
  }

  /** With well-formed entries every kept student is tallied exactly once
      in the exam distribution: a percent in [0, 1] or "No data". */
  lemma ExamDistributionCountsEveryStudent(students: seq<nat>, entries: seq<MarksEntry>, examId: nat,
      classId: nat, subjectId: Option<nat>, classSubject: Option<ClassSubjectRow>, enrollment: seq<Enrollment>)
    requires forall e :: e in entries ==> WellFormed(e)
    ensures var xs := ExamStudents(students, entries, examId, classId, subjectId, classSubject, enrollment);
      TotalCount(BuildDistribution(AllPercents(xs))) == |xs|
  {
    var xs := ExamStudents(students, entries, examId, classId, subjectId, classSubject, enrollment);
    var kept := Filter(students, (sid: nat) => !OptedOut(enrollment, classSubject, sid));
    var values := AllPercents(xs);
    forall i | 0 <= i < |values| && values[i].Some? ensures 0.0 <= values[i].value < 1.01 {
      var rows := Filter(entries, (e: MarksEntry) => ExamRowOf(e, examId, classId, subjectId, kept[i]));
      var t := ExamTotalsOf(rows);
      assert xs[i] == ExamStudentOf(kept[i], t);
      ExamTotalsOrdered(rows);
      RatioBounded(t.obtainedTotal, t.maxTotal);
    }
    DistributionPartition(values);
  }
}
