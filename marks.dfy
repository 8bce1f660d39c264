/** The marks service of server/src/modules/marks/marks.service.ts: the
    batch upsert of one (exam, component, class, subject) sheet, with
    optional-subject enrollment, and the guard of deleteExam. */
module Marks {
  import opened Common
  import opened Core

  /** The identity of a marks_entries row. */
  datatype MarksKey = MarksKey(
    examId: nat, componentId: Option<nat>, classId: nat, subjectId: nat, studentId: nat)

  /** The stored columns of a marks_entries row. */
  datatype MarksRow = MarksRow(teacherId: nat, maxMarks: real, obtained: Option<real>, absent: bool)

  /** One item of the request. */
  datatype MarksInput = MarksInput(
    studentId: nat, maxMarks: real, obtained: Option<real>, absent: bool, notApplicable: bool)

  /** What one request fixes for all its items, once the class subject is found. */
  datatype Sheet = Sheet(
    examId: nat, componentId: Option<nat>, classId: nat, subjectId: nat,
    classSubjectId: nat, optional: bool, teacherId: nat)

  /** The marks rows together with the enrollment rows the batch writes. */
  datatype MarksState = MarksState(marks: map<MarksKey, MarksRow>, enrollments: map<EnrollmentKey, bool>)

  /** `componentId || null` */
  function StoredComponent(componentId: Option<nat>): (r: Option<nat>)
    ensures r.None? <==> componentId.None? || componentId.value == 0
  {
    if componentId.Some? && componentId.value != 0 then componentId else None
  }

  function KeyFor(sheet: Sheet, studentId: nat): MarksKey {
    MarksKey(sheet.examId, sheet.componentId, sheet.classId, sheet.subjectId, studentId)
  }

  function EnrollKeyFor(sheet: Sheet, studentId: nat): EnrollmentKey {
    EnrollmentKey(studentId, sheet.classSubjectId)
  }

  function Get<K, V>(m: map<K, V>, k: K): Option<V> {
    if k in m then Some(m[k]) else None
  }

  lemma MapsEqualByGet<K, V>(m1: map<K, V>, m2: map<K, V>)
    requires forall k :: Get(m1, k) == Get(m2, k)
    ensures m1 == m2
  {
    assert forall k :: k in m1 <==> Get(m1, k).Some?;
    assert m1.Keys == m2.Keys;
  }

  // ---------------------------------------------------------------------
  // The loop of bulkUpsertMarks
  // ---------------------------------------------------------------------

  /** One iteration: a not-applicable item opts the student out of an
      optional subject and deletes the row (and does nothing for a
      compulsory one); any other item enrolls the student in an optional
      subject and inserts or updates the row. */
  function Step(s: MarksState, sheet: Sheet, x: MarksInput): MarksState {
    var key := KeyFor(sheet, x.studentId);
    if x.notApplicable then
      if sheet.optional then
        MarksState(s.marks - {key}, s.enrollments[EnrollKeyFor(sheet, x.studentId) := false])
      else s
    else
      var enrollments := if sheet.optional then s.enrollments[EnrollKeyFor(sheet, x.studentId) := true] else s.enrollments;
      var row := if key in s.marks
        then s.marks[key].(maxMarks := x.maxMarks, obtained := x.obtained, absent := x.absent)
        else MarksRow(sheet.teacherId, x.maxMarks, x.obtained, x.absent);
      MarksState(s.marks[key := row], enrollments)
  }

  function UpsertAll(s: MarksState, sheet: Sheet, xs: seq<MarksInput>): MarksState {
    if xs == [] then s else Step(UpsertAll(s, sheet, xs[..|xs| - 1]), sheet, xs[|xs| - 1])
  }

  // ---------------------------------------------------------------------
  // The batch seen one student at a time
  // ---------------------------------------------------------------------

  /** What one item does to its student's row. */
  function RowStep(o: Option<MarksRow>, sheet: Sheet, x: MarksInput): Option<MarksRow> {
    if x.notApplicable then (if sheet.optional then None else o)
    else if o.Some? then Some(o.value.(maxMarks := x.maxMarks, obtained := x.obtained, absent := x.absent))
    else Some(MarksRow(sheet.teacherId, x.maxMarks, x.obtained, x.absent))
  }

  /** The row of one student after the items for that student. */
  function RowAfter(o: Option<MarksRow>, sheet: Sheet, xs: seq<MarksInput>, studentId: nat): Option<MarksRow> {
    if xs == [] then o
    else
      var before := RowAfter(o, sheet, xs[..|xs| - 1], studentId);
      if xs[|xs| - 1].studentId == studentId then RowStep(before, sheet, xs[|xs| - 1]) else before
  }

  /** The enrollment of one student after the items for that student. */
  function EnrollmentAfter(e: Option<bool>, sheet: Sheet, xs: seq<MarksInput>, studentId: nat): Option<bool> {
    if xs == [] then e
    else
      var before := EnrollmentAfter(e, sheet, xs[..|xs| - 1], studentId);
      if xs[|xs| - 1].studentId == studentId && sheet.optional then Some(!xs[|xs| - 1].notApplicable) else before
  }

  /** The batch changes each row only through the items for its student,
      and touches no row of another sheet and no enrollment of another
      class subject. */
  lemma {:induction false} UpsertAllPointwise(s: MarksState, sheet: Sheet, xs: seq<MarksInput>)
    ensures forall k ::
      (Get(UpsertAll(s, sheet, xs).marks, k)
       == if k == KeyFor(sheet, k.studentId) then RowAfter(Get(s.marks, k), sheet, xs, k.studentId) else Get(s.marks, k))
    ensures forall k ::
      (Get(UpsertAll(s, sheet, xs).enrollments, k)
       == if k.classSubjectId == sheet.classSubjectId
          then EnrollmentAfter(Get(s.enrollments, k), sheet, xs, k.studentId) else Get(s.enrollments, k))
  {
    if xs != [] {
      UpsertAllPointwise(s, sheet, xs[..|xs| - 1]);
    }
  }

  /** The teacher a row has or would get. */
  function TeacherOf(o: Option<MarksRow>, sheet: Sheet): nat {
    if o.Some? then o.value.teacherId else sheet.teacherId
  }

  /** An optional-subject opt-out for the student occurs in xs. */
  predicate Resets(sheet: Sheet, xs: seq<MarksInput>, studentId: nat) {
    sheet.optional && exists i :: 0 <= i < |xs| && xs[i].studentId == studentId && xs[i].notApplicable
  }

  /** Some item in xs has an effect on the student's row. */
  predicate Touches(sheet: Sheet, xs: seq<MarksInput>, studentId: nat) {
    exists i :: 0 <= i < |xs| && xs[i].studentId == studentId && (sheet.optional || !xs[i].notApplicable)
  }

  lemma PrefixFacts(sheet: Sheet, xs: seq<MarksInput>, studentId: nat)
    requires xs != []
    ensures var prefix := xs[..|xs| - 1];
      var x := xs[|xs| - 1];
      && (Resets(sheet, xs, studentId) <==>
            Resets(sheet, prefix, studentId) || (sheet.optional && x.studentId == studentId && x.notApplicable))
      && (Touches(sheet, xs, studentId) <==>
            Touches(sheet, prefix, studentId) || (x.studentId == studentId && (sheet.optional || !x.notApplicable)))
  {
    var prefix := xs[..|xs| - 1];
    assert forall i :: 0 <= i < |prefix| ==> prefix[i] == xs[i];
  }

  /** After an opt-out the row was re-created by this sheet's teacher;
      otherwise it keeps the teacher it had. */
  lemma {:induction false} TeacherAfter(o: Option<MarksRow>, sheet: Sheet, xs: seq<MarksInput>, studentId: nat)
    ensures TeacherOf(RowAfter(o, sheet, xs, studentId), sheet)
      == if Resets(sheet, xs, studentId) then sheet.teacherId else TeacherOf(o, sheet)
  {
    if xs != [] {
      TeacherAfter(o, sheet, xs[..|xs| - 1], studentId);
      PrefixFacts(sheet, xs, studentId);
    }
  }

  /** Items without effect leave the row alone. */
  lemma {:induction false} UntouchedRow(o: Option<MarksRow>, sheet: Sheet, xs: seq<MarksInput>, studentId: nat)
    requires !Touches(sheet, xs, studentId)
    ensures RowAfter(o, sheet, xs, studentId) == o
  {
    if xs != [] {
      PrefixFacts(sheet, xs, studentId);
      UntouchedRow(o, sheet, xs[..|xs| - 1], studentId);
    }
  }

  /** The row after the batch depends on the row before only through its
      teacher, and not at all once the student was opted out. */
  lemma {:induction false} RowAfterForgets(o1: Option<MarksRow>, o2: Option<MarksRow>, sheet: Sheet, xs: seq<MarksInput>, studentId: nat)
    requires Resets(sheet, xs, studentId) || (Touches(sheet, xs, studentId) && TeacherOf(o1, sheet) == TeacherOf(o2, sheet))
    ensures RowAfter(o1, sheet, xs, studentId) == RowAfter(o2, sheet, xs, studentId)
  {
    var prefix := xs[..|xs| - 1];
    var x := xs[|xs| - 1];
    PrefixFacts(sheet, xs, studentId);
    if x.studentId == studentId && x.notApplicable && sheet.optional {
    } else if x.studentId == studentId && !x.notApplicable {
      TeacherAfter(o1, sheet, prefix, studentId);
      TeacherAfter(o2, sheet, prefix, studentId);
    } else {
      RowAfterForgets(o1, o2, sheet, prefix, studentId);
    }
  }

  lemma RowAfterIdempotent(o: Option<MarksRow>, sheet: Sheet, xs: seq<MarksInput>, studentId: nat)
    ensures RowAfter(RowAfter(o, sheet, xs, studentId), sheet, xs, studentId) == RowAfter(o, sheet, xs, studentId)
  {
    var r := RowAfter(o, sheet, xs, studentId);
    if !Touches(sheet, xs, studentId) {
      UntouchedRow(o, sheet, xs, studentId);
      UntouchedRow(r, sheet, xs, studentId);
    } else {
      TeacherAfter(o, sheet, xs, studentId);
      RowAfterForgets(r, o, sheet, xs, studentId);
    }
  }

  /** The enrollment follows the student's last item on an optional
      subject and is untouched otherwise. */
  lemma {:induction false} EnrollmentAfterLast(e: Option<bool>, sheet: Sheet, xs: seq<MarksInput>, studentId: nat)
    ensures EnrollmentAfter(e, sheet, xs, studentId)
      == if sheet.optional && exists i :: 0 <= i < |xs| && xs[i].studentId == studentId
         then EnrollmentAfter(None, sheet, xs, studentId) else e
    ensures sheet.optional && (exists i :: 0 <= i < |xs| && xs[i].studentId == studentId) ==>
      EnrollmentAfter(None, sheet, xs, studentId).Some?
    decreases |xs|
  {
    if xs != [] {
      var prefix := xs[..|xs| - 1];
      assert forall i :: 0 <= i < |prefix| ==> prefix[i] == xs[i];
      EnrollmentAfterLast(e, sheet, prefix, studentId);
      EnrollmentAfterLast(None, sheet, prefix, studentId);
    }
  }

  /** Applying the same batch twice leaves the same rows and enrollments
      as applying it once. */
  lemma UpsertAllIdempotent(s: MarksState, sheet: Sheet, xs: seq<MarksInput>)
    ensures UpsertAll(UpsertAll(s, sheet, xs), sheet, xs) == UpsertAll(s, sheet, xs)
  {
    var once := UpsertAll(s, sheet, xs);
    var twice := UpsertAll(once, sheet, xs);
    UpsertAllPointwise(s, sheet, xs);
    UpsertAllPointwise(once, sheet, xs);
    forall k ensures Get(twice.marks, k) == Get(once.marks, k) {
      if k == KeyFor(sheet, k.studentId) {
        RowAfterIdempotent(Get(s.marks, k), sheet, xs, k.studentId);
      }
    }
    forall k ensures Get(twice.enrollments, k) == Get(once.enrollments, k) {
      if k.classSubjectId == sheet.classSubjectId {
        EnrollmentAfterLast(Get(s.enrollments, k), sheet, xs, k.studentId);
        EnrollmentAfterLast(Get(once.enrollments, k), sheet, xs, k.studentId);
      }
    }
    MapsEqualByGet(twice.marks, once.marks);
    MapsEqualByGet(twice.enrollments, once.enrollments);
  }

  /** xs[k] is the student's last item. */
  predicate LastFor(xs: seq<MarksInput>, k: nat)
    requires k < |xs|
  {
    forall j :: k < j < |xs| ==> xs[j].studentId != xs[k].studentId
  }

  /** The student's last item decides the outcome: a marks item leaves one
      row holding its max marks, marks and absent flag; an opt-out on an
      optional subject leaves no row and the enrollment false. */
  lemma {:induction false} LastItemDecides(s: MarksState, sheet: Sheet, xs: seq<MarksInput>, k: nat)
    requires k < |xs| && LastFor(xs, k)
    ensures var r := UpsertAll(s, sheet, xs);
      var key := KeyFor(sheet, xs[k].studentId);
      && (!xs[k].notApplicable ==>
            key in r.marks && r.marks[key].maxMarks == xs[k].maxMarks
            && r.marks[key].obtained == xs[k].obtained && r.marks[key].absent == xs[k].absent)
      && (xs[k].notApplicable && sheet.optional ==>
            key !in r.marks && Get(r.enrollments, EnrollKeyFor(sheet, xs[k].studentId)) == Some(false))
      && (!xs[k].notApplicable && sheet.optional ==>
            Get(r.enrollments, EnrollKeyFor(sheet, xs[k].studentId)) == Some(true))
  {
    var prefix := xs[..|xs| - 1];
    if k < |xs| - 1 {
      assert LastFor(prefix, k) by {
        forall j | k < j < |prefix| ensures prefix[j].studentId != prefix[k].studentId {
          assert prefix[j] == xs[j];
        }
      }
      LastItemDecides(s, sheet, prefix, k);
    }
  }

  // ---------------------------------------------------------------------
  // The store
  // ---------------------------------------------------------------------

  datatype Exam = Exam(name: string, examType: string, startDate: Option<string>)

  datatype Component = Component(examId: nat, name: string, maxMarks: real, weight: real)

  /** Whether any marks row references the exam (the COUNT(*) > 0 guard). */
  predicate ExamInUse(marks: map<MarksKey, MarksRow>, examId: nat) {
    exists k :: k in marks && k.examId == examId
  }

  class MarksStore {
    const core: CoreStore
    var exams: map<nat, Exam>
    var components: map<nat, Component>
    var marks: map<MarksKey, MarksRow>

    function State(): MarksState
      reads this, core
    {
      MarksState(marks, core.enrollments)
    }

    constructor (core: CoreStore)
      ensures this.core == core && exams == map[] && components == map[] && marks == map[]
    {
      this.core := core;
      exams, components, marks := map[], map[], map[];
    }

    /** deleteExam: refused while marks reference the exam; otherwise the
        exam and its components go. */
    method DeleteExam(examId: nat) returns (deleted: bool)
      modifies this
      ensures deleted <==> !ExamInUse(old(marks), examId)
      ensures marks == old(marks)
      ensures !deleted ==> exams == old(exams) && components == old(components)
      ensures deleted ==> exams == old(exams) - {examId}
      ensures deleted ==> components == map c | c in old(components) && old(components)[c].examId != examId :: old(components)[c]
    {
      if exists k | k in marks :: k.examId == examId {
        return false;
      }
      components := map c | c in components && components[c].examId != examId :: components[c];
      exams := exams - {examId};
      deleted := true;
    }

    /** bulkUpsertMarks: fails before any write when the subject is not
        assigned to the class; otherwise runs the loop over the items. */
    method BulkUpsertMarks(examId: nat, componentId: Option<nat>, classId: nat, subjectId: nat,
                           teacherId: nat, xs: seq<MarksInput>)
      returns (ok: bool)
      requires core.Valid()
      modifies this, core
      ensures core.Valid()
      ensures var found := FindClassSubject(old(core.classSubjects), classId, subjectId);
        && (ok <==> found.Some?)
        && (ok ==> forall i ::
              (0 <= i < |old(core.classSubjects)| && old(core.classSubjects)[i].classId == classId
               && old(core.classSubjects)[i].subjectId == subjectId) ==> i == found.value)
        && (!ok ==> State() == old(State()))
        && (ok ==> State() == UpsertAll(old(State()),
              Sheet(examId, StoredComponent(componentId), classId, subjectId,
                    found.value, old(core.classSubjects)[found.value].isOptional, teacherId), xs))
      ensures exams == old(exams) && components == old(components)
      ensures core.classes == old(core.classes) && core.subjects == old(core.subjects)
      ensures core.classSubjects == old(core.classSubjects) && core.rules == old(core.rules)
    {
      var found := FindClassSubject(core.classSubjects, classId, subjectId);
      if found.None? {
        return false;
      }
      var sheet := Sheet(examId, StoredComponent(componentId), classId, subjectId,
                         found.value, core.classSubjects[found.value].isOptional, teacherId);
      for i := 0 to |xs|
        invariant State() == UpsertAll(old(State()), sheet, xs[..i])
        invariant exams == old(exams) && components == old(components)
        invariant core.classes == old(core.classes) && core.subjects == old(core.subjects)
        invariant core.classSubjects == old(core.classSubjects) && core.rules == old(core.rules)
      {
        var x := xs[i];
        var key := KeyFor(sheet, x.studentId);
        if x.notApplicable {
          if sheet.optional {
            core.SetStudentSubjectEnrollment(x.studentId, sheet.classSubjectId, false);
            marks := marks - {key};
          }
        } else {
          if sheet.optional {
            core.SetStudentSubjectEnrollment(x.studentId, sheet.classSubjectId, true);
          }
          if key !in marks {
            marks := marks[key := MarksRow(teacherId, x.maxMarks, x.obtained, x.absent)];
          } else {
            marks := marks[key := marks[key].(maxMarks := x.maxMarks, obtained := x.obtained, absent := x.absent)];
          }
        }
        assert xs[..i + 1][..i] == xs[..i];
      }
      assert xs[..|xs|] == xs;
      ok := true;
    }
  }
}
