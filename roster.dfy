/** The lookup maps the two upload handlers of client/src/pages/MarksPage.tsx
    and client/src/pages/AttendancePage.tsx build before their row loops:
    `new Map(pairs)` keeps the last pair for a key, students are found by
    admission number, or by roll number when the admission cell is empty. */
module Roster {
  import opened Common

  /** `new Map(pairs).get(key)`: a later pair overrides an earlier one. */
  function LastValue<V>(pairs: seq<(string, V)>, key: string): (r: Option<V>)
    ensures r.None? <==> forall i :: 0 <= i < |pairs| ==> pairs[i].0 != key
    ensures r.Some? ==> exists i ::
      (0 <= i < |pairs| && pairs[i] == (key, r.value) && forall j :: i < j < |pairs| ==> pairs[j].0 != key)
  {
    if pairs == [] then None
    else if pairs[|pairs| - 1].0 == key then Some(pairs[|pairs| - 1].1)
    else LastValue(pairs[..|pairs| - 1], key)
  }

  /** A student of the selected class as the page holds it. */
  datatype Student = Student(id: nat, admissionNo: string, rollNo: Option<int>)

  /** `students.map((s) => [String(s.admission_no).trim(), s])` */
  function AdmissionPairs(students: seq<Student>): (r: seq<(string, Student)>)
    ensures |r| == |students|
    ensures forall i :: 0 <= i < |r| ==> r[i] == (Trim(students[i].admissionNo), students[i])
  {
    seq(|students|, i requires 0 <= i < |students| => (Trim(students[i].admissionNo), students[i]))
  }

  /** `students.filter((s) => s.roll_no !== null).map((s) => [String(s.roll_no), s])` */
  function RollPairs(students: seq<Student>): (r: seq<(string, Student)>)
    ensures forall p :: p in r <==> p.1 in students && p.1.rollNo.Some? && p.0 == IntToString(p.1.rollNo.value)
  {
    if students == [] then []
    else
      var last := students[|students| - 1];
      RollPairs(students[..|students| - 1]) +
        (if last.rollNo.Some? then [(IntToString(last.rollNo.value), last)] else [])
  }

  /** `admission ? byAdmission.get(admission) : roll ? byRoll.get(roll) : undefined` */
  function FindStudent(students: seq<Student>, admission: string, roll: string): (r: Option<Student>)
    ensures r.Some? ==> r.value in students
    ensures r.Some? && |admission| != 0 ==> Trim(r.value.admissionNo) == admission
    ensures r.Some? && |admission| == 0 ==> r.value.rollNo.Some? && IntToString(r.value.rollNo.value) == roll
    ensures |admission| == 0 && |roll| == 0 ==> r.None?
    ensures |admission| != 0 ==>
      (r.None? <==> forall i :: 0 <= i < |students| ==> Trim(students[i].admissionNo) != admission)
    ensures |admission| != 0 && r.Some? ==> exists i ::
      (0 <= i < |students| && students[i] == r.value
       && forall j :: i < j < |students| ==> Trim(students[j].admissionNo) != admission)
    ensures |admission| == 0 && |roll| != 0 ==>
      (r.None? <==> forall i :: 0 <= i < |students| ==>
         students[i].rollNo.None? || IntToString(students[i].rollNo.value) != roll)
  {
    if |admission| != 0 then AdmissionLookup(students, admission); LastValue(AdmissionPairs(students), admission)
    else if |roll| != 0 then RollLookup(students, roll); LastValue(RollPairs(students), roll)
    else None
  }

  /** The admission lookup, stated on the students: nobody carries the
      number exactly when the lookup is null, and the student found is the
      last one carrying it. */
  lemma AdmissionLookup(students: seq<Student>, admission: string)
    ensures var r := LastValue(AdmissionPairs(students), admission);
      && (r.None? <==> forall i :: 0 <= i < |students| ==> Trim(students[i].admissionNo) != admission)
      && (r.Some? ==> r.value in students && Trim(r.value.admissionNo) == admission)
      && (r.Some? ==> exists i ::
            (0 <= i < |students| && students[i] == r.value
             && forall j :: i < j < |students| ==> Trim(students[j].admissionNo) != admission))
  {
    var pairs := AdmissionPairs(students);
    var r := LastValue(pairs, admission);
    if r.Some? {
      var i :| 0 <= i < |pairs| && pairs[i] == (admission, r.value) && forall j :: i < j < |pairs| ==> pairs[j].0 != admission;
      assert students[i] == r.value;
    }
  }

  /** Some roll pair carries the key exactly when some student has that roll
      number. */
  lemma {:induction false} RollLookup(students: seq<Student>, roll: string)
    ensures (forall i :: 0 <= i < |RollPairs(students)| ==> RollPairs(students)[i].0 != roll)
      <==> forall i :: 0 <= i < |students| ==>
             students[i].rollNo.None? || IntToString(students[i].rollNo.value) != roll
  {
    if students != [] {
      var n := |students| - 1;
      RollLookup(students[..n], roll);
      var last := students[n];
      var tail := if last.rollNo.Some? then [(IntToString(last.rollNo.value), last)] else [];
      assert RollPairs(students) == RollPairs(students[..n]) + tail;
      assert forall i :: 0 <= i < n ==> students[..n][i] == students[i];
    }
  }

  /** A non-empty admission cell that matches nobody is not retried with
      the roll number. */
  lemma NoRollFallback(students: seq<Student>, admission: string, roll: string)
    requires |admission| != 0
    requires forall i :: 0 <= i < |students| ==> Trim(students[i].admissionNo) != admission
    ensures FindStudent(students, admission, roll).None?
  {
  }

  /** A student whose admission number is unique in the class is found by it. */
  lemma UniqueAdmissionFound(students: seq<Student>, k: nat, roll: string)
    requires k < |students| && |Trim(students[k].admissionNo)| != 0
    requires forall i :: 0 <= i < |students| && i != k ==> Trim(students[i].admissionNo) != Trim(students[k].admissionNo)
    ensures FindStudent(students, Trim(students[k].admissionNo), roll) == Some(students[k])
  {
    var pairs := AdmissionPairs(students);
    var key := Trim(students[k].admissionNo);
    var r := LastValue(pairs, key);
    assert pairs[k].0 == key;
    var i :| 0 <= i < |pairs| && pairs[i] == (key, r.value) && (forall j :: i < j < |pairs| ==> pairs[j].0 != key);
    assert i == k;
  }
}
