/** The class/subject set-up of server/src/modules/core/core.service.ts:
    subject codes, the exam rules of a class subject, and optional-subject
    enrollment. */
module Core {
  import opened Common

  // ---------------------------------------------------------------------
  // Subject codes
  // ---------------------------------------------------------------------

  predicate IsAsciiAlnum(c: char) {
    'a' <= c <= 'z' || 'A' <= c <= 'Z' || '0' <= c <= '9'
  }

  predicate IsCodeChar(c: char) {
    'A' <= c <= 'Z' || '0' <= c <= '9'
  }

  /** name.replace(/[^a-z0-9]/gi, "").toUpperCase() */
  function CodeBase(name: string): (r: string)
    ensures |r| <= |name|
    ensures forall i :: 0 <= i < |r| ==> IsCodeChar(r[i])
  {
    if name == [] then []
    else
      var c := name[|name| - 1];
      CodeBase(name[..|name| - 1]) + (if IsAsciiAlnum(c) then [UpperChar(c)] else [])
  }

  /** normalizeSubjectCode: four characters of the base when it has them,
      the base itself at three, otherwise the base padded with "SUB" to
      three characters. */
  function NormalizeSubjectCode(name: string): (r: string)
    ensures |r| == 3 || |r| == 4
    ensures |r| == 4 <==> |CodeBase(name)| >= 4
    ensures forall i :: 0 <= i < |r| ==> IsCodeChar(r[i])
    ensures |CodeBase(name)| >= 3 ==> r == CodeBase(name)[..|r|]
    ensures |CodeBase(name)| < 3 ==> r == (CodeBase(name) + "SUB")[..3]
  {
    var base := CodeBase(name);
    if |base| >= 4 then base[..4]
    else if |base| >= 3 then base
    else (base + "SUB")[..3]
  }

  /** `${base}${counter}` */
  function Suffixed(base: string, k: nat): string {
    base + NatToString(k)
  }

  lemma SuffixedInjective(base: string, a: nat, b: nat)
    requires Suffixed(base, a) == Suffixed(base, b)
    ensures a == b
  {
    assert NatToString(a) == Suffixed(base, a)[|base|..];
    assert NatToString(b) == Suffixed(base, b)[|base|..];
    NatToStringInjective(a, b);
  }

  /** k is the least counter from 1 whose suffixed code is free. */
  ghost predicate LeastFree(base: string, existing: set<string>, k: nat) {
    && k >= 1
    && Suffixed(base, k) !in existing
    && forall j :: 1 <= j < k ==> Suffixed(base, j) in existing
  }

  /** What generateSubjectCode returns for a name and the codes in use. */
  ghost predicate GeneratedCode(name: string, existing: set<string>, code: string) {
    var base := NormalizeSubjectCode(name);
    if base !in existing then code == base
    else exists k :: LeastFree(base, existing, k) && code == Suffixed(base, k)
  }

  /** The least free counter is unique, so the generated code is determined
      by the name and the codes in use; it is never one of those codes. */
  lemma GeneratedCodeUnique(name: string, existing: set<string>, c1: string, c2: string)
    requires GeneratedCode(name, existing, c1) && GeneratedCode(name, existing, c2)
    ensures c1 == c2
    ensures c1 !in existing
  {
    var base := NormalizeSubjectCode(name);
    if base in existing {
      var k1: nat :| LeastFree(base, existing, k1) && c1 == Suffixed(base, k1);
      var k2: nat :| LeastFree(base, existing, k2) && c2 == Suffixed(base, k2);
    }
  }

  lemma {:induction false} SubsetSize<T>(a: set<T>, b: set<T>)
    requires a <= b
    ensures |a| <= |b|
  {
    if a != {} {
      var x :| x in a;
      SubsetSize(a - {x}, b - {x});
    }
  }

  /** generateSubjectCode: the base when it is free, otherwise the base
      followed by the least counter from 1 that gives a free code. */
  method GenerateSubjectCode(name: string, existing: set<string>) returns (code: string)
    ensures GeneratedCode(name, existing, code)
    ensures code !in existing
  {
    var base := NormalizeSubjectCode(name);
    if base !in existing {
      return base;
    }
    var counter: nat := 1;
    ghost var seen: set<string> := {};
    while Suffixed(base, counter) in existing
      invariant counter >= 1
      invariant seen <= existing
      invariant |seen| == counter - 1
      invariant forall j :: 1 <= j < counter ==> Suffixed(base, j) in existing
      invariant forall s :: s in seen ==> exists j :: 1 <= j < counter && s == Suffixed(base, j)
      decreases |existing| - |seen|
    {
      var next := Suffixed(base, counter);
      if next in seen {
        var j :| 1 <= j < counter && next == Suffixed(base, j);
        SuffixedInjective(base, j, counter);
        assert false;
      }
      assert |seen| < |existing| by {
        SubsetSize(seen + {next}, existing);
      }
      seen := seen + {next};
      counter := counter + 1;
    }
    code := Suffixed(base, counter);
    assert LeastFree(base, existing, counter);
  }

  // ---------------------------------------------------------------------
  // The rules fold of getClassSubjects
  // ---------------------------------------------------------------------

  /** A row of class_subject_exam_rules. */
  datatype Rule = Rule(classSubjectId: nat, examType: string, maxMarks: real)

  /** The rules map after reading rules in order: each exam type of a class
      subject holds the value of the rule read last. */
  function RulesMapOf(rules: seq<Rule>): (m: map<nat, map<string, real>>)
  {
    if rules == [] then map[]
    else
      var m := RulesMapOf(rules[..|rules| - 1]);
      var rule := rules[|rules| - 1];
      var current := if rule.classSubjectId in m then m[rule.classSubjectId] else map[];
      m[rule.classSubjectId := current[rule.examType := rule.maxMarks]]
  }

  /** The reference reading: the last rule for (class subject, exam type). */
  function LastRule(rules: seq<Rule>, classSubjectId: nat, examType: string): (r: Option<real>)
    ensures r.None? <==> forall i :: 0 <= i < |rules| ==>
      rules[i].classSubjectId != classSubjectId || rules[i].examType != examType
  {
    if rules == [] then None
    else
      var rule := rules[|rules| - 1];
      if rule.classSubjectId == classSubjectId && rule.examType == examType then Some(rule.maxMarks)
      else
        var r := LastRule(rules[..|rules| - 1], classSubjectId, examType);
        assert forall i :: 0 <= i < |rules| - 1 ==> rules[..|rules| - 1][i] == rules[i];
        r
  }

  /** A class subject is in the map exactly when some rule names it. */
  function HasRules(rules: seq<Rule>, classSubjectId: nat): bool {
    exists i :: 0 <= i < |rules| && rules[i].classSubjectId == classSubjectId
  }

  /** The rules map agrees with the last-rule reading at every class subject
      and exam type, and holds exactly the class subjects that have rules. */
  lemma {:induction false} RulesMapLastWins(rules: seq<Rule>, classSubjectId: nat, examType: string)
    ensures var m := RulesMapOf(rules);
      && (classSubjectId in m <==> HasRules(rules, classSubjectId))
      && LastRule(rules, classSubjectId, examType)
         == if classSubjectId in m && examType in m[classSubjectId]
            then Some(m[classSubjectId][examType]) else None
  {
    if rules != [] {
      var prefix := rules[..|rules| - 1];
      RulesMapLastWins(prefix, classSubjectId, examType);
      assert forall i :: 0 <= i < |prefix| ==> prefix[i] == rules[i];
      if HasRules(rules, classSubjectId) && !HasRules(prefix, classSubjectId) {
        assert rules[|rules| - 1].classSubjectId == classSubjectId;
      }
    }
  }

  /** The loop of getClassSubjects over the rules rows. */
  method BuildRulesMap(rules: seq<Rule>) returns (m: map<nat, map<string, real>>)
    ensures m == RulesMapOf(rules)
  {
    m := map[];
    for i := 0 to |rules|
      invariant m == RulesMapOf(rules[..i])
    {
      var rule := rules[i];
      var current := if rule.classSubjectId in m then m[rule.classSubjectId] else map[];
      current := current[rule.examType := rule.maxMarks];
      m := m[rule.classSubjectId := current];
      assert rules[..i + 1][..i] == rules[..i];
    }
    assert rules[..|rules|] == rules;
  }

  /** A row of the class-subjects query. */
  datatype ClassSubjectListing = ClassSubjectListing(
    classSubjectId: nat, subjectId: nat, name: string, code: string, isOptional: bool)

  datatype ClassSubjectView = ClassSubjectView(
    classSubjectId: nat, subjectId: nat, name: string, code: string, isOptional: bool,
    maxMarks: map<string, real>)

  /** The final rows.map of getClassSubjects: one view per listed class
      subject, in order, with `rulesMap.get(id) || {}` as its max marks. */
  function ClassSubjectViews(rows: seq<ClassSubjectListing>, rules: seq<Rule>): (r: seq<ClassSubjectView>)
    ensures |r| == |rows|
    ensures forall i :: 0 <= i < |r| ==>
      && r[i].classSubjectId == rows[i].classSubjectId
      && r[i].subjectId == rows[i].subjectId
      && r[i].isOptional == rows[i].isOptional
  {
    var m := RulesMapOf(rules);
    seq(|rows|, i requires 0 <= i < |rows| =>
      var row := rows[i];
      ClassSubjectView(row.classSubjectId, row.subjectId, row.name, row.code, row.isOptional,
        if row.classSubjectId in m then m[row.classSubjectId] else map[]))
  }

  /** Each view's max marks give, per exam type, the last rule read for
      that class subject; a class subject without rules gets {}. */
  lemma ClassSubjectViewMaxMarks(rows: seq<ClassSubjectListing>, rules: seq<Rule>, i: nat, examType: string)
    requires i < |rows|
    ensures var v := ClassSubjectViews(rows, rules)[i];
      && (!HasRules(rules, v.classSubjectId) ==> v.maxMarks == map[])
      && LastRule(rules, v.classSubjectId, examType)
         == if examType in v.maxMarks then Some(v.maxMarks[examType]) else None
  {
    RulesMapLastWins(rules, rows[i].classSubjectId, examType);
  }

  // ---------------------------------------------------------------------
  // Tables written by upsertClassSubject and setStudentSubjectEnrollment
  // ---------------------------------------------------------------------

  /** A row of subjects; its id is its position. */
  datatype SubjectRow = SubjectRow(name: string, code: string, gradeFrom: nat, gradeTo: nat)

  /** A row of class_subjects; its id is its position. */
  datatype ClassSubjectRow = ClassSubjectRow(classId: nat, subjectId: nat, isOptional: bool)

  datatype RuleKey = RuleKey(classSubjectId: nat, examType: string)

  datatype EnrollmentKey = EnrollmentKey(studentId: nat, classSubjectId: nat)

  /** The four exam types, in the order upsertClassSubject visits them. */
  const ExamTypes: seq<string> := ["Unit", "Mid", "Final", "Practical"]

  function Codes(subjects: seq<SubjectRow>): set<string> {
    set i | 0 <= i < |subjects| :: subjects[i].code
  }

  /** SELECT ... FROM subjects WHERE code = ?, first row. */
  function SubjectWithCode(subjects: seq<SubjectRow>, code: string): (r: Option<nat>)
    ensures r.Some? ==> r.value < |subjects| && subjects[r.value].code == code
    ensures r.None? ==> code !in Codes(subjects)
  {
    if subjects == [] then None
    else if subjects[0].code == code then Some(0)
    else
      var r := SubjectWithCode(subjects[1..], code);
      assert forall i :: 1 <= i < |subjects| ==> subjects[1..][i - 1] == subjects[i];
      if r.Some? then Some(r.value + 1) else None
  }

  /** SELECT ... FROM subjects WHERE lower(name) = lower(?) LIMIT 1 */
  function SubjectWithName(subjects: seq<SubjectRow>, name: string): (r: Option<nat>)
    ensures r.Some? ==> r.value < |subjects| && Lower(subjects[r.value].name) == Lower(name)
    ensures r.None? ==> forall i :: 0 <= i < |subjects| ==> Lower(subjects[i].name) != Lower(name)
  {
    if subjects == [] then None
    else if Lower(subjects[0].name) == Lower(name) then Some(0)
    else
      var r := SubjectWithName(subjects[1..], name);
      assert forall i :: 1 <= i < |subjects| ==> subjects[1..][i - 1] == subjects[i];
      if r.Some? then Some(r.value + 1) else None
  }

  /** The subject lookup of upsertClassSubject: by code when a code is
      given, otherwise (or when no subject has it) by name. */
  function ResolveSubject(subjects: seq<SubjectRow>, subjectName: string, subjectCode: Option<string>): (r: Option<nat>)
    ensures r.Some? ==> r.value < |subjects|
    ensures r.None? ==> forall i :: 0 <= i < |subjects| ==> Lower(subjects[i].name) != Lower(subjectName)
  {
    var byCode := if subjectCode.Some? && subjectCode.value != "" then SubjectWithCode(subjects, subjectCode.value) else None;
    if byCode.Some? then byCode else SubjectWithName(subjects, subjectName)
  }

  /** The code a new subject gets: the trimmed code given, else a generated one. */
  ghost predicate NewSubjectCode(subjectName: string, subjectCode: Option<string>, existing: set<string>, code: string) {
    if subjectCode.Some? && Trim(subjectCode.value) != "" then code == Trim(subjectCode.value)
    else GeneratedCode(subjectName, existing, code)
  }

  ghost predicate UniqueClassSubjects(rows: seq<ClassSubjectRow>) {
    forall i, j :: 0 <= i < j < |rows| ==>
      rows[i].classId != rows[j].classId || rows[i].subjectId != rows[j].subjectId
  }

  /** getClassSubjectMeta: the class_subjects row for (class, subject). */
  function FindClassSubject(rows: seq<ClassSubjectRow>, classId: nat, subjectId: nat): (r: Option<nat>)
    ensures r.Some? ==> r.value < |rows| && rows[r.value].classId == classId && rows[r.value].subjectId == subjectId
    ensures r.None? ==> forall i :: 0 <= i < |rows| ==> rows[i].classId != classId || rows[i].subjectId != subjectId
  {
    if rows == [] then None
    else if rows[|rows| - 1].classId == classId && rows[|rows| - 1].subjectId == subjectId then Some(|rows| - 1)
    else FindClassSubject(rows[..|rows| - 1], classId, subjectId)
  }

  /** INSERT OR IGNORE then UPDATE is_optional on class_subjects. */
  function LinkClassSubject(rows: seq<ClassSubjectRow>, classId: nat, subjectId: nat, isOptional: bool): seq<ClassSubjectRow> {
    match FindClassSubject(rows, classId, subjectId)
    case None => rows + [ClassSubjectRow(classId, subjectId, isOptional)]
    case Some(id) => rows[id := ClassSubjectRow(classId, subjectId, isOptional)]
  }

  /** Linking keeps one row per (class, subject), gives the pair the
      requested optional flag and leaves every other row as it was. */
  lemma LinkClassSubjectFacts(rows: seq<ClassSubjectRow>, classId: nat, subjectId: nat, isOptional: bool)
    requires UniqueClassSubjects(rows)
    ensures var r := LinkClassSubject(rows, classId, subjectId, isOptional);
      && UniqueClassSubjects(r)
      && |r| >= |rows|
      && FindClassSubject(r, classId, subjectId).Some?
      && r[FindClassSubject(r, classId, subjectId).value] == ClassSubjectRow(classId, subjectId, isOptional)
      && forall i :: 0 <= i < |rows| && (rows[i].classId != classId || rows[i].subjectId != subjectId) ==> r[i] == rows[i]
  {
    var r := LinkClassSubject(rows, classId, subjectId, isOptional);
    var f := FindClassSubject(r, classId, subjectId);
    match FindClassSubject(rows, classId, subjectId)
    case None =>
      assert r[|rows|] == ClassSubjectRow(classId, subjectId, isOptional);
      assert f == Some(|rows|);
    case Some(id) =>
      assert UniqueClassSubjects(r) by {
        forall i, j | 0 <= i < j < |r| ensures r[i].classId != r[j].classId || r[i].subjectId != r[j].subjectId {
          assert rows[i].classId != rows[j].classId || rows[i].subjectId != rows[j].subjectId;
        }
      }
      assert r[id] == ClassSubjectRow(classId, subjectId, isOptional);
      assert f.value == id;
  }

  /** The exam-rule writes of upsertClassSubject: each of the four exam
      types whose value is positive is stored (INSERT OR REPLACE). */
  function ApplyRules(rules: map<RuleKey, real>, classSubjectId: nat, maxMarks: map<string, real>, types: seq<string>): map<RuleKey, real> {
    if types == [] then rules
    else
      var before := ApplyRules(rules, classSubjectId, maxMarks, types[..|types| - 1]);
      var t := types[|types| - 1];
      if t in maxMarks && maxMarks[t] > 0.0 then before[RuleKey(classSubjectId, t) := maxMarks[t]] else before
  }

  /** After the rule writes, a key holds the given value exactly when it is
      one of the listed exam types of this class subject with a positive
      value; every other key is as before. */
  lemma {:induction false} ApplyRulesFacts(rules: map<RuleKey, real>, classSubjectId: nat, maxMarks: map<string, real>, types: seq<string>, key: RuleKey)
    ensures var r := ApplyRules(rules, classSubjectId, maxMarks, types);
      if key.classSubjectId == classSubjectId && key.examType in types
         && key.examType in maxMarks && maxMarks[key.examType] > 0.0
      then key in r && r[key] == maxMarks[key.examType]
      else (key in r <==> key in rules) && (key in r ==> r[key] == rules[key])
  {
    if types != [] {
      var prefix := types[..|types| - 1];
      ApplyRulesFacts(rules, classSubjectId, maxMarks, prefix, key);
      assert key.examType in types <==> key.examType in prefix || key.examType == types[|types| - 1];
    }
  }

  datatype Upserted = Upserted(classSubjectId: nat, subjectId: nat)

  class CoreStore {
    /** class id -> grade */
    var classes: map<nat, nat>
    var subjects: seq<SubjectRow>
    var classSubjects: seq<ClassSubjectRow>
    var rules: map<RuleKey, real>
    var enrollments: map<EnrollmentKey, bool>

    ghost predicate Valid()
      reads this
    {
      UniqueClassSubjects(classSubjects)
    }

    constructor (classes: map<nat, nat>)
      ensures Valid()
      ensures this.classes == classes && subjects == [] && classSubjects == [] && rules == map[] && enrollments == map[]
    {
      this.classes := classes;
      subjects, classSubjects, rules, enrollments := [], [], map[], map[];
    }

    /** getClassSubjectMeta */
    function ClassSubjectMeta(classId: nat, subjectId: nat): (r: Option<ClassSubjectRow>)
      reads this
      ensures r.Some? <==> FindClassSubject(classSubjects, classId, subjectId).Some?
      ensures r.Some? ==> r.value.classId == classId && r.value.subjectId == subjectId
    {
      match FindClassSubject(classSubjects, classId, subjectId)
      case None => None
      case Some(id) => Some(classSubjects[id])
    }

    /** setStudentSubjectEnrollment: INSERT OR IGNORE then UPDATE leaves one
        row for the pair, holding the flag given. */
    method SetStudentSubjectEnrollment(studentId: nat, classSubjectId: nat, isEnrolled: bool)
      modifies this
      ensures enrollments == old(enrollments)[EnrollmentKey(studentId, classSubjectId) := isEnrolled]
      ensures classes == old(classes) && subjects == old(subjects)
      ensures classSubjects == old(classSubjects) && rules == old(rules)
    {
      enrollments := enrollments[EnrollmentKey(studentId, classSubjectId) := isEnrolled];
    }

    /** The subject half of upsertClassSubject: the subject found by code
        or name, or a new one for the class's grade. */
    method FindOrCreateSubject(subjectName: string, subjectCode: Option<string>, grade: nat)
      returns (subjectId: nat)
      modifies this
      ensures var found := ResolveSubject(old(subjects), subjectName, subjectCode);
        && (found.Some? ==> subjects == old(subjects) && subjectId == found.value)
        && (found.None? ==>
              && subjectId == |old(subjects)|
              && |subjects| == |old(subjects)| + 1
              && subjects[..|old(subjects)|] == old(subjects)
              && subjects[subjectId].name == subjectName
              && subjects[subjectId].gradeFrom == grade
              && subjects[subjectId].gradeTo == grade
              && NewSubjectCode(subjectName, subjectCode, Codes(old(subjects)), subjects[subjectId].code))
      ensures classes == old(classes) && classSubjects == old(classSubjects)
      ensures rules == old(rules) && enrollments == old(enrollments)
    {
      var found := ResolveSubject(subjects, subjectName, subjectCode);
      if found.Some? {
        return found.value;
      }
      var code: string;
      if subjectCode.Some? && Trim(subjectCode.value) != "" {
        code := Trim(subjectCode.value);
      } else {
        code := GenerateSubjectCode(subjectName, Codes(subjects));
      }
      subjectId := |subjects|;
      subjects := subjects + [SubjectRow(subjectName, code, grade, grade)];
    }

    /** The rule writes of upsertClassSubject. */
    method WriteRules(classSubjectId: nat, maxMarks: map<string, real>)
      modifies this
      ensures rules == ApplyRules(old(rules), classSubjectId, maxMarks, ExamTypes)
      ensures classes == old(classes) && subjects == old(subjects)
      ensures classSubjects == old(classSubjects) && enrollments == old(enrollments)
    {
      for k := 0 to |ExamTypes|
        invariant rules == ApplyRules(old(rules), classSubjectId, maxMarks, ExamTypes[..k])
        invariant classes == old(classes) && subjects == old(subjects)
        invariant classSubjects == old(classSubjects) && enrollments == old(enrollments)
      {
        var t := ExamTypes[k];
        if t in maxMarks && maxMarks[t] > 0.0 {
          rules := rules[RuleKey(classSubjectId, t) := maxMarks[t]];
        }
        assert ExamTypes[..k + 1][..k] == ExamTypes[..k];
      }
      assert ExamTypes[..|ExamTypes|] == ExamTypes;
    }

    /** upsertClassSubject: fails when the class is missing; otherwise finds
        or creates the subject, links it to the class with the optional
        flag, and stores the positive rules of the four exam types. */
    method UpsertClassSubject(classId: nat, subjectName: string, subjectCode: Option<string>,
                              isOptional: bool, maxMarks: map<string, real>)
      returns (r: Option<Upserted>)
      requires Valid()
      modifies this
      ensures Valid()
      ensures r.None? <==> classId !in old(classes)
      ensures r.None? ==> subjects == old(subjects) && classSubjects == old(classSubjects) && rules == old(rules)
      ensures classes == old(classes) && enrollments == old(enrollments)
      ensures r.Some? ==>
        var found := ResolveSubject(old(subjects), subjectName, subjectCode);
        && (found.Some? ==> subjects == old(subjects) && r.value.subjectId == found.value)
        && (found.None? ==>
              && r.value.subjectId == |old(subjects)|
              && |subjects| == |old(subjects)| + 1
              && subjects[..|old(subjects)|] == old(subjects)
              && subjects[r.value.subjectId].name == subjectName
              && subjects[r.value.subjectId].gradeFrom == old(classes)[classId]
              && subjects[r.value.subjectId].gradeTo == old(classes)[classId]
              && NewSubjectCode(subjectName, subjectCode, Codes(old(subjects)), subjects[r.value.subjectId].code))
        && classSubjects == LinkClassSubject(old(classSubjects), classId, r.value.subjectId, isOptional)
        && FindClassSubject(classSubjects, classId, r.value.subjectId).Some?
        && r.value.classSubjectId == FindClassSubject(classSubjects, classId, r.value.subjectId).value
        && rules == ApplyRules(old(rules), r.value.classSubjectId, maxMarks, ExamTypes)
    {
      if classId !in classes {
        return None;
      }
      var subjectId := FindOrCreateSubject(subjectName, subjectCode, classes[classId]);
      LinkClassSubjectFacts(classSubjects, classId, subjectId, isOptional);
      classSubjects := LinkClassSubject(classSubjects, classId, subjectId, isOptional);
      var classSubjectId := FindClassSubject(classSubjects, classId, subjectId).value;
      WriteRules(classSubjectId, maxMarks);
      r := Some(Upserted(classSubjectId, subjectId));
    }
  }
}
