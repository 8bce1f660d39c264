/** formatClassLabel of client/src/utils/format.ts: the parts of a class
    label are pushed in order and joined by spaces. */
module Format {
  import opened Common

  /** `{ name, grade?, section? }`; None is null or undefined. */
  datatype ClassLabelInput = ClassLabelInput(name: string, grade: Option<int>, section: Option<string>)

  /** `if (input.grade)`: 0 and null are falsy. */
  predicate ShowsGrade(input: ClassLabelInput) {
    input.grade.Some? && input.grade.value != 0
  }

  /** `if (input.name)` */
  predicate ShowsName(input: ClassLabelInput) {
    |input.name| != 0
  }

  /** `if (input.section)` */
  predicate ShowsSection(input: ClassLabelInput) {
    input.section.Some? && |input.section.value| != 0
  }

  function GradePart(grade: int): string {
    "Grade " + IntToString(grade)
  }

  /** The parts array after the three conditional pushes: grade, name and
      the upper-cased section, each only when present, in that order. */
  function LabelParts(input: ClassLabelInput): (parts: seq<string>)
    ensures |parts| == (if ShowsGrade(input) then 1 else 0) + (if ShowsName(input) then 1 else 0)
                      + (if ShowsSection(input) then 1 else 0)
    ensures ShowsGrade(input) ==> parts[0] == GradePart(input.grade.value)
    ensures ShowsName(input) ==> parts[if ShowsGrade(input) then 1 else 0] == input.name
    ensures ShowsSection(input) ==> parts[|parts| - 1] == Upper(input.section.value)
  {
    var withGrade := if ShowsGrade(input) then [GradePart(input.grade.value)] else [];
    var withName := if ShowsName(input) then withGrade + [input.name] else withGrade;
    if ShowsSection(input) then withName + [Upper(input.section.value)] else withName
  }

  /** formatClassLabel */
  function FormatClassLabel(input: ClassLabelInput): (r: string)
    ensures !ShowsGrade(input) && !ShowsName(input) && !ShowsSection(input) ==> r == ""
    ensures Trimmed(r)
  {
    Trim(Join(LabelParts(input), " "))
  }

  /** A grade of 0 is left out exactly as a missing one. */
  lemma ZeroGradeOmitted(input: ClassLabelInput)
    ensures FormatClassLabel(input.(grade := Some(0))) == FormatClassLabel(input.(grade := None))
  {
  }

  /** With all three parts present (the section not ending in a space) the
      label is "Grade N name SECTION". */
  lemma JoinThree(a: string, b: string, c: string, sep: string)
    ensures Join([a, b, c], sep) == a + sep + b + sep + c
  {
    assert [a, b, c][1..] == [b, c];
    assert [b, c][1..] == [c];
    assert Join([b, c], sep) == b + sep + c;
    assert Join([a, b, c], sep) == a + sep + (b + sep + c);
  }

  lemma FullLabel(grade: int, name: string, section: string)
    requires grade != 0 && |name| != 0 && |section| != 0 && !IsSpace(section[|section| - 1])
    ensures FormatClassLabel(ClassLabelInput(name, Some(grade), Some(section)))
         == GradePart(grade) + " " + name + " " + Upper(section)
  {
    var input := ClassLabelInput(name, Some(grade), Some(section));
    var g, u := GradePart(grade), Upper(section);
    assert LabelParts(input) == [g, name, u];
    JoinThree(g, name, u, " ");
    var joined := g + " " + name + " " + u;
    assert u[|u| - 1] == UpperChar(section[|section| - 1]);
    EndsWith(g + " " + name + " ", u);
    assert joined[0] == g[0] == 'G';
    assert Trimmed(joined);
    TrimOfTrimmed(joined);
  }

  lemma EndsWith(a: string, b: string)
    requires |b| != 0
    ensures (a + b)[|a + b| - 1] == b[|b| - 1]
  {
  }
}
