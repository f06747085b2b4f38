/** One filled-in form through the form's steps: it passes validation, is
    assembled, and its marks and attendance are classified. */
module ProfileExample {
  import opened Wrappers
  import opened Types
  import opened Text
  import opened Utils
  import opened StudentForm

  function SampleDraft(): Draft
  {
    Draft(
      StudentInfo("2024-001", "Jane Doe", Some(15), "John Doe Sr.", "Jane Doe Sr.", "1 Main St"),
      Marks(Some(80.0), Some(80.0), Some(80.0), Some(80.0), Some(80.0)),
      Some(92.0))
  }

  /** Every field of the sample is filled in. */
  lemma SampleIsValid()
    ensures Valid(SampleDraft())
  {
    var d := SampleDraft();
    assert "2024-001"[0] == '2' && "Jane Doe"[0] == 'J' && "John Doe Sr."[0] == 'J';
    assert "Jane Doe Sr."[0] == 'J' && "1 Main St"[0] == '1';
    assert !IsWhitespace(d.info.registerNumber[0]);
    assert !IsWhitespace(d.info.name[0]);
    assert !IsWhitespace(d.info.fatherName[0]);
    assert !IsWhitespace(d.info.motherName[0]);
    assert !IsWhitespace(d.info.address[0]);
  }

  /** The sample passes validation. */
  lemma SamplePasses()
    ensures Validate(SampleDraft()) == []
  {
    SampleIsValid();
    ValidateEmptyIffValid(SampleDraft());
  }

  /** A complete draft with 80 in every subject and 92 attendance gives a
      profile of the five subjects in order, each graded B, with Excellent
      attendance. */
  lemma EightiesProfile(d: Draft)
    requires Validate(d) == []
    requires forall s: Subject :: d.marks.Get(s) == Some(80.0)
    requires d.attendance == Some(92.0)
    ensures var p := Assemble(d);
      && |p.subjects| == 5
      && (forall i :: 0 <= i < 5 ==> p.subjects[i].name == AllSubjects()[i])
      && (forall i :: 0 <= i < 5 ==> CalculateGrade(p.subjects[i].marks.value) == B)
      && GetAttendanceStatus(p.attendance.percentage.value) == Excellent
  {
  }

  /** The sample's profile: five subjects graded B, attendance Excellent. */
  lemma SampleProfile()
    ensures Validate(SampleDraft()) == []
    ensures var p := Assemble(SampleDraft());
      && |p.subjects| == 5
      && (forall i :: 0 <= i < 5 ==> CalculateGrade(p.subjects[i].marks.value) == B)
      && GetAttendanceStatus(p.attendance.percentage.value) == Excellent
  {
    SamplePasses();
    EightiesProfile(SampleDraft());
  }

  /** Blanking only the sample's register number leaves exactly that error. */
  lemma SampleWithoutRegisterNumber()
    ensures Validate(SampleDraft().(info := SampleDraft().info.(registerNumber := ""))) == [RegisterNumberRequired]
  {
    SampleIsValid();
    OnlyRegisterNumberMissing(SampleDraft(), "");
  }
}
