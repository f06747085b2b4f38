/** The student form as a value: a draft of every field, the validation that
    lists what is missing, the two guards that filter numeric keystrokes, and
    the assembly of a profile once nothing is missing. */
module StudentForm {
  import opened Wrappers
  import opened Types
  import opened Text

  /** The marks record, one possibly blank mark per subject; a record with a
      field per subject is total over the closed subject set by construction. */
  datatype Marks = Marks(
    math: Option<real>,
    english: Option<real>,
    science: Option<real>,
    socialStudies: Option<real>,
    computer: Option<real>)
  {
    /** The mark entered for `s`. */
    function Get(s: Subject): Option<real>
    {
      match s
      case Math => math
      case English => english
      case Science => science
      case SocialStudies => socialStudies
      case Computer => computer
    }

    /** `{ ...prev, [s]: v }`: the mark for `s` becomes `v`, no other mark
        changes. */
    function Set(s: Subject, v: Option<real>): (r: Marks)
      ensures r.Get(s) == v
      ensures forall t: Subject :: t != s ==> r.Get(t) == Get(t)
    {
      match s
      case Math => this.(math := v)
      case English => this.(english := v)
      case Science => this.(science := v)
      case SocialStudies => this.(socialStudies := v)
      case Computer => this.(computer := v)
    }
  }

  /** The marks record the form starts with: every subject blank. */
  function InitialMarks(): (m: Marks)
    ensures forall s: Subject :: m.Get(s).None?
  {
    Marks(None, None, None, None, None)
  }

  /** Everything the form holds: the personal details, the marks and the
      attendance percentage. */
  datatype Draft = Draft(info: StudentInfo, marks: Marks, attendance: Option<real>)

  /** The form as first shown: empty strings and blank numbers, so every
      field is missing. */
  function InitialDraft(): (d: Draft)
    ensures forall f: Field :: Missing(d, f)
  {
    Draft(StudentInfo("", "", None, "", "", ""), InitialMarks(), None)
  }

  // Validation.

  /** The fields validation checks, one message each. */
  datatype Field =
    | RegisterNumberField | NameField | AgeField
    | FatherNameField | MotherNameField | AddressField
    | MarkField(subject: Subject)
    | AttendanceField

  /** The order the checks run in: the six personal fields, then the marks
      record's keys in the order the record was created with, then
      attendance. */
  function FieldOrder(): (fs: seq<Field>)
    ensures |fs| == 12
    ensures forall f: Field :: f in fs && fs[FieldIndex(f)] == f
    ensures Distinct(fs)
  {
    var fs := [RegisterNumberField, NameField, AgeField, FatherNameField, MotherNameField, AddressField,
               MarkField(Math), MarkField(English), MarkField(Science), MarkField(SocialStudies), MarkField(Computer),
               AttendanceField];
    assert forall f: Field :: f in fs && fs[FieldIndex(f)] == f by {
      forall f: Field ensures f in fs && fs[FieldIndex(f)] == f {
        assert fs[FieldIndex(f)] == f;
      }
    }
    fs
  }

  /** Where a field sits in `FieldOrder()`. */
  function FieldIndex(f: Field): (i: nat)
    ensures i < 12
  {
    match f
    case RegisterNumberField => 0
    case NameField => 1
    case AgeField => 2
    case FatherNameField => 3
    case MotherNameField => 4
    case AddressField => 5
    case MarkField(s) => 6 + SubjectIndex(s)
    case AttendanceField => 11
  }

  const RegisterNumberRequired: string := "Register Number is required."
  const StudentNameRequired: string := "Student Name is required."
  const ValidAgeRequired: string := "Valid Age is required."
  const FatherNameRequired: string := "Father's Name is required."
  const MotherNameRequired: string := "Mother's Name is required."
  const AddressRequired: string := "Address is required."
  const MarksRequiredSuffix: string := " marks are required."
  const AttendanceRequired: string := "Attendance percentage is required."

  /** The message for a failed field. A subject's reads "{subject} marks are
      required.": its label, which reads back as the subject, then the fixed
      suffix. */
  function Message(f: Field): (m: string)
    ensures f.MarkField? ==>
      && |MarksRequiredSuffix| < |m|
      && ParseSubject(m[..|m| - |MarksRequiredSuffix|]) == Some(f.subject)
      && m[|m| - |MarksRequiredSuffix|..] == MarksRequiredSuffix
  {
    match f
    case RegisterNumberField => RegisterNumberRequired
    case NameField => StudentNameRequired
    case AgeField => ValidAgeRequired
    case FatherNameField => FatherNameRequired
    case MotherNameField => MotherNameRequired
    case AddressField => AddressRequired
    case MarkField(s) => SubjectLabel(s) + MarksRequiredSuffix
    case AttendanceField => AttendanceRequired
  }

  /** The check for one field, as the form writes it: text must keep a
      character after `trim()`, the age must be filled in and at least 1, a
      mark or the attendance must be filled in. */
  predicate Fails(d: Draft, f: Field)
    ensures Fails(d, f) <==> Missing(d, f)
  {
    match f
    case RegisterNumberField => Trim(d.info.registerNumber) == []
    case NameField => Trim(d.info.name) == []
    case AgeField => d.info.age.None? || d.info.age.value < 1
    case FatherNameField => Trim(d.info.fatherName) == []
    case MotherNameField => Trim(d.info.motherName) == []
    case AddressField => Trim(d.info.address) == []
    case MarkField(s) => d.marks.Get(s).None?
    case AttendanceField => d.attendance.None?
  }

  /** Runs the checks of `fs` one after the other, none stopping the next,
      and collects the messages of those that fail. */
  function Collect(d: Draft, fs: seq<Field>): (errors: seq<string>)
    ensures |errors| <= |fs|
  {
    if fs == [] then []
    else (if Fails(d, fs[0]) then [Message(fs[0])] else []) + Collect(d, fs[1..])
  }

  /** The error list the form shows; the draft passes when it is empty. A
      field's message is listed exactly when that field's check fails: no
      check stops the others. */
  function Validate(d: Draft): (errors: seq<string>)
    ensures |errors| <= 12
    ensures forall f: Field :: Message(f) in errors <==> Fails(d, f)
  {
    var errors := Collect(d, FieldOrder());
    assert forall f: Field :: Message(f) in errors <==> Fails(d, f) by {
      forall f: Field ensures Message(f) in errors <==> Fails(d, f) {
        CollectMember(d, FieldOrder(), f);
      }
    }
    errors
  }

  /** `validate()`'s boolean: the list is empty. */
  function Passes(d: Draft): (ok: bool)
    ensures ok <==> Valid(d)
  {
    ValidateEmptyIffValid(d);
    |Validate(d)| == 0
  }

  /** The messages of `fs`, in order. */
  function Messages(fs: seq<Field>): (ms: seq<string>)
    ensures |ms| == |fs|
  {
    if fs == [] then [] else [Message(fs[0])] + Messages(fs[1..])
  }

  /** Every message validation can produce, in the order the checks run. */
  function ErrorOrder(): seq<string>
  {
    Messages(FieldOrder())
  }

  // The reference validation is measured against.

  /** A field that is not filled in, in the reference's own terms: text that
      is empty or white space only, an age that is blank or below 1, a blank
      mark or attendance. */
  ghost predicate Missing(d: Draft, f: Field)
  {
    match f
    case RegisterNumberField => IsBlank(d.info.registerNumber)
    case NameField => IsBlank(d.info.name)
    case AgeField => !(d.info.age.Some? && d.info.age.value >= 1)
    case FatherNameField => IsBlank(d.info.fatherName)
    case MotherNameField => IsBlank(d.info.motherName)
    case AddressField => IsBlank(d.info.address)
    case MarkField(s) => d.marks.Get(s) == None
    case AttendanceField => d.attendance == None
  }

  /** A complete draft: every text field has a non-space character, the age
      is at least 1, and every mark and the attendance are filled in. */
  ghost predicate Valid(d: Draft)
  {
    && !IsBlank(d.info.registerNumber)
    && !IsBlank(d.info.name)
    && d.info.age.Some? && d.info.age.value >= 1
    && !IsBlank(d.info.fatherName)
    && !IsBlank(d.info.motherName)
    && !IsBlank(d.info.address)
    && (forall s: Subject :: d.marks.Get(s).Some?)
    && d.attendance.Some?
  }

  /** `a` is `b` with some elements left out, the rest in the same order. */
  ghost predicate IsSubsequence<T>(a: seq<T>, b: seq<T>)
    decreases |b|
  {
    if a == [] then true
    else if b == [] then false
    else (a[0] == b[0] && IsSubsequence(a[1..], b[1..])) || IsSubsequence(a, b[1..])
  }

  ghost predicate Distinct<T>(xs: seq<T>)
  {
    forall i, j :: 0 <= i < j < |xs| ==> xs[i] != xs[j]
  }

  /** The length and first character of each message. */
  lemma MessageShape(f: Field)
    ensures |Message(f)| == MessageLength(f) && Message(f)[0] == MessageInitial(f)
  {
    match f
    case RegisterNumberField => assert "Register Number is required."[0] == 'R';
    case NameField => assert "Student Name is required."[0] == 'S';
    case AgeField => assert "Valid Age is required."[0] == 'V';
    case FatherNameField => assert "Father's Name is required."[0] == 'F';
    case MotherNameField => assert "Mother's Name is required."[0] == 'M';
    case AddressField => assert "Address is required."[0] == 'A';
    case AttendanceField => assert "Attendance percentage is required."[0] == 'A';
    case MarkField(s) =>
      match s
      case Math => assert "Math"[0] == 'M';
      case English => assert "English"[0] == 'E';
      case Science => assert "Science"[0] == 'S';
      case SocialStudies => assert "Social Studies"[0] == 'S';
      case Computer => assert "Computer"[0] == 'C';
  }

  function MessageLength(f: Field): nat
  {
    match f
    case RegisterNumberField => 28
    case NameField => 25
    case AgeField => 22
    case FatherNameField => 26
    case MotherNameField => 26
    case AddressField => 20
    case MarkField(Math) => 24
    case MarkField(English) => 27
    case MarkField(Science) => 27
    case MarkField(SocialStudies) => 34
    case MarkField(Computer) => 28
    case AttendanceField => 34
  }

  function MessageInitial(f: Field): char
  {
    match f
    case RegisterNumberField => 'R'
    case NameField => 'S'
    case AgeField => 'V'
    case FatherNameField => 'F'
    case MotherNameField => 'M'
    case AddressField => 'A'
    case MarkField(Math) => 'M'
    case MarkField(English) => 'E'
    case MarkField(Science) => 'S'
    case MarkField(SocialStudies) => 'S'
    case MarkField(Computer) => 'C'
    case AttendanceField => 'A'
  }

  /** No two fields share a message. */
  lemma MessageInjective(f: Field, g: Field)
    ensures Message(f) == Message(g) <==> f == g
  {
    MessageShape(f);
    MessageShape(g);
  }

  /** A field's message is collected exactly when the field is among `fs`
      and fails its check. */
  lemma {:induction false} CollectMember(d: Draft, fs: seq<Field>, f: Field)
    ensures Message(f) in Collect(d, fs) <==> f in fs && Fails(d, f)
    decreases |fs|
  {
    if fs != [] {
      CollectMember(d, fs[1..], f);
      MessageInjective(f, fs[0]);
      var head := if Fails(d, fs[0]) then [Message(fs[0])] else [];
      assert Collect(d, fs) == head + Collect(d, fs[1..]);
      assert fs == [fs[0]] + fs[1..];
    }
  }

  /** Nothing is collected exactly when every check passes. */
  lemma {:induction false} CollectEmpty(d: Draft, fs: seq<Field>)
    ensures Collect(d, fs) == [] <==> forall i :: 0 <= i < |fs| ==> !Fails(d, fs[i])
    decreases |fs|
  {
    if fs != [] {
      CollectEmpty(d, fs[1..]);
      assert forall i :: 1 <= i < |fs| ==> fs[i] == fs[1..][i - 1];
    }
  }

  /** When every check fails, every message is collected, in order. */
  lemma {:induction false} CollectAll(d: Draft, fs: seq<Field>)
    requires forall i :: 0 <= i < |fs| ==> Fails(d, fs[i])
    ensures Collect(d, fs) == Messages(fs)
    decreases |fs|
  {
    if fs != [] {
      CollectAll(d, fs[1..]);
    }
  }

  /** The collected messages keep the order of `fs`. */
  lemma {:induction false} CollectIsSubsequence(d: Draft, fs: seq<Field>)
    ensures IsSubsequence(Collect(d, fs), Messages(fs))
    decreases |fs|
  {
    if fs != [] {
      CollectIsSubsequence(d, fs[1..]);
      var rest := Collect(d, fs[1..]);
      var ms := Messages(fs);
      assert ms[0] == Message(fs[0]) && ms[1..] == Messages(fs[1..]);
      if Fails(d, fs[0]) {
        assert Collect(d, fs) == [ms[0]] + rest;
        assert ([ms[0]] + rest)[1..] == rest;
      } else {
        assert Collect(d, fs) == rest;
      }
    }
  }

  /** When exactly one check fails, exactly its message is collected. */
  lemma {:induction false} CollectSingle(d: Draft, fs: seq<Field>, k: nat)
    requires k < |fs|
    requires forall i :: 0 <= i < |fs| ==> (Fails(d, fs[i]) <==> i == k)
    ensures Collect(d, fs) == [Message(fs[k])]
    decreases |fs|
  {
    var rest := fs[1..];
    assert forall i :: 0 <= i < |rest| ==> rest[i] == fs[i + 1];
    if k == 0 {
      assert Fails(d, fs[0]);
      CollectEmpty(d, rest);
      assert Collect(d, fs) == [Message(fs[0])] + Collect(d, rest);
    } else {
      assert !Fails(d, fs[0]);
      CollectSingle(d, rest, k - 1);
      assert Collect(d, fs) == Collect(d, rest);
    }
  }

  /** The error list is a subsequence of the twelve messages in their fixed
      order, so it has at most twelve entries. */
  lemma ValidateIsOrderedSubsequence(d: Draft)
    ensures IsSubsequence(Validate(d), ErrorOrder())
    ensures |Validate(d)| <= 12
  {
    CollectIsSubsequence(d, FieldOrder());
  }

  /** A field's message is reported exactly when the field is missing. */
  lemma ValidateReportsExactlyMissing(d: Draft, f: Field)
    ensures Message(f) in Validate(d) <==> Missing(d, f)
  {
    CollectMember(d, FieldOrder(), f);
  }

  /** The reference's completeness is "no field is missing". */
  lemma ValidIffNoneMissing(d: Draft)
    ensures Valid(d) <==> forall f: Field :: !Missing(d, f)
  {
    if forall f: Field :: !Missing(d, f) {
      forall s: Subject ensures d.marks.Get(s).Some? {
        assert !Missing(d, MarkField(s));
      }
      assert !Missing(d, RegisterNumberField) && !Missing(d, NameField) && !Missing(d, AgeField);
      assert !Missing(d, FatherNameField) && !Missing(d, MotherNameField) && !Missing(d, AddressField);
      assert !Missing(d, AttendanceField);
    }
  }

  /** No errors exactly when the draft is complete. */
  lemma ValidateEmptyIffValid(d: Draft)
    ensures Validate(d) == [] <==> Valid(d)
  {
    var fs := FieldOrder();
    ValidIffNoneMissing(d);
    if Valid(d) {
      CollectEmpty(d, fs);
      forall i | 0 <= i < |fs| ensures !Fails(d, fs[i]) {
        assert !Missing(d, fs[i]);
      }
    } else {
      var f :| Missing(d, f);
      assert Message(f) in Validate(d);
    }
  }

  /** The blank form reports all twelve messages, in order. */
  lemma BlankFormReportsEverything()
    ensures Validate(InitialDraft()) == ErrorOrder()
  {
    var d, fs := InitialDraft(), FieldOrder();
    forall i | 0 <= i < |fs| ensures Fails(d, fs[i]) {
      assert Missing(d, fs[i]);
    }
    CollectAll(d, fs);
  }

  /** The age check: blank or below 1 is reported, 1 and above is not. */
  lemma AgeRule(d: Draft)
    ensures Message(AgeField) in Validate(d) <==> d.info.age.None? || d.info.age.value < 1
  {
    ValidateReportsExactlyMissing(d, AgeField);
  }

  /** A mark of zero is a mark, not a blank: no error for that subject. */
  lemma ZeroMarkIsNotBlank(d: Draft, s: Subject)
    requires d.marks.Get(s) == Some(0.0)
    ensures Message(MarkField(s)) !in Validate(d)
  {
    ValidateReportsExactlyMissing(d, MarkField(s));
  }

  /** In a complete draft, making one field missing makes its message the
      only error. */
  lemma OnlyOneMissing(d: Draft, d': Draft, f: Field)
    requires Valid(d) && Missing(d', f)
    requires forall g: Field :: g != f ==> (Missing(d', g) <==> Missing(d, g))
    ensures Validate(d') == [Message(f)]
  {
    var fs := FieldOrder();
    ValidIffNoneMissing(d);
    forall i | 0 <= i < |fs| ensures Fails(d', fs[i]) <==> i == FieldIndex(f) {
      assert fs[FieldIndex(f)] == f;
    }
    CollectSingle(d', fs, FieldIndex(f));
  }

  /** Blanking the register number of a complete draft (empty or white space
      only) gives exactly "Register Number is required.". */
  lemma OnlyRegisterNumberMissing(d: Draft, s: string)
    requires Valid(d) && IsBlank(s)
    ensures Validate(d.(info := d.info.(registerNumber := s))) == [RegisterNumberRequired]
  {
    OnlyOneMissing(d, d.(info := d.info.(registerNumber := s)), RegisterNumberField);
  }

  /** Clearing one mark of a complete draft gives exactly that subject's
      message. */
  lemma OnlyMarkMissing(d: Draft, s: Subject)
    requires Valid(d)
    ensures Validate(d.(marks := d.marks.Set(s, None))) == [SubjectLabel(s) + MarksRequiredSuffix]
  {
    OnlyOneMissing(d, d.(marks := d.marks.Set(s, None)), MarkField(s));
  }

  // The entry guards.

  /** Blank, or a number in [0, 100]. */
  predicate InRange(v: Option<real>)
  {
    v.None? || (0.0 <= v.value && v.value <= 100.0)
  }

  /** A keystroke in a mark box: an out-of-range number is dropped and the
      record stays as it was; otherwise only that subject's mark changes. */
  function HandleMarkChange(m: Marks, s: Subject, input: Option<real>): (r: Marks)
    ensures InRange(input) ==> r.Get(s) == input && forall t: Subject :: t != s ==> r.Get(t) == m.Get(t)
    ensures !InRange(input) ==> r == m
  {
    if MarkGuardRejects(input) then m else m.Set(s, input)
  }

  /** The mark guard's test: a number below 0 or above 100. It rejects
      exactly the entries that are not blank and not in range. */
  predicate MarkGuardRejects(input: Option<real>)
    ensures MarkGuardRejects(input) <==> !InRange(input)
  {
    input.Some? && (input.value < 0.0 || input.value > 100.0)
  }

  /** A keystroke in the attendance box: taken when blank or within
      [0, 100], otherwise the old value stays. The attendance guard's test is
      written as the range test itself, so the first two ensures follow the
      body; what it buys is the third, the range invariant, which `ApplyEdit`
      and `EditsKeepNumbersInRange` carry through any typing. */
  function HandleAttendanceChange(current: Option<real>, input: Option<real>): (r: Option<real>)
    ensures InRange(input) ==> r == input
    ensures !InRange(input) ==> r == current
    ensures InRange(current) ==> InRange(r)
  {
    if InRange(input) then input else current
  }

  /** An edit of one field of the form. Text fields and the age are taken as
      typed; marks and attendance go through their guards. */
  datatype Edit =
    | EditRegisterNumber(text: string)
    | EditName(text: string)
    | EditAge(age: Option<int>)
    | EditFatherName(text: string)
    | EditMotherName(text: string)
    | EditAddress(text: string)
    | EditMark(subject: Subject, input: Option<real>)
    | EditAttendance(input: Option<real>)

  /** Every mark and the attendance are blank or in [0, 100]. */
  ghost predicate NumbersInRange(d: Draft)
  {
    (forall s: Subject :: InRange(d.marks.Get(s))) && InRange(d.attendance)
  }

  /** One `onChange`: each edit sets its own field and nothing else, and a
      mark or attendance entry the guard rejects leaves the draft as it was. */
  function ApplyEdit(d: Draft, e: Edit): (r: Draft)
    ensures NumbersInRange(d) ==> NumbersInRange(r)
    ensures e.EditRegisterNumber? ==> r == d.(info := d.info.(registerNumber := e.text))
    ensures e.EditName? ==> r == d.(info := d.info.(name := e.text))
    ensures e.EditAge? ==> r == d.(info := d.info.(age := e.age))
    ensures e.EditFatherName? ==> r == d.(info := d.info.(fatherName := e.text))
    ensures e.EditMotherName? ==> r == d.(info := d.info.(motherName := e.text))
    ensures e.EditAddress? ==> r == d.(info := d.info.(address := e.text))
    ensures e.EditMark? ==> r.info == d.info && r.attendance == d.attendance
    ensures e.EditMark? && InRange(e.input) ==> r.marks == d.marks.Set(e.subject, e.input)
    ensures e.EditAttendance? ==> r.info == d.info && r.marks == d.marks
    ensures e.EditAttendance? && InRange(e.input) ==> r.attendance == e.input
    ensures (e.EditMark? || e.EditAttendance?) && !InRange(e.input) ==> r == d
  {
    match e
    case EditRegisterNumber(t) => d.(info := d.info.(registerNumber := t))
    case EditName(t) => d.(info := d.info.(name := t))
    case EditAge(a) => d.(info := d.info.(age := a))
    case EditFatherName(t) => d.(info := d.info.(fatherName := t))
    case EditMotherName(t) => d.(info := d.info.(motherName := t))
    case EditAddress(t) => d.(info := d.info.(address := t))
    case EditMark(s, v) => d.(marks := HandleMarkChange(d.marks, s, v))
    case EditAttendance(v) => d.(attendance := HandleAttendanceChange(d.attendance, v))
  }

  function ApplyEdits(d: Draft, es: seq<Edit>): Draft
    decreases |es|
  {
    if es == [] then d else ApplyEdits(ApplyEdit(d, es[0]), es[1..])
  }

  /** Whatever is typed, starting from the blank form, every mark and the
      attendance stay blank or within [0, 100]. */
  lemma {:induction false} EditsKeepNumbersInRange(d: Draft, es: seq<Edit>)
    requires NumbersInRange(d)
    ensures NumbersInRange(ApplyEdits(d, es))
    decreases |es|
  {
    if es != [] {
      EditsKeepNumbersInRange(ApplyEdit(d, es[0]), es[1..]);
    }
  }

  lemma TypedFormNumbersInRange(es: seq<Edit>)
    ensures NumbersInRange(ApplyEdits(InitialDraft(), es))
  {
    EditsKeepNumbersInRange(InitialDraft(), es);
  }

  /** The mark guard drops exactly what the attendance guard drops: on exact
      numbers the two differently written conditions agree, so a mark box and
      the attendance box holding the same value react alike to any entry. */
  lemma GuardsAgree(m: Marks, s: Subject, input: Option<real>)
    ensures HandleMarkChange(m, s, input).Get(s) == HandleAttendanceChange(m.Get(s), input)
  {
  }

  /** The age's `onChange` handler has no guard: a typed 0 or negative age
      reaches the draft, and validation reports it. */
  lemma AgeHandlerHasNoGuard(d: Draft, n: int)
    requires n < 1
    ensures Message(AgeField) in Validate(ApplyEdit(d, EditAge(Some(n))))
  {
    AgeRule(ApplyEdit(d, EditAge(Some(n))));
  }

  // Assembly.

  /** `Object.entries(marks)` mapped to subject records: the subjects in key
      order, each with its mark. */
  function Entries(m: Marks): (r: seq<SubjectData>)
    ensures |r| == 5
    ensures forall i :: 0 <= i < 5 ==> r[i].name == AllSubjects()[i] && r[i].marks == m.Get(AllSubjects()[i])
  {
    [SubjectData(Math, m.math), SubjectData(English, m.english), SubjectData(Science, m.science),
     SubjectData(SocialStudies, m.socialStudies), SubjectData(Computer, m.computer)]
  }

  /** A profile with every subject once, in declaration order, each with a
      mark, and an attendance percentage. */
  ghost predicate Complete(p: FullStudentProfile)
  {
    && |p.subjects| == 5
    && (forall i :: 0 <= i < 5 ==> p.subjects[i].name == AllSubjects()[i] && p.subjects[i].marks.Some?)
    && p.attendance.percentage.Some?
  }

  /** The profile handed on: the details untouched (no trimming), the marks
      record's entries, the attendance wrapped as `{percentage}`. */
  function Assemble(d: Draft): (p: FullStudentProfile)
    requires Validate(d) == []
    ensures Valid(d) && Complete(p)
    ensures p.info == d.info
    ensures p.info.age.Some? && p.info.age.value >= 1
    ensures forall i :: 0 <= i < |p.subjects| ==> p.subjects[i].marks == d.marks.Get(p.subjects[i].name)
    ensures p.attendance.percentage == d.attendance
  {
    ValidateEmptyIffValid(d);
    FullStudentProfile(d.info, Entries(d.marks), AttendanceData(d.attendance))
  }

  /** What a submit leaves: the error list now shown, and the profile passed
      to `onSubmit`, if any. */
  datatype SubmitStep = SubmitStep(errors: seq<string>, submitted: Option<FullStudentProfile>)

  /** Submit: validate, show the errors, and hand on a profile only when
      there are none. */
  function HandleSubmit(d: Draft): (r: SubmitStep)
    ensures r.errors == Validate(d)
    ensures r.submitted.Some? <==> Valid(d)
    ensures r.submitted.Some? ==> Complete(r.submitted.value) && r.submitted.value.info == d.info
    ensures r.submitted.Some? ==> Validate(d) == [] && r.submitted.value == Assemble(d)
    ensures r.submitted.Some? ==>
      && (forall i :: 0 <= i < 5 ==> r.submitted.value.subjects[i] == SubjectData(AllSubjects()[i], d.marks.Get(AllSubjects()[i])))
      && r.submitted.value.attendance == AttendanceData(d.attendance)
  {
    ValidateEmptyIffValid(d);
    if Passes(d) then SubmitStep([], Some(Assemble(d))) else SubmitStep(Validate(d), None)
  }

  /** A profile assembled from a form filled in by typing has every mark and
      the attendance within [0, 100] (the entry guards keep them there) and an
      age of at least 1 (validation enforces it; the age handler has no guard). */
  lemma TypedProfileInRange(es: seq<Edit>)
    requires Validate(ApplyEdits(InitialDraft(), es)) == []
    ensures var p := Assemble(ApplyEdits(InitialDraft(), es));
      && (forall i :: 0 <= i < |p.subjects| ==> 0.0 <= p.subjects[i].marks.value <= 100.0)
      && 0.0 <= p.attendance.percentage.value <= 100.0
      && p.info.age.value >= 1
  {
    var d := ApplyEdits(InitialDraft(), es);
    TypedFormNumbersInRange(es);
    var p := Assemble(d);
    forall i | 0 <= i < |p.subjects| ensures 0.0 <= p.subjects[i].marks.value <= 100.0 {
      assert InRange(d.marks.Get(p.subjects[i].name));
    }
  }
}
