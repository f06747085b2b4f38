/** The shapes of the student-profile front end: the closed enumerations for
    subjects, grades and attendance statuses, and the records a submitted
    profile is made of. Numbers that may be left blank are `Option`s. */
module Types {
  import opened Wrappers

  /** The five subjects of the form, a closed set. */
  datatype Subject = Math | English | Science | SocialStudies | Computer

  /** Grade letters, best first. */
  datatype Grade = A | B | C | D | F

  /** Attendance categories, best first. */
  datatype AttendanceStatus = Excellent | Satisfactory | Low

  /** Personal details as typed; `age` is blank or an integer. */
  datatype StudentInfo = StudentInfo(
    registerNumber: string,
    name: string,
    age: Option<int>,
    fatherName: string,
    motherName: string,
    address: string)

  /** One subject's mark, blank or a number. */
  datatype SubjectData = SubjectData(name: Subject, marks: Option<real>)

  /** The attendance percentage, blank or a number. */
  datatype AttendanceData = AttendanceData(percentage: Option<real>)

  /** What the form hands on: the details, the subject records, the attendance. */
  datatype FullStudentProfile = FullStudentProfile(
    info: StudentInfo,
    subjects: seq<SubjectData>,
    attendance: AttendanceData)

  /** The subjects in declaration order; this is also the key order of the
      form's marks record. */
  function AllSubjects(): (ss: seq<Subject>)
    ensures |ss| == 5
    ensures forall s: Subject :: s in ss
    ensures forall i, j :: 0 <= i < j < |ss| ==> ss[i] != ss[j]
    ensures forall s: Subject :: ss[SubjectIndex(s)] == s
  {
    var ss := [Math, English, Science, SocialStudies, Computer];
    assert forall s: Subject :: s in ss && ss[SubjectIndex(s)] == s by {
      forall s: Subject ensures s in ss && ss[SubjectIndex(s)] == s {
        assert ss[SubjectIndex(s)] == s;
      }
    }
    ss
  }

  /** Where a subject sits in the declaration order, Math first. */
  function SubjectIndex(s: Subject): (i: nat)
    ensures i < 5
  {
    match s
    case Math => 0
    case English => 1
    case Science => 2
    case SocialStudies => 3
    case Computer => 4
  }

  /** The string value of each subject name; it reads back as the subject. */
  function SubjectLabel(s: Subject): (l: string)
    ensures ParseSubject(l) == Some(s)
  {
    match s
    case Math => "Math"
    case English => "English"
    case Science => "Science"
    case SocialStudies => "Social Studies"
    case Computer => "Computer"
  }

  /** Reads a subject name back from its string value; any other string is
      not a subject name. */
  function ParseSubject(t: string): Option<Subject>
  {
    if t == "Math" then Some(Math)
    else if t == "English" then Some(English)
    else if t == "Science" then Some(Science)
    else if t == "Social Studies" then Some(SocialStudies)
    else if t == "Computer" then Some(Computer)
    else None
  }

  /** Exactly the five labels name subjects, and a string that reads as a
      subject is that subject's label: the union type is closed. */
  lemma SubjectLabelRoundTrip(s: Subject, t: string)
    ensures ParseSubject(t) == Some(s) ==> t == SubjectLabel(s)
    ensures ParseSubject(t).None? <==> forall u: Subject :: SubjectLabel(u) != t
  {
    if ParseSubject(t).None? {
      forall u: Subject ensures SubjectLabel(u) != t {
        match u
        case Math =>
        case English =>
        case Science =>
        case SocialStudies =>
        case Computer =>
      }
    } else {
      var u := ParseSubject(t).value;
      assert SubjectLabel(u) == t;
    }
  }

  /** The string value of a grade: a single capital letter. */
  function GradeValue(g: Grade): (v: string)
    ensures |v| == 1 && v[0] in {'A', 'B', 'C', 'D', 'F'}
  {
    match g
    case A => "A"
    case B => "B"
    case C => "C"
    case D => "D"
    case F => "F"
  }

  /** Every grade's value is its own letter, so no two grades share a
      value. */
  lemma GradeValueIsLetter(g: Grade, h: Grade)
    ensures GradeValue(A) == "A" && GradeValue(B) == "B" && GradeValue(C) == "C"
    ensures GradeValue(D) == "D" && GradeValue(F) == "F"
    ensures GradeValue(g) == GradeValue(h) <==> g == h
  {
  }

  /** The string value of an attendance status; `Low` reads "Low Attendance".
      Each value starts with its own status's initial. */
  function AttendanceValue(st: AttendanceStatus): (v: string)
    ensures v != []
    ensures v[0] == 'E' <==> st == Excellent
    ensures v[0] == 'S' <==> st == Satisfactory
    ensures v[0] == 'L' <==> st == Low
  {
    match st
    case Excellent => "Excellent"
    case Satisfactory => "Satisfactory"
    case Low => "Low Attendance"
  }

  /** The three status values are distinct, and `Low` is not displayed as "Low". */
  lemma AttendanceValueDistinct(st: AttendanceStatus, su: AttendanceStatus)
    ensures AttendanceValue(st) == AttendanceValue(su) <==> st == su
    ensures AttendanceValue(Low) == "Low Attendance" && AttendanceValue(Low) != "Low"
  {
  }

  /** Position of a grade on the scale, F lowest. */
  function GradeRank(g: Grade): (k: nat)
    ensures k <= 4
  {
    match g
    case F => 0
    case D => 1
    case C => 2
    case B => 3
    case A => 4
  }

  /** Position of a status on the scale, Low lowest. */
  function StatusRank(st: AttendanceStatus): (k: nat)
    ensures k <= 2
  {
    match st
    case Low => 0
    case Satisfactory => 1
    case Excellent => 2
  }
}
