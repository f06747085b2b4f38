/** The classifiers: a mark to a grade letter, an attendance percentage to a
    status, and each of those to its colour classes. Marks and percentages are
    exact reals; any real is accepted. */
module Utils {
  import opened Types

  /** The mark a grade asks for; F asks for nothing. */
  predicate MeetsGrade(marks: real, g: Grade)
  {
    match g
    case A => marks >= 90.0
    case B => marks >= 75.0
    case C => marks >= 60.0
    case D => marks >= 40.0
    case F => true
  }

  /** The percentage a status asks for; Low asks for nothing. */
  predicate MeetsStatus(percentage: real, st: AttendanceStatus)
  {
    match st
    case Excellent => percentage >= 90.0
    case Satisfactory => percentage >= 75.0
    case Low => true
  }

  /** The thresholds are tested from the highest down and the first one met
      wins, so the grade is the best one whose threshold the mark meets. */
  function CalculateGrade(marks: real): (g: Grade)
    ensures MeetsGrade(marks, g)
    ensures forall h: Grade :: GradeRank(h) > GradeRank(g) ==> !MeetsGrade(marks, h)
  {
    if marks >= 90.0 then A
    else if marks >= 75.0 then B
    else if marks >= 60.0 then C
    else if marks >= 40.0 then D
    else F
  }

  /** Likewise the status is the best one whose threshold is met. */
  function GetAttendanceStatus(percentage: real): (st: AttendanceStatus)
    ensures MeetsStatus(percentage, st)
    ensures forall su: AttendanceStatus :: StatusRank(su) > StatusRank(st) ==> !MeetsStatus(percentage, su)
  {
    if percentage >= 90.0 then Excellent
    else if percentage >= 75.0 then Satisfactory
    else Low
  }

  /** What both colour tables would return for a value outside the enum; a
      well-typed argument never gets it. */
  const FallbackColor: string := "text-gray-600"

  const GreenClasses: string := "text-green-600 bg-green-50 border-green-200"
  const BlueClasses: string := "text-blue-600 bg-blue-50 border-blue-200"
  const YellowClasses: string := "text-yellow-600 bg-yellow-50 border-yellow-200"
  const OrangeClasses: string := "text-orange-600 bg-orange-50 border-orange-200"
  const RedClasses: string := "text-red-600 bg-red-50 border-red-200"

  const EmeraldClasses: string := "text-emerald-700 bg-emerald-100 border-emerald-300"
  const DeepBlueClasses: string := "text-blue-700 bg-blue-100 border-blue-300"
  const RoseClasses: string := "text-rose-700 bg-rose-100 border-rose-300"

  /** The grade table; it covers every grade, so the fallback is never
      returned. */
  function GetGradeColor(g: Grade): (c: string)
    ensures c != FallbackColor
  {
    assert |FallbackColor| == 13;
    match g
    case A => GreenClasses
    case B => BlueClasses
    case C => YellowClasses
    case D => OrangeClasses
    case F => RedClasses
  }

  /** The status table; it covers every status, so the fallback is never
      returned. */
  function GetAttendanceColor(st: AttendanceStatus): (c: string)
    ensures c != FallbackColor
  {
    assert |FallbackColor| == 13;
    match st
    case Excellent => EmeraldClasses
    case Satisfactory => DeepBlueClasses
    case Low => RoseClasses
  }

  /** The grade bands: [90, inf) A, [75, 90) B, [60, 75) C, [40, 60) D and
      below 40 F, each an if-and-only-if. */
  lemma GradeBands(marks: real)
    ensures CalculateGrade(marks) == A <==> marks >= 90.0
    ensures CalculateGrade(marks) == B <==> 75.0 <= marks < 90.0
    ensures CalculateGrade(marks) == C <==> 60.0 <= marks < 75.0
    ensures CalculateGrade(marks) == D <==> 40.0 <= marks < 60.0
    ensures CalculateGrade(marks) == F <==> marks < 40.0
  {
  }

  /** The attendance bands: [90, inf) Excellent, [75, 90) Satisfactory,
      below 75 Low. */
  lemma StatusBands(percentage: real)
    ensures GetAttendanceStatus(percentage) == Excellent <==> percentage >= 90.0
    ensures GetAttendanceStatus(percentage) == Satisfactory <==> 75.0 <= percentage < 90.0
    ensures GetAttendanceStatus(percentage) == Low <==> percentage < 75.0
  {
  }

  /** The boundary values fall on the upper side, and values outside [0, 100]
      still get the outermost grade. */
  lemma GradeBoundaries(below: real, above: real)
    requires below < 0.0 && above > 100.0
    ensures CalculateGrade(90.0) == A && CalculateGrade(89.9) == B
    ensures CalculateGrade(75.0) == B && CalculateGrade(74.9) == C
    ensures CalculateGrade(60.0) == C && CalculateGrade(59.9) == D
    ensures CalculateGrade(40.0) == D && CalculateGrade(39.0) == F
    ensures CalculateGrade(below) == F && CalculateGrade(above) == A
  {
  }

  /** 90 is Excellent, 75 is Satisfactory, 74.9 is Low; out-of-range values
      get Low or Excellent. */
  lemma StatusBoundaries(below: real, above: real)
    requires below < 0.0 && above > 100.0
    ensures GetAttendanceStatus(90.0) == Excellent && GetAttendanceStatus(89.9) == Satisfactory
    ensures GetAttendanceStatus(75.0) == Satisfactory && GetAttendanceStatus(74.9) == Low
    ensures GetAttendanceStatus(below) == Low && GetAttendanceStatus(above) == Excellent
  {
  }

  /** A higher mark never gives a worse grade. */
  lemma GradeMonotone(m1: real, m2: real)
    requires m1 <= m2
    ensures GradeRank(CalculateGrade(m1)) <= GradeRank(CalculateGrade(m2))
  {
  }

  /** A higher percentage never gives a worse status. */
  lemma StatusMonotone(p1: real, p2: real)
    requires p1 <= p2
    ensures StatusRank(GetAttendanceStatus(p1)) <= StatusRank(GetAttendanceStatus(p2))
  {
  }

  /** The colour name at the start of each grade's classes (after "text-"). */
  function GradeHue(g: Grade): char
  {
    match g
    case A => 'g'
    case B => 'b'
    case C => 'y'
    case D => 'o'
    case F => 'r'
  }

  lemma GradeColorHue(g: Grade)
    ensures |GetGradeColor(g)| > 5 && GetGradeColor(g)[5] == GradeHue(g)
  {
    var c := GetGradeColor(g);
    match g
    case A => assert c[5] == 'g';
    case B => assert c[5] == 'b';
    case C => assert c[5] == 'y';
    case D => assert c[5] == 'o';
    case F => assert c[5] == 'r';
  }

  /** Each grade has its own colour classes. */
  lemma GradeColorsDistinct(g: Grade, h: Grade)
    ensures GetGradeColor(g) == GetGradeColor(h) <==> g == h
  {
    if GetGradeColor(g) == GetGradeColor(h) {
      GradeColorHue(g);
      GradeColorHue(h);
      assert GradeHue(g) == GradeHue(h);
    }
  }

  /** The colour name of each status's classes, from its second letter. */
  function StatusHue(st: AttendanceStatus): char
  {
    match st
    case Excellent => 'm'
    case Satisfactory => 'l'
    case Low => 'o'
  }

  lemma AttendanceColorHue(st: AttendanceStatus)
    ensures |GetAttendanceColor(st)| > 6 && GetAttendanceColor(st)[6] == StatusHue(st)
  {
    var c := GetAttendanceColor(st);
    match st
    case Excellent => assert c[6] == 'm';
    case Satisfactory => assert c[6] == 'l';
    case Low => assert c[6] == 'o';
  }

  /** Each status has its own colour classes. */
  lemma AttendanceColorsDistinct(st: AttendanceStatus, su: AttendanceStatus)
    ensures GetAttendanceColor(st) == GetAttendanceColor(su) <==> st == su
  {
    if GetAttendanceColor(st) == GetAttendanceColor(su) {
      AttendanceColorHue(st);
      AttendanceColorHue(su);
      assert StatusHue(st) == StatusHue(su);
    }
  }
}
