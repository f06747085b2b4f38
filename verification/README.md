# Student profile front end: the decision logic, in Dafny

The application is a small React front end. A teacher signs up or logs in. They fill in a student's
personal details, five subject marks and an attendance percentage. Then they get a printable
profile that shows a grade letter per subject and an attendance status. This project models the parts
of that front end that make decisions, as pure functions over immutable values, and proves what
they promise:

- **Classification** (`Utils`): `CalculateGrade` maps a mark to A–F and `GetAttendanceStatus` maps a
  percentage to Excellent / Satisfactory / Low, by thresholds tested from the highest down. Two
  total tables give each grade and status its colour classes.
- **The student form** (`StudentForm`): a `Draft` holds every field, with blank numbers as `None`.
  `Validate` runs all twelve checks and lists the messages of those that fail, in a fixed order.
  `HandleMarkChange` and `HandleAttendanceChange` are the keystroke guards for marks and attendance.
  `Assemble` / `HandleSubmit` build the profile only when nothing is missing.
- **The data model** (`Types`, `Wrappers`): the closed enumerations of subjects, grades and statuses
  with their string values, and the profile records.
- **`String.prototype.trim`** (`Text`): leading and trailing ECMAScript white space is removed.
  Validation rejects a text field that trims to nothing, which is exactly a field made only of white space.
- **Login and sign-up** (`Login`, `Signup`): each submit is a pure function returning `Error(message)`
  or `Proceed(arguments of the callback)`, plus the error text left on screen afterwards.
- `ProfileExample` proves, for one filled-in form, that it passes validation, how it is assembled and how
  its marks and attendance are classified.

Marks and percentages are exact `real`s, because the form reads them with `Number`. The age is an
`int`, because the form reads it with `parseInt`. Typing is modelled as a sequence of `Edit`s
applied to the draft.

Some behaviours of the code that are easy to miss:

- The mark and attendance handlers accept fractional values, because they read them with `Number`.
- Validation checks only that marks and attendance are filled in, not their range. The range is kept by
  the entry guards alone (`TypedProfileInRange` proves this holds for every typed form). The age's
  `onChange` handler (StudentForm.tsx line 125) has no guard, so a typed age below 1 reaches the draft
  and validation reports it (`AgeHandlerHasNoGuard`).
- The mark guard (line 30) and the attendance guard (line 203) are written differently but accept the
  same numbers (`GuardsAgree`). They differ only on `NaN`, which is not modelled.
- Login and sign-up test presence without trimming, so a password or name of spaces counts as filled
  in, while the student form rejects white-space-only text (`Login.WhitespaceIsFilled`).
- Calling assembly with an invalid draft is excluded by a precondition. The form never calls it then.

## Model

| member | source | states |
|---|---|---|
| Types.AllSubjects | types.ts:10 | There are exactly five subjects, listed once each, and every subject sits at its declaration position (Math first, Computer last) |
| Types.SubjectLabel | types.ts:10 | Each subject's string value ("Social Studies" for `SocialStudies`) reads back as that subject |
| Types.SubjectLabelRoundTrip | types.ts:10 | A string that reads as a subject is that subject's label, and exactly the five labels name subjects, so the union of names is closed |
| Types.GradeValue | types.ts:34-40 | A grade's string value is a single letter among A, B, C, D, F |
| Types.GradeValueIsLetter | types.ts:34-40 | Each grade's value is its own letter ("A" for A … "F" for F), so no two grades share one |
| Types.AttendanceValue | types.ts:42-46 | Each status's string value starts with that status's own initial, E, S or L |
| Types.AttendanceValueDistinct | types.ts:42-46 | The three statuses have distinct values, and Low's value is "Low Attendance", not "Low" |
| Text.TrimStart | components/StudentForm.tsx:36 | Leading trim: the result is a suffix of the input, only white space was dropped, and the result does not start with white space |
| Text.TrimEnd | components/StudentForm.tsx:36 | Trailing trim: the result is a prefix of the input, only white space was dropped, and the result does not end with white space |
| Text.Trim | components/StudentForm.tsx:36-41 | `trim()` leaves the run of the input that starts after the leading white space; it leaves nothing if and only if every character is white space, and what it leaves neither starts nor ends with white space. Everything dropped before and after it is white space |
| Utils.CalculateGrade | utils.ts:3-9 | First match wins: the grade's threshold is met, and no better grade's threshold is |
| Utils.GetAttendanceStatus | utils.ts:11-15 | First match wins: the status's threshold is met, and no better status's threshold is |
| Utils.GradeBands | utils.ts:3-9 | A if and only if mark >= 90, B iff 75 <= mark < 90, C iff 60 <= mark < 75, D iff 40 <= mark < 60, F iff mark < 40 |
| Utils.StatusBands | utils.ts:11-15 | Excellent iff percentage >= 90, Satisfactory iff 75 <= percentage < 90, Low iff percentage < 75 |
| Utils.GradeBoundaries | utils.ts:4-8 | 90 gives A and 89.9 gives B; 75 B, 74.9 C; 60 C, 59.9 D; 40 D, 39 F. Any negative mark gives F and any mark above 100 gives A, with no failure |
| Utils.StatusBoundaries | utils.ts:12-14 | 90 gives Excellent and 89.9 Satisfactory; 75 gives Satisfactory and 74.9 Low. Negative gives Low and above 100 gives Excellent |
| Utils.GradeMonotone | utils.ts:3-9 | A higher mark never gives a worse grade |
| Utils.StatusMonotone | utils.ts:11-15 | A higher percentage never gives a worse status |
| Utils.GetGradeColor | utils.ts:17-26 | Every grade has its own entry, so the `default` grey is never returned |
| Utils.GetAttendanceColor | utils.ts:28-35 | Every status has its own entry, so the `default` grey is never returned |
| Utils.GradeColorsDistinct | utils.ts:17-26 | Two grades share colour classes only if they are the same grade |
| Utils.AttendanceColorsDistinct | utils.ts:28-35 | Two statuses share colour classes only if they are the same status |
| StudentForm.InitialDraft | components/StudentForm.tsx:10-25 | In the form as first shown, every field is missing |
| StudentForm.Marks.Set | components/StudentForm.tsx:31 | `{ ...prev, [subject]: value }`: that subject's mark becomes the value and no other mark changes |
| StudentForm.InitialMarks | components/StudentForm.tsx:17-23 | The form starts with every subject's mark blank |
| StudentForm.FieldOrder | components/StudentForm.tsx:34-47 | The checks cover every field exactly once, 12 in all. The order is six personal fields, then the marks record's keys, then attendance |
| StudentForm.Message | components/StudentForm.tsx:44 | A subject's message is its label, which reads back as the subject, followed by " marks are required." |
| StudentForm.Fails | components/StudentForm.tsx:36-47 | Each check, written with `trim()` and `=== ''`, fails exactly when the field is missing: the text is white space only, the age is blank or below 1, or the mark or attendance is blank |
| StudentForm.MessageInjective | components/StudentForm.tsx:36-47 | No two fields share an error message |
| StudentForm.Validate | components/StudentForm.tsx:34-51 | At most twelve errors, and a field's message is listed if and only if that field's own check fails: no check stops the others |
| StudentForm.ValidateIsOrderedSubsequence | components/StudentForm.tsx:34-51 | The error list is a subsequence of the twelve messages in their fixed order, so it has at most 12 entries |
| StudentForm.ValidateReportsExactlyMissing | components/StudentForm.tsx:36-47 | A field's message appears if and only if that field is missing. No check stops the others, and one field's state does not affect another's message |
| StudentForm.ValidateEmptyIffValid | components/StudentForm.tsx:34-51 | The error list is empty if and only if the draft is complete |
| StudentForm.Passes | components/StudentForm.tsx:49-50 | `validate()` returns true if and only if the draft is complete |
| StudentForm.BlankFormReportsEverything | components/StudentForm.tsx:10-47 | The untouched form reports all twelve messages, in order |
| StudentForm.AgeRule | components/StudentForm.tsx:38 | "Valid Age is required." appears if and only if the age is blank or below 1 |
| StudentForm.ZeroMarkIsNotBlank | components/StudentForm.tsx:43-45 | A mark of 0 is not blank and gives no error for its subject |
| StudentForm.OnlyOneMissing | components/StudentForm.tsx:36-47 | Start from a complete draft and make exactly one field missing: that field's message is then the whole error list |
| StudentForm.OnlyRegisterNumberMissing | components/StudentForm.tsx:36 | A complete draft with an empty or white-space-only register number gives exactly ["Register Number is required."] |
| StudentForm.OnlyMarkMissing | components/StudentForm.tsx:43-45 | A complete draft with one mark cleared gives exactly "{Subject} marks are required." |
| StudentForm.HandleMarkChange | components/StudentForm.tsx:28-32 | A blank or in-range entry sets only that subject's mark. A number below 0 or above 100 leaves the whole record unchanged |
| StudentForm.MarkGuardRejects | components/StudentForm.tsx:30 | The mark guard rejects exactly the entries that are neither blank nor within [0, 100] |
| StudentForm.HandleAttendanceChange | components/StudentForm.tsx:201-204 | The value is taken if it is blank or in [0, 100]; otherwise the old value stays, so an in-range attendance stays in range |
| StudentForm.GuardsAgree | components/StudentForm.tsx:28-32 | A mark box and the attendance box holding the same value end up with the same value after any entry: the guards at lines 30 and 203 agree |
| StudentForm.ApplyEdit | components/StudentForm.tsx:105-204 | Each `onChange` sets its own field and nothing else: a text or age edit stores the text or age as typed, a mark or attendance edit leaves the other fields alone, and an entry the guard rejects leaves the whole draft unchanged. Any single edit keeps every mark and the attendance blank or within [0, 100] |
| StudentForm.EditsKeepNumbersInRange | components/StudentForm.tsx:178-204 | Any sequence of edits keeps every mark and the attendance blank or within [0, 100] |
| StudentForm.TypedFormNumbersInRange | components/StudentForm.tsx:17-25 | Starting from the blank form, whatever is typed, marks and attendance stay blank or within [0, 100] |
| StudentForm.AgeHandlerHasNoGuard | components/StudentForm.tsx:125 | The age's `onChange` handler has no guard: a typed age below 1 reaches the draft, and validation reports it |
| StudentForm.Entries | components/StudentForm.tsx:58 | The marks record's entries are the five subjects in key order, each with its own mark |
| StudentForm.Assemble | components/StudentForm.tsx:53-60 | With no errors, the profile has the info passed through untrimmed and an age of at least 1. It has exactly five subject records, each once, in Math…Computer order, each with that subject's mark, none blank. Attendance is wrapped as `{percentage}` |
| StudentForm.HandleSubmit | components/StudentForm.tsx:53-65 | The errors shown are the validation list. A profile is handed to `onSubmit` if and only if the draft is complete. That profile is the assembled one: the draft's info, each subject in order with the draft's mark, and `{percentage: attendance}` |
| StudentForm.TypedProfileInRange | components/StudentForm.tsx:53-60 | A profile assembled from a typed form has every mark and the attendance in [0, 100] and an age of at least 1 |
| ProfileExample.SamplePasses | components/StudentForm.tsx:34-51 | A fully filled-in sample draft passes validation |
| ProfileExample.EightiesProfile | components/StudentForm.tsx:53-60 | A complete draft with 80 in every subject and 92 attendance gives five subjects in order, each graded B, with Excellent attendance |
| ProfileExample.SampleWithoutRegisterNumber | components/StudentForm.tsx:36 | The sample with an empty register number gives exactly ["Register Number is required."] |
| Login.HandleSubmit | components/Login.tsx:14-22 | `onLogin` is called if and only if email and password are both non-empty, and then with the email alone. Otherwise the error is "Please fill in all fields". Nothing is trimmed |
| Login.NextError | components/Login.tsx:14-22 | A failed submit shows its message; a successful one leaves the previous error as it was |
| Login.PasswordNotForwarded | components/Login.tsx:21 | Any two non-empty passwords give the same outcome, so the password only gates the call and is never passed on |
| Login.WhitespaceIsFilled | components/Login.tsx:16 | A non-empty password of white space only passes the presence check although `trim()` would leave nothing, and the old error is not cleared |
| Signup.HandleSubmit | components/Signup.tsx:16-27 | "Please fill in all fields" if and only if a field is empty. "Passwords do not match" if and only if all are filled and the passwords differ. Otherwise `onSignup(name, email)` |
| Signup.NextError | components/Signup.tsx:16-27 | A failed submit shows its message; a successful one leaves the previous error as it was |
| Signup.PresenceCheckFirst | components/Signup.tsx:18-25 | An empty field together with mismatched passwords reports the fill-in message, not the mismatch |
| Signup.PasswordNotForwarded | components/Signup.tsx:26 | Any two matching non-empty password pairs give the same outcome; only the name and email are passed on |
| Signup.WhitespaceIsFilled | components/Signup.tsx:18 | A non-empty name and password of white space only count as filled in and the name is passed on untrimmed, although `trim()` would leave nothing |

## Left out

- Rendering, styling and layout of every component are not modelled, because they are presentational.
- `components/StudentProfile.tsx` is not part of this model. It only applies the classifiers. Its
  progress circle is floating-point arithmetic, and it calls `window.print` and `Date`.
- `components/Dashboard.tsx` (static mock data) and `App.tsx` (timed navigation, routing, an auth
  context that is not shown) are not part of this model.
- The text-to-number step is left out. Inputs arrive already parsed as `Option<real>` or
  `Option<int>`. `NaN` from `Number` or `parseInt`, `parseInt`'s truncation and IEEE-754 rounding are
  not modelled. `NaN` is the one input where the two guards differ: the mark guard lets it through
  and the attendance guard drops it.
- HTML constraint validation, which the browser applies before a submit handler runs, is not modelled:
  the `min`/`max` limits of the age, mark and attendance inputs (StudentForm.tsx lines 127, 180, 206), the
  default `step` of 1 on those number inputs (no `step` attribute is given, so a browser blocks a fractional
  mark or attendance at submit), and the value sanitisation of `type="email"` inputs. The model therefore
  also accepts ages above 100 and fractional marks and attendance.
- The white-space set follows the ECMAScript definition, with the space separators of current Unicode. Older
  engines with a different Unicode table are not modelled.
- React state batching, `window.scrollTo` on a failed submit, the navigation callbacks
  (`onNavigateToSignup`, `onNavigateToLogin`), and the identity provider behind `onLogin` and `onSignup`
  are left out. Each callback is represented only by the arguments it is given.
- The `User` interface (types.ts:28-31) is left out because the modelled logic does not use it.
- The subject messages are built from the template `SubjectLabel(s) + " marks are required."` as the form
  builds them. They are not also proved equal to spelled-out literals, because comparing concatenated
  literal strings is too costly for the solver.
