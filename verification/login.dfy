/** The login form's submit: both fields must be non-empty, then `onLogin` is
    called with the e-mail address alone. */
module Login {
  import opened Text

  const FillInAllFields: string := "Please fill in all fields"

  /** What a submit does: show an error, or call `onLogin(email)`. */
  datatype LoginOutcome = Error(message: string) | Proceed(email: string)

  /** Empty means the empty string: nothing is trimmed, so a field of
      spaces counts as filled. */
  function HandleSubmit(email: string, password: string): (r: LoginOutcome)
    ensures r.Proceed? <==> email != [] && password != []
    ensures r.Proceed? ==> r.email == email
    ensures r.Error? ==> r.message == FillInAllFields
  {
    if email == [] || password == [] then Error(FillInAllFields)
    else Proceed(email)
  }

  /** The error shown after a submit: set on failure, left as it was (not
      cleared) on success. */
  function NextError(previous: string, outcome: LoginOutcome): (e: string)
    ensures outcome.Proceed? ==> e == previous
    ensures outcome.Error? ==> e == outcome.message
  {
    match outcome
    case Error(m) => m
    case Proceed(_) => previous
  }

  /** The password only gates the call: any other non-empty password gives
      the same outcome, so it is never what is passed on. */
  lemma PasswordNotForwarded(email: string, password: string, other: string)
    requires password != [] && other != []
    ensures HandleSubmit(email, password) == HandleSubmit(email, other)
  {
  }

  /** White space only is not empty: a non-empty password made only of white
      space passes the presence check, though the student form's `trim()`
      test would call it blank, and a previous error stays on screen. */
  lemma WhitespaceIsFilled(email: string, password: string, previous: string)
    requires email != [] && password != [] && IsBlank(password)
    ensures HandleSubmit(email, password) == Proceed(email)
    ensures Trim(password) == []
    ensures NextError(previous, HandleSubmit(email, password)) == previous
  {
  }
}
