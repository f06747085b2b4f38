/** The sign-up form's submit: all four fields must be non-empty, then the two
    passwords must match, then `onSignup` is called with the name and the
    e-mail address. */
module Signup {
  import opened Text

  const FillInAllFields: string := "Please fill in all fields"
  const PasswordsDoNotMatch: string := "Passwords do not match"

  /** What a submit does: show an error, or call `onSignup(name, email)`. */
  datatype SignupOutcome = Error(message: string) | Proceed(name: string, email: string)

  /** The presence check runs first, so an empty field is reported even when
      the passwords also differ; nothing is trimmed. */
  function HandleSubmit(name: string, email: string, password: string, confirm: string): (r: SignupOutcome)
    ensures r == Error(FillInAllFields) <==> name == [] || email == [] || password == [] || confirm == []
    ensures r == Error(PasswordsDoNotMatch) <==>
      name != [] && email != [] && password != [] && confirm != [] && password != confirm
    ensures r.Proceed? <==> name != [] && email != [] && password != [] && password == confirm
    ensures r.Proceed? ==> r.name == name && r.email == email
  {
    if name == [] || email == [] || password == [] || confirm == [] then Error(FillInAllFields)
    else if password != confirm then Error(PasswordsDoNotMatch)
    else Proceed(name, email)
  }

  /** The error shown after a submit: set on failure, left as it was on
      success. */
  function NextError(previous: string, outcome: SignupOutcome): (e: string)
    ensures outcome.Proceed? ==> e == previous
    ensures outcome.Error? ==> e == outcome.message
  {
    match outcome
    case Error(m) => m
    case Proceed(_, _) => previous
  }

  /** An empty field wins over a mismatch. */
  lemma PresenceCheckFirst(name: string, email: string, password: string, confirm: string)
    requires name == [] || email == [] || password == [] || confirm == []
    requires password != confirm
    ensures HandleSubmit(name, email, password, confirm) == Error(FillInAllFields)
    ensures HandleSubmit(name, email, password, confirm) != Error(PasswordsDoNotMatch)
  {
  }

  /** The password only gates the call: any other matching non-empty pair
      gives the same outcome. */
  lemma PasswordNotForwarded(name: string, email: string, password: string, other: string)
    requires password != [] && other != []
    ensures HandleSubmit(name, email, password, password) == HandleSubmit(name, email, other, other)
  {
  }

  /** White space only counts as filled in: a non-empty name and password
      made only of white space, with a matching confirmation, reach
      `onSignup` untrimmed, though the student form's `trim()` test would call
      them blank. */
  lemma WhitespaceIsFilled(name: string, email: string, password: string)
    requires name != [] && email != [] && password != []
    requires IsBlank(name) && IsBlank(password)
    ensures HandleSubmit(name, email, password, password) == Proceed(name, email)
    ensures Trim(name) == [] && Trim(password) == []
  {
  }
}
