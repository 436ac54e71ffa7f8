/** The checks `handleSignupSubmit` runs on the signup form before it sends
    the signup request (client/src/components/login.js:39-92). */
module SignupForm {
  import opened Wrappers

  /** The fields the form submits. */
  datatype Form = Form(username: string, name: string, password: string, confirmPassword: string, role: string)

  /** The checks, in the order the handler runs them. */
  datatype SignupError = EmptyName | PasswordMismatch | TooShort | NoDigit | NoSpecialChar

  datatype Check = Passed | Failed(error: SignupError)

  /** What the handler does: alert and stop, or post to `/api/signup`. */
  datatype Action =
    | Alert(message: string)
    | PostSignup(username: string, password: string, name: string, role: string)

  const MinPasswordLength: nat := 8

  /** The class `[!@#$%^&*.]`. */
  const SpecialChars: set<char> := {'!', '@', '#', '$', '%', '^', '&', '*', '.'}

  /** `/\d/.test(p)`, as the regular expression engine scans: some position
      holds an ASCII decimal digit. */
  predicate HasDigit(p: string)
    ensures HasDigit(p) <==> exists i :: 0 <= i < |p| && '0' <= p[i] <= '9'
  {
    |p| > 0 && ('0' <= p[0] <= '9' || HasDigit(p[1..]))
  }

  /** `/[!@#$%^&*.]/.test(p)`: some position holds one of the special
      characters. */
  predicate HasSpecialChar(p: string)
    ensures HasSpecialChar(p) <==> exists i :: 0 <= i < |p| && p[i] in SpecialChars
  {
    |p| > 0 && (p[0] in SpecialChars || HasSpecialChar(p[1..]))
  }

  /** Position of a check in the chain. */
  function Rank(e: SignupError): nat {
    match e
    case EmptyName => 0
    case PasswordMismatch => 1
    case TooShort => 2
    case NoDigit => 3
    case NoSpecialChar => 4
  }

  /** Whether the form fails check `e`, taken on its own. */
  predicate Fails(e: SignupError, f: Form) {
    match e
    case EmptyName => f.name == ""
    case PasswordMismatch => f.password != f.confirmPassword
    case TooShort => |f.password| < MinPasswordLength
    case NoDigit => !HasDigit(f.password)
    case NoSpecialChar => !HasSpecialChar(f.password)
  }

  /** The chain of early returns (lines 53-76): the first failing check,
      or `Passed` when none fails. */
  function Validate(f: Form): (r: Check)
    ensures r.Passed? <==> forall e :: !Fails(e, f)
    ensures r.Failed? ==> Fails(r.error, f)
    ensures r.Failed? ==> forall e :: Rank(e) < Rank(r.error) ==> !Fails(e, f)
  {
    if Fails(EmptyName, f) then Failed(EmptyName)
    else if Fails(PasswordMismatch, f) then Failed(PasswordMismatch)
    else if Fails(TooShort, f) then Failed(TooShort)
    else if Fails(NoDigit, f) then Failed(NoDigit)
    else if Fails(NoSpecialChar, f) then Failed(NoSpecialChar)
    else Passed
  }

  /** The check an alert text reports, if it is one of the signup alerts. */
  function CheckOfAlert(m: string): Option<SignupError> {
    if m == "Name cannot be empty" then Some(EmptyName)
    else if m == "Passwords do not match!" then Some(PasswordMismatch)
    else if m == "Password must be at least 8 characters long" then Some(TooShort)
    else if m == "Password must contain at least one number" then Some(NoDigit)
    else if m == "Password must contain at least one special character" then Some(NoSpecialChar)
    else None
  }

  /** The text passed to `alert` for each failing check; the text tells
      which check failed. */
  function AlertText(e: SignupError): (m: string)
    ensures CheckOfAlert(m) == Some(e)
  {
    match e
    case EmptyName => "Name cannot be empty"
    case PasswordMismatch => "Passwords do not match!"
    case TooShort => "Password must be at least 8 characters long"
    case NoDigit => "Password must contain at least one number"
    case NoSpecialChar => "Password must contain at least one special character"
  }

  /** `handleSignupSubmit` up to the request (lines 53-84): the signup request
      is sent, with the form's fields, exactly when every check passes;
      otherwise the first failing check's message is shown. */
  function HandleSignupSubmit(f: Form): (a: Action)
    ensures a.PostSignup? <==>
      f.name != "" && f.password == f.confirmPassword && |f.password| >= MinPasswordLength &&
      HasDigit(f.password) && HasSpecialChar(f.password)
    ensures a.PostSignup? ==> a == PostSignup(f.username, f.password, f.name, f.role)
    ensures a.Alert? ==> exists e :: Fails(e, f) && a.message == AlertText(e) &&
                                     forall e' :: Rank(e') < Rank(e) ==> !Fails(e', f)
  {
    match Validate(f)
    case Passed => PostSignup(f.username, f.password, f.name, f.role)
    case Failed(e) => Alert(AlertText(e))
  }

  /** Later checks are reached only when the earlier ones pass: an empty
      name is reported even when the password is also bad. */
  lemma EmptyNameFirst(f: Form)
    requires f.name == ""
    ensures Validate(f) == Failed(EmptyName)
    ensures HandleSignupSubmit(f) == Alert("Name cannot be empty")
  {
  }

  /** Each check alone decides the outcome once all earlier ones pass. */
  lemma FirstFailingDecides(f: Form, e: SignupError)
    requires Fails(e, f)
    requires forall e' :: Rank(e') < Rank(e) ==> !Fails(e', f)
    ensures Validate(f) == Failed(e)
  {
  }
}
