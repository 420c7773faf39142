/** The registration screen's `handleRegister` check chain: all fields
    present, then the passwords equal, then the length, and only then the
    sign-up call. */
module Register {
  import opened Wrappers
  import opened Text
  import Validation

  const MissingFieldsMessage := "Vul alle velden in"
  const MismatchMessage := "Wachtwoorden komen niet overeen"
  const TooShortMessage := "Wachtwoord moet minimaal 6 karakters lang zijn"

  /** The shortest password the screen lets through. */
  const MinPasswordLength: nat := 6

  /** What `handleRegister` does: show an alert, or call `signUp`. */
  datatype RegisterOutcome =
    | RegisterAlert(message: string)
    | SignUp(email: string, password: string, fullName: string)

  /** Each check only speaks when the earlier ones passed; the full name
      and the address format are never checked. */
  function HandleRegister(email: string, password: string, confirmPassword: string, fullName: string): (r: RegisterOutcome)
    ensures email == [] || password == [] || confirmPassword == [] ==> r == RegisterAlert(MissingFieldsMessage)
    ensures (email != [] && password != [] && confirmPassword != [] && password != confirmPassword) ==>
              r == RegisterAlert(MismatchMessage)
    ensures r == RegisterAlert(TooShortMessage) <==>
              email != [] && password != [] && password == confirmPassword && |password| < MinPasswordLength
    ensures r.SignUp? <==>
              email != [] && password != [] && password == confirmPassword && |password| >= MinPasswordLength
    ensures r.SignUp? ==> r == SignUp(email, password, fullName)
  {
    if email == [] || password == [] || confirmPassword == [] then RegisterAlert(MissingFieldsMessage)
    else if password != confirmPassword then RegisterAlert(MismatchMessage)
    else if |password| < MinPasswordLength then RegisterAlert(TooShortMessage)
    else SignUp(email, password, fullName)
  }

  /** A short pair that also differs reports the mismatch, not the length. */
  lemma ShortMismatchReportsMismatch()
    ensures HandleRegister("a@b.nl", "abc", "abd", "") == RegisterAlert(MismatchMessage)
  {
  }

  /** The screen is laxer than the shared password schema: a password of
      six or seven characters reaches `signUp` though the schema finds it
      too short ... */
  lemma ShortPasswordPassesScreen(email: string, password: string, fullName: string)
    requires email != [] && 6 <= |password| < 8
    ensures HandleRegister(email, password, password, fullName).SignUp?
    ensures Validation.PasswordTooShort in Validation.PasswordIssues(password)
  {
  }

  /** ... and an all-lower-case password reaches `signUp` though the schema
      misses an upper-case letter and a digit. */
  lemma LowerCasePasswordPassesScreen(email: string, password: string, fullName: string)
    requires email != [] && 8 <= |password| <= 128
    requires forall i :: 0 <= i < |password| ==> IsAsciiLower(password[i])
    ensures HandleRegister(email, password, password, fullName).SignUp?
    ensures Validation.PasswordIssues(password) == [Validation.PasswordMissingClass]
  {
    assert forall i :: 0 <= i < |password| ==> !IsLineTerminator(password[i]) by {
      forall i | 0 <= i < |password| ensures !IsLineTerminator(password[i]) {
        assert IsAsciiLower(password[i]);
      }
    }
    Validation.PasswordSingleLine(password);
    assert !Validation.HasUpper(password) by {
      forall i | 0 <= i < |password| ensures !IsAsciiUpper(password[i]) {
        assert IsAsciiLower(password[i]);
      }
    }
  }
}
