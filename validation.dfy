/** The credential validator used by the sign-up and sign-in forms: an ordered chain of
    checks that reports the first failing one, or nothing when all pass. */
module Validation {
  import opened Wrappers

  const MaxLength: nat := 50
  const MinPasswordLength: nat := 8

  const ErrRequired := "Email and password are required"
  const ErrTooLong := "Email and password must be 50 characters or less"
  const ErrInvalidChars := "Email or password contains invalid characters"
  const ErrTooShort := "Password must be at least 8 characters long"
  const ErrMismatch := "Passwords do not match"

  /** A character of the pattern `/[<>{};]/`. */
  predicate Forbidden(c: char)
  {
    c == '<' || c == '>' || c == '{' || c == '}' || c == ';'
  }

  /** `forbiddenPattern.test(s)`. */
  predicate HasForbidden(s: string)
  {
    exists i :: 0 <= i < |s| && Forbidden(s[i])
  }

  /** Everything the chain of checks demands, stated as one conjunction. */
  predicate Acceptable(email: string, password: string, repeat: Option<string>)
  {
    && email != "" && password != ""
    && |email| <= MaxLength && |password| <= MaxLength
    && !HasForbidden(email) && !HasForbidden(password)
    && |password| >= MinPasswordLength
    && (repeat.Some? ==> repeat.value == password)
  }

  /** `validateCredentials(email, password, repeatPassword?)`: the first error message, or None. */
  function ValidateCredentials(email: string, password: string, repeat: Option<string>): (r: Option<string>)
    ensures r.None? <==> Acceptable(email, password, repeat)
    ensures r.Some? ==> r.value in {ErrRequired, ErrTooLong, ErrInvalidChars, ErrTooShort, ErrMismatch}
  {
    if email == "" || password == "" then Some(ErrRequired)
    else if |email| > MaxLength || |password| > MaxLength then Some(ErrTooLong)
    else if HasForbidden(email) || HasForbidden(password) then Some(ErrInvalidChars)
    else if |password| < MinPasswordLength then Some(ErrTooShort)
    else if repeat.Some? && password != repeat.value then Some(ErrMismatch)
    else None
  }

  /** An empty email or password is reported as missing, whatever else is wrong. */
  lemma EmptyIsRequired(email: string, password: string, repeat: Option<string>)
    requires email == "" || password == ""
    ensures ValidateCredentials(email, password, repeat) == Some(ErrRequired)
  {
  }

  /** The length limit is 50 inclusive: 51 characters fail with the length message, 50 pass that check. */
  lemma EmailLengthBoundary(email: string, password: string, repeat: Option<string>)
    requires password != "" && |password| <= MaxLength
    ensures |email| == 51 ==> ValidateCredentials(email, password, repeat) == Some(ErrTooLong)
    ensures |email| == 50 ==> ValidateCredentials(email, password, repeat) != Some(ErrTooLong)
  {
  }

  /** An over-long password gets the length message, not the minimum-length one:
      the maximum is checked first. */
  lemma LongPasswordReportsMaximum(email: string, password: string, repeat: Option<string>)
    requires email != "" && |password| > MaxLength
    ensures ValidateCredentials(email, password, repeat) == Some(ErrTooLong)
  {
  }

  /** A forbidden character is reported before a too-short password. */
  lemma ForbiddenBeforeMinimum(email: string, password: string, repeat: Option<string>)
    requires email != "" && password != ""
    requires |email| <= MaxLength && |password| < MinPasswordLength
    requires HasForbidden(email) || HasForbidden(password)
    ensures ValidateCredentials(email, password, repeat) == Some(ErrInvalidChars)
  {
  }

  /** A seven-character password is too short; an eight-character clean one with no repeat is accepted. */
  lemma PasswordMinimum(email: string, password: string)
    requires email != "" && |email| <= MaxLength && !HasForbidden(email) && !HasForbidden(password)
    ensures |password| == 7 ==> ValidateCredentials(email, password, None) == Some(ErrTooShort)
    ensures |password| == 8 ==> ValidateCredentials(email, password, None) == None
  {
  }

  /** Without a repeat the mismatch message never appears; a differing repeat always yields it
      once the earlier checks pass. */
  lemma RepeatPassword(email: string, password: string, repeat: string)
    requires Acceptable(email, password, None)
    ensures ValidateCredentials(email, password, None) != Some(ErrMismatch)
    ensures repeat != password ==> ValidateCredentials(email, password, Some(repeat)) == Some(ErrMismatch)
    ensures repeat == password ==> ValidateCredentials(email, password, Some(repeat)) == None
  {
  }

  /** Whatever the email and password, leaving out the repeat never yields the mismatch message. */
  lemma NoRepeatNeverMismatch(email: string, password: string)
    ensures ValidateCredentials(email, password, None) != Some(ErrMismatch)
  {
  }

  /** An example: a 51-character email is rejected even with a valid password. */
  lemma LongEmailExample()
    ensures ValidateCredentials("aaaaaaaaaaaaaaaaaaaaaaaaaaaaaaaaaaaaaaaaaaaaa@x.com", "secret123", None) == Some(ErrTooLong)
  {
    var e := "aaaaaaaaaaaaaaaaaaaaaaaaaaaaaaaaaaaaaaaaaaaaa@x.com";
    assert |e| == 51;
  }
}
