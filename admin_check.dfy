/** The two admin gates: `checkIfAdmin(salis)` compares a submitted secret with the configured
    `ADMIN_SALIS`, and `checkIfAdmin()` compares the signed-in user's email with `ADMIN_EMAIL`.
    Environment variables and the signed-in email are parameters; a missing one is None. */
module AdminCheck {
  import opened Wrappers
  import opened Strings

  /** True when both values are present, non-empty and equal up to ASCII case. */
  predicate MatchesIgnoringCase(given: Option<string>, configured: Option<string>)
  {
    Truthy(given) && Truthy(configured) && EqualsIgnoringCase(given.value, configured.value)
  }

  /** `checkIfAdmin(salis)` with `adminSalis` read from the environment. */
  function IsAdminSalis(salis: Option<string>, adminSalis: Option<string>): (r: bool)
    ensures !Truthy(salis) ==> !r
    ensures !Truthy(adminSalis) ==> !r
    ensures Truthy(salis) && Truthy(adminSalis) ==> (r <==> Lower(salis.value) == Lower(adminSalis.value))
  {
    MatchesIgnoringCase(salis, adminSalis)
  }

  /** `checkIfAdmin()` with the signed-in user's email and `adminEmail` as inputs. */
  function IsAdminEmail(email: Option<string>, adminEmail: Option<string>): (r: bool)
    ensures !Truthy(email) || !Truthy(adminEmail) ==> !r
    ensures Truthy(email) && Truthy(adminEmail) ==> (r <==> Lower(email.value) == Lower(adminEmail.value))
  {
    MatchesIgnoringCase(email, adminEmail)
  }

  /** The secret comparison is symmetric. */
  lemma SalisSymmetric(a: Option<string>, b: Option<string>)
    ensures IsAdminSalis(a, b) == IsAdminSalis(b, a)
  {
  }

  /** The comparison ignores case: changing the case of a letter in either value changes nothing. */
  lemma {:induction false} CaseInsensitive(a: string, b: string, configured: Option<string>)
    requires |a| == |b|
    requires forall i :: 0 <= i < |a| ==> LowerChar(a[i]) == LowerChar(b[i])
    ensures IsAdminSalis(Some(a), configured) == IsAdminSalis(Some(b), configured)
    ensures IsAdminEmail(Some(a), configured) == IsAdminEmail(Some(b), configured)
  {
    assert Lower(a) == Lower(b);
  }

  /** "A@x" matches "a@X". */
  lemma EmailExample()
    ensures IsAdminEmail(Some("A@x"), Some("a@X"))
  {
    assert Lower("A@x") == "a@x";
    assert Lower("a@X") == "a@x";
  }

  /** Emails whose lower-case forms differ never match. */
  lemma DifferentEmails(email: string, adminEmail: string)
    requires Lower(email) != Lower(adminEmail)
    ensures !IsAdminEmail(Some(email), Some(adminEmail))
  {
  }
}
