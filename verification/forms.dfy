/** The submit handlers of the newsletter, contact, sign-up and sign-in forms
    (main.js `initNewsletterSignup`, `initContactForm`, `initAuthForms`). Each
    runs its checks in a fixed order and stops at the first one that fails,
    alerting its message; when all pass it reports success. A field value of
    "" stands for an empty field and for a field missing from the page (both
    are falsy in the script); an unchecked or missing checkbox is `false`. */
module Forms {
  import opened Text
  import opened Email

  datatype Success = Subscribed | MessageSent | AccountCreated | LoggedIn

  /** The outcome of one submit: success, or the message of the first failed check. */
  datatype Outcome = Ok(kind: Success) | Err(message: string)

  const FillAllFields := "Please fill in all fields"
  const InvalidEmail := "Please enter a valid email address"
  const ShortPassword := "Password must be at least 6 characters long"
  const PasswordMismatch := "Passwords do not match"
  const AcceptTerms := "Please accept the terms and conditions"

  /** Shortest password the sign-up form accepts. */
  const MinPasswordLength: nat := 6

  /** Newsletter: the address must be present and valid. */
  function Newsletter(email: string): (r: Outcome)
    ensures r == Ok(Subscribed) <==> ValidateEmail(email)
    ensures r != Ok(Subscribed) ==> r == Err(InvalidEmail)
  {
    if email != "" && ValidateEmail(email) then Ok(Subscribed) else Err(InvalidEmail)
  }

  /** Contact: all four fields present, then a valid address. */
  function Contact(name: string, email: string, subject: string, message: string): (r: Outcome)
    ensures r == Err(FillAllFields) <==> name == "" || email == "" || subject == "" || message == ""
    ensures r == Err(InvalidEmail) <==>
              name != "" && email != "" && subject != "" && message != "" && !ValidateEmail(email)
    ensures r.Ok? <==>
              name != "" && subject != "" && message != "" && ValidateEmail(email)
    ensures r.Ok? ==> r.kind == MessageSent
  {
    if name == "" || email == "" || subject == "" || message == "" then Err(FillAllFields)
    else if !ValidateEmail(email) then Err(InvalidEmail)
    else Ok(MessageSent)
  }

  /** Sign-up: all four text fields present, a valid address, a password
      whose `length` is at least six UTF-16 code units, a matching confirmation, the terms accepted. */
  function Signup(fullName: string, email: string, password: string, confirm: string, terms: bool): (r: Outcome)
    ensures r == Err(FillAllFields) <==> fullName == "" || email == "" || password == "" || confirm == ""
    ensures r == Err(InvalidEmail) <==>
              fullName != "" && email != "" && password != "" && confirm != "" && !ValidateEmail(email)
    ensures r == Err(ShortPassword) <==>
              fullName != "" && password != "" && confirm != "" && ValidateEmail(email)
              && Utf16Length(password) < MinPasswordLength
    ensures r == Err(PasswordMismatch) <==>
              fullName != "" && confirm != "" && ValidateEmail(email)
              && Utf16Length(password) >= MinPasswordLength && password != confirm
    ensures r == Err(AcceptTerms) <==>
              fullName != "" && ValidateEmail(email)
              && Utf16Length(password) >= MinPasswordLength && password == confirm && !terms
    ensures r.Ok? <==>
              fullName != "" && ValidateEmail(email)
              && Utf16Length(password) >= MinPasswordLength && password == confirm && terms
    ensures r.Ok? ==> r.kind == AccountCreated
  {
    if fullName == "" || email == "" || password == "" || confirm == "" then Err(FillAllFields)
    else if !ValidateEmail(email) then Err(InvalidEmail)
    else if Utf16Length(password) < MinPasswordLength then Err(ShortPassword)
    else if password != confirm then Err(PasswordMismatch)
    else if !terms then Err(AcceptTerms)
    else Ok(AccountCreated)
  }

  /** Sign-in: both fields present, then a valid address. The password's
      length is not checked and "remember me" plays no part. */
  function Signin(email: string, password: string): (r: Outcome)
    ensures r == Err(FillAllFields) <==> email == "" || password == ""
    ensures r == Err(InvalidEmail) <==> email != "" && password != "" && !ValidateEmail(email)
    ensures r.Ok? <==> password != "" && ValidateEmail(email)
    ensures r.Ok? ==> r.kind == LoggedIn
  {
    if email == "" || password == "" then Err(FillAllFields)
    else if !ValidateEmail(email) then Err(InvalidEmail)
    else Ok(LoggedIn)
  }

  /** Credentials accepted at sign-up are accepted at sign-in. */
  lemma SignupCredentialsSignIn(fullName: string, email: string, password: string, confirm: string, terms: bool)
    requires Signup(fullName, email, password, confirm, terms).Ok?
    ensures Signin(email, password).Ok?
  {
  }

  /** Sign-in accepts a one-character password that sign-up refuses as too short. */
  lemma SigninSkipsPasswordLength()
    ensures Signin("jo@example.org", "x").Ok?
    ensures Signup("Jo", "jo@example.org", "x", "x", true) == Err(ShortPassword)
  {
    var s := "jo@example.org";
    assert s[2] == '@' && s[10] == '.';
    assert PlainRun(s[..2]) && PlainRun(s[3..10]) && PlainRun(s[11..]);
  }

  /** `s` holds '@' at two different positions. */
  predicate HasTwoAts(s: string) {
    exists m, n | 0 <= m < n < |s| :: s[m] == '@' && s[n] == '@'
  }

  /** `s` has an '@' directly followed by '.', and no other '.' after it. */
  predicate OnlyDotRightAfterAt(s: string) {
    exists at | 0 <= at < |s| - 1 :: s[at] == '@' && s[at + 1] == '.' && NoDotFrom(s, at + 2)
  }

  /** No '.' at index `k` or later. */
  predicate NoDotFrom(s: string, k: nat) {
    forall d | k <= d < |s| :: s[d] != '.'
  }

  /** An address with a second '@', or whose only dot after the '@' comes
      right after it, fails the address check every form runs, so the
      newsletter form refuses it with the invalid-address message. */
  lemma MalformedAddressesRefused(s: string)
    ensures HasTwoAts(s) || OnlyDotRightAfterAt(s) ==> !ValidateEmail(s) && Newsletter(s) == Err(InvalidEmail)
  {
    if ValidateEmail(s) {
      MatchIsWellFormed(s);
    }
  }

  /** Two addresses of those shapes. */
  lemma MalformedAddressExamples()
    ensures Newsletter("a@b@c.d") == Err(InvalidEmail)
    ensures Newsletter("a@.bc") == Err(InvalidEmail)
  {
    var twoAts := "a@b@c.d";
    assert twoAts[1] == '@' && twoAts[3] == '@';
    MalformedAddressesRefused(twoAts);
    var dotFirst := "a@.bc";
    assert dotFirst[1] == '@' && dotFirst[2] == '.' && NoDotFrom(dotFirst, 3);
    MalformedAddressesRefused(dotFirst);
  }

  /** Sign-up measures the password in UTF-16 code units: three emoji make a
      six-unit password, which is long enough. */
  lemma SignupCountsCodeUnits()
    ensures Signup("Jo", "jo@example.org", "\U{1F600}\U{1F600}\U{1F600}", "\U{1F600}\U{1F600}\U{1F600}", true) == Ok(AccountCreated)
  {
    var s := "jo@example.org";
    assert s[2] == '@' && s[10] == '.';
    assert PlainRun(s[..2]) && PlainRun(s[3..10]) && PlainRun(s[11..]);
  }
}
