/**
 * The outcomes of a request and the validation guards at the top of the
 * `register`, `add_company`, `change_email` and `change_password` handlers.
 */
module Forms {
  import opened Wrappers
  import opened Text
  import opened Schema

  /** Why a handler answered with an apology page or a redirect instead of doing its work. */
  datatype Refusal =
    | MissingData        // a required field is absent or empty
    | TooLong            // a field is over its length limit
    | PasswordMismatch   // password and confirmation differ
    | SameEmail          // the new e-mail address equals the current one
    | EmailMismatch      // the new e-mail address and its confirmation differ
    | WrongCredentials   // current e-mail or password does not match the account
    | InvalidEmail       // the e-mail validator rejected the address
    | DuplicateEmail     // the UNIQUE e-mail column would be violated
    | DuplicateName      // the UNIQUE company name column would be violated
    | UnknownCompany     // a review names a company that is not in the table
    | TextTooLong        // review text over the limit
    | EditWindowExpired  // the review is older than the edit window
    | Unauthorized       // the session user is not the administrator

  /** A guard's verdict: go on, refuse, or raise an exception the handler does not catch. */
  datatype Check = Pass | Fail(why: Refusal) | Crash

  const MaxFieldLength: nat := 100
  const MaxReviewLength: nat := 1000

  /** An optional field as stored: its text when filled, the empty string otherwise. */
  function OrEmpty(f: Field): string
  {
    if Filled(f) then f.value else ""
  }

  /** The guards of `register` before the e-mail validator runs. */
  function RegisterCheck(email: Field, password: Field, confirmation: Field): (r: Check)
    ensures r.Pass? <==>
              Filled(email) && Filled(password) && Filled(confirmation) && password == confirmation
    ensures r == Fail(PasswordMismatch) <==>
              Filled(email) && Filled(password) && Filled(confirmation) && password != confirmation
    ensures !r.Crash?
  {
    if !Filled(email) then Fail(MissingData)
    else if !Filled(password) then Fail(MissingData)
    else if !Filled(confirmation) then Fail(MissingData)
    else if password != confirmation then Fail(PasswordMismatch)
    else Pass
  }

  /** The role given at registration: a company account exactly when the checkbox says "on". */
  function RoleFor(registerCompany: Field): (r: Role)
    ensures r == CompanyAccount <==> registerCompany == Some("on")
    ensures r != Administrator
  {
    if registerCompany == Some("on") then CompanyAccount else Member
  }

  /**
   * The guards of `add_company`. The first three fields are required; all five
   * are measured with `len`, so an optional field that was not sent at all
   * raises unless an earlier length test already failed.
   */
  function AddCompanyCheck(name: Field, kind: Field, location: Field, web: Field, address: Field): (r: Check)
    ensures r == Fail(MissingData) <==> !(Filled(name) && Filled(kind) && Filled(location))
    ensures r.Pass? <==>
              && Filled(name) && Filled(kind) && Filled(location)
              && Within(name, MaxFieldLength) && Within(kind, MaxFieldLength) && Within(location, MaxFieldLength)
              && Within(web, MaxFieldLength) && Within(address, MaxFieldLength)
    ensures r == Fail(TooLong) <==>
              && Filled(name) && Filled(kind) && Filled(location)
              && (|name.value| > MaxFieldLength || |kind.value| > MaxFieldLength
                  || |location.value| > MaxFieldLength
                  || (web.Some? && (|web.value| > MaxFieldLength
                                    || (address.Some? && |address.value| > MaxFieldLength))))
    ensures r.Crash? <==>
              && Filled(name) && Filled(kind) && Filled(location)
              && Within(name, MaxFieldLength) && Within(kind, MaxFieldLength) && Within(location, MaxFieldLength)
              && (web.None? || (Within(web, MaxFieldLength) && address.None?))
  {
    if !Filled(name) || !Filled(kind) || !Filled(location) then Fail(MissingData)
    else if |name.value| > MaxFieldLength || |kind.value| > MaxFieldLength
         || |location.value| > MaxFieldLength then Fail(TooLong)
    else if web.None? then Crash
    else if |web.value| > MaxFieldLength then Fail(TooLong)
    else if address.None? then Crash
    else if |address.value| > MaxFieldLength then Fail(TooLong)
    else Pass
  }

  /** The guards of `change_email` that look at the form alone. */
  function EmailChangeCheck(current: Field, password: Field, newEmail: Field, again: Field): (r: Check)
    ensures r.Pass? <==>
              && Filled(current) && Filled(password) && Filled(newEmail) && Filled(again)
              && Within(current, MaxFieldLength) && Within(password, MaxFieldLength)
              && Within(newEmail, MaxFieldLength) && Within(again, MaxFieldLength)
              && current != newEmail && newEmail == again
    ensures r == Fail(MissingData) <==>
              !(Filled(current) && Filled(password) && Filled(newEmail) && Filled(again))
    ensures r == Fail(TooLong) <==>
              && Filled(current) && Filled(password) && Filled(newEmail) && Filled(again)
              && !(Within(current, MaxFieldLength) && Within(password, MaxFieldLength)
                   && Within(newEmail, MaxFieldLength) && Within(again, MaxFieldLength))
    ensures r == Fail(SameEmail) <==>
              && Filled(current) && Filled(password) && Filled(newEmail) && Filled(again)
              && Within(current, MaxFieldLength) && Within(password, MaxFieldLength)
              && Within(newEmail, MaxFieldLength) && Within(again, MaxFieldLength)
              && current == newEmail
    ensures r == Fail(EmailMismatch) <==>
              && Filled(current) && Filled(password) && Filled(newEmail) && Filled(again)
              && Within(current, MaxFieldLength) && Within(password, MaxFieldLength)
              && Within(newEmail, MaxFieldLength) && Within(again, MaxFieldLength)
              && current != newEmail && newEmail != again
    ensures !r.Crash?
  {
    if !Filled(current) || !Filled(password) || !Filled(newEmail) || !Filled(again) then Fail(MissingData)
    else if |current.value| > MaxFieldLength || |password.value| > MaxFieldLength
         || |newEmail.value| > MaxFieldLength || |again.value| > MaxFieldLength then Fail(TooLong)
    else if current == newEmail then Fail(SameEmail)
    else if newEmail != again then Fail(EmailMismatch)
    else Pass
  }

  /** The guards of `change_password` that look at the form alone. */
  function PasswordChangeCheck(email: Field, password: Field, newPassword: Field, again: Field): (r: Check)
    ensures r.Pass? <==>
              && Filled(email) && Filled(password) && Filled(newPassword) && Filled(again)
              && Within(email, MaxFieldLength) && Within(password, MaxFieldLength)
              && Within(newPassword, MaxFieldLength) && Within(again, MaxFieldLength)
              && newPassword == again
    ensures r == Fail(MissingData) <==>
              !(Filled(email) && Filled(password) && Filled(newPassword) && Filled(again))
    ensures r == Fail(TooLong) <==>
              && Filled(email) && Filled(password) && Filled(newPassword) && Filled(again)
              && !(Within(email, MaxFieldLength) && Within(password, MaxFieldLength)
                   && Within(newPassword, MaxFieldLength) && Within(again, MaxFieldLength))
    ensures r == Fail(PasswordMismatch) <==>
              && Filled(email) && Filled(password) && Filled(newPassword) && Filled(again)
              && Within(email, MaxFieldLength) && Within(password, MaxFieldLength)
              && Within(newPassword, MaxFieldLength) && Within(again, MaxFieldLength)
              && newPassword != again
    ensures !r.Crash?
  {
    if !Filled(email) || !Filled(password) || !Filled(newPassword) || !Filled(again) then Fail(MissingData)
    else if |email.value| > MaxFieldLength || |password.value| > MaxFieldLength
         || |newPassword.value| > MaxFieldLength || |again.value| > MaxFieldLength then Fail(TooLong)
    else if newPassword != again then Fail(PasswordMismatch)
    else Pass
  }
}
