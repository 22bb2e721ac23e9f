/** registrationFormSchema: an email address and a password of at least
    eight characters. The email format check belongs to the validation
    library and is a parameter here. */
module RegistrationSchema {
  import opened Model

  const MinPasswordLength: nat := 8
  const InvalidEmail := "Invalid email"
  const PasswordTooShort := "Password must be at least 8 characters long"

  /** The issues a parse of `{email, password}` reports, field by field. */
  function Issues(isEmail: string -> bool, email: string, password: string): (issues: seq<Issue>)
    ensures issues == [] <==> isEmail(email) && |password| >= MinPasswordLength
    ensures Issue("email", InvalidEmail) in issues <==> !isEmail(email)
    ensures Issue("password", PasswordTooShort) in issues <==> |password| < MinPasswordLength
    ensures forall i | i in issues :: i == Issue("email", InvalidEmail) || i == Issue("password", PasswordTooShort)
    ensures |issues| <= 2
  {
    (if isEmail(email) then [] else [Issue("email", InvalidEmail)])
    + (if |password| < MinPasswordLength then [Issue("password", PasswordTooShort)] else [])
  }

  predicate Accepts(isEmail: string -> bool, email: string, password: string)
  {
    Issues(isEmail, email, password) == []
  }

  /** Seven characters are too few and eight are enough. */
  lemma PasswordBoundary(isEmail: string -> bool, email: string, seven: string, eight: string)
    requires isEmail(email) && |seven| == 7 && |eight| == 8
    ensures !Accepts(isEmail, email, seven)
    ensures Issues(isEmail, email, seven) == [Issue("password", PasswordTooShort)]
    ensures Accepts(isEmail, email, eight)
  {
  }

  /** Lengthening an accepted password keeps it accepted. */
  lemma LongerPasswordStaysAccepted(isEmail: string -> bool, email: string, password: string, more: string)
    requires Accepts(isEmail, email, password)
    ensures Accepts(isEmail, email, password + more)
  {
  }
}
