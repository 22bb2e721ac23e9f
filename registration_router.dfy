/** registrationRouter.registerUser: a public procedure that adds a user
    with a hashed password. The input is parsed with registrationFormSchema
    before the handler runs. */
module RegistrationRouter {
  import opened Model
  import opened Db
  import RegistrationSchema

  const UserAlreadyExists := "User already exists"
  /** The bcrypt cost factor. */
  const SaltRounds: nat := 10

  /** `hash` stands for the password-hashing library; the model treats it as
      an arbitrary function of the password and the cost factor. */
  method RegisterUser(db: Store, isEmail: string -> bool, hash: (string, nat) -> string,
                      email: string, password: string) returns (r: Result<User>)
    requires db.Valid()
    modifies db
    ensures db.Valid() && db.notes == old(db.notes)
    ensures !RegistrationSchema.Accepts(isEmail, email, password) ==>
      && r == Failure(InputInvalid(RegistrationSchema.Issues(isEmail, email, password)))
      && db.users == old(db.users)
    ensures RegistrationSchema.Accepts(isEmail, email, password) && FindUserByEmail(old(db.users), email).Some? ==>
      && r == Failure(TrpcError(InternalServerError, UserAlreadyExists))
      && db.users == old(db.users)
    ensures RegistrationSchema.Accepts(isEmail, email, password) && FindUserByEmail(old(db.users), email).None? ==>
      && r.Success?
      && r.value.email == email
      && r.value.password == Some(hash(password, SaltRounds))
      && !HasUser(old(db.users), r.value.id)
      && db.users == old(db.users) + [r.value]
    ensures r.Success? ==> FindUserByEmail(db.users, email) == Some(r.value)
  {
    var issues := RegistrationSchema.Issues(isEmail, email, password);
    if issues != [] {
      return Failure(InputInvalid(issues));
    }
    var found := FindUserByEmail(db.users, email);
    if found.Some? {
      return Failure(TrpcError(InternalServerError, UserAlreadyExists));
    }
    var hashed := hash(password, SaltRounds);
    r := db.CreateUser(email, Some(hashed));
    FindAppendedUser(old(db.users), r.value);
  }

  /** Looking up the email of a row appended to a table where that email was
      absent finds that row. */
  lemma {:induction false} FindAppendedUser(users: seq<User>, u: User)
    requires FindUserByEmail(users, u.email).None?
    ensures FindUserByEmail(users + [u], u.email) == Some(u)
  {
    if users != [] {
      assert (users + [u])[1..] == users[1..] + [u];
      FindAppendedUser(users[1..], u);
    }
  }
}
