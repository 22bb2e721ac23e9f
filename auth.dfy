/** The authentication options: the credentials check that signs a user in,
    and the two callbacks that copy the user's id and email into the token
    and from the token into the session. */
module Auth {
  import opened Model
  import opened Db
  import RegistrationSchema

  const InvalidPassword := "Invalid password"

  /** A stored password counts only when it is present and non-empty: an
      empty string is falsy to the credentials check. */
  predicate HasPassword(u: User)
  {
    u.password.Some? && u.password.value != ""
  }

  /** authorize: parses the credentials, looks the user up by email and
      compares the password with the stored hash. `Success(None)` is the
      "no user" answer, a failure is thrown. `compare` stands for the
      password-hashing library. */
  function Authorize(db: Store, isEmail: string -> bool, compare: (string, string) -> bool,
                     email: string, password: string): (r: Result<Option<User>>)
    reads db
    requires UniqueEmails(db.users)
    ensures !RegistrationSchema.Accepts(isEmail, email, password) ==>
      r == Failure(InputInvalid(RegistrationSchema.Issues(isEmail, email, password)))
    ensures r == Success(None) <==>
      && RegistrationSchema.Accepts(isEmail, email, password)
      && forall u | u in db.users && u.email == email :: !HasPassword(u)
    ensures (r.Success? && r.value.Some?) <==>
      && RegistrationSchema.Accepts(isEmail, email, password)
      && exists u :: u in db.users && u.email == email && HasPassword(u) && compare(password, u.password.value)
    ensures r.Success? && r.value.Some? ==> r.value.value in db.users && r.value.value.email == email
    ensures r.Failure? && RegistrationSchema.Accepts(isEmail, email, password) ==>
      && r == Failure(TrpcError(BadRequest, InvalidPassword))
      && exists u :: u in db.users && u.email == email && HasPassword(u) && !compare(password, u.password.value)
  {
    var issues := RegistrationSchema.Issues(isEmail, email, password);
    if issues != [] then Failure(InputInvalid(issues))
    else
      FoundByEmailIsOnly(db.users, email);
      match FindUserByEmail(db.users, email)
      case None => Success(None)
      case Some(u) =>
        if !HasPassword(u) then Success(None)
        else if !compare(password, u.password.value) then Failure(TrpcError(BadRequest, InvalidPassword))
        else Success(Some(u))
  }

  /** The provider account of a sign-in; its access token is opaque. */
  datatype Account = Account(provider: string, accessToken: Option<string>)

  /** The session token's claims. The jwt callback changes three of them in place. */
  class Token {
    var id: Option<Id>
    var email: Option<string>
    var accessToken: Option<string>
    var name: Option<string>
    var picture: Option<string>
    var sub: Option<string>

    constructor (name: Option<string>, email: Option<string>, picture: Option<string>, sub: Option<string>)
      ensures this.name == name && this.email == email && this.picture == picture && this.sub == sub
      ensures id == None && accessToken == None
    {
      this.name := name;
      this.email := email;
      this.picture := picture;
      this.sub := sub;
      id := None;
      accessToken := None;
    }
  }

  /** callbacks.jwt: on sign-in (an account is present, and with it the user
      that authorize returned) the token takes the account's access token and
      the user's email and id; otherwise it is returned as it was. */
  method Jwt(token: Token, account: Option<Account>, user: Option<User>) returns (r: Token)
    requires account.Some? ==> user.Some?
    modifies token`accessToken, token`email, token`id
    ensures r == token
    ensures account.Some? ==>
      && token.accessToken == account.value.accessToken
      && token.email == Some(user.value.email)
      && token.id == Some(user.value.id)
    ensures account.None? ==>
      token.accessToken == old(token.accessToken) && token.email == old(token.email) && token.id == old(token.id)
    ensures token.name == old(token.name) && token.picture == old(token.picture) && token.sub == old(token.sub)
  {
    if account.Some? {
      token.accessToken := account.value.accessToken;
      token.email := Some(user.value.email);
      token.id := Some(user.value.id);
    }
    r := token;
  }

  datatype SessionUser = SessionUser(name: Option<string>, email: Option<string>, image: Option<string>, id: Option<Id>)
  datatype Session = Session(user: SessionUser, expires: string)

  /** callbacks.session: the session with its user's id and email taken from
      the token and every other field kept. */
  function SessionOf(session: Session, token: Token): (r: Session)
    reads token
    ensures r.user.id == token.id && r.user.email == token.email
    ensures r.user.name == session.user.name && r.user.image == session.user.image
    ensures r.expires == session.expires
  {
    session.(user := session.user.(id := token.id, email := token.email))
  }

  /** A sign-in followed by a session read: the session carries the id and
      email of the user that authorize returned, which is the id every
      protected procedure then runs as. */
  method SignInSession(token: Token, account: Account, user: User, session: Session) returns (s: Session)
    modifies token`accessToken, token`email, token`id
    ensures s.user.id == Some(user.id) && s.user.email == Some(user.email)
    ensures s.user.name == session.user.name && s.user.image == session.user.image && s.expires == session.expires
    ensures token.accessToken == account.accessToken && token.email == Some(user.email) && token.id == Some(user.id)
    ensures token.name == old(token.name) && token.picture == old(token.picture) && token.sub == old(token.sub)
  {
    var t := Jwt(token, Some(account), Some(user));
    s := SessionOf(session, t);
  }
}
