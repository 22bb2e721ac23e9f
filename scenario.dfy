/** One user's way through the procedures, on a fresh database: registering,
    signing in, then writing, listing and deleting notes. */
module Scenario {
  import opened Model
  import opened Db
  import RegistrationSchema
  import RegistrationRouter
  import Auth
  import NoteRouter

  /** Register twice with the same email, then sign in with a password that
      is too short, a wrong one and the right one. `hash` and `compare`
      stand for the password-hashing library; the requires say only how
      they answer the passwords used here. */
  method RegisterAndSignIn(isEmail: string -> bool, hash: (string, nat) -> string,
                           compare: (string, string) -> bool)
    returns (registered: Result<User>, again: Result<User>,
             tooShort: Result<Option<User>>, wrong: Result<Option<User>>, right: Result<Option<User>>)
    requires isEmail("a@x.com")
    requires compare("password123", hash("password123", 10))
    requires !compare("wrongpass1", hash("password123", 10))
    requires hash("password123", 10) != ""
    ensures registered.Success? && registered.value.email == "a@x.com"
    ensures registered.value.password == Some(hash("password123", 10))
    ensures again == Failure(TrpcError(InternalServerError, "User already exists"))
    ensures tooShort == Failure(InputInvalid([Issue("password", RegistrationSchema.PasswordTooShort)]))
    ensures wrong == Failure(TrpcError(BadRequest, "Invalid password"))
    ensures right == Success(Some(registered.value))
  {
    var db := new Store();
    registered := RegistrationRouter.RegisterUser(db, isEmail, hash, "a@x.com", "password123");
    assert db.users == [registered.value];
    again := RegistrationRouter.RegisterUser(db, isEmail, hash, "a@x.com", "password123");
    assert db.users == [registered.value];
    assert RegistrationSchema.Issues(isEmail, "a@x.com", "wrongpw") == [Issue("password", RegistrationSchema.PasswordTooShort)];
    assert RegistrationSchema.Accepts(isEmail, "a@x.com", "wrongpass1");
    assert RegistrationSchema.Accepts(isEmail, "a@x.com", "password123");
    assert Auth.HasPassword(registered.value);
    tooShort := Auth.Authorize(db, isEmail, compare, "a@x.com", "wrongpw");
    wrong := Auth.Authorize(db, isEmail, compare, "a@x.com", "wrongpass1");
    right := Auth.Authorize(db, isEmail, compare, "a@x.com", "password123");
  }

  /** Create a user, write an empty note and then a newer one, and list
      them. */
  method WriteAndList(email: string, now: int)
    returns (user: Result<User>, first: Result<Note>, second: Result<Note>, listed: seq<Note>)
    ensures user.Success? && user.value.email == email
    ensures first.Success? && first.value.authorId == user.value.id
    ensures first.value.title == "" && first.value.content == ""
    ensures second.Success? && second.value.authorId == user.value.id && second.value.createdAt == now + 1
    ensures listed == [second.value, first.value]
  {
    var db := new Store();
    user := db.CreateUser(email, None);
    var me := user.value.id;
    assert db.users == [user.value] && HasUser(db.users, me);
    first := NoteRouter.CreateNote(db, me, "", "", now);
    second := NoteRouter.CreateNote(db, me, "T", "C", now + 1);
    assert db.notes == [first.value, second.value];
    ListTwo(db, me, first.value, second.value);
    listed := NoteRouter.GetNotes(db, me);
  }

  lemma ListTwo(db: Store, userId: Id, earlier: Note, later: Note)
    requires db.notes == [earlier, later]
    requires earlier.authorId == userId && later.authorId == userId
    requires earlier.createdAt < later.createdAt
    ensures NoteRouter.GetNotes(db, userId) == [later, earlier]
  {
    var listed := NoteRouter.GetNotes(db, userId);
    NoteRouter.LaterNoteListedFirst(db, userId, earlier, later);
    assert OwnedBy(db.notes, userId) == db.notes;
    PairInOrder(listed, earlier, later);
  }

  /** A sequence holding just `a` and `b`, with `b` before `a`, is `[b, a]`. */
  lemma PairInOrder(s: seq<Note>, a: Note, b: Note)
    requires multiset(s) == multiset([a, b]) && a != b
    requires forall i, j | 0 <= i < |s| && 0 <= j < |s| :: s[i] == b && s[j] == a ==> i < j
    ensures s == [b, a]
  {
    assert |s| == 2;
    assert a in multiset(s) && b in multiset(s);
    var i :| 0 <= i < 2 && s[i] == b;
    var j :| 0 <= j < 2 && s[j] == a;
  }

  /** Create a user and a note of theirs, delete the note, then delete it
      again. */
  method DeleteTwice(email: string, now: int)
    returns (user: Result<User>, note: Result<Note>, deleted: Result<()>, deletedAgain: Result<()>)
    ensures user.Success? && note.Success? && note.value.authorId == user.value.id
    ensures deleted == Success(()) && deletedAgain == Failure(RecordNotFound)
  {
    var db := new Store();
    user := db.CreateUser(email, None);
    var me := user.value.id;
    assert db.users == [user.value] && HasUser(db.users, me);
    note := NoteRouter.CreateNote(db, me, "T", "C", now);
    assert db.notes == [note.value];
    deleted := NoteRouter.DeleteNote(db, me, note.value.id);
    deletedAgain := NoteRouter.DeleteNote(db, me, note.value.id);
  }
}
