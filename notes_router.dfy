/** notesRouter, an older copy of the note procedures that the application
    router does not mount: its list is not ordered and it has no get or
    delete. */
module NotesRouter {
  import opened Model
  import opened Db

  const UserNotFound := "User not found"

  /** getNotes: every note of the caller and no other, in table order. */
  function GetNotes(db: Store, userId: Id): (r: seq<Note>)
    reads db
    ensures forall n :: n in r <==> n in db.notes && n.authorId == userId
    ensures forall n :: multiset(r)[n] == if n.authorId == userId then multiset(db.notes)[n] else 0
  {
    OwnedBy(db.notes, userId)
  }

  /** createNote: the same checks and insert as the mounted router's. */
  method CreateNote(db: Store, userId: Id, title: string, content: string, now: int) returns (r: Result<Note>)
    requires db.Valid()
    modifies db
    ensures db.Valid() && db.users == old(db.users)
    ensures !HasUser(db.users, userId) ==>
      r == Failure(TrpcError(BadRequest, UserNotFound)) && db.notes == old(db.notes)
    ensures HasUser(db.users, userId) ==>
      && r.Success?
      && r.value.title == title && r.value.content == content
      && r.value.authorId == userId && r.value.createdAt == now
      && FindNote(old(db.notes), r.value.id).None?
      && db.notes == old(db.notes) + [r.value]
  {
    var author := FindUserById(db.users, userId);
    if author.None? {
      return Failure(TrpcError(BadRequest, UserNotFound));
    }
    r := db.CreateNote(title, content, userId, now);
  }
}
