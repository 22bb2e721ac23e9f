/** noteRouter, the note procedures mounted in the application router. Each
    runs as the session user, whose id the protected-procedure layer has
    already resolved and hands over as `userId`. */
module NoteRouter {
  import opened Model
  import opened Db

  const NoteNotFound := "Note not found"
  const UserNotFound := "User not found"

  /** getNotes: every note of the caller and no other, newest first. */
  function GetNotes(db: Store, userId: Id): (r: seq<Note>)
    reads db
    ensures forall n :: n in r <==> n in db.notes && n.authorId == userId
    ensures forall n :: multiset(r)[n] == if n.authorId == userId then multiset(db.notes)[n] else 0
    ensures NewestFirst(r)
  {
    SortNewestFirst(OwnedBy(db.notes, userId))
  }

  /** A note of the caller that is newer than all their other notes is
      listed first. */
  lemma NewestNoteListedFirst(db: Store, userId: Id, n: Note)
    requires n in db.notes && n.authorId == userId
    requires forall m | m in db.notes && m.authorId == userId && m != n :: m.createdAt < n.createdAt
    ensures GetNotes(db, userId) != [] && GetNotes(db, userId)[0] == n
  {
    var r := GetNotes(db, userId);
    assert n in r;
    var k :| 0 <= k < |r| && r[k] == n;
    assert r[0] in r && r[0].createdAt >= r[k].createdAt;
  }

  /** Of two notes of the caller, the later-created one is listed before
      the earlier one. */
  lemma LaterNoteListedFirst(db: Store, userId: Id, earlier: Note, later: Note)
    requires earlier in db.notes && later in db.notes
    requires earlier.authorId == userId && later.authorId == userId
    requires earlier.createdAt < later.createdAt
    ensures earlier in GetNotes(db, userId) && later in GetNotes(db, userId)
    ensures forall i, j | 0 <= i < |GetNotes(db, userId)| && 0 <= j < |GetNotes(db, userId)| ::
      GetNotes(db, userId)[i] == later && GetNotes(db, userId)[j] == earlier ==> i < j
  {
    var r := GetNotes(db, userId);
    forall i, j | 0 <= i < |r| && 0 <= j < |r| && r[i] == later && r[j] == earlier ensures i < j {
      assert r[i].createdAt > r[j].createdAt;
    }
  }

  /** getNoteById: the note with that id, whoever wrote it. */
  function GetNoteById(db: Store, userId: Id, id: Id): (r: Result<Note>)
    reads db
    ensures r.Success? <==> exists n :: n in db.notes && n.id == id
    ensures r.Success? ==> r.value in db.notes && r.value.id == id
    ensures r.Failure? ==> r.error == TrpcError(InternalServerError, NoteNotFound)
  {
    match FindNote(db.notes, id)
    case None => Failure(TrpcError(InternalServerError, NoteNotFound))
    case Some(n) => Success(n)
  }

  /** With unique note ids, getNoteById returns the one note of that id. */
  lemma GetNoteByIdIsTheNote(db: Store, userId: Id, n: Note)
    requires db.Valid() && n in db.notes
    ensures GetNoteById(db, userId, n.id) == Success(n)
  {
    var r := GetNoteById(db, userId, n.id);
    var i :| 0 <= i < |db.notes| && db.notes[i] == n;
    var j :| 0 <= j < |db.notes| && db.notes[j] == r.value;
    assert i == j;
  }

  /** getNoteById does not look at the caller: any two callers get the same. */
  lemma GetNoteByIdIgnoresCaller(db: Store, caller: Id, other: Id, id: Id)
    ensures GetNoteById(db, caller, id) == GetNoteById(db, other, id)
  {
  }

  /** deleteNote: removes the note with that id, whoever wrote it. */
  method DeleteNote(db: Store, userId: Id, id: Id) returns (r: Result<()>)
    requires db.Valid()
    modifies db
    ensures db.Valid() && db.users == old(db.users)
    ensures FindNote(old(db.notes), id).None? ==> r == Failure(RecordNotFound) && db.notes == old(db.notes)
    ensures FindNote(old(db.notes), id).Some? ==>
      && r == Success(())
      && db.notes == WithoutId(old(db.notes), id)
      && |db.notes| == |old(db.notes)| - 1
      && forall n :: n in db.notes <==> n in old(db.notes) && n.id != id
  {
    var deleted := db.DeleteNote(id);
    if deleted.Failure? {
      return Failure(deleted.error);
    }
    r := Success(());
  }

  /** createNote: a new note by the caller with the title and content as
      given, empty ones included, once the caller is found among the users. */
  method CreateNote(db: Store, userId: Id, title: string, content: string, now: int) returns (r: Result<Note>)
    requires db.Valid()
    modifies db
    ensures db.Valid() && db.users == old(db.users)
    ensures !HasUser(db.users, userId) ==>
      r == Failure(TrpcError(BadRequest, UserNotFound)) && db.notes == old(db.notes)
    ensures HasUser(db.users, userId) ==>
      && r.Success?
      && r.value.title == title && r.value.content == content
      && r.value.authorId == userId && r.value.createdAt == now
      && FindNote(old(db.notes), r.value.id).None?
      && db.notes == old(db.notes) + [r.value]
  {
    var author := FindUserById(db.users, userId);
    if author.None? {
      return Failure(TrpcError(BadRequest, UserNotFound));
    }
    r := db.CreateNote(title, content, userId, now);
  }
}
