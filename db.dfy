/** The two tables as the procedures use them through the database client:
    lookups by key, filtered and ordered queries, and the create and delete
    operations with the constraints the tables enforce (unique ids, unique
    emails, every note's author is a user). */
module Db {
  import opened Model

  // ---------------------------------------------------------------------
  // Lookups (findUnique)

  /** The first row whose key is `k`. */
  function Find<T, K(==)>(rows: seq<T>, key: T -> K, k: K): (r: Option<T>)
    ensures r.Some? ==> r.value in rows && key(r.value) == k
    ensures r.None? <==> forall x | x in rows :: key(x) != k
  {
    if rows == [] then None
    else if key(rows[0]) == k then Some(rows[0])
    else Find(rows[1..], key, k)
  }

  function FindUserById(users: seq<User>, id: Id): (r: Option<User>)
    ensures r.Some? ==> r.value in users && r.value.id == id
    ensures r.None? <==> forall u | u in users :: u.id != id
  {
    Find(users, (u: User) => u.id, id)
  }

  function FindUserByEmail(users: seq<User>, email: string): (r: Option<User>)
    ensures r.Some? ==> r.value in users && r.value.email == email
    ensures r.None? <==> forall u | u in users :: u.email != email
  {
    Find(users, (u: User) => u.email, email)
  }

  function FindNote(notes: seq<Note>, id: Id): (r: Option<Note>)
    ensures r.Some? ==> r.value in notes && r.value.id == id
    ensures r.None? <==> forall n | n in notes :: n.id != id
  {
    Find(notes, (n: Note) => n.id, id)
  }

  // ---------------------------------------------------------------------
  // Filters (findMany with a where clause, delete by id)

  /** The notes written by `authorId`, in table order. */
  function OwnedBy(notes: seq<Note>, authorId: Id): (r: seq<Note>)
    ensures forall n :: n in r <==> n in notes && n.authorId == authorId
    ensures forall n :: multiset(r)[n] == if n.authorId == authorId then multiset(notes)[n] else 0
    ensures (forall n | n in notes :: n.authorId == authorId) ==> r == notes
  {
    if notes == [] then []
    else
      var rest := OwnedBy(notes[1..], authorId);
      assert notes == [notes[0]] + notes[1..];
      assert multiset(notes) == multiset{notes[0]} + multiset(notes[1..]);
      if notes[0].authorId == authorId then [notes[0]] + rest else rest
  }

  /** The table with every note of id `id` taken out, in table order. */
  function WithoutId(notes: seq<Note>, id: Id): (r: seq<Note>)
    ensures forall n :: n in r <==> n in notes && n.id != id
    ensures forall n :: multiset(r)[n] == if n.id != id then multiset(notes)[n] else 0
  {
    if notes == [] then []
    else
      var rest := WithoutId(notes[1..], id);
      assert notes == [notes[0]] + notes[1..];
      assert multiset(notes) == multiset{notes[0]} + multiset(notes[1..]);
      if notes[0].id != id then [notes[0]] + rest else rest
  }

  // ---------------------------------------------------------------------
  // Ordering (orderBy createdAt desc)

  ghost predicate NewestFirst(notes: seq<Note>)
  {
    forall i, j | 0 <= i < j < |notes| :: notes[i].createdAt >= notes[j].createdAt
  }

  /** `n` placed before the first note that is not newer than it. */
  function InsertByCreatedAt(n: Note, sorted: seq<Note>): (r: seq<Note>)
    ensures multiset(r) == multiset(sorted) + multiset{n}
  {
    if sorted == [] || n.createdAt >= sorted[0].createdAt then [n] + sorted
    else
      assert sorted == [sorted[0]] + sorted[1..];
      [sorted[0]] + InsertByCreatedAt(n, sorted[1..])
  }

  ghost predicate NoneNewerThan(notes: seq<Note>, t: int)
  {
    forall m | m in notes :: m.createdAt <= t
  }

  lemma NewestFirstSplit(sorted: seq<Note>)
    requires sorted != [] && NewestFirst(sorted)
    ensures NewestFirst(sorted[1..]) && NoneNewerThan(sorted, sorted[0].createdAt)
  {
    var tail := sorted[1..];
    forall i, j | 0 <= i < j < |tail| ensures tail[i].createdAt >= tail[j].createdAt {
      assert tail[i] == sorted[i + 1] && tail[j] == sorted[j + 1];
    }
    forall m | m in sorted ensures m.createdAt <= sorted[0].createdAt {
      var k :| 0 <= k < |sorted| && sorted[k] == m;
      if k > 0 {
        assert sorted[0].createdAt >= sorted[k].createdAt;
      }
    }
  }

  lemma NewestFirstCons(x: Note, rest: seq<Note>)
    requires NewestFirst(rest) && NoneNewerThan(rest, x.createdAt)
    ensures NewestFirst([x] + rest)
  {
    var r := [x] + rest;
    forall i, j | 0 <= i < j < |r| ensures r[i].createdAt >= r[j].createdAt {
      assert r[j] == rest[j - 1];
      if i > 0 {
        assert r[i] == rest[i - 1];
      }
    }
  }

  lemma {:induction false} InsertNoneNewer(n: Note, sorted: seq<Note>, t: int)
    requires NoneNewerThan(sorted, t) && n.createdAt <= t
    ensures NoneNewerThan(InsertByCreatedAt(n, sorted), t)
  {
    if sorted != [] && n.createdAt < sorted[0].createdAt {
      InsertNoneNewer(n, sorted[1..], t);
    }
  }

  lemma {:induction false} InsertKeepsNewestFirst(n: Note, sorted: seq<Note>)
    requires NewestFirst(sorted)
    ensures NewestFirst(InsertByCreatedAt(n, sorted))
  {
    if sorted != [] {
      NewestFirstSplit(sorted);
      if n.createdAt >= sorted[0].createdAt {
        NewestFirstCons(n, sorted);
      } else {
        InsertKeepsNewestFirst(n, sorted[1..]);
        InsertNoneNewer(n, sorted[1..], sorted[0].createdAt);
        NewestFirstCons(sorted[0], InsertByCreatedAt(n, sorted[1..]));
      }
    }
  }

  /** The notes ordered by `createdAt`, newest first; notes created at the
      same instant keep their table order. */
  function SortNewestFirst(notes: seq<Note>): (r: seq<Note>)
    ensures NewestFirst(r)
    ensures multiset(r) == multiset(notes)
  {
    if notes == [] then []
    else
      var rest := SortNewestFirst(notes[1..]);
      assert notes == [notes[0]] + notes[1..];
      InsertKeepsNewestFirst(notes[0], rest);
      InsertByCreatedAt(notes[0], rest)
  }

  // ---------------------------------------------------------------------
  // Fresh keys (the tables' generated ids)

  function LongestKey<T>(rows: seq<T>, key: T -> Id): (m: nat)
    ensures forall x | x in rows :: |key(x)| <= m
  {
    if rows == [] then 0
    else
      var rest := LongestKey(rows[1..], key);
      assert forall x | x in rows :: x == rows[0] || x in rows[1..];
      if |key(rows[0])| > rest then |key(rows[0])| else rest
  }

  /** A key that no row of `rows` has: one character longer than the longest. */
  function FreshKey<T>(rows: seq<T>, key: T -> Id): (r: Id)
    ensures forall x | x in rows :: key(x) != r
  {
    seq(LongestKey(rows, key) + 1, _ => 'c')
  }

  // ---------------------------------------------------------------------
  // Table constraints

  ghost predicate UniqueUserIds(users: seq<User>)
  {
    forall i, j | 0 <= i < j < |users| :: users[i].id != users[j].id
  }

  ghost predicate UniqueEmails(users: seq<User>)
  {
    forall i, j | 0 <= i < j < |users| :: users[i].email != users[j].email
  }

  ghost predicate UniqueNoteIds(notes: seq<Note>)
  {
    forall i, j | 0 <= i < j < |notes| :: notes[i].id != notes[j].id
  }

  predicate HasUser(users: seq<User>, id: Id)
  {
    exists u :: u in users && u.id == id
  }

  lemma {:induction false} TailUniqueNoteIds(notes: seq<Note>)
    requires notes != [] && UniqueNoteIds(notes)
    ensures UniqueNoteIds(notes[1..])
    ensures forall m | m in notes[1..] :: m.id != notes[0].id
  {
    var tail := notes[1..];
    forall i, j | 0 <= i < j < |tail| ensures tail[i].id != tail[j].id {
      assert tail[i] == notes[i + 1] && tail[j] == notes[j + 1];
    }
    forall m | m in tail ensures m.id != notes[0].id {
      var k :| 0 <= k < |tail| && tail[k] == m;
      assert notes[k + 1] == m;
    }
  }

  lemma ConsUniqueNoteIds(n: Note, rest: seq<Note>)
    requires UniqueNoteIds(rest)
    requires forall m | m in rest :: m.id != n.id
    ensures UniqueNoteIds([n] + rest)
  {
    var r := [n] + rest;
    forall i, j | 0 <= i < j < |r| ensures r[i].id != r[j].id {
      assert r[j] == rest[j - 1];
      if i > 0 {
        assert r[i] == rest[i - 1];
      }
    }
  }

  /** Taking one id out of a table whose ids are unique keeps them unique. */
  lemma {:induction false} WithoutIdKeepsUnique(notes: seq<Note>, id: Id)
    requires UniqueNoteIds(notes)
    ensures UniqueNoteIds(WithoutId(notes, id))
  {
    if notes != [] {
      TailUniqueNoteIds(notes);
      WithoutIdKeepsUnique(notes[1..], id);
      if notes[0].id != id {
        ConsUniqueNoteIds(notes[0], WithoutId(notes[1..], id));
      }
    }
  }

  /** ... and removes exactly one row when the id is present. */
  lemma {:induction false} WithoutIdRemovesOne(notes: seq<Note>, id: Id)
    requires UniqueNoteIds(notes)
    ensures |WithoutId(notes, id)| == if FindNote(notes, id).Some? then |notes| - 1 else |notes|
  {
    if notes != [] {
      TailUniqueNoteIds(notes);
      WithoutIdRemovesOne(notes[1..], id);
      if notes[0].id == id {
        assert FindNote(notes[1..], id).None?;
      }
    }
  }

  /** In a table with unique emails, the row found by email is the only row
      with that email. */
  lemma FoundByEmailIsOnly(users: seq<User>, email: string)
    requires UniqueEmails(users)
    ensures forall u | u in users && u.email == email :: FindUserByEmail(users, email) == Some(u)
  {
    forall u | u in users && u.email == email ensures FindUserByEmail(users, email) == Some(u) {
      var v := FindUserByEmail(users, email).value;
      var i :| 0 <= i < |users| && users[i] == u;
      var j :| 0 <= j < |users| && users[j] == v;
      assert i == j;
    }
  }

  // ---------------------------------------------------------------------
  // The database

  /** The User and Note tables. Each create and delete is one atomic step. */
  class Store {
    var users: seq<User>
    var notes: seq<Note>

    ghost predicate Valid()
      reads this
    {
      && UniqueUserIds(users)
      && UniqueEmails(users)
      && UniqueNoteIds(notes)
      && forall n | n in notes :: HasUser(users, n.authorId)
    }

    constructor ()
      ensures Valid() && users == [] && notes == []
    {
      users := [];
      notes := [];
    }

    /** note.create: a row with a fresh id, stamped with `now`; refused when
        the author is not a user. */
    method CreateNote(title: string, content: string, authorId: Id, now: int) returns (r: Result<Note>)
      requires Valid()
      modifies this
      ensures Valid() && users == old(users)
      ensures !HasUser(users, authorId) ==> r == Failure(ForeignKeyConstraintFailed) && notes == old(notes)
      ensures HasUser(users, authorId) ==>
        && r.Success?
        && r.value.title == title && r.value.content == content
        && r.value.authorId == authorId && r.value.createdAt == now
        && FindNote(old(notes), r.value.id).None?
        && notes == old(notes) + [r.value]
    {
      if FindUserById(users, authorId).None? {
        return Failure(ForeignKeyConstraintFailed);
      }
      var id := FreshKey(notes, (n: Note) => n.id);
      var note := Note(id, title, content, authorId, now);
      notes := notes + [note];
      r := Success(note);
    }

    /** note.delete: removes the row with that id and returns it; refused
        when there is none. */
    method DeleteNote(id: Id) returns (r: Result<Note>)
      requires Valid()
      modifies this
      ensures Valid() && users == old(users)
      ensures FindNote(old(notes), id).None? ==> r == Failure(RecordNotFound) && notes == old(notes)
      ensures FindNote(old(notes), id).Some? ==>
        && r == Success(FindNote(old(notes), id).value)
        && notes == WithoutId(old(notes), id)
        && |notes| == |old(notes)| - 1
    {
      var found := FindNote(notes, id);
      if found.None? {
        return Failure(RecordNotFound);
      }
      WithoutIdKeepsUnique(notes, id);
      WithoutIdRemovesOne(notes, id);
      notes := WithoutId(notes, id);
      r := Success(found.value);
    }

    /** user.create: a row with a fresh id; refused when the email is taken. */
    method CreateUser(email: string, password: Option<string>) returns (r: Result<User>)
      requires Valid()
      modifies this
      ensures Valid() && notes == old(notes)
      ensures FindUserByEmail(old(users), email).Some? ==> r == Failure(UniqueConstraintFailed) && users == old(users)
      ensures FindUserByEmail(old(users), email).None? ==>
        && r.Success?
        && r.value.email == email && r.value.password == password
        && !HasUser(old(users), r.value.id)
        && users == old(users) + [r.value]
    {
      if FindUserByEmail(users, email).Some? {
        return Failure(UniqueConstraintFailed);
      }
      var id := FreshKey(users, (u: User) => u.id);
      var user := User(id, email, password);
      assert forall u | u in users :: u.id != id;
      users := users + [user];
      r := Success(user);
    }
  }
}
