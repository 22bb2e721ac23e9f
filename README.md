# notes-with-auth: the procedure layer, modelled in Dafny

This project models the server side of a small multi-user note-taking
application. The server keeps two tables, User and Note. It exposes these
procedures:

- `registration.registerUser`: public; it creates a user with a bcrypt-hashed password.
- `note.getNotes`, `note.getNoteById`, `note.deleteNote` and `note.createNote`:
  protected; each runs as the signed-in user.
- The credentials provider's `authorize`, which signs a user in.
- The `jwt` and `session` callbacks, which copy the user's id and email into
  the session token and from there into the session.

The project also models the two input schemas (`registrationFormSchema`, `noteFormSchema`).
It also models the older `notesRouter`, which `src/server/api/root.ts:11-15`
does not mount.

Modules: two shared ones, one per source file, and one scenario module:

- `Model` (model.dfy): the User and Note rows, the error kinds, `Option` and `Result`.
- `Db` (db.dfy): the tables as a `Store` class (`users`, `notes` as sequences)
  with the operations the procedures ask of the database client. These are
  lookups by key, filtered and ordered queries, and create and delete.
  `Store.Valid()` is the table constraints, and every state-changing operation
  keeps it:
  - user ids, emails and note ids are unique;
  - every note's author is a user.
- `RegistrationSchema`, `NoteSchema`: the two zod schemas, each as the list of
  issues a parse reports (empty means accepted).
- `NoteRouter`, `NotesRouter`, `RegistrationRouter`, `Auth`: the procedures.
- `Scenario`: one user's path through the procedures on a fresh database.

How external parts are represented:

- **Password hashing and the email check.** bcrypt's `hash` and `compare` and
  zod's email check are function parameters. The model assumes nothing about
  them.
- **The clock.** `createdAt` comes from a `now` parameter.
- **Generated ids.** A fresh id is any string that no row already has.
  `Db.FreshKey` builds one that is longer than every existing id.
- **The session user.** The protected-procedure middleware is not part of this
  model. A protected handler simply receives the session user's id as `userId`.
- **Atomicity.** Each handler runs as one atomic step.
- **Read-only procedures.** `getNotes`, `getNoteById` and `authorize` are
  functions that only read the `Store`, so they leave both tables unchanged.
  The procedures that change the tables are methods whose `modifies` clause
  names the store.

The model follows the code as written, including behaviour a cleaner
design would avoid. Each item below is what the code does:

- **Missing note.** `getNoteById` on a missing id throws `INTERNAL_SERVER_ERROR`
  with "Note not found" (not a not-found error).
- **No ownership check.** `getNoteById` and `deleteNote` do not check who wrote
  the note.
- **Delete of a missing id.** `deleteNote` on a missing id fails with the
  storage layer's record-not-found error, which the handler does not catch.
- **Unknown author.** `createNote` throws `BAD_REQUEST` with "User not found".
  It accepts any title and content, including empty ones: the non-empty rule
  exists only in the form schema.
- **Duplicate email.** A duplicate registration throws `INTERNAL_SERVER_ERROR`
  with "User already exists".
- **Returned user row.** `registerUser` returns the whole new row, including
  the hashed password.
- **What `authorize` returns.** It returns no user when no user has the email.
  It also returns no user when the stored password is null or the empty string
  (`!user?.password`). It throws `BAD_REQUEST` with "Invalid password" only when
  the comparison fails.
- **Parsing before lookup.** `authorize` parses the credentials with the
  registration schema first. A password shorter than eight characters is
  therefore rejected as invalid input before any lookup. The scenario shows
  this for the seven-character password `wrongpw`: the result is not
  "Invalid password".

## Model

| member | source | states |
|---|---|---|
| `RegistrationSchema.Issues` | src/types/registration.ts:3-6 | no issue iff the email check holds and the password has at least 8 characters; the email issue appears iff the email check fails; the password issue, with the message "Password must be at least 8 characters long", appears iff the password is too short; no other issue is ever reported |
| `RegistrationSchema.PasswordBoundary` | src/types/registration.ts:5 | with a valid email, a 7-character password is rejected with exactly the too-short issue and an 8-character one is accepted |
| `RegistrationSchema.LongerPasswordStaysAccepted` | src/types/registration.ts:5 | appending characters to an accepted password keeps it accepted |
| `NoteSchema.Issues` | src/types/note.ts:3-6 | no issue iff title and content are both non-empty; "Enter title" appears iff the title is empty, "Enter content" iff the content is empty; no other issue is ever reported |
| `NoteSchema.NoUpperBound` | src/types/note.ts:4-5 | every non-empty title and content, one character or longer, is accepted |
| `Db.Find` | src/server/api/routers/note.ts:26-30 | the row found is in the table and has the key asked for; none is found iff no row has that key |
| `Db.FindUserById` | src/server/api/routers/note.ts:64-68 | the user found has that id and is in the table; none is found iff no user has that id |
| `Db.FindUserByEmail` | src/server/api/routers/registration.ts:17-21 | the user found has that email and is in the table; none is found iff no user has that email |
| `Db.FoundByEmailIsOnly` | src/server/auth.ts:82-86 | with unique emails, the user found by email is every user with that email |
| `Db.FindNote` | src/server/api/routers/note.ts:26-30 | the note found has that id and is in the table; none is found iff no note has that id |
| `Db.OwnedBy` | src/server/api/routers/notes.ts:8-12 | a note is in the result iff it is in the table with that author, each such note occurs as often as in the table, and a table written entirely by that author comes back whole |
| `Db.WithoutId` | src/server/api/routers/note.ts:48-52 | a note remains iff it was in the table and its id differs, with its multiplicity unchanged |
| `Db.WithoutIdKeepsUnique` | src/server/api/routers/note.ts:48-52 | removing an id from a table with unique note ids keeps them unique |
| `Db.WithoutIdRemovesOne` | src/server/api/routers/note.ts:48-52 | with unique note ids, removing a present id removes exactly one row and removing an absent one removes none |
| `Db.SortNewestFirst` | src/server/api/routers/note.ts:12-14 | the result is ordered by `createdAt`, non-increasing, and is a permutation of the input |
| `Db.InsertKeepsNewestFirst` | src/server/api/routers/note.ts:12-14 | inserting a note into a newest-first sequence keeps it newest-first |
| `Db.FreshKey` | src/server/api/routers/note.ts:74-80 | the generated id differs from the id of every existing row |
| `Db.Store.CreateNote` | src/server/api/routers/note.ts:74-80 | with an existing author, exactly one note is appended, carrying a fresh id and the given title, content, author and timestamp, and the users are unchanged; with an unknown author, the insert is refused and nothing changes; the table constraints are kept |
| `Db.Store.DeleteNote` | src/server/api/routers/note.ts:48-52 | a missing id fails with record-not-found and changes nothing; otherwise the row is returned, the table loses exactly that id and one row, and the users are unchanged; the constraints are kept |
| `Db.Store.CreateUser` | src/server/api/routers/registration.ts:32-37 | a taken email is refused and changes nothing; otherwise exactly one user is appended with a fresh id and the given email and password, and the notes are unchanged; the constraints are kept |
| `NoteRouter.GetNotes` | src/server/api/routers/note.ts:6-17 | returns exactly the caller's notes, each as often as in the table, with no limit and nothing of another author, ordered newest first |
| `NoteRouter.NewestNoteListedFirst` | src/server/api/routers/note.ts:12-14 | a note of the caller that is newer than all their other notes is the first one listed |
| `NoteRouter.LaterNoteListedFirst` | src/server/api/routers/note.ts:12-14 | of two notes of the caller, the later-created one is listed before the earlier one |
| `NoteRouter.GetNoteById` | src/server/api/routers/note.ts:19-40 | succeeds iff some note has that id and then returns a note of the table with that id; otherwise fails with INTERNAL_SERVER_ERROR "Note not found" |
| `NoteRouter.GetNoteByIdIsTheNote` | src/server/api/routers/note.ts:26-39 | with unique ids, any note of the table, whoever wrote it, is returned when asked for by its id |
| `NoteRouter.GetNoteByIdIgnoresCaller` | src/server/api/routers/note.ts:25-39 | two different callers asking for the same id get the same answer: there is no ownership filter |
| `NoteRouter.DeleteNote` | src/server/api/routers/note.ts:41-53 | a missing id fails with record-not-found and changes nothing; otherwise the table becomes the old one with that id taken out, exactly one note leaves it, every note with another id stays, the users are unchanged, and the author is not checked |
| `NoteRouter.CreateNote` | src/server/api/routers/note.ts:54-83 | an unknown caller gets BAD_REQUEST "User not found" and no note is added; otherwise exactly one note is appended with the caller as author, the title and content unchanged (empty ones too) and a fresh id, and it is returned |
| `NotesRouter.GetNotes` | src/server/api/routers/notes.ts:6-15 | returns exactly the caller's notes, each as often as in the table, with no ordering on `createdAt` |
| `NotesRouter.CreateNote` | src/server/api/routers/notes.ts:16-45 | an unknown caller gets BAD_REQUEST "User not found" and no note is added; otherwise exactly one note is appended with the caller as author and the input title and content, and it is returned |
| `RegistrationRouter.RegisterUser` | src/server/api/routers/registration.ts:12-40 | invalid input is rejected with the schema's issues; a taken email gives INTERNAL_SERVER_ERROR "User already exists" and leaves the users unchanged; otherwise exactly one user is appended with the email and `hash(password, 10)` as password, the notes are unchanged, and the full row is returned; after a success, that email finds the returned row, so a second registration fails; email uniqueness is kept |
| `RegistrationRouter.FindAppendedUser` | src/server/api/routers/registration.ts:17-37 | after appending a user whose email was absent, looking up that email finds the new row |
| `Auth.Authorize` | src/server/auth.ts:80-97 | invalid credentials fail with the schema's issues before any lookup; the result is "no user" iff no user with that email has a non-empty stored password; a user is returned iff one with that email has a password that `compare` accepts, and it is that table row; with valid input the only failure is BAD_REQUEST "Invalid password", for a user whose password `compare` rejects; the table is only read |
| `Auth.Jwt` | src/server/auth.ts:54-62 | with an account, the token takes the account's access token and the user's email and id; without one, those fields are unchanged; the token's other claims never change and the same token is returned |
| `Auth.SessionOf` | src/server/auth.ts:44-53 | the session's user gets the token's id and email; the user's name and image and the session's expiry are kept |
| `Auth.SignInSession` | src/server/auth.ts:44-62 | after a sign-in, the token holds the account's access token and the user's email and id, its other claims unchanged, and the session read from it carries the signed-in user's id and email, with the other session fields kept |
| `Scenario.RegisterAndSignIn` | src/server/auth.ts:80-97 | on a fresh database, registering succeeds with the hashed password and registering again gives "User already exists"; signing in with a 7-character password fails with the password-length issue, a wrong password gives "Invalid password", and the right one returns the registered row |
| `Scenario.WriteAndList` | src/server/api/routers/note.ts:6-17 | on a fresh database, a newly created user's empty note and a newer note are both created by createNote, and listing gives the newer one and then the older one |
| `Scenario.ListTwo` | src/server/api/routers/note.ts:12-14 | a table holding only an earlier and a later note of one author lists them later-first |
| `Scenario.DeleteTwice` | src/server/api/routers/note.ts:47-53 | on a fresh database, a note created by createNote for a new user is deleted successfully, and deleting it again fails with record-not-found |

## Left out

- Concurrency between requests is not modelled; each procedure is one atomic step. Two racing registrations, where the table's unique constraint (`Db.Store.CreateUser`'s refusal) would be the one to fire, are not modelled.
- bcrypt is not modelled: `hash` and `compare` are arbitrary functions, and salt randomness and timing are out of scope. Facts such as "compare accepts the password that was hashed" are not assumed; the scenario states them as its requires.
- zod's email pattern is not modelled; the email check is a parameter. The error text "Invalid email" is the library's default message.
- zod's `min` counts UTF-16 code units; the model counts characters.
- Credentials with a missing or non-string field (zod's "Required" issue) are not modelled; inputs are strings.
- The conversion of storage errors into INTERNAL_SERVER_ERROR by the procedure framework is not modelled; the model keeps the storage error (`RecordNotFound`, `UniqueConstraintFailed`, `ForeignKeyConstraintFailed`).
- The protected-procedure middleware, `getServerAuthSession`, the Prisma adapter, JWT signing and secrets, and `console.log` are not modelled. The middleware file (`~/server/api/trpc`) is not part of this model, and the handlers take the session user's id as a parameter.
- The database schema file is not part of this model. User rows carry only id, email and password, and Note rows only the columns the procedures use.
- The id format (cuid) is not modelled; `Db.FreshKey` stands for any id generator that avoids existing ids.
- The database's order for `findMany` without `orderBy` is unspecified; `NotesRouter.GetNotes` returns table order, and its contract promises membership and multiplicity only.
- The database's order among notes with equal `createdAt` is unspecified; `Db.SortNewestFirst` keeps table order there, and no contract promises it.
- RegistrationRouter.RegisterUser: a failed input parse is, in the program, tRPC's BAD_REQUEST error carrying the zod error as its cause; the model returns `InputInvalid` with the zod issues only and does not model the BAD_REQUEST wrapper.
- Auth.Authorize: requires unique emails (`UniqueEmails`), which the table's unique constraint always provides; under that constraint, "the user found by email" and "the user with that email" coincide.
- Auth.Jwt: requires a user whenever an account is given, as the authentication library does on sign-in.
