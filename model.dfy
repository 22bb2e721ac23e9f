/** The two tables of the note-taking server (User and Note), the errors its
    procedures raise, and the wrappers its results travel in. */
module Model {

  datatype Option<+T> = None | Some(value: T)

  /** A procedure either returns a value or throws an error. */
  datatype Result<+T> = Success(value: T) | Failure(error: Error)

  /** Primary keys are opaque strings. */
  type Id = string

  /** A row of the User table. `password` is nullable in the table and holds
      a bcrypt hash when the row was created by registration. */
  datatype User = User(id: Id, email: string, password: Option<string>)

  /** A row of the Note table; `createdAt` is the creation timestamp. */
  datatype Note = Note(id: Id, title: string, content: string, authorId: Id, createdAt: int)

  /** The two tRPC error codes the procedures throw. */
  datatype Code = BadRequest | InternalServerError

  /** One problem reported by a schema parse: the field and its message. */
  datatype Issue = Issue(path: string, message: string)

  datatype Error =
    | TrpcError(code: Code, message: string)   // thrown by a handler
    | InputInvalid(issues: seq<Issue>)         // a schema parse failed
    | RecordNotFound                           // the storage layer found no row to delete
    | UniqueConstraintFailed                   // a second row with the same email
    | ForeignKeyConstraintFailed               // a note whose author is not a user
}
