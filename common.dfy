/** Values shared by every part of the blog backend: optional values, results
    with the errors the Go code returns, and record identifiers. */
module Common {

  datatype Option<+T> = None | Some(value: T)

  datatype Result<+T> = Ok(value: T) | Err(error: Error)

  /** The errors the repository, the token issuer and the migration helpers
      return; each comment gives the Go error it stands for. */
  datatype Error =
    | EmptyCredentials     // "mail or password can't be empty"
    | EmptyMail            // "mailID can not be empty"
    | EmptyPostId          // "PostID can not be empty" (the post operations) and
                           // "postID can not be empty" (GetCommentsBasedOnPostID)
    | EmptyCommentId       // "commentID can not be empty"
    | Unauthorized         // "unauthorized"
    | InvalidMail          // "invalid MailID!!! kindly Check it"
    | InvalidRoleId        // "invalid RoleID! Kindly Check it"
    | InvalidTitle         // "invalid Title!!! kindly Check it"
    | InvalidUserRole      // "invalid user role"
    | RecordNotFound       // gorm.ErrRecordNotFound
    | PasswordMismatch     // bcrypt.ErrMismatchedHashAndPassword
    | ValidationFailed     // an error of the struct validator
    | DuplicateKey         // a unique index (mail, title, primary key) was violated
    | ForeignKeyViolation  // a role_id / post_id that references no row
    | UnknownColumn        // an update names a column the model does not update
    | InvalidValue         // an update gives a column a value of the wrong kind
    | SigningFailed        // the JWT signer returned an error
    | NumberNotFound       // "number not found in filename"

  /** A record identifier: the text form of a UUID. */
  type Id = string

  /** The empty identifier stands for SQL NULL in a reference column; no
      stored row has it as its key. */
  const NullId: Id := ""

  /** ASCII lower-casing of one character; other characters are kept. */
  function LowerChar(c: char): char {
    if 'A' <= c <= 'Z' then (c as int + 32) as char else c
  }

  /** ASCII upper-casing of one character; other characters are kept. */
  function UpperChar(c: char): char {
    if 'a' <= c <= 'z' then (c as int - 32) as char else c
  }
}
