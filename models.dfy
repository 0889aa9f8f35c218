/** The three persisted records (User, Post, Comments), the validity the
    struct tags ask of them, and what updating one column of a row does. */
module Models {
  import opened Common

  /** A row of the users table; `password` holds the bcrypt hash. */
  datatype User = User(id: Id, role: string, mail: string, password: string)

  /** A row of the posts table. `roleId` is the owning user's id (NullId once
      that user is gone), `postDate` a Unix time in seconds. The uint
      `comment_count` column is a nat. */
  datatype Post = Post(
    id: Id,
    roleId: Id,
    category: string,
    title: string,
    description: string,
    postDate: int,
    commentCount: nat,
    viewsCount: int,
    userCount: int)

  /** A row of the comments table: the post it is under and its author. */
  datatype Comment = Comment(id: Id, postId: Id, roleId: Id, feedback: string)

  /** The shape the `email` validator asks for, approximated: one '@' with a
      non-empty part on each side. */
  predicate EmailShaped(s: string) {
    exists i :: 0 < i < |s| - 1 && s[i] == '@' && '@' !in s[..i] && '@' !in s[i + 1..]
  }

  /** `validate:"required"` on Role and Password, `required,email` on Mail. */
  predicate ValidUser(u: User) {
    u.role != "" && u.password != "" && u.mail != "" && EmailShaped(u.mail)
  }

  /** `validate:"required"` on Category and Title; Description is optional. */
  predicate ValidPost(p: Post) {
    p.category != "" && p.title != ""
  }

  /** `validate:"required"` on Feedback. */
  predicate ValidComment(c: Comment) {
    c.feedback != ""
  }

  /** A value of an update map decoded from a JSON body: null, a string or a
      whole number. */
  datatype Value = Null | Text(s: string) | Int(n: int)

  /** The text a string column receives: NULL reads back as "". */
  function TextOf(v: Value): Option<string> {
    match v
    case Null => Some("")
    case Text(s) => Some(s)
    case Int(_) => None
  }

  /** The number an integer column receives: NULL reads back as 0. */
  function IntOf(v: Value): Option<int> {
    match v
    case Null => Some(0)
    case Int(n) => Some(n)
    case Text(_) => None
  }

  /** The id a reference column receives: NULL is NullId. */
  function RefOf(v: Value): Option<Id> {
    match v
    case Null => Some(NullId)
    case Text(s) => Some(s)
    case Int(_) => None
  }

  /** The post columns an update may name, by the kind of value they take:
      text (role_id is a reference, also written as text) and whole numbers. */
  const PostTextColumns: set<string> := {"role_id", "category", "title", "description"}

  const PostIntColumns: set<string> := {"comment_count", "views_count", "user_count"}

  const PostColumns: set<string> := PostTextColumns + PostIntColumns

  const CommentColumns: set<string> := {"post_id", "role_id", "feedback"}

  /** Column `col` of `p` reads back the value `v` that was written to it. */
  predicate PostColumnHolds(p: Post, col: string, v: Value) {
    match col
    case "role_id" => Some(p.roleId) == RefOf(v)
    case "category" => Some(p.category) == TextOf(v)
    case "title" => Some(p.title) == TextOf(v)
    case "description" => Some(p.description) == TextOf(v)
    case "comment_count" => Some(p.commentCount as int) == IntOf(v)
    case "views_count" => Some(p.viewsCount) == IntOf(v)
    case "user_count" => Some(p.userCount) == IntOf(v)
    case _ => false
  }

  /** Column `col` of `c` reads back the value `v` that was written to it. */
  predicate CommentColumnHolds(c: Comment, col: string, v: Value) {
    match col
    case "post_id" => Some(c.postId) == RefOf(v)
    case "role_id" => Some(c.roleId) == RefOf(v)
    case "feedback" => Some(c.feedback) == TextOf(v)
    case _ => false
  }

  /** `q` agrees with `p` on the key, the date and every column outside `cols`. */
  predicate PostSameExcept(p: Post, q: Post, cols: set<string>) {
    && q.id == p.id
    && q.postDate == p.postDate
    && ("role_id" !in cols ==> q.roleId == p.roleId)
    && ("category" !in cols ==> q.category == p.category)
    && ("title" !in cols ==> q.title == p.title)
    && ("description" !in cols ==> q.description == p.description)
    && ("comment_count" !in cols ==> q.commentCount == p.commentCount)
    && ("views_count" !in cols ==> q.viewsCount == p.viewsCount)
    && ("user_count" !in cols ==> q.userCount == p.userCount)
  }

  /** `d` agrees with `c` on the key and every column outside `cols`. */
  predicate CommentSameExcept(c: Comment, d: Comment, cols: set<string>) {
    && d.id == c.id
    && ("post_id" !in cols ==> d.postId == c.postId)
    && ("role_id" !in cols ==> d.roleId == c.roleId)
    && ("feedback" !in cols ==> d.feedback == c.feedback)
  }

  /** One `Update(col, value)` applied to a post row, before the table's own
      constraints (unique title, foreign key) are consulted. A negative
      number does not fit the unsigned comment_count column. */
  function AssignPostColumn(p: Post, col: string, v: Value): (r: Result<Post>)
    ensures col !in PostColumns ==> r == Err(UnknownColumn)
    ensures col in PostTextColumns ==> (r.Ok? <==> !v.Int?)
    ensures col in PostIntColumns ==> (r.Ok? <==> !v.Text? && (col == "comment_count" ==> IntOf(v).value >= 0))
    ensures r.Err? && col in PostColumns ==> r.error == InvalidValue
    ensures r.Ok? ==> PostSameExcept(p, r.value, {col}) && PostColumnHolds(r.value, col, v)
  {
    if col == "role_id" then
      if RefOf(v).None? then Err(InvalidValue) else Ok(p.(roleId := RefOf(v).value))
    else if col == "category" then
      if TextOf(v).None? then Err(InvalidValue) else Ok(p.(category := TextOf(v).value))
    else if col == "title" then
      if TextOf(v).None? then Err(InvalidValue) else Ok(p.(title := TextOf(v).value))
    else if col == "description" then
      if TextOf(v).None? then Err(InvalidValue) else Ok(p.(description := TextOf(v).value))
    else if col == "comment_count" then
      if IntOf(v).None? || IntOf(v).value < 0 then Err(InvalidValue)
      else Ok(p.(commentCount := IntOf(v).value))
    else if col == "views_count" then
      if IntOf(v).None? then Err(InvalidValue) else Ok(p.(viewsCount := IntOf(v).value))
    else if col == "user_count" then
      if IntOf(v).None? then Err(InvalidValue) else Ok(p.(userCount := IntOf(v).value))
    else
      Err(UnknownColumn)
  }

  /** One `Update(col, value)` applied to a comment row, before the foreign
      keys are consulted. */
  function AssignCommentColumn(c: Comment, col: string, v: Value): (r: Result<Comment>)
    ensures col !in CommentColumns ==> r == Err(UnknownColumn)
    ensures col in CommentColumns ==> (r.Ok? <==> !v.Int?)
    ensures r.Err? && col in CommentColumns ==> r.error == InvalidValue
    ensures r.Ok? ==> CommentSameExcept(c, r.value, {col}) && CommentColumnHolds(r.value, col, v)
  {
    if col == "post_id" then
      if RefOf(v).None? then Err(InvalidValue) else Ok(c.(postId := RefOf(v).value))
    else if col == "role_id" then
      if RefOf(v).None? then Err(InvalidValue) else Ok(c.(roleId := RefOf(v).value))
    else if col == "feedback" then
      if TextOf(v).None? then Err(InvalidValue) else Ok(c.(feedback := TextOf(v).value))
    else
      Err(UnknownColumn)
  }
}
