/** The database behind the repository as a value: the users, posts and
    comments tables keyed by id, the constraints the schema puts on them,
    and each repository operation as a function from the tables before the
    call to the tables after it and the call's result. The class in
    Repository performs these same steps on its fields. */
module Tables {
  import opened Common
  import opened Models
  import opened Token

  datatype Db = Db(users: map<Id, User>, posts: map<Id, Post>, comments: map<Id, Comment>)

  /** An update map in the order Go's range statement visits it. */
  type Edits = seq<(string, Value)>

  /** A password check standing for bcrypt.CompareHashAndPassword(hash, pw). */
  type PasswordCheck = (string, string) -> bool

  // ---------------------------------------------------------------------
  // Schema constraints

  /** A reference column holds NULL or the key of a row of `table`. */
  predicate RefOk<T>(ref: Id, table: map<Id, T>) {
    ref == NullId || ref in table
  }

  /** Every table is keyed by its rows' ids, and no key is NULL. */
  ghost predicate KeyedById(db: Db) {
    && (forall id :: id in db.users ==> id != NullId && db.users[id].id == id)
    && (forall id :: id in db.posts ==> id != NullId && db.posts[id].id == id)
    && (forall id :: id in db.comments ==> id != NullId && db.comments[id].id == id)
  }

  /** Users are only ever inserted after validation and never updated. */
  ghost predicate UsersValid(users: map<Id, User>) {
    forall id :: id in users ==> ValidUser(users[id])
  }

  /** The unique index on users.mail. */
  ghost predicate MailsUnique(users: map<Id, User>) {
    forall a, b :: a in users && b in users && users[a].mail == users[b].mail ==> a == b
  }

  /** The unique index on posts.title. */
  ghost predicate TitlesUnique(posts: map<Id, Post>) {
    forall a, b :: a in posts && b in posts && posts[a].title == posts[b].title ==> a == b
  }

  /** The foreign keys posts.role_id, comments.post_id and comments.role_id. */
  ghost predicate ReferencesResolve(db: Db) {
    && (forall id :: id in db.posts ==> RefOk(db.posts[id].roleId, db.users))
    && (forall id :: id in db.comments ==> RefOk(db.comments[id].postId, db.posts))
    && (forall id :: id in db.comments ==> RefOk(db.comments[id].roleId, db.users))
  }

  ghost predicate Valid(db: Db) {
    && KeyedById(db)
    && UsersValid(db.users)
    && MailsUnique(db.users)
    && TitlesUnique(db.posts)
    && ReferencesResolve(db)
  }

  // ---------------------------------------------------------------------
  // Look-ups (`First` with a where clause)

  predicate UserMatches(users: map<Id, User>, id: Id, mail: string, role: string) {
    id in users && users[id].mail == mail && users[id].role == role
  }

  /** The user with this mail and role, as `Where("mail=?").Where("role=?").First`. */
  ghost function FindUserId(users: map<Id, User>, mail: string, role: string): (r: Option<Id>)
    ensures r.Some? ==> UserMatches(users, r.value, mail, role)
    ensures r.None? ==> forall id :: id in users ==> !UserMatches(users, id, mail, role)
  {
    if exists id :: UserMatches(users, id, mail, role) then
      var id :| UserMatches(users, id, mail, role); Some(id)
    else None
  }

  /** The user with this mail, whatever its role, as `First(&u, "mail=?")`. */
  ghost function FindUserIdByMail(users: map<Id, User>, mail: string): (r: Option<Id>)
    ensures r.Some? ==> r.value in users && users[r.value].mail == mail
    ensures r.None? ==> forall id :: id in users ==> users[id].mail != mail
  {
    if exists id :: id in users && users[id].mail == mail then
      var id :| id in users && users[id].mail == mail; Some(id)
    else None
  }

  /** With unique mails the look-ups find the one user that has the mail. */
  lemma FindUserIsTheUser(users: map<Id, User>, id: Id, mail: string, role: string)
    requires MailsUnique(users)
    requires id in users && users[id].mail == mail
    ensures FindUserIdByMail(users, mail) == Some(id)
    ensures users[id].role == role ==> FindUserId(users, mail, role) == Some(id)
    ensures users[id].role != role ==> FindUserId(users, mail, role) == None
  {
  }

  /** The post with this title, as `First(&post, "title=?")`. */
  ghost function FindPostIdByTitle(posts: map<Id, Post>, title: string): (r: Option<Id>)
    ensures r.Some? ==> r.value in posts && posts[r.value].title == title
    ensures r.None? ==> forall id :: id in posts ==> posts[id].title != title
  {
    if exists id :: id in posts && posts[id].title == title then
      var id :| id in posts && posts[id].title == title; Some(id)
    else None
  }

  // ---------------------------------------------------------------------
  // The derived comment count

  /** The ids of the comments whose post_id is `postId`. */
  function CommentsOf(comments: map<Id, Comment>, postId: Id): set<Id> {
    set id | id in comments && comments[id].postId == postId
  }

  /** `SELECT count(*) FROM comments WHERE post_id = postId`. */
  function CountFor(comments: map<Id, Comment>, postId: Id): nat {
    |CommentsOf(comments, postId)|
  }

  /** Writes the recount of `postId` into that post's comment_count; an
      update whose where clause matches no post changes nothing. */
  function Recount(posts: map<Id, Post>, comments: map<Id, Comment>, postId: Id): (r: map<Id, Post>)
    ensures r.Keys == posts.Keys
    ensures forall k :: k in r ==> PostSameExcept(posts[k], r[k], {"comment_count"})
    ensures forall k :: k in posts && k != postId ==> r[k] == posts[k]
    ensures postId in posts ==>
              r[postId] == posts[postId].(commentCount := CountFor(comments, postId))
  {
    if postId in posts then posts[postId := posts[postId].(commentCount := CountFor(comments, postId))]
    else posts
  }

  /** Rewriting comment counts, and nothing else of the posts, keeps the
      tables valid. */
  lemma CountsAsideKeepValid(db: Db, posts': map<Id, Post>)
    requires Valid(db) && posts'.Keys == db.posts.Keys
    requires forall k :: k in posts' ==> PostSameExcept(db.posts[k], posts'[k], {"comment_count"})
    ensures Valid(db.(posts := posts'))
  {
    var db' := db.(posts := posts');
    assert KeyedById(db');
    assert TitlesUnique(db'.posts);
    assert ReferencesResolve(db');
  }

  /** Every post's comment_count equals the number of its comments. The
      schema does not enforce this; the comment operations restore it for
      the post they touch. */
  ghost predicate CountsConsistent(db: Db) {
    forall pid :: pid in db.posts ==> db.posts[pid].commentCount == CountFor(db.comments, pid)
  }

  /** Inserting a comment under a fresh id adds one to its post's count and
      leaves every other post's count alone. */
  lemma CountAfterInsert(comments: map<Id, Comment>, k: Id, c: Comment, pid: Id)
    requires k !in comments
    ensures CountFor(comments[k := c], pid) == CountFor(comments, pid) + (if c.postId == pid then 1 else 0)
  {
    var before, after := CommentsOf(comments, pid), CommentsOf(comments[k := c], pid);
    if c.postId == pid {
      assert after == before + {k};
    } else {
      assert after == before;
    }
  }

  /** Removing a comment takes one from its post's count and leaves every
      other post's count alone. */
  lemma CountAfterRemove(comments: map<Id, Comment>, k: Id, pid: Id)
    requires k in comments
    ensures CountFor(comments - {k}, pid) == CountFor(comments, pid) - (if comments[k].postId == pid then 1 else 0)
  {
    var before, after := CommentsOf(comments, pid), CommentsOf(comments - {k}, pid);
    if comments[k].postId == pid {
      assert after == before - {k};
    } else {
      assert after == before;
    }
  }

  // ---------------------------------------------------------------------
  // Users

  /** AddUser: the id is assigned first, then the struct is validated, then
      the insert fails on the unique mail index. */
  ghost function AddUser(db: Db, user: User, freshId: Id): (r: (Db, Result<User>))
    requires freshId != NullId && freshId !in db.users
    ensures r.1.Err? ==> r.0 == db
    ensures !ValidUser(user) ==> r.1 == Err(ValidationFailed)
    ensures ValidUser(user) && (exists id :: id in db.users && db.users[id].mail == user.mail) ==>
              r.1 == Err(DuplicateKey)
    ensures ValidUser(user) && (forall id :: id in db.users ==> db.users[id].mail != user.mail) ==>
              r.1 == Ok(user.(id := freshId))
    ensures r.1.Ok? ==> r.1.value == user.(id := freshId) && r.0 == db.(users := db.users[freshId := r.1.value])
  {
    var u := user.(id := freshId);
    if !ValidUser(u) then (db, Err(ValidationFailed))
    else if FindUserIdByMail(db.users, u.mail).Some? then (db, Err(DuplicateKey))
    else (db.(users := db.users[freshId := u]), Ok(u))
  }

  lemma AddUserKeepsValid(db: Db, user: User, freshId: Id)
    requires Valid(db) && freshId != NullId && freshId !in db.users
    ensures Valid(AddUser(db, user, freshId).0)
  {
  }

  /** Login: empty inputs are refused before the store is consulted; then
      the user is looked up by mail and the password checked; an "admin"
      gets an admin token, a "user" a member token, any other role an error;
      a failed signing yields an empty token and no error. */
  ghost function Login(users: map<Id, User>, mail: string, password: string,
                       now: int, matches: PasswordCheck, sign: Signer): (r: (string, Option<Error>))
    ensures mail == "" || password == "" ==> r == ("", Some(EmptyCredentials))
    ensures r.1.None? ==> exists id :: id in users && users[id].mail == mail && matches(users[id].password, password)
  {
    if mail == "" || password == "" then ("", Some(EmptyCredentials))
    else match FindUserIdByMail(users, mail)
      case None => ("", Some(RecordNotFound))
      case Some(id) =>
        var u := users[id];
        if !matches(u.password, password) then ("", Some(PasswordMismatch))
        else if u.role == "admin" then
          var (token, err) := AdminToken(mail, u.id, now, sign);
          if err.Some? then ("", None) else (token, None)
        else if u.role == "user" then
          var (token, err) := MemberToken(mail, u.id, now, sign);
          if err.Some? then ("", None) else (token, None)
        else ("", Some(InvalidUserRole))
  }

  /** What Login returns for a registered user with the right password, by
      stored role. The token is signed over the user's own id and mail; a
      signing failure shows up as an empty token with no error. */
  lemma LoginByRole(users: map<Id, User>, id: Id, password: string,
                    now: int, matches: PasswordCheck, sign: Signer)
    requires MailsUnique(users) && KeyedById(Db(users, map[], map[]))
    requires id in users && users[id].mail != "" && password != ""
    requires matches(users[id].password, password)
    ensures var mail := users[id].mail;
            var r := Login(users, mail, password, now, matches, sign);
            && (users[id].role == "admin" ==> r == (AdminToken(mail, id, now, sign).0, None))
            && (users[id].role == "user" ==> r == (MemberToken(mail, id, now, sign).0, None))
            && (users[id].role != "admin" && users[id].role != "user" ==> r == ("", Some(InvalidUserRole)))
  {
    FindUserIsTheUser(users, id, users[id].mail, users[id].role);
  }

  /** GetRoleID: the user with the given mail, or "invalid MailID". */
  ghost function GetRoleID(users: map<Id, User>, mail: string): (r: Result<User>)
    ensures r.Ok? ==> r.value in users.Values && r.value.mail == mail
    ensures r.Err? <==> forall id :: id in users ==> users[id].mail != mail
    ensures r.Err? ==> r.error == InvalidMail
  {
    match FindUserIdByMail(users, mail)
    case None => Err(InvalidMail)
    case Some(id) => Ok(users[id])
  }

  // ---------------------------------------------------------------------
  // Posts

  /** Some stored post already has this title. */
  predicate TitleTaken(posts: map<Id, Post>, title: string) {
    exists k :: k in posts && posts[k].title == title
  }

  /** Some stored post other than `id` already has this title. */
  predicate TitleTakenByOther(posts: map<Id, Post>, id: Id, title: string) {
    exists k :: k in posts && k != id && posts[k].title == title
  }

  /** AddPost: validate, require that `post.roleId` is a user's id, then
      store the post under a fresh id stamped with `now`; the insert fails
      on the unique title index. */
  ghost function AddPost(db: Db, post: Post, freshId: Id, now: int): (r: (Db, Result<Post>))
    requires freshId != NullId && freshId !in db.posts
    ensures r.1.Err? ==> r.0 == db
    ensures !ValidPost(post) ==> r.1 == Err(ValidationFailed)
    ensures ValidPost(post) && post.roleId !in db.users ==> r.1 == Err(InvalidRoleId)
    ensures ValidPost(post) && post.roleId in db.users && TitleTaken(db.posts, post.title) ==> r.1 == Err(DuplicateKey)
    ensures ValidPost(post) && post.roleId in db.users && !TitleTaken(db.posts, post.title) ==>
              r.1 == Ok(post.(id := freshId, postDate := now))
    ensures r.1.Ok? ==> ValidPost(post) && post.roleId in db.users
    ensures r.1.Ok? ==> r.1.value == post.(id := freshId, postDate := now)
    ensures r.1.Ok? ==> r.0 == db.(posts := db.posts[freshId := r.1.value])
  {
    if !ValidPost(post) then (db, Err(ValidationFailed))
    else if post.roleId !in db.users then (db, Err(InvalidRoleId))
    else
      var p := post.(id := freshId, postDate := now);
      if TitleTaken(db.posts, p.title) then (db, Err(DuplicateKey))
      else (db.(posts := db.posts[freshId := p]), Ok(p))
  }

  lemma AddPostKeepsValid(db: Db, post: Post, freshId: Id, now: int)
    requires Valid(db) && freshId != NullId && freshId !in db.posts
    ensures Valid(AddPost(db, post, freshId, now).0)
  {
  }

  /** A new post has no comments yet, so its stored comment_count agrees
      with the comments only when the client sent 0: the insert keeps
      whatever comment_count the request carried. */
  lemma AddPostCountConsistency(db: Db, post: Post, freshId: Id, now: int)
    requires Valid(db) && CountsConsistent(db)
    requires freshId != NullId && freshId !in db.posts
    requires AddPost(db, post, freshId, now).1.Ok?
    ensures CountsConsistent(AddPost(db, post, freshId, now).0) <==> post.commentCount == 0
  {
    var db' := AddPost(db, post, freshId, now).0;
    assert CommentsOf(db.comments, freshId) == {} by {
      forall k | k in db.comments ensures db.comments[k].postId != freshId {
        assert RefOk(db.comments[k].postId, db.posts);
      }
    }
    assert db'.posts[freshId].commentCount == post.commentCount;
  }

  /** With unique titles the look-up finds the one post that has the title. */
  lemma FindPostIsThePost(posts: map<Id, Post>, id: Id, title: string)
    requires TitlesUnique(posts)
    requires id in posts && posts[id].title == title
    ensures FindPostIdByTitle(posts, title) == Some(id)
  {
  }

  /** GetPostID: the post with the given title, or "invalid Title". */
  ghost function GetPostID(posts: map<Id, Post>, title: string): (r: Result<Post>)
    ensures r.Ok? ==> r.value in posts.Values && r.value.title == title
    ensures r.Err? <==> forall id :: id in posts ==> posts[id].title != title
    ensures r.Err? ==> r.error == InvalidTitle
  {
    match FindPostIdByTitle(posts, title)
    case None => Err(InvalidTitle)
    case Some(id) => Ok(posts[id])
  }

  /** The columns SearchAllPost selects: views_count and user_count read
      back as zero. */
  function Projected(p: Post): Post {
    p.(viewsCount := 0, userCount := 0)
  }

  /** SearchAllPost: every post, projected. */
  function SearchAllPost(posts: map<Id, Post>): (r: map<Id, Post>)
    ensures r.Keys == posts.Keys
    ensures forall k :: k in r ==> r[k].viewsCount == 0 && r[k].userCount == 0
    ensures forall k :: k in r ==> PostSameExcept(posts[k], r[k], {"views_count", "user_count"})
  {
    map k | k in posts :: Projected(posts[k])
  }

  /** GetPostBasedOnCategory: every post of the category (none is an
      error, and the empty category is not refused). */
  function GetPostBasedOnCategory(posts: map<Id, Post>, category: string): (r: map<Id, Post>)
    ensures forall k :: k in r <==> k in posts && posts[k].category == category
    ensures forall k :: k in r ==> r[k] == posts[k]
  {
    map k | k in posts && posts[k].category == category :: posts[k]
  }

  /** GetAllCategory: the category of every post, one entry per post, so a
      category shared by several posts appears once for each. */
  function GetAllCategory(posts: map<Id, Post>): (r: map<Id, string>)
    ensures r.Keys == posts.Keys
    ensures forall k :: k in r ==> r[k] == posts[k].category
  {
    map k | k in posts :: posts[k].category
  }

  /** GetPostStatistics: the number of posts and of comments. */
  function GetPostStatistics(db: Db): (r: (nat, nat))
    ensures r.0 == |SearchAllPost(db.posts)| && r.1 == |GetAllComments(db.comments)|
  {
    (|db.posts|, |db.comments|)
  }

  /** The caller is a stored "admin" user with this mail and owns the post:
      the checks UpdatePostByID and DeletePostByID make before writing. */
  ghost predicate AdminOwnsPost(db: Db, mail: string, postId: Id) {
    && mail != ""
    && FindUserId(db.users, mail, "admin").Some?
    && postId != ""
    && postId in db.posts
    && db.posts[postId].roleId == FindUserId(db.users, mail, "admin").value
  }

  /** With unique mails the ownership check is about the one user that has
      the mail: that user's role is "admin" and the post's role_id is its id. */
  lemma AdminOwnsPostIff(db: Db, mail: string, postId: Id)
    requires Valid(db)
    ensures AdminOwnsPost(db, mail, postId) <==>
              mail != "" && postId in db.posts
              && var owner := db.posts[postId].roleId;
                 owner in db.users && db.users[owner].mail == mail && db.users[owner].role == "admin"
  {
    if postId in db.posts {
      var owner := db.posts[postId].roleId;
      if owner in db.users && db.users[owner].mail == mail {
        FindUserIsTheUser(db.users, owner, mail, "admin");
      }
    }
  }

  /** The post table after `Update(col, v)` on one row: the column
      assignment, then the unique title index and the role_id foreign key. */
  function SetPostColumn(db: Db, id: Id, col: string, v: Value): (r: Result<Post>)
    requires id in db.posts
    ensures AssignPostColumn(db.posts[id], col, v).Err? ==> r == AssignPostColumn(db.posts[id], col, v)
    ensures col == "title" && v.Text? && TitleTakenByOther(db.posts, id, v.s) ==> r == Err(DuplicateKey)
    ensures col == "title" && v.Null? && TitleTakenByOther(db.posts, id, "") ==> r == Err(DuplicateKey)
    ensures col == "role_id" && v.Text? && v.s !in db.users ==> r == Err(ForeignKeyViolation)
    ensures (&& AssignPostColumn(db.posts[id], col, v).Ok?
             && !(col == "title" && TitleTakenByOther(db.posts, id, TextOf(v).value))
             && !(col == "role_id" && v.Text? && v.s !in db.users)) ==> r.Ok?
    ensures r.Ok? ==> r == AssignPostColumn(db.posts[id], col, v)
    ensures r.Ok? ==> PostSameExcept(db.posts[id], r.value, {col}) && PostColumnHolds(r.value, col, v)
  {
    match AssignPostColumn(db.posts[id], col, v)
    case Err(e) => Err(e)
    case Ok(p) =>
      if col == "title" && TitleTakenByOther(db.posts, id, p.title) then
        Err(DuplicateKey)
      else if col == "role_id" && v.Text? && v.s !in db.users then Err(ForeignKeyViolation)
      else Ok(p)
  }

  /** The columns an update map names. */
  function Columns(data: Edits): set<string> {
    set i | 0 <= i < |data| :: data[i].0
  }

  /** The `for d, value := range data` loop of UpdatePostByID: one column
      update after another on the row `id`; the first failing update stops
      the loop, leaving the updates before it in place. */
  ghost function ApplyPostEdits(db: Db, id: Id, data: Edits): (r: (Db, Option<Error>))
    requires id in db.posts
    ensures r.0.users == db.users && r.0.comments == db.comments
    ensures r.0.posts.Keys == db.posts.Keys
    ensures forall k :: k in db.posts && k != id ==> r.0.posts[k] == db.posts[k]
    ensures PostSameExcept(db.posts[id], r.0.posts[id], Columns(data))
    decreases |data|
  {
    if data == [] then (db, None)
    else match SetPostColumn(db, id, data[0].0, data[0].1)
      case Err(e) => (db, Some(e))
      case Ok(p) =>
        assert Columns(data) == {data[0].0} + Columns(data[1..]) by {
          assert forall i :: 0 < i < |data| ==> data[i] == data[1..][i - 1];
        }
        ApplyPostEdits(db.(posts := db.posts[id := p]), id, data[1..])
  }

  /** Pair `i` of the update map is the last one naming its column. The
      keys of a Go map are distinct, so every pair of a real request is. */
  predicate LastWrite(data: Edits, i: int) {
    0 <= i < |data| && forall j :: i < j < |data| ==> data[j].0 != data[i].0
  }

  /** The column of a last write is not among the columns written after it. */
  lemma LastWriteNotLater(data: Edits, i: int)
    requires LastWrite(data, i)
    ensures data[i].0 !in Columns(data[i + 1..])
  {
  }

  /** Applying `a + b` applies `a` and then, unless one of its writes
      failed, `b` to the result: the loop runs the writes in order and
      stops at the first failure. */
  lemma {:induction false} ApplyPostEditsConcat(db: Db, id: Id, a: Edits, b: Edits)
    requires id in db.posts
    ensures var (db1, err1) := ApplyPostEdits(db, id, a);
            ApplyPostEdits(db, id, a + b) == if err1.Some? then (db1, err1) else ApplyPostEdits(db1, id, b)
    decreases |a|
  {
    if a == [] {
      assert a + b == b;
    } else {
      assert (a + b)[0] == a[0] && (a + b)[1..] == a[1..] + b;
      match SetPostColumn(db, id, a[0].0, a[0].1)
      case Err(_) =>
      case Ok(p) => ApplyPostEditsConcat(db.(posts := db.posts[id := p]), id, a[1..], b);
    }
  }

  /** When the whole loop succeeds, every column the update map names holds
      the value of the last pair naming it. */
  lemma {:induction false} ApplyPostEditsWrites(db: Db, id: Id, data: Edits)
    requires id in db.posts
    ensures var r := ApplyPostEdits(db, id, data);
            r.1.None? ==> forall i :: LastWrite(data, i) ==> PostColumnHolds(r.0.posts[id], data[i].0, data[i].1)
    decreases |data|
  {
    if data != [] {
      match SetPostColumn(db, id, data[0].0, data[0].1)
      case Err(_) =>
      case Ok(p) =>
        var db1 := db.(posts := db.posts[id := p]);
        var r := ApplyPostEdits(db1, id, data[1..]);
        ApplyPostEditsWrites(db1, id, data[1..]);
        if r.1.None? {
          forall i | LastWrite(data, i) ensures PostColumnHolds(r.0.posts[id], data[i].0, data[i].1) {
            if i == 0 {
              LastWriteNotLater(data, 0);
              assert data[1..] == data[0 + 1..];
            } else {
              assert LastWrite(data[1..], i - 1);
            }
          }
        }
    }
  }

  /** Replacing a post by a row with the same key, a title no other post
      has and a resolvable role_id keeps the tables valid. */
  lemma ReplacePostKeepsValid(db: Db, id: Id, p: Post)
    requires Valid(db) && id in db.posts && p.id == id
    requires RefOk(p.roleId, db.users)
    requires forall k :: k in db.posts && k != id ==> db.posts[k].title != p.title
    ensures Valid(db.(posts := db.posts[id := p]))
  {
    var db' := db.(posts := db.posts[id := p]);
    assert KeyedById(db');
    assert TitlesUnique(db'.posts);
    assert ReferencesResolve(db');
  }

  /** One successful column update keeps the tables valid. */
  lemma SetPostColumnKeepsValid(db: Db, id: Id, col: string, v: Value)
    requires Valid(db) && id in db.posts
    requires SetPostColumn(db, id, col, v).Ok?
    ensures Valid(db.(posts := db.posts[id := SetPostColumn(db, id, col, v).value]))
  {
    var p := SetPostColumn(db, id, col, v).value;
    assert col == "role_id" ==> Some(p.roleId) == RefOf(v);
    assert RefOk(p.roleId, db.users);
    if col != "title" {
      assert p.title == db.posts[id].title;
    }
    ReplacePostKeepsValid(db, id, p);
  }

  lemma {:induction false} ApplyPostEditsKeepsValid(db: Db, id: Id, data: Edits)
    requires Valid(db) && id in db.posts
    ensures Valid(ApplyPostEdits(db, id, data).0)
    decreases |data|
  {
    if data != [] {
      var r := SetPostColumn(db, id, data[0].0, data[0].1);
      if r.Ok? {
        SetPostColumnKeepsValid(db, id, data[0].0, data[0].1);
        ApplyPostEditsKeepsValid(db.(posts := db.posts[id := r.value]), id, data[1..]);
      }
    }
  }

  /** UpdatePostByID: the caller's mail must name an "admin" user who owns
      the post; then the update map is applied to that post only, and the
      post as updated is returned. */
  ghost function UpdatePostByID(db: Db, postId: Id, mail: string, data: Edits): (r: (Db, Result<Post>))
    ensures !AdminOwnsPost(db, mail, postId) ==> r.0 == db && r.1.Err?
    ensures mail == "" ==> r.1 == Err(EmptyMail)
    ensures mail != "" && FindUserId(db.users, mail, "admin").None? ==> r.1 == Err(Unauthorized)
    ensures mail != "" && FindUserId(db.users, mail, "admin").Some? && postId == "" ==> r.1 == Err(EmptyPostId)
    ensures mail != "" && FindUserId(db.users, mail, "admin").Some? && postId != "" && !AdminOwnsPost(db, mail, postId) ==>
              r.1 == Err(RecordNotFound)
    ensures AdminOwnsPost(db, mail, postId) ==>
              && r.0 == ApplyPostEdits(db, postId, data).0
              && (r.1.Ok? <==> ApplyPostEdits(db, postId, data).1.None?)
              && (r.1.Err? ==> Some(r.1.error) == ApplyPostEdits(db, postId, data).1)
    ensures r.0.users == db.users && r.0.comments == db.comments
    ensures r.0.posts.Keys == db.posts.Keys
    ensures forall k :: k in db.posts && k != postId ==> r.0.posts[k] == db.posts[k]
    ensures postId in db.posts ==> PostSameExcept(db.posts[postId], r.0.posts[postId], Columns(data))
    ensures r.1.Ok? ==> r.1.value == r.0.posts[postId]
  {
    if mail == "" then (db, Err(EmptyMail))
    else match FindUserId(db.users, mail, "admin")
      case None => (db, Err(Unauthorized))
      case Some(uid) =>
        if postId == "" then (db, Err(EmptyPostId))
        else if postId !in db.posts || db.posts[postId].roleId != uid then (db, Err(RecordNotFound))
        else
          var (db', err) := ApplyPostEdits(db, postId, data);
          if err.Some? then (db', Err(err.value)) else (db', Ok(db'.posts[postId]))
  }

  /** A successful update leaves every column the request names holding
      the value the request gives it, and every other column as it was. */
  lemma UpdatePostWrites(db: Db, postId: Id, mail: string, data: Edits)
    ensures var r := UpdatePostByID(db, postId, mail, data);
            r.1.Ok? ==>
              && PostSameExcept(db.posts[postId], r.1.value, Columns(data))
              && forall i :: LastWrite(data, i) ==> PostColumnHolds(r.1.value, data[i].0, data[i].1)
  {
    if AdminOwnsPost(db, mail, postId) {
      ApplyPostEditsWrites(db, postId, data);
    }
  }

  lemma UpdatePostKeepsValid(db: Db, postId: Id, mail: string, data: Edits)
    requires Valid(db)
    ensures Valid(UpdatePostByID(db, postId, mail, data).0)
  {
    if AdminOwnsPost(db, mail, postId) {
      ApplyPostEditsKeepsValid(db, postId, data);
    }
  }

  /** The comments of a deleted post keep their rows with post_id set to
      NULL (ON DELETE SET NULL). */
  function NullPostRefs(comments: map<Id, Comment>, postId: Id): (r: map<Id, Comment>)
    ensures r.Keys == comments.Keys
    ensures forall k :: k in r ==> CommentSameExcept(comments[k], r[k], {"post_id"})
    ensures forall k :: k in r ==> r[k].postId == if comments[k].postId == postId then NullId else comments[k].postId
  {
    map k | k in comments :: if comments[k].postId == postId then comments[k].(postId := NullId) else comments[k]
  }

  /** DeletePostByID: the same checks as UpdatePostByID, then exactly that
      post is removed and the comments under it lose their reference. The
      deleted row is returned. */
  ghost function DeletePostByID(db: Db, mail: string, postId: Id): (r: (Db, Result<Post>))
    ensures !AdminOwnsPost(db, mail, postId) ==> r.0 == db && r.1.Err?
    ensures mail == "" ==> r.1 == Err(EmptyMail)
    ensures mail != "" && FindUserId(db.users, mail, "admin").None? ==> r.1 == Err(Unauthorized)
    ensures mail != "" && FindUserId(db.users, mail, "admin").Some? && postId == "" ==> r.1 == Err(EmptyPostId)
    ensures mail != "" && FindUserId(db.users, mail, "admin").Some? && postId != "" && !AdminOwnsPost(db, mail, postId) ==>
              r.1 == Err(RecordNotFound)
    ensures AdminOwnsPost(db, mail, postId) ==> r.1 == Ok(db.posts[postId])
    ensures r.1.Ok? ==> r.1.value == db.posts[postId]
    ensures r.1.Ok? ==> r.0.posts == db.posts - {postId}
    ensures r.1.Ok? ==> r.0.users == db.users && r.0.comments == NullPostRefs(db.comments, postId)
  {
    if mail == "" then (db, Err(EmptyMail))
    else match FindUserId(db.users, mail, "admin")
      case None => (db, Err(Unauthorized))
      case Some(uid) =>
        if postId == "" then (db, Err(EmptyPostId))
        else if postId !in db.posts || db.posts[postId].roleId != uid then (db, Err(RecordNotFound))
        else
          (db.(posts := db.posts - {postId}, comments := NullPostRefs(db.comments, postId)),
           Ok(db.posts[postId]))
  }

  /** The tables once a post is removed and its comments unlinked. */
  lemma UnlinkPostKeepsValid(db: Db, postId: Id)
    requires Valid(db) && postId in db.posts
    ensures Valid(Db(db.users, db.posts - {postId}, NullPostRefs(db.comments, postId)))
  {
    var db' := Db(db.users, db.posts - {postId}, NullPostRefs(db.comments, postId));
    assert KeyedById(db');
    assert TitlesUnique(db'.posts);
    assert forall k :: k in db'.posts ==> RefOk(db'.posts[k].roleId, db'.users);
    assert forall k :: k in db'.comments ==> RefOk(db'.comments[k].postId, db'.posts);
    assert forall k :: k in db'.comments ==> RefOk(db'.comments[k].roleId, db'.users);
  }

  /** Deleting a post keeps the tables valid: the comments under it are
      unlinked, not left pointing at a missing row. */
  lemma DeletePostKeepsValid(db: Db, mail: string, postId: Id)
    requires Valid(db)
    requires DeletePostByID(db, mail, postId).1.Ok?
    ensures Valid(DeletePostByID(db, mail, postId).0)
  {
    var db' := DeletePostByID(db, mail, postId).0;
    assert db' == Db(db.users, db.posts - {postId}, NullPostRefs(db.comments, postId));
    UnlinkPostKeepsValid(db, postId);
  }

  /** Deleting a post deletes no comment, so every remaining post keeps the
      count of its comments. */
  lemma DeletePostKeepsCounts(db: Db, mail: string, postId: Id)
    requires Valid(db) && CountsConsistent(db)
    requires DeletePostByID(db, mail, postId).1.Ok?
    ensures CountsConsistent(DeletePostByID(db, mail, postId).0)
  {
    var comments' := NullPostRefs(db.comments, postId);
    forall pid | pid in db.posts && pid != postId
      ensures CountFor(comments', pid) == CountFor(db.comments, pid)
    {
      assert pid != NullId;
      assert CommentsOf(comments', pid) == CommentsOf(db.comments, pid) by {
        forall k | k in comments' ensures comments'[k].postId == pid <==> db.comments[k].postId == pid { }
      }
    }
  }

  /** GetPostBasedOnRoleID: the posts of the "admin" user with this mail. */
  ghost function GetPostBasedOnRoleID(db: Db, mail: string): (r: Result<map<Id, Post>>)
    ensures mail == "" ==> r == Err(EmptyMail)
    ensures mail != "" && FindUserId(db.users, mail, "admin").None? ==> r == Err(Unauthorized)
    ensures mail != "" && FindUserId(db.users, mail, "admin").Some? ==>
              r.Ok? && forall k :: k in r.value <==> k in db.posts && db.posts[k].roleId == FindUserId(db.users, mail, "admin").value
    ensures r.Ok? ==> forall k :: k in r.value ==> k in db.posts && r.value[k] == db.posts[k]
  {
    if mail == "" then Err(EmptyMail)
    else match FindUserId(db.users, mail, "admin")
      case None => Err(Unauthorized)
      case Some(uid) => Ok(map k | k in db.posts && db.posts[k].roleId == uid :: db.posts[k])
  }

  /** The posts GetPostBasedOnRoleID lists for a mail are exactly those the
      same mail may update or delete. */
  lemma ListedPostsAreTheWritableOnes(db: Db, mail: string, postId: Id, data: Edits)
    requires Valid(db)
    requires GetPostBasedOnRoleID(db, mail).Ok?
    ensures postId in GetPostBasedOnRoleID(db, mail).value <==> AdminOwnsPost(db, mail, postId)
    ensures postId in GetPostBasedOnRoleID(db, mail).value <==> DeletePostByID(db, mail, postId).1.Ok?
    ensures postId in GetPostBasedOnRoleID(db, mail).value ==>
              UpdatePostByID(db, postId, mail, data).0 == ApplyPostEdits(db, postId, data).0
    ensures postId !in GetPostBasedOnRoleID(db, mail).value ==>
              UpdatePostByID(db, postId, mail, data).0 == db && UpdatePostByID(db, postId, mail, data).1.Err?
  {
  }

  // ---------------------------------------------------------------------
  // Comments

  /** The caller is a stored "user" with this mail and wrote the comment:
      the checks UpdateCommentByID and DeleteCommentByID make before writing. */
  ghost predicate UserOwnsComment(db: Db, mail: string, commentId: Id) {
    && mail != ""
    && FindUserId(db.users, mail, "user").Some?
    && commentId != ""
    && commentId in db.comments
    && db.comments[commentId].roleId == FindUserId(db.users, mail, "user").value
  }

  /** AddComments: the id is assigned first; the mail must name a "user";
      the comment is validated and inserted (the foreign keys must
      resolve); then its post's comment_count is recounted. The comment's
      role_id is stored as given: it is not compared with the caller. */
  ghost function AddComments(db: Db, mail: string, comment: Comment, freshId: Id): (r: (Db, Result<Comment>))
    requires freshId != NullId && freshId !in db.comments
    ensures r.1.Err? ==> r.0 == db
    ensures mail == "" ==> r.1 == Err(EmptyMail)
    ensures mail != "" && FindUserId(db.users, mail, "user").None? ==> r.1 == Err(Unauthorized)
    ensures mail != "" && FindUserId(db.users, mail, "user").Some? && !ValidComment(comment) ==>
              r.1 == Err(ValidationFailed)
    ensures mail != "" && FindUserId(db.users, mail, "user").Some? && ValidComment(comment)
            && !(RefOk(comment.postId, db.posts) && RefOk(comment.roleId, db.users)) ==>
              r.1 == Err(ForeignKeyViolation)
    ensures mail != "" && FindUserId(db.users, mail, "user").Some? && ValidComment(comment)
            && RefOk(comment.postId, db.posts) && RefOk(comment.roleId, db.users) ==>
              r.1 == Ok(comment.(id := freshId))
    ensures r.1.Ok? ==> r.1.value == comment.(id := freshId) && ValidComment(r.1.value)
    ensures r.1.Ok? ==> r.0.comments == db.comments[freshId := r.1.value] && r.0.users == db.users
    ensures r.1.Ok? ==> r.0.posts == Recount(db.posts, r.0.comments, comment.postId)
  {
    var c := comment.(id := freshId);
    if mail == "" then (db, Err(EmptyMail))
    else if FindUserId(db.users, mail, "user").None? then (db, Err(Unauthorized))
    else if !ValidComment(c) then (db, Err(ValidationFailed))
    else if !RefOk(c.postId, db.posts) || !RefOk(c.roleId, db.users) then (db, Err(ForeignKeyViolation))
    else
      var comments' := db.comments[freshId := c];
      (db.(comments := comments', posts := Recount(db.posts, comments', c.postId)), Ok(c))
  }

  /** Storing a comment with resolvable references under a fresh id and
      recounting its post keeps the tables valid. */
  lemma InsertCommentKeepsValid(db: Db, c: Comment)
    requires Valid(db) && c.id != NullId && c.id !in db.comments
    requires RefOk(c.postId, db.posts) && RefOk(c.roleId, db.users)
    ensures var comments' := db.comments[c.id := c];
            Valid(Db(db.users, Recount(db.posts, comments', c.postId), comments'))
  {
    var comments' := db.comments[c.id := c];
    var db1 := db.(comments := comments');
    assert Valid(db1) by {
      assert KeyedById(db1);
      assert ReferencesResolve(db1);
    }
    CountsAsideKeepValid(db1, Recount(db.posts, comments', c.postId));
  }

  /** Storing a comment under a fresh id and recounting its post: the
      post's count is one more than its old comment count, and correct
      counts stay correct. */
  lemma InsertCommentCounts(db: Db, c: Comment)
    requires c.id !in db.comments
    ensures var comments' := db.comments[c.id := c];
            var db' := Db(db.users, Recount(db.posts, comments', c.postId), comments');
            && (c.postId in db.posts ==> db'.posts[c.postId].commentCount == CountFor(db.comments, c.postId) + 1)
            && (CountsConsistent(db) ==> CountsConsistent(db'))
  {
    var comments' := db.comments[c.id := c];
    forall pid ensures CountFor(comments', pid) == CountFor(db.comments, pid) + (if c.postId == pid then 1 else 0) {
      CountAfterInsert(db.comments, c.id, c, pid);
    }
  }

  /** After AddComments the parent post's comment_count is the number of
      its comments, one more than before; the other posts' counts are
      untouched, so consistent counts stay consistent, and so do the
      tables. */
  lemma AddCommentsKeepsInvariants(db: Db, mail: string, comment: Comment, freshId: Id)
    requires Valid(db) && freshId != NullId && freshId !in db.comments
    requires AddComments(db, mail, comment, freshId).1.Ok?
    ensures var db' := AddComments(db, mail, comment, freshId).0;
            && Valid(db')
            && |db'.comments| == |db.comments| + 1
            && (comment.postId in db.posts ==>
                  db'.posts[comment.postId].commentCount == CountFor(db.comments, comment.postId) + 1)
            && (CountsConsistent(db) ==> CountsConsistent(db'))
  {
    var c := comment.(id := freshId);
    var comments' := db.comments[freshId := c];
    assert AddComments(db, mail, comment, freshId).0 == Db(db.users, Recount(db.posts, comments', c.postId), comments');
    InsertCommentKeepsValid(db, c);
    InsertCommentCounts(db, c);
  }

  /** The comment table after `Update(col, v)` on one row: the column
      assignment, then the post_id and role_id foreign keys. */
  function SetCommentColumn(db: Db, id: Id, col: string, v: Value): (r: Result<Comment>)
    requires id in db.comments
    ensures AssignCommentColumn(db.comments[id], col, v).Err? ==> r == AssignCommentColumn(db.comments[id], col, v)
    ensures col == "post_id" && v.Text? && v.s !in db.posts ==> r == Err(ForeignKeyViolation)
    ensures col == "role_id" && v.Text? && v.s !in db.users ==> r == Err(ForeignKeyViolation)
    ensures (&& AssignCommentColumn(db.comments[id], col, v).Ok?
             && !(col == "post_id" && v.Text? && v.s !in db.posts)
             && !(col == "role_id" && v.Text? && v.s !in db.users)) ==> r.Ok?
    ensures r.Ok? ==> r == AssignCommentColumn(db.comments[id], col, v)
    ensures r.Ok? ==> CommentSameExcept(db.comments[id], r.value, {col}) && CommentColumnHolds(r.value, col, v)
  {
    match AssignCommentColumn(db.comments[id], col, v)
    case Err(e) => Err(e)
    case Ok(c) =>
      if col == "post_id" && v.Text? && v.s !in db.posts then Err(ForeignKeyViolation)
      else if col == "role_id" && v.Text? && v.s !in db.users then Err(ForeignKeyViolation)
      else Ok(c)
  }

  /** The `for d, value := range data` loop of UpdateCommentByID. */
  ghost function ApplyCommentEdits(db: Db, id: Id, data: Edits): (r: (Db, Option<Error>))
    requires id in db.comments
    ensures r.0.users == db.users && r.0.posts == db.posts
    ensures r.0.comments.Keys == db.comments.Keys
    ensures forall k :: k in db.comments && k != id ==> r.0.comments[k] == db.comments[k]
    ensures CommentSameExcept(db.comments[id], r.0.comments[id], Columns(data))
    decreases |data|
  {
    if data == [] then (db, None)
    else match SetCommentColumn(db, id, data[0].0, data[0].1)
      case Err(e) => (db, Some(e))
      case Ok(c) =>
        assert Columns(data) == {data[0].0} + Columns(data[1..]) by {
          assert forall i :: 0 < i < |data| ==> data[i] == data[1..][i - 1];
        }
        ApplyCommentEdits(db.(comments := db.comments[id := c]), id, data[1..])
  }

  /** Applying `a + b` applies `a` and then, unless one of its writes
      failed, `b` to the result. */
  lemma {:induction false} ApplyCommentEditsConcat(db: Db, id: Id, a: Edits, b: Edits)
    requires id in db.comments
    ensures var (db1, err1) := ApplyCommentEdits(db, id, a);
            ApplyCommentEdits(db, id, a + b) == if err1.Some? then (db1, err1) else ApplyCommentEdits(db1, id, b)
    decreases |a|
  {
    if a == [] {
      assert a + b == b;
    } else {
      assert (a + b)[0] == a[0] && (a + b)[1..] == a[1..] + b;
      match SetCommentColumn(db, id, a[0].0, a[0].1)
      case Err(_) =>
      case Ok(c) => ApplyCommentEditsConcat(db.(comments := db.comments[id := c]), id, a[1..], b);
    }
  }

  /** When the whole loop succeeds, every column the update map names holds
      the value of the last pair naming it. */
  lemma {:induction false} ApplyCommentEditsWrites(db: Db, id: Id, data: Edits)
    requires id in db.comments
    ensures var r := ApplyCommentEdits(db, id, data);
            r.1.None? ==> forall i :: LastWrite(data, i) ==> CommentColumnHolds(r.0.comments[id], data[i].0, data[i].1)
    decreases |data|
  {
    if data != [] {
      match SetCommentColumn(db, id, data[0].0, data[0].1)
      case Err(_) =>
      case Ok(c) =>
        var db1 := db.(comments := db.comments[id := c]);
        var r := ApplyCommentEdits(db1, id, data[1..]);
        ApplyCommentEditsWrites(db1, id, data[1..]);
        if r.1.None? {
          forall i | LastWrite(data, i) ensures CommentColumnHolds(r.0.comments[id], data[i].0, data[i].1) {
            if i == 0 {
              LastWriteNotLater(data, 0);
              assert data[1..] == data[0 + 1..];
            } else {
              assert LastWrite(data[1..], i - 1);
            }
          }
        }
    }
  }

  /** Replacing a comment by a row with the same key and resolvable
      references keeps the tables valid. */
  lemma ReplaceCommentKeepsValid(db: Db, id: Id, c: Comment)
    requires Valid(db) && id in db.comments && c.id == id
    requires RefOk(c.postId, db.posts) && RefOk(c.roleId, db.users)
    ensures Valid(db.(comments := db.comments[id := c]))
  {
    var db' := db.(comments := db.comments[id := c]);
    assert KeyedById(db');
    assert ReferencesResolve(db');
  }

  /** One successful column update keeps the tables valid. */
  lemma SetCommentColumnKeepsValid(db: Db, id: Id, col: string, v: Value)
    requires Valid(db) && id in db.comments
    requires SetCommentColumn(db, id, col, v).Ok?
    ensures Valid(db.(comments := db.comments[id := SetCommentColumn(db, id, col, v).value]))
  {
    var c := SetCommentColumn(db, id, col, v).value;
    assert col == "post_id" ==> Some(c.postId) == RefOf(v);
    assert col == "role_id" ==> Some(c.roleId) == RefOf(v);
    assert RefOk(c.postId, db.posts) && RefOk(c.roleId, db.users);
    ReplaceCommentKeepsValid(db, id, c);
  }

  lemma {:induction false} ApplyCommentEditsKeepsValid(db: Db, id: Id, data: Edits)
    requires Valid(db) && id in db.comments
    ensures Valid(ApplyCommentEdits(db, id, data).0)
    decreases |data|
  {
    if data != [] {
      var r := SetCommentColumn(db, id, data[0].0, data[0].1);
      if r.Ok? {
        SetCommentColumnKeepsValid(db, id, data[0].0, data[0].1);
        ApplyCommentEditsKeepsValid(db.(comments := db.comments[id := r.value]), id, data[1..]);
      }
    }
  }

  /** UpdateCommentByID: the caller's mail must name a "user" who wrote the
      comment; then the update map is applied to that comment only. Moving
      a comment to another post does not recount either post. */
  ghost function UpdateCommentByID(db: Db, mail: string, commentId: Id, data: Edits): (r: (Db, Result<()>))
    ensures !UserOwnsComment(db, mail, commentId) ==> r.0 == db && r.1.Err?
    ensures mail == "" ==> r.1 == Err(EmptyMail)
    ensures mail != "" && FindUserId(db.users, mail, "user").None? ==> r.1 == Err(Unauthorized)
    ensures mail != "" && FindUserId(db.users, mail, "user").Some? && commentId == "" ==> r.1 == Err(EmptyCommentId)
    ensures UserOwnsComment(db, mail, commentId) ==>
              && r.0 == ApplyCommentEdits(db, commentId, data).0
              && (r.1.Ok? <==> ApplyCommentEdits(db, commentId, data).1.None?)
              && (r.1.Err? ==> Some(r.1.error) == ApplyCommentEdits(db, commentId, data).1)
    ensures mail != "" && commentId != "" && !UserOwnsComment(db, mail, commentId) ==> r.1 == Err(Unauthorized)
    ensures r.0.users == db.users && r.0.posts == db.posts
    ensures r.0.comments.Keys == db.comments.Keys
    ensures forall k :: k in db.comments && k != commentId ==> r.0.comments[k] == db.comments[k]
    ensures commentId in db.comments ==>
              CommentSameExcept(db.comments[commentId], r.0.comments[commentId], Columns(data))
  {
    if mail == "" then (db, Err(EmptyMail))
    else match FindUserId(db.users, mail, "user")
      case None => (db, Err(Unauthorized))
      case Some(uid) =>
        if commentId == "" then (db, Err(EmptyCommentId))
        else if commentId !in db.comments || db.comments[commentId].roleId != uid then (db, Err(Unauthorized))
        else
          var (db', err) := ApplyCommentEdits(db, commentId, data);
          if err.Some? then (db', Err(err.value)) else (db', Ok(()))
  }

  /** A successful update leaves every column the request names holding
      the value the request gives it, and every other column as it was. */
  lemma UpdateCommentWrites(db: Db, mail: string, commentId: Id, data: Edits)
    ensures var r := UpdateCommentByID(db, mail, commentId, data);
            r.1.Ok? ==>
              && CommentSameExcept(db.comments[commentId], r.0.comments[commentId], Columns(data))
              && forall i :: LastWrite(data, i) ==> CommentColumnHolds(r.0.comments[commentId], data[i].0, data[i].1)
  {
    if UserOwnsComment(db, mail, commentId) {
      ApplyCommentEditsWrites(db, commentId, data);
    }
  }

  lemma UpdateCommentKeepsValid(db: Db, mail: string, commentId: Id, data: Edits)
    requires Valid(db)
    ensures Valid(UpdateCommentByID(db, mail, commentId, data).0)
  {
    if UserOwnsComment(db, mail, commentId) {
      ApplyCommentEditsKeepsValid(db, commentId, data);
    }
  }

  /** DeleteCommentByID: the same checks as UpdateCommentByID, then the
      comment is removed and its post's comment_count recounted. The
      deleted row is returned. */
  ghost function DeleteCommentByID(db: Db, mail: string, commentId: Id): (r: (Db, Result<Comment>))
    ensures !UserOwnsComment(db, mail, commentId) ==> r.0 == db && r.1.Err?
    ensures mail == "" ==> r.1 == Err(EmptyMail)
    ensures mail != "" && FindUserId(db.users, mail, "user").None? ==> r.1 == Err(Unauthorized)
    ensures mail != "" && FindUserId(db.users, mail, "user").Some? && commentId == "" ==> r.1 == Err(EmptyCommentId)
    ensures UserOwnsComment(db, mail, commentId) ==> r.1 == Ok(db.comments[commentId])
    ensures mail != "" && commentId != "" && !UserOwnsComment(db, mail, commentId) ==> r.1 == Err(Unauthorized)
    ensures r.1.Ok? ==> r.1.value == db.comments[commentId]
    ensures r.1.Ok? ==> r.0.comments == db.comments - {commentId} && r.0.users == db.users
    ensures r.1.Ok? ==> r.0.posts == Recount(db.posts, r.0.comments, r.1.value.postId)
  {
    if mail == "" then (db, Err(EmptyMail))
    else match FindUserId(db.users, mail, "user")
      case None => (db, Err(Unauthorized))
      case Some(uid) =>
        if commentId == "" then (db, Err(EmptyCommentId))
        else if commentId !in db.comments || db.comments[commentId].roleId != uid then (db, Err(Unauthorized))
        else
          var c := db.comments[commentId];
          var comments' := db.comments - {commentId};
          (db.(comments := comments', posts := Recount(db.posts, comments', c.postId)), Ok(c))
  }

  /** Removing a stored comment and recounting its post keeps the tables
      valid. */
  lemma RemoveCommentKeepsValid(db: Db, k: Id)
    requires Valid(db) && k in db.comments
    ensures var comments' := db.comments - {k};
            Valid(Db(db.users, Recount(db.posts, comments', db.comments[k].postId), comments'))
  {
    var comments' := db.comments - {k};
    var db1 := db.(comments := comments');
    assert Valid(db1) by {
      assert KeyedById(db1);
      assert ReferencesResolve(db1);
    }
    CountsAsideKeepValid(db1, Recount(db.posts, comments', db.comments[k].postId));
  }

  /** Removing a stored comment and recounting its post: the post's count
      is one less than its old comment count, and correct counts stay
      correct. */
  lemma RemoveCommentCounts(db: Db, k: Id)
    requires k in db.comments
    ensures var comments' := db.comments - {k};
            var pid := db.comments[k].postId;
            var db' := Db(db.users, Recount(db.posts, comments', pid), comments');
            && (pid in db.posts ==> db'.posts[pid].commentCount == CountFor(db.comments, pid) - 1)
            && (CountsConsistent(db) ==> CountsConsistent(db'))
  {
    var comments' := db.comments - {k};
    forall pid ensures CountFor(comments', pid) ==
                       CountFor(db.comments, pid) - (if db.comments[k].postId == pid then 1 else 0) {
      CountAfterRemove(db.comments, k, pid);
    }
  }

  /** After DeleteCommentByID the parent post's comment_count is the number
      of its remaining comments, one fewer than before; other posts are
      untouched, so consistent counts stay consistent, and so do the tables. */
  lemma DeleteCommentKeepsInvariants(db: Db, mail: string, commentId: Id)
    requires Valid(db)
    requires DeleteCommentByID(db, mail, commentId).1.Ok?
    ensures var db' := DeleteCommentByID(db, mail, commentId).0;
            var pid := db.comments[commentId].postId;
            && Valid(db')
            && |db'.comments| == |db.comments| - 1
            && (pid in db.posts ==> db'.posts[pid].commentCount == CountFor(db.comments, pid) - 1)
            && (CountsConsistent(db) ==> CountsConsistent(db'))
  {
    var comments' := db.comments - {commentId};
    var pid := db.comments[commentId].postId;
    assert DeleteCommentByID(db, mail, commentId).0 == Db(db.users, Recount(db.posts, comments', pid), comments');
    RemoveCommentKeepsValid(db, commentId);
    RemoveCommentCounts(db, commentId);
  }

  /** GetAllComments: every comment. */
  function GetAllComments(comments: map<Id, Comment>): map<Id, Comment> {
    comments
  }

  /** GetCommentsBasedOnUser: the comments written by the "user" with this
      mail. */
  ghost function GetCommentsBasedOnUser(db: Db, mail: string): (r: Result<map<Id, Comment>>)
    ensures mail == "" ==> r == Err(EmptyMail)
    ensures mail != "" && FindUserId(db.users, mail, "user").None? ==> r == Err(Unauthorized)
    ensures mail != "" && FindUserId(db.users, mail, "user").Some? ==>
              r.Ok? && forall k :: k in r.value <==> k in db.comments && db.comments[k].roleId == FindUserId(db.users, mail, "user").value
    ensures r.Ok? ==> forall k :: k in r.value ==> k in db.comments && r.value[k] == db.comments[k]
  {
    if mail == "" then Err(EmptyMail)
    else match FindUserId(db.users, mail, "user")
      case None => Err(Unauthorized)
      case Some(uid) => Ok(map k | k in db.comments && db.comments[k].roleId == uid :: db.comments[k])
  }

  /** The comments GetCommentsBasedOnUser lists for a mail are exactly those
      the same mail may update or delete. */
  lemma ListedCommentsAreTheWritableOnes(db: Db, mail: string, commentId: Id, data: Edits)
    requires Valid(db)
    requires GetCommentsBasedOnUser(db, mail).Ok?
    ensures commentId in GetCommentsBasedOnUser(db, mail).value <==> UserOwnsComment(db, mail, commentId)
    ensures commentId in GetCommentsBasedOnUser(db, mail).value <==> DeleteCommentByID(db, mail, commentId).1.Ok?
    ensures commentId in GetCommentsBasedOnUser(db, mail).value ==>
              UpdateCommentByID(db, mail, commentId, data).0 == ApplyCommentEdits(db, commentId, data).0
    ensures commentId !in GetCommentsBasedOnUser(db, mail).value ==>
              UpdateCommentByID(db, mail, commentId, data).0 == db && UpdateCommentByID(db, mail, commentId, data).1.Err?
  {
  }

  /** GetCommentsBasedOnPostID: the comments under a post; no caller check.
      Their number is the count AddComments and DeleteCommentByID store. */
  function GetCommentsBasedOnPostID(comments: map<Id, Comment>, postId: Id): (r: Result<map<Id, Comment>>)
    ensures postId == "" ==> r == Err(EmptyPostId)
    ensures postId != "" ==> r.Ok?
    ensures r.Ok? ==> r.value.Keys == CommentsOf(comments, postId)
    ensures r.Ok? ==> forall k :: k in r.value ==> k in comments && r.value[k] == comments[k]
    ensures r.Ok? ==> |r.value| == CountFor(comments, postId)
  {
    if postId == "" then Err(EmptyPostId)
    else
      var m := map k | k in comments && comments[k].postId == postId :: comments[k];
      assert m.Keys == CommentsOf(comments, postId);
      Ok(m)
  }

  /** Every listing of comments is part of GetAllComments, and every comment
      under a post appears in the listing for that post. */
  lemma CommentListingsWithinAll(db: Db, mail: string, postId: Id)
    ensures var all := GetAllComments(db.comments);
            var byUser := GetCommentsBasedOnUser(db, mail);
            byUser.Ok? ==> forall k :: k in byUser.value ==> k in all && all[k] == byUser.value[k]
    ensures var all := GetAllComments(db.comments);
            var byPost := GetCommentsBasedOnPostID(db.comments, postId);
            byPost.Ok? ==> forall k :: k in byPost.value ==> k in all && all[k].postId == postId
    ensures var all := GetAllComments(db.comments);
            forall k :: k in all && all[k].postId != NullId ==>
              GetCommentsBasedOnPostID(db.comments, all[k].postId).Ok? &&
              k in GetCommentsBasedOnPostID(db.comments, all[k].postId).value
  {
  }

  // ---------------------------------------------------------------------
  // Statistics across writes

  /** Tables with the same keys have the same number of rows. */
  lemma SameKeysSameSize<V>(a: map<Id, V>, b: map<Id, V>)
    requires a.Keys == b.Keys
    ensures |a| == |b|
  {
    assert |a| == |a.Keys| && |b| == |b.Keys|;
  }

  /** Removing a stored row leaves one row fewer. */
  lemma RemovedRowSize<V>(m: map<Id, V>, k: Id)
    requires k in m
    ensures |m - {k}| == |m| - 1
  {
    assert (m - {k}).Keys == m.Keys - {k};
  }

  /** A successful AddPost adds one to the post count of GetPostStatistics. */
  lemma StatisticsAfterAddPost(db: Db, post: Post, freshId: Id, now: int)
    requires freshId != NullId && freshId !in db.posts
    requires AddPost(db, post, freshId, now).1.Ok?
    ensures GetPostStatistics(AddPost(db, post, freshId, now).0) == (GetPostStatistics(db).0 + 1, GetPostStatistics(db).1)
  {
    var db' := AddPost(db, post, freshId, now).0;
    assert db'.posts == db.posts[freshId := post.(id := freshId, postDate := now)];
    assert db'.comments == db.comments;
  }

  /** A successful DeletePostByID takes one from the post count and keeps
      the comment count: the comments under the post stay, unlinked. */
  lemma StatisticsAfterDeletePost(db: Db, mail: string, postId: Id)
    requires DeletePostByID(db, mail, postId).1.Ok?
    ensures GetPostStatistics(DeletePostByID(db, mail, postId).0) == (GetPostStatistics(db).0 - 1, GetPostStatistics(db).1)
  {
    var db' := DeletePostByID(db, mail, postId).0;
    assert AdminOwnsPost(db, mail, postId);
    RemovedRowSize(db.posts, postId);
    SameKeysSameSize(db'.comments, db.comments);
  }

  /** Updating a post changes neither count. */
  lemma StatisticsAfterUpdatePost(db: Db, postId: Id, mail: string, data: Edits)
    ensures GetPostStatistics(UpdatePostByID(db, postId, mail, data).0) == GetPostStatistics(db)
  {
    var db' := UpdatePostByID(db, postId, mail, data).0;
    SameKeysSameSize(db'.posts, db.posts);
  }

  /** A successful AddComments adds one to the comment count. */
  lemma StatisticsAfterAddComments(db: Db, mail: string, comment: Comment, freshId: Id)
    requires freshId != NullId && freshId !in db.comments
    requires AddComments(db, mail, comment, freshId).1.Ok?
    ensures GetPostStatistics(AddComments(db, mail, comment, freshId).0) == (GetPostStatistics(db).0, GetPostStatistics(db).1 + 1)
  {
    var db' := AddComments(db, mail, comment, freshId).0;
    assert db'.comments == db.comments[freshId := comment.(id := freshId)];
    SameKeysSameSize(db'.posts, db.posts);
  }

  /** A successful DeleteCommentByID takes one from the comment count. */
  lemma StatisticsAfterDeleteComment(db: Db, mail: string, commentId: Id)
    requires DeleteCommentByID(db, mail, commentId).1.Ok?
    ensures GetPostStatistics(DeleteCommentByID(db, mail, commentId).0) == (GetPostStatistics(db).0, GetPostStatistics(db).1 - 1)
  {
    var db' := DeleteCommentByID(db, mail, commentId).0;
    assert UserOwnsComment(db, mail, commentId);
    RemovedRowSize(db.comments, commentId);
    SameKeysSameSize(db'.posts, db.posts);
  }

  /** Updating a comment changes neither count. */
  lemma StatisticsAfterUpdateComment(db: Db, mail: string, commentId: Id, data: Edits)
    ensures GetPostStatistics(UpdateCommentByID(db, mail, commentId, data).0) == GetPostStatistics(db)
  {
    var db' := UpdateCommentByID(db, mail, commentId, data).0;
    SameKeysSameSize(db'.comments, db.comments);
  }
}
