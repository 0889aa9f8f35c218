/** The repository's database connection as an object: the three tables
    are fields the operations update in place. Each operation follows the
    Go code step by step and is proved to produce the tables and the result
    that the corresponding function of Tables describes; the lemmas there
    say what those functions guarantee. */
module Repository {
  import opened Common
  import opened Models
  import opened Token
  import opened Tables

  class BlogStore {
    var users: map<Id, User>
    var posts: map<Id, Post>
    var comments: map<Id, Comment>

    /** The tables as a value. */
    function State(): Db
      reads this
    {
      Db(users, posts, comments)
    }

    /** The constraints of the schema hold. */
    ghost predicate Valid()
      reads this
    {
      Tables.Valid(State())
    }

    /** A new, empty database. */
    constructor ()
      ensures State() == Db(map[], map[], map[])
      ensures Valid()
    {
      users, posts, comments := map[], map[], map[];
    }

    /** `Where("mail=?", mail).Where("role=?", role).First(&user)`. */
    method FindUser(mail: string, role: string) returns (r: Option<Id>)
      requires Valid()
      ensures r == FindUserId(users, mail, role)
    {
      if exists id :: id in users && users[id].mail == mail && users[id].role == role {
        var id :| id in users && users[id].mail == mail && users[id].role == role;
        FindUserIsTheUser(users, id, mail, role);
        r := Some(id);
      } else {
        r := None;
      }
    }

    /** `First(&user, "mail=?", mail)`. */
    method FindUserByMail(mail: string) returns (r: Option<Id>)
      requires Valid()
      ensures r == FindUserIdByMail(users, mail)
    {
      if exists id :: id in users && users[id].mail == mail {
        var id :| id in users && users[id].mail == mail;
        FindUserIsTheUser(users, id, mail, users[id].role);
        r := Some(id);
      } else {
        r := None;
      }
    }

    method AddUser(user: User, freshId: Id) returns (r: Result<User>)
      requires Valid()
      requires freshId != NullId && freshId !in users
      modifies this
      ensures Valid()
      ensures (State(), r) == Tables.AddUser(old(State()), user, freshId)
    {
      AddUserKeepsValid(State(), user, freshId);
      var u := user.(id := freshId);
      if !ValidUser(u) {
        return Err(ValidationFailed);
      }
      var existing := FindUserByMail(u.mail);
      if existing.Some? {
        return Err(DuplicateKey);
      }
      users := users[freshId := u];
      r := Ok(u);
    }

    method Login(mail: string, password: string, now: int, matches: PasswordCheck, sign: Signer)
      returns (token: string, err: Option<Error>)
      requires Valid()
      ensures (token, err) == Tables.Login(users, mail, password, now, matches, sign)
    {
      if mail == "" || password == "" {
        return "", Some(EmptyCredentials);
      }
      var found := FindUserByMail(mail);
      if found.None? {
        return "", Some(RecordNotFound);
      }
      var u := users[found.value];
      if !matches(u.password, password) {
        return "", Some(PasswordMismatch);
      }
      var signErr: Option<Error>;
      if u.role == "admin" {
        token, signErr := AdminToken(mail, u.id, now, sign).0, AdminToken(mail, u.id, now, sign).1;
      } else if u.role == "user" {
        token, signErr := MemberToken(mail, u.id, now, sign).0, MemberToken(mail, u.id, now, sign).1;
      } else {
        return "", Some(InvalidUserRole);
      }
      if signErr.Some? {
        return "", None;
      }
      err := None;
    }

    method GetRoleID(mail: string) returns (r: Result<User>)
      requires Valid()
      ensures r == Tables.GetRoleID(users, mail)
    {
      var found := FindUserByMail(mail);
      if found.None? {
        return Err(InvalidMail);
      }
      r := Ok(users[found.value]);
    }

    method AddPost(post: Post, freshId: Id, now: int) returns (r: Result<Post>)
      requires Valid()
      requires freshId != NullId && freshId !in posts
      modifies this
      ensures Valid()
      ensures (State(), r) == Tables.AddPost(old(State()), post, freshId, now)
    {
      AddPostKeepsValid(State(), post, freshId, now);
      if !ValidPost(post) {
        return Err(ValidationFailed);
      }
      if post.roleId !in users {
        return Err(InvalidRoleId);
      }
      var p := post.(id := freshId, postDate := now);
      if exists k :: k in posts && posts[k].title == p.title {
        return Err(DuplicateKey);
      }
      posts := posts[freshId := p];
      r := Ok(p);
    }

    method GetPostID(title: string) returns (r: Result<Post>)
      requires Valid()
      ensures r == Tables.GetPostID(posts, title)
    {
      if exists k :: k in posts && posts[k].title == title {
        var k :| k in posts && posts[k].title == title;
        FindPostIsThePost(posts, k, title);
        r := Ok(posts[k]);
      } else {
        r := Err(InvalidTitle);
      }
    }

    method SearchAllPost() returns (r: map<Id, Post>)
      ensures r == Tables.SearchAllPost(posts)
    {
      r := map k | k in posts :: Projected(posts[k]);
    }

    /** The update loop writes one column at a time into the stored row. */
    method UpdatePostByID(postId: Id, mail: string, data: Edits) returns (r: Result<Post>)
      requires Valid()
      modifies this
      ensures Valid()
      ensures (State(), r) == Tables.UpdatePostByID(old(State()), postId, mail, data)
    {
      UpdatePostKeepsValid(State(), postId, mail, data);
      if mail == "" {
        return Err(EmptyMail);
      }
      var admin := FindUser(mail, "admin");
      if admin.None? {
        return Err(Unauthorized);
      }
      if postId == "" {
        return Err(EmptyPostId);
      }
      if postId !in posts || posts[postId].roleId != admin.value {
        return Err(RecordNotFound);
      }
      var err := WritePostColumns(postId, data);
      if err.Some? {
        return Err(err.value);
      }
      r := Ok(posts[postId]);
    }

    /** The `for d, value := range data` loop of UpdatePostByID: one column
        update after another on the stored row, stopping at the first that
        fails. */
    method WritePostColumns(postId: Id, data: Edits) returns (err: Option<Error>)
      requires postId in posts
      modifies this
      ensures (State(), err) == ApplyPostEdits(old(State()), postId, data)
    {
      ghost var db0 := State();
      var i := 0;
      while i < |data|
        invariant 0 <= i <= |data|
        invariant postId in posts
        invariant ApplyPostEdits(db0, postId, data) == ApplyPostEdits(State(), postId, data[i..])
      {
        var column := SetPostColumn(State(), postId, data[i].0, data[i].1);
        if column.Err? {
          return Some(column.error);
        }
        posts := posts[postId := column.value];
        assert data[i..][1..] == data[i + 1..];
        i := i + 1;
      }
      err := None;
    }

    method DeletePostByID(mail: string, postId: Id) returns (r: Result<Post>)
      requires Valid()
      modifies this
      ensures Valid()
      ensures (State(), r) == Tables.DeletePostByID(old(State()), mail, postId)
      ensures old(CountsConsistent(State())) ==> CountsConsistent(State())
    {
      if mail == "" {
        return Err(EmptyMail);
      }
      var admin := FindUser(mail, "admin");
      if admin.None? {
        return Err(Unauthorized);
      }
      if postId == "" {
        return Err(EmptyPostId);
      }
      if postId !in posts || posts[postId].roleId != admin.value {
        return Err(RecordNotFound);
      }
      ghost var db0 := State();
      DeletePostKeepsValid(db0, mail, postId);
      if CountsConsistent(db0) {
        DeletePostKeepsCounts(db0, mail, postId);
      }
      var deleted := posts[postId];
      posts := posts - {postId};
      comments := NullPostRefs(comments, postId);
      r := Ok(deleted);
    }

    method GetPostBasedOnRoleID(mail: string) returns (r: Result<map<Id, Post>>)
      requires Valid()
      ensures r == Tables.GetPostBasedOnRoleID(State(), mail)
    {
      if mail == "" {
        return Err(EmptyMail);
      }
      var admin := FindUser(mail, "admin");
      if admin.None? {
        return Err(Unauthorized);
      }
      r := Ok(map k | k in posts && posts[k].roleId == admin.value :: posts[k]);
    }

    method GetPostBasedOnCategory(category: string) returns (r: map<Id, Post>)
      ensures r == Tables.GetPostBasedOnCategory(posts, category)
    {
      r := map k | k in posts && posts[k].category == category :: posts[k];
    }

    method GetAllCategory() returns (r: map<Id, string>)
      ensures r == Tables.GetAllCategory(posts)
    {
      r := map k | k in posts :: posts[k].category;
    }

    method GetPostStatistics() returns (postCount: nat, commentCount: nat)
      ensures (postCount, commentCount) == Tables.GetPostStatistics(State())
    {
      postCount, commentCount := |posts|, |comments|;
    }

    /** Inserts the comment, then counts the comments of its post and writes
        the count into that post. */
    method AddComments(mail: string, comment: Comment, freshId: Id) returns (r: Result<Comment>)
      requires Valid()
      requires freshId != NullId && freshId !in comments
      modifies this
      ensures Valid()
      ensures (State(), r) == Tables.AddComments(old(State()), mail, comment, freshId)
      ensures old(CountsConsistent(State())) ==> CountsConsistent(State())
    {
      var c := comment.(id := freshId);
      if mail == "" {
        return Err(EmptyMail);
      }
      var author := FindUser(mail, "user");
      if author.None? {
        return Err(Unauthorized);
      }
      if !ValidComment(c) {
        return Err(ValidationFailed);
      }
      if !RefOk(c.postId, posts) || !RefOk(c.roleId, users) {
        return Err(ForeignKeyViolation);
      }
      InsertCommentKeepsValid(State(), c);
      InsertCommentCounts(State(), c);
      comments := comments[freshId := c];
      var count := CountFor(comments, c.postId);
      if c.postId in posts {
        posts := posts[c.postId := posts[c.postId].(commentCount := count)];
      }
      r := Ok(c);
    }

    /** The update loop writes one column at a time into the stored row. */
    method UpdateCommentByID(mail: string, commentId: Id, data: Edits) returns (r: Result<()>)
      requires Valid()
      modifies this
      ensures Valid()
      ensures (State(), r) == Tables.UpdateCommentByID(old(State()), mail, commentId, data)
    {
      UpdateCommentKeepsValid(State(), mail, commentId, data);
      if mail == "" {
        return Err(EmptyMail);
      }
      var author := FindUser(mail, "user");
      if author.None? {
        return Err(Unauthorized);
      }
      if commentId == "" {
        return Err(EmptyCommentId);
      }
      if commentId !in comments || comments[commentId].roleId != author.value {
        return Err(Unauthorized);
      }
      var err := WriteCommentColumns(commentId, data);
      if err.Some? {
        return Err(err.value);
      }
      r := Ok(());
    }

    /** The `for d, value := range data` loop of UpdateCommentByID. */
    method WriteCommentColumns(commentId: Id, data: Edits) returns (err: Option<Error>)
      requires commentId in comments
      modifies this
      ensures (State(), err) == ApplyCommentEdits(old(State()), commentId, data)
    {
      ghost var db0 := State();
      var i := 0;
      while i < |data|
        invariant 0 <= i <= |data|
        invariant commentId in comments
        invariant ApplyCommentEdits(db0, commentId, data) == ApplyCommentEdits(State(), commentId, data[i..])
      {
        var column := SetCommentColumn(State(), commentId, data[i].0, data[i].1);
        if column.Err? {
          return Some(column.error);
        }
        comments := comments[commentId := column.value];
        assert data[i..][1..] == data[i + 1..];
        i := i + 1;
      }
      err := None;
    }

    /** Removes the comment, then counts the remaining comments of its post
        and writes the count into that post. */
    method DeleteCommentByID(mail: string, commentId: Id) returns (r: Result<Comment>)
      requires Valid()
      modifies this
      ensures Valid()
      ensures (State(), r) == Tables.DeleteCommentByID(old(State()), mail, commentId)
      ensures old(CountsConsistent(State())) ==> CountsConsistent(State())
    {
      if mail == "" {
        return Err(EmptyMail);
      }
      var author := FindUser(mail, "user");
      if author.None? {
        return Err(Unauthorized);
      }
      if commentId == "" {
        return Err(EmptyCommentId);
      }
      if commentId !in comments || comments[commentId].roleId != author.value {
        return Err(Unauthorized);
      }
      RemoveCommentKeepsValid(State(), commentId);
      RemoveCommentCounts(State(), commentId);
      var deleted := comments[commentId];
      comments := comments - {commentId};
      var count := CountFor(comments, deleted.postId);
      if deleted.postId in posts {
        posts := posts[deleted.postId := posts[deleted.postId].(commentCount := count)];
      }
      r := Ok(deleted);
    }

    method GetAllComments() returns (r: map<Id, Comment>)
      ensures r == Tables.GetAllComments(comments)
    {
      r := comments;
    }

    method GetCommentsBasedOnUser(mail: string) returns (r: Result<map<Id, Comment>>)
      requires Valid()
      ensures r == Tables.GetCommentsBasedOnUser(State(), mail)
    {
      if mail == "" {
        return Err(EmptyMail);
      }
      var author := FindUser(mail, "user");
      if author.None? {
        return Err(Unauthorized);
      }
      r := Ok(map k | k in comments && comments[k].roleId == author.value :: comments[k]);
    }

    method GetCommentsBasedOnPostID(postId: Id) returns (r: Result<map<Id, Comment>>)
      ensures r == Tables.GetCommentsBasedOnPostID(comments, postId)
    {
      if postId == "" {
        return Err(EmptyPostId);
      }
      r := Ok(map k | k in comments && comments[k].postId == postId :: comments[k]);
    }
  }
}
