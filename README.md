# Blog backend core, modelled in Dafny

This project models the core of a Go blog backend. The backend has users who log in and receive JWTs, admins who write posts, and users who comment on them. It stores everything in three MySQL tables through GORM. The model covers five parts:

- **Records** (`models.dfy`, module `Models`). These are the `User`, `Post` and `Comments` rows, with the validity their `validate` tags ask for. The module also says what a single `Update(column, value)` does to one row.
- **Repository** (`tables.dfy`, module `Tables`; `repository.dfy`, module `Repository`). `Tables` describes the database as a value: the three tables keyed by id, the constraints of the schema, and every repository operation. Each operation is a function from the tables before the call to the tables after it and the call's result. `Repository.BlogStore` is the repository object. It keeps the tables in fields that its methods update in place, step by step as the Go code does. Each method is proved to reach the state and result described by its `Tables` function, and to keep the schema constraints.
- **Tokens** (`token.dfy`, module `Token`). These are the claims the member and admin tokens carry, and their expiry times.
- **Gates** (`authorization.dfy`, module `Authorization`). This covers the extraction of the bearer token and the admin and member gates.
- **Migration helpers** (`lookup.dfy`, module `Lookup`). These derive the version number and the method name from a migration file's name. The module also models the loop that selects migration files from a directory listing.

`sessions.dfy` (module `Sessions`) puts the token, repository and gate modules together.

Some inputs of the Go code come from the environment, so the model takes them as parameters:

| Go source | Model parameter |
|---|---|
| `uuid.New()` | a fresh id, required to be non-empty and not already a key of the table |
| `time.Now()` | `now`, in Unix seconds |
| the bcrypt comparison | a predicate `matches(hash, password)` |
| HS256 signing | `sign`, returning `None` where Go returns an error |
| `jwt.Parse` with its validity check | `parse`, returning `None` for a token that fails |

A few more encoding choices:

- The empty id `NullId` stands for SQL NULL in a reference column.
- An update map is a sequence of (column, value) pairs, in the order Go's `range` happens to visit it.

Two facts of the code as written are reproduced, not corrected:

- The gates read a claim named `"role"`, but neither token sets one. The member token has a key `"member"` and the admin token a key `"admin"`.
- `Login` gives a stored `"user"` a member token, but the member gate looks for `"member"`.

`Sessions.LoginTokensFailBothGates` proves the result under one assumption, `Sessions.ParseInvertsSign`: parsing a token the signer produced yields the signed claims or fails. Under it, no token that `Login` issues passes either gate.

Two further behaviours of the code are modelled as they are:

- **comment_count is client-writable.** `comment_count` is meant to count a post's comments, and the comment operations recount it. But `AddPost` stores the `comment_count` the request carries, and `UpdatePostByID` accepts a `comment_count` column. `Tables.AddPostCountConsistency` states the consequence: a new post has a correct count exactly when the client sent 0.
- **Updates are not atomic.** A failing column update in the middle of an update map leaves the earlier columns written. Nothing rolls them back.

## Model

| member | source | states |
|---|---|---|
| Models.EmailShaped | models/models.go:12 | The `email` validator, approximated: one '@' with a non-empty part on each side. |
| Models.ValidUser | models/models.go:9-14 | `validate:"required"` on role and password and `required,email` on mail. |
| Models.ValidPost | models/models.go:16-27 | `validate:"required"` on category and title. |
| Models.ValidComment | models/models.go:29-36 | `validate:"required"` on feedback. |
| Models.AssignPostColumn | repository/dbOperations.go:189-194 | One `Update(col, v)` on a post row. An unknown column fails with UnknownColumn. A text column (role_id, category, title, description) accepts exactly NULL and text; a number column accepts exactly NULL and whole numbers, and comment_count no negative one. Every refusal of a known column is InvalidValue. On success the named column reads back the value written, for every column, and no other column changes. |
| Models.AssignCommentColumn | repository/dbOperations.go:367-372 | One `Update(col, v)` on a comment row. An unknown column fails with UnknownColumn. post_id, role_id and feedback accept exactly NULL and text, and refuse a number with InvalidValue. On success the named column reads back the value written and no other column changes. |
| Token.MemberClaims | middleware/token.go:17-23 | The member claims are exactly the keys member, id, email and exp, with no "role" key. exp is now + 0·3600 + 10·60 + 30 = now + 630. The id and email claims carry the user's id and mail. |
| Token.AdminClaims | middleware/token.go:35 | The admin claims are exactly the keys id, email, admin and exp, with no "role" key. exp is now + 2,592,000, later than a member token issued at the same instant. |
| Token.MemberToken | middleware/token.go:17-32 | If signing fails, the result is "" with the signing error. Otherwise it is the signed member claims with no error. |
| Token.AdminToken | middleware/token.go:34-42 | If signing fails, the result is "" with the signing error. Otherwise it is the signed admin claims with no error. |
| Authorization.Split | middleware/authorization.go:74 | `strings.Split` on one character. There is at least one part, no part contains the separator, and joining the parts with it gives back the input. |
| Authorization.SplitAtFirst | middleware/authorization.go:74 | Splitting at the first separator gives the separator-free prefix followed by the parts of the rest. |
| Authorization.SplitNoSeparator | middleware/authorization.go:74 | A string without the separator is a single part. |
| Authorization.ExtractTokenFromHeader | middleware/authorization.go:68-80 | An empty header gives "". Any non-empty result t is space-free, and the header was exactly "Bearer " + t. |
| Authorization.BearerRoundTrip | middleware/authorization.go:74-79 | For a space-free t, extracting from "Bearer " + t gives t. Together with the function's own contract this is an if-and-only-if. |
| Authorization.LowerCaseBearerRejected | middleware/authorization.go:75 | "bearer x" gives "": the prefix is matched case-sensitively. |
| Authorization.MissingTokenRejected | middleware/authorization.go:75 | "Bearer" and "Bearer " give "". |
| Authorization.ExtraPartRejected | middleware/authorization.go:75 | "Bearer a b" gives "": it has three parts. |
| Authorization.ToLower | middleware/authorization.go:31 | `strings.ToLower`, character by character over ASCII. The length is kept. |
| Authorization.LowerCharIff | middleware/authorization.go:31 | A character lower-cases to a letter x exactly when it is x or upper-case x. |
| Authorization.LowerEqualsIff | middleware/authorization.go:31 | Lower-casing gives a lower-case word w exactly when each character is the matching letter of w, in either case. |
| Authorization.AdminAuthorize | middleware/authorization.go:11-37 | The gate allows exactly when the extracted token is non-empty, parses as valid, and has a string "role" claim that lower-cases to "admin". Every rejection has status 401. |
| Authorization.MemberAuthorize | middleware/authorization.go:39-65 | The same condition as the admin gate, with "member" in place of "admin". Every rejection has status 401. |
| Authorization.MixedCaseRoles | middleware/authorization.go:31 | "ADMIN" lower-cases to "admin" and "Member" to "member". |
| Authorization.UpperAdminLowered | middleware/authorization.go:31 | "ADMIN" lower-cases to "admin". |
| Authorization.CapitalisedMemberLowered | middleware/authorization.go:59 | "Member" lower-cases to "member". |
| Authorization.UpperCaseAdminAllowed | middleware/authorization.go:30-35 | A valid token whose role claim is "ADMIN" passes the admin gate. |
| Authorization.CapitalisedMemberAllowed | middleware/authorization.go:58-63 | A valid token whose role claim is "Member" passes the member gate. |
| Authorization.RoleClaimRequired | middleware/authorization.go:30-31 | A parsed token whose "role" claim is missing or not a string fails both gates. |
| Lookup.IsDigit | lookup/lookup.go:101 | The `\d` class of the regular expression, ASCII 0-9. |
| Lookup.DigitsValue | lookup/lookup.go:109 | `strconv.Atoi` on a run of digits: the decimal value, most significant digit first. |
| Lookup.LeadingDigits | lookup/lookup.go:101-102 | The longest prefix made only of digits: everything in it is a digit, and the character after it is not. |
| Lookup.ExtractNumberFromFileName | lookup/lookup.go:99-115 | The result is an error exactly when the name has no digit, and that error is "number not found in filename". |
| Lookup.LeadingDigitsOfRun | lookup/lookup.go:101 | A digit run followed by a non-digit or by the end is matched whole (the match is greedy). |
| Lookup.ExtractNumberIsLeftmostRun | lookup/lookup.go:99-115 | For a name made of digit-free text, a maximal run of digits and the rest, the result is the value of that run. |
| Lookup.MigrationVersions | lookup/lookup.go:51 | "lookup1.go" is version 1 and "lookup3.go" version 3. |
| Lookup.SingleDigitVersion | lookup/lookup.go:99-115 | A digit-free stem, one digit and ".go" name the version given by that digit. |
| Lookup.MigrationsFileUnversioned | lookup/lookup.go:99-115 | "migrations.go" has no number: the result is the error "number not found". |
| Lookup.TrimTrailingSlashes | lookup/lookup.go:119 | The result is a prefix of the path that does not end in '/', and everything cut off is '/'. |
| Lookup.AfterLastSlash | lookup/lookup.go:119 | The result is the slash-free suffix that follows the last '/'. |
| Lookup.Base | lookup/lookup.go:119 | `filepath.Base` is never empty. It is "." for the empty path, "/" for a path of slashes only, and otherwise the text after the last '/' once trailing slashes are removed. |
| Lookup.Ext | lookup/lookup.go:121 | `filepath.Ext` is a suffix of the path. When non-empty it starts with its only '.' and has no '/'. It is empty only when the last path element has no dot. |
| Lookup.ExtractNameFromFileName | lookup/lookup.go:117-123 | The name followed by the extension of the base is the base. A base without a dot is returned unchanged. |
| Lookup.StripSuffix | lookup/lookup.go:123 | Cutting the extension off the base and putting it back gives the base, and a non-empty extension means the base has a dot. |
| Lookup.Title | lookup/lookup.go:70 | `strings.Title` on the whole name, defined through TitleFrom. |
| Lookup.MethodName | lookup/lookup.go:69-70 | The method name LookUp calls: the title-cased name without directory and extension. |
| Lookup.TitleFrom | lookup/lookup.go:70 | `strings.Title` over ASCII. A character is upper-cased exactly when it starts the string or follows a separator; all others are kept. |
| Lookup.PlainNameParts | lookup/lookup.go:119 | A non-empty name without '/' is its own base. |
| Lookup.GoExtension | lookup/lookup.go:121 | Whatever the stem, the extension of stem + ".go" is ".go". |
| Lookup.GoFileName | lookup/lookup.go:69 | For a slash-free stem, the name extracted from stem + ".go" is the stem. |
| Lookup.TitleOfWord | lookup/lookup.go:70 | A word without separators is title-cased by upper-casing its first letter. |
| Lookup.MethodNameOfGoFile | lookup/lookup.go:69-70 | The method name for w + ".go" is w with its first letter upper-cased. |
| Lookup.NoSeparatorInStem | lookup/lookup.go:70 | Lower-case letters followed by digits contain no word separator. |
| Lookup.StemMethodName | lookup/lookup.go:69-70 | For a lower-case stem and digits, the method name of stem + digits + ".go" is the stem with its first letter upper-cased, then the digits. |
| Lookup.LookupMethodName | lookup/lookup.go:69-70 | "lookup" + digits + ".go" dispatches to "Lookup" + digits, the name of the method in updates/lookup1.go:17. |
| Lookup.KeptNames | lookup/lookup.go:38-45 | The specification of the filter: the names of the entries that are neither directories nor "migrations.go", in order. |
| Lookup.FilterMigrationFiles | lookup/lookup.go:35-45 | The loop collects the names of the entries that are neither directories nor "migrations.go", in listing order. fileCount ends equal to the number of names. |
| Lookup.KeptNamesAppend | lookup/lookup.go:38-45 | Filtering distributes over concatenation, so the order of entries is kept. |
| Lookup.KeptNamesMembership | lookup/lookup.go:38-45 | A name is collected exactly when some entry that is neither a directory nor "migrations.go" has that name. |
| Tables.KeyedById | models/models.go:9-36 | Every table is keyed by its rows' ids (the primary keys), and no key is NULL. |
| Tables.MailsUnique | models/models.go:12 | The unique index on users.mail. |
| Tables.TitlesUnique | models/models.go:20 | The unique index on posts.title. |
| Tables.ReferencesResolve | models/models.go:26-35 | The foreign keys posts.role_id, comments.post_id and comments.role_id. |
| Tables.Valid | models/models.go:9-36 | The schema constraints together, with every stored user valid. |
| Tables.FindUserId | repository/dbOperations.go:174 | The look-up by mail and role finds a user with that mail and role, or reports correctly that there is none. |
| Tables.FindUserIdByMail | repository/dbOperations.go:72 | The look-up by mail finds a user with that mail, or reports correctly that there is none. |
| Tables.FindUserIsTheUser | models/models.go:12 | With unique mails, both look-ups find the one user with the mail. The role look-up fails when that user's role differs. |
| Tables.FindPostIdByTitle | repository/dbOperations.go:144 | The look-up by title finds a post with that title, or reports correctly that there is none. |
| Tables.FindPostIsThePost | models/models.go:20 | With unique titles, the look-up finds the one post with the title. |
| Tables.Recount | repository/dbOperations.go:326 | Writing the count into a post changes only that post's comment_count. An id that matches no post changes nothing. |
| Tables.CountsConsistent | repository/dbOperations.go:320-329 | Every post's comment_count equals the number of its comments, as the recount writes it. |
| Tables.CountAfterInsert | repository/dbOperations.go:320-329 | Inserting a comment under a fresh id adds one to its post's count and leaves every other post's count unchanged. |
| Tables.CountAfterRemove | repository/dbOperations.go:406-415 | Removing a comment subtracts one from its post's count and leaves every other post's count unchanged. |
| Tables.CountsAsideKeepValid | models/models.go:16-27 | Rewriting the comment counts of the posts, and nothing else of them, keeps the schema constraints. |
| Tables.AddUser | repository/dbOperations.go:45-61 | An invalid user fails validation, and a valid user whose mail is already stored fails on the unique index. A valid user with an unused mail is stored under the fresh id and returned. Any failure stores nothing. |
| Tables.AddUserKeepsValid | models/models.go:9-14 | AddUser keeps the schema constraints, including unique mails. |
| Tables.Login | repository/dbOperations.go:64-104 | An empty mail or password gives an error and no token, before the store is consulted. Any token with no error was issued to a stored user whose password matched. |
| Tables.LoginByRole | repository/dbOperations.go:85-100 | For a registered user with the right password: "admin" gets the admin token signed over the user's id and mail, and "user" gets the member token. Any other role gets "invalid user role". A signing failure gives an empty token with no error. |
| Tables.GetRoleID | repository/dbOperations.go:107-115 | Returns a stored user with the given mail. The error "invalid MailID" comes back exactly when no user has that mail. |
| Tables.AddPost | repository/dbOperations.go:118-140 | An invalid post fails validation. A valid post whose role_id is no user's id fails with "invalid RoleID". A valid post with a known role_id fails on the unique index when its title is taken, and is otherwise stored under the fresh id, stamped with `now`. Any failure stores nothing. |
| Tables.AddPostKeepsValid | models/models.go:16-27 | AddPost keeps the schema constraints, including unique titles. |
| Tables.AddPostCountConsistency | models/models.go:23 | After AddPost, every post's count agrees with its comments exactly when the client sent comment_count 0. |
| Tables.GetPostID | repository/dbOperations.go:143-151 | Returns a stored post with the given title. An error comes back exactly when no post has the title, and the error is "invalid Title". |
| Tables.SearchAllPost | repository/dbOperations.go:154-162 | Lists every post. views_count and user_count read as 0, because they are not selected. Every other column is as stored. |
| Tables.GetPostBasedOnCategory | repository/dbOperations.go:257-265 | Lists exactly the stored posts of the category. |
| Tables.GetAllCategory | repository/dbOperations.go:268-276 | Gives one category per post, shared categories included. |
| Tables.GetPostStatistics | repository/dbOperations.go:279-292 | The number of posts is the number of rows SearchAllPost lists, and the number of comments the number GetAllComments lists. |
| Tables.AdminOwnsPostIff | repository/dbOperations.go:169-187 | With unique mails, the ownership check passes exactly when the post exists, the mail is non-empty, and the post's owner is a stored "admin" with that mail. |
| Tables.SetPostColumn | repository/dbOperations.go:190 | One `Update(col, v)` against the table. A refused assignment passes its error through. A title another post already has fails with DuplicateKey, and a role_id naming no user fails with ForeignKeyViolation. Otherwise the update succeeds, writing the value into that column only. |
| Tables.ApplyPostEdits | repository/dbOperations.go:189-194 | The update loop changes only the row being updated and only the columns named in the map. Other tables and other posts are untouched. What it writes is stated by ApplyPostEditsWrites, and its order by ApplyPostEditsConcat. |
| Tables.ApplyPostEditsConcat | repository/dbOperations.go:189-194 | Running the writes of a + b is running a and then, unless a write of a failed, running b on the result. So the writes happen in order and the first failure stops the loop with the earlier writes kept. |
| Tables.ApplyPostEditsWrites | repository/dbOperations.go:189-194 | When the loop succeeds, each column the map names holds the value of the last pair naming it. Go map keys are distinct, so each column holds the value the request gives it. |
| Tables.ReplacePostKeepsValid | models/models.go:16-27 | Replacing a post by a row with the same key, a title no other post has and a resolvable role_id keeps the schema constraints. |
| Tables.SetPostColumnKeepsValid | models/models.go:20 | One successful column update keeps the schema constraints. |
| Tables.ApplyPostEditsKeepsValid | repository/dbOperations.go:189-194 | The whole update loop keeps the schema constraints, even when it stops early. |
| Tables.UpdatePostByID | repository/dbOperations.go:165-198 | An empty mail gives "mailID can not be empty", no admin with the mail "unauthorized", an empty post id "PostID can not be empty", and a post the admin does not own a record-not-found error. All of these change nothing. For the owning admin the update loop runs: the tables become its result, and the call succeeds exactly when every write did, returning the updated row. Otherwise the failing write's error is returned. |
| Tables.UpdatePostWrites | repository/dbOperations.go:165-198 | After a successful update, every column the request names holds the value it gives, and every other column of the post is as it was. |
| Tables.UpdatePostKeepsValid | repository/dbOperations.go:165-198 | UpdatePostByID keeps the schema constraints. |
| Tables.NullPostRefs | models/models.go:35 | ON DELETE SET NULL: every comment is kept. Exactly those under the deleted post get a NULL post_id, and nothing else changes. |
| Tables.DeletePostByID | repository/dbOperations.go:201-231 | The same errors as UpdatePostByID, in the same order, and each changes nothing. For the owning admin the delete succeeds, returns the deleted row, removes exactly that post and unlinks its comments. |
| Tables.UnlinkPostKeepsValid | models/models.go:34-35 | Removing a post and unlinking its comments keeps the schema constraints. |
| Tables.DeletePostKeepsValid | repository/dbOperations.go:224 | DeletePostByID keeps the schema constraints. |
| Tables.DeletePostKeepsCounts | repository/dbOperations.go:224 | Deleting a post deletes no comment, so correct comment counts stay correct. |
| Tables.GetPostBasedOnRoleID | repository/dbOperations.go:234-254 | An empty mail gives "mailID can not be empty", and no admin with that mail gives "unauthorized". Otherwise the call succeeds and lists exactly the stored posts whose role_id is that admin's id, unchanged. |
| Tables.ListedPostsAreTheWritableOnes | repository/dbOperations.go:247 | The posts listed for a mail are exactly those the mail owns as an admin. Those are exactly the posts DeletePostByID removes for it, and the ones UpdatePostByID applies its writes to. For any other post, the update changes nothing and fails. |
| Tables.AddComments | repository/dbOperations.go:296-333 | An empty mail gives its error, and a mail with no "user" gives "unauthorized". For a "user", an invalid comment fails validation and unresolvable references a foreign-key error. A valid comment with resolvable references is stored under the fresh id and its post recounted. Any failure stores nothing. |
| Tables.InsertCommentKeepsValid | models/models.go:29-36 | Storing a comment with resolvable post_id and role_id under a fresh id, then recounting its post, keeps the schema constraints. |
| Tables.InsertCommentCounts | repository/dbOperations.go:320-329 | After storing a comment under a fresh id and recounting, its post's count is one more than the post's old number of comments, and correct counts stay correct. |
| Tables.AddCommentsKeepsInvariants | repository/dbOperations.go:320-329 | After AddComments the tables are valid and one comment larger. The parent post's count is one more than its old comment count, and correct counts stay correct. |
| Tables.SetCommentColumn | repository/dbOperations.go:368 | One `Update(col, v)` against the table. A refused assignment passes its error through. A post_id naming no post, or a role_id naming no user, fails with ForeignKeyViolation. Otherwise the update succeeds, writing the value into that column only. |
| Tables.ApplyCommentEdits | repository/dbOperations.go:367-372 | The update loop changes only the comment being updated and only the named columns. Other tables and comments are untouched. What it writes is stated by ApplyCommentEditsWrites, and its order by ApplyCommentEditsConcat. |
| Tables.ApplyCommentEditsConcat | repository/dbOperations.go:367-372 | Running the writes of a + b is running a and then, unless a write of a failed, running b on the result. |
| Tables.ApplyCommentEditsWrites | repository/dbOperations.go:367-372 | When the loop succeeds, each column the map names holds the value of the last pair naming it. |
| Tables.ReplaceCommentKeepsValid | models/models.go:29-36 | Replacing a comment by a row with the same key and resolvable references keeps the schema constraints. |
| Tables.SetCommentColumnKeepsValid | repository/dbOperations.go:368 | One successful comment column update keeps the schema constraints. |
| Tables.ApplyCommentEditsKeepsValid | repository/dbOperations.go:367-372 | The whole update loop keeps the schema constraints. |
| Tables.UpdateCommentByID | repository/dbOperations.go:336-376 | An empty mail gives "mailID can not be empty", no "user" with the mail "unauthorized", and an empty comment id "commentID can not be empty". A comment the user did not write gives "unauthorized". All of these change nothing. For the author the update loop runs: the tables become its result, and the call succeeds exactly when every write did. |
| Tables.UpdateCommentWrites | repository/dbOperations.go:336-376 | After a successful update, every column the request names holds the value it gives, and every other column of the comment is as it was. |
| Tables.UpdateCommentKeepsValid | repository/dbOperations.go:336-376 | UpdateCommentByID keeps the schema constraints. |
| Tables.DeleteCommentByID | repository/dbOperations.go:379-419 | The same errors as UpdateCommentByID, each changing nothing. For the author the delete succeeds, returns the deleted row, removes exactly that comment and recounts its post. |
| Tables.RemoveCommentKeepsValid | models/models.go:29-36 | Removing a stored comment and recounting its post keeps the schema constraints. |
| Tables.RemoveCommentCounts | repository/dbOperations.go:406-415 | After removing a stored comment and recounting, its post's count is one less than the post's old number of comments, and correct counts stay correct. |
| Tables.DeleteCommentKeepsInvariants | repository/dbOperations.go:406-415 | After DeleteCommentByID the tables are valid and one comment smaller. The parent post's count is one less than before, and correct counts stay correct. |
| Tables.GetAllComments | repository/dbOperations.go:422-430 | Every stored comment. CommentListingsWithinAll states that every other listing is part of it. |
| Tables.GetCommentsBasedOnUser | repository/dbOperations.go:433-452 | An empty mail gives "mailID can not be empty", and no "user" with that mail gives "unauthorized". Otherwise the call succeeds and lists exactly the stored comments whose role_id is that user's id, unchanged. |
| Tables.ListedCommentsAreTheWritableOnes | repository/dbOperations.go:445 | The comments listed for a mail are exactly those the mail's "user" wrote. Those are exactly the comments DeleteCommentByID removes for it, and the ones UpdateCommentByID applies its writes to. For any other comment, the update changes nothing and fails. |
| Tables.GetCommentsBasedOnPostID | repository/dbOperations.go:455-475 | An empty post id gives "postID can not be empty". Any other id succeeds, also one with no comments, and lists exactly the stored comments under the post, unchanged. Their number is the count the comment operations store. |
| Tables.CommentListingsWithinAll | repository/dbOperations.go:422-475 | Each per-user and per-post listing is part of what GetAllComments returns. Every comment with a post_id appears in the listing for that post. |
| Tables.StatisticsAfterAddPost | repository/dbOperations.go:279-292 | After a successful AddPost, GetPostStatistics counts one more post and the same number of comments. |
| Tables.StatisticsAfterDeletePost | repository/dbOperations.go:279-292 | After a successful DeletePostByID, it counts one post fewer and the same number of comments. |
| Tables.StatisticsAfterUpdatePost | repository/dbOperations.go:279-292 | UpdatePostByID changes neither count. |
| Tables.StatisticsAfterAddComments | repository/dbOperations.go:279-292 | After a successful AddComments, it counts the same number of posts and one more comment. |
| Tables.StatisticsAfterDeleteComment | repository/dbOperations.go:279-292 | After a successful DeleteCommentByID, it counts the same number of posts and one comment fewer. |
| Tables.StatisticsAfterUpdateComment | repository/dbOperations.go:279-292 | UpdateCommentByID changes neither count. |
| Repository.BlogStore.constructor | repository/dbOperations.go:41-43 | Starts with empty tables, which satisfy the schema constraints. |
| Repository.BlogStore.FindUser | repository/dbOperations.go:174 | The in-place look-up by mail and role agrees with Tables.FindUserId. |
| Repository.BlogStore.FindUserByMail | repository/dbOperations.go:72 | The in-place look-up by mail agrees with Tables.FindUserIdByMail. |
| Repository.BlogStore.AddUser | repository/dbOperations.go:45-61 | The new tables and the result are those of Tables.AddUser, so a valid user with an unused mail is stored. The constraints still hold. |
| Repository.BlogStore.Login | repository/dbOperations.go:64-104 | The token and error are those of Tables.Login. |
| Repository.BlogStore.GetRoleID | repository/dbOperations.go:107-115 | The result is that of Tables.GetRoleID. |
| Repository.BlogStore.AddPost | repository/dbOperations.go:118-140 | The new tables and the result are those of Tables.AddPost, with its refusals and its success case. The constraints still hold. |
| Repository.BlogStore.GetPostID | repository/dbOperations.go:143-151 | The result is that of Tables.GetPostID: the post with the title, or "invalid Title". |
| Repository.BlogStore.SearchAllPost | repository/dbOperations.go:154-162 | The result is that of Tables.SearchAllPost. |
| Repository.BlogStore.UpdatePostByID | repository/dbOperations.go:165-198 | The tables and result are those of Tables.UpdatePostByID, so the owning admin's writes are applied. The constraints still hold. |
| Repository.BlogStore.WritePostColumns | repository/dbOperations.go:189-194 | The column-by-column loop over the stored row ends in the tables and error of Tables.ApplyPostEdits. So it writes each named column's value in turn and stops at the first failing write. |
| Repository.BlogStore.DeletePostByID | repository/dbOperations.go:201-231 | The new tables and the result are those of Tables.DeletePostByID, so the owning admin's delete removes the post. The constraints still hold, and correct counts stay correct. |
| Repository.BlogStore.GetPostBasedOnRoleID | repository/dbOperations.go:234-254 | The result is that of Tables.GetPostBasedOnRoleID: the admin's own posts, or its error. |
| Repository.BlogStore.GetPostBasedOnCategory | repository/dbOperations.go:257-265 | The result is that of Tables.GetPostBasedOnCategory. |
| Repository.BlogStore.GetAllCategory | repository/dbOperations.go:268-276 | The result is that of Tables.GetAllCategory. |
| Repository.BlogStore.GetPostStatistics | repository/dbOperations.go:279-292 | The counts are those of Tables.GetPostStatistics, the sizes of the full listings. |
| Repository.BlogStore.AddComments | repository/dbOperations.go:296-333 | Insert, count, write back: the new tables and result are those of Tables.AddComments, so a "user"'s valid comment with resolvable references is stored and counted. The constraints still hold, and correct counts stay correct. |
| Repository.BlogStore.UpdateCommentByID | repository/dbOperations.go:336-376 | The tables and result are those of Tables.UpdateCommentByID, so the author's writes are applied. The constraints still hold. |
| Repository.BlogStore.WriteCommentColumns | repository/dbOperations.go:367-372 | The column-by-column loop over the stored comment ends in the tables and error of Tables.ApplyCommentEdits. |
| Repository.BlogStore.DeleteCommentByID | repository/dbOperations.go:379-419 | Delete, count, write back: the new tables and result are those of Tables.DeleteCommentByID, so the author's delete removes the comment. The constraints still hold, and correct counts stay correct. |
| Repository.BlogStore.GetAllComments | repository/dbOperations.go:422-430 | The result is that of Tables.GetAllComments, which contains every other listing of comments. |
| Repository.BlogStore.GetCommentsBasedOnUser | repository/dbOperations.go:433-452 | The result is that of Tables.GetCommentsBasedOnUser: the user's own comments, or its error. |
| Repository.BlogStore.GetCommentsBasedOnPostID | repository/dbOperations.go:455-475 | The result is that of Tables.GetCommentsBasedOnPostID: the comments under the post, or the empty-id error. |
| Sessions.RolelessTokenRejected | middleware/authorization.go:30-31 | If parse only ever returns the claims that were signed, a token signed over claims without "role" fails both gates. |
| Sessions.LoginTokensFailBothGates | middleware/token.go:18-23 | Assuming ParseInvertsSign (parsing a signed token yields the signed claims or fails), every non-empty token Login returns is rejected by both gates, in any header from which it is extracted. |
| Sessions.RegisteredUsersLockedOut | repository/dbOperations.go:85-100 | Assuming ParseInvertsSign, a stored "admin" or "user" who logs in with the right password gets a token that neither gate lets through as "Bearer " + token. |

## Left out

- Logging, HTTP handling, the route table, the MySQL connection and the migrations themselves are not part of this model.
- Concurrency is not modelled. The count-then-write of comment_count is not a transaction in the Go code, and the model runs it as one sequential step.
- Database failures other than constraint violations are not modelled (connection loss, or a failure of the recount after a comment was stored). Every step that is not refused by a constraint succeeds.
- The Views table is not part of this model. DeletePostByID sets the post_id of the Views rows under the deleted post to NULL through their foreign key; those rows are not modelled.
- `LookUp`'s directory read, its look-up table and its reflective method call are not modelled. Neither is the loop over the collected names, which reads and writes the look-up table. What is modelled is the filter loop, and the version and method name each file yields.
- Models.AssignPostColumn: updates of the id and post_date columns are refused as unknown rather than modelled. MySQL's conversions between value kinds are also not modelled, so a value of the wrong kind is refused.
- Models.AssignPostColumn: a NULL written to a text column is stored as "", so a NULL title is subject to the unique index like an empty title, although MySQL admits several NULL titles.
- Models.EmailShaped: the `email` validator's full address grammar is approximated by "exactly one '@' with something on each side".
- Models.ValidPost: the validator is given the struct only. Its handling of the nested `User` field is not part of this model, because the validation helper is not part of the sources.
- Models.ValidComment: likewise, the validation of the nested `User` and `Post` fields is not modelled.
- Authorization.ToLower: lower-casing is over ASCII only, as is `Lookup.TitleFrom`. Go's Unicode case mapping is not modelled.
- Models.AssignPostColumn: a column is named only by its column name. GORM also resolves Go field names ("Title", "CommentCount"), and MySQL matches column names in any letter case; the model refuses such keys as UnknownColumn.
- Models.AssignCommentColumn: likewise, field names such as "PostID" or "Feedback" and other letter cases are refused as UnknownColumn. The id column is refused as unknown too, although the Go code updates it. A number written to post_id, role_id or feedback is refused with InvalidValue, whereas MySQL stores its decimal text in these columns.
- Models.AssignPostColumn: views_count, user_count and comment_count are 64-bit columns, while the model's numbers are unbounded; out-of-range values are not refused. JSON numbers reach the Go code as float64; fractional values are not modelled.
- Tables.GetPostBasedOnCategory: categories are compared exactly. Under MySQL's default case-insensitive collation the Go code also lists posts whose category differs only in letter case ("News" for "news").
- Tables.FindUserId: mail and role are compared exactly. Under MySQL's default case-insensitive collation the Go code also finds a user whose stored mail differs only in letter case.
- Tables.FindUserIdByMail: the same exact comparison of mails.
- Tables.FindPostIdByTitle: the same exact comparison of titles.
- Tables.MailsUnique: the unique index is modelled with exact equality. MySQL's case-insensitive index also refuses "A@x.com" beside "a@x.com", which the model's AddUser stores.
- Tables.TitlesUnique: likewise, titles differing only in letter case are refused by MySQL and admitted by the model.
- Lookup.ExtractNumberFromFileName: the number is unbounded. `strconv.Atoi`'s overflow error is not modelled.
- The `err.Error()` call on a nil error after a failed claims assertion is not modelled (middleware/authorization.go:27 and :55). `jwt.Parse` always yields map claims, so that branch cannot be reached.
- JWT signing, the parsing and validity check of tokens, and bcrypt are the parameters `sign`, `parse` and `matches`. Their internals are not modelled.
- The comments table's `feedback` tag reads "primaryKey column:feedback", with a space instead of ';'. The model does not treat feedback as part of the key.
