# chalkhak-backend in Dafny

A model of the chalkhak backend: an Express service over SQLite for a small social network of users, follow relations, geotagged posts and refresh tokens. The model keeps the parts of the service that make decisions:

- **The four tables.** `users`, `follows`, `posts` and `refreshTokens` are Dafny classes. Each holds its rows as a sequence in insertion order. Inserts, updates and deletes are methods that respect the primary keys and UNIQUE columns. The SELECT queries are functions over the rows.
- **The three controllers.** Registration, login and refresh-token rotation; profile edits, follows and the profile lookup; post creation, post edits and the feed.
- **The two middlewares.** Bearer-token extraction and the 401/403 decision; the upload file-type filter, the stored file name and the size limit.

**Parameters instead of the outside world:**

- **bcrypt:** `hash` and `compare`.
- **JSON web tokens:** `signAccess`, `signRefresh` (user id and instant) and `verify`/`verifyRefresh`, which return the decoded claims or nothing.
- **`randomUUID`:** the `uuid` argument.
- **`Date.now()`:** `now`, in milliseconds.
- **The current date of the SQLite clock:** `today`, a day number. The calendar day of an instant `t` is `t / 86400000`.

A status code stands for the HTTP reply. A `Reply` carries the status and, on success, the JSON payload.

One module per source file:

| module | file |
|---|---|
| `Common` | shared row operations: `Filter` (a `WHERE` clause), `FirstWhere` (`db.get`), `MapRows` (an `UPDATE`) |
| `Users` | `users.dfy` |
| `Follows` | `follows.dfy` |
| `Posts` | `posts.dfy` |
| `RefreshTokens` | `refresh_tokens.dfy` |
| `AuthMiddleware` | `auth_middleware.dfy` |
| `UploadMiddleware` | `upload_middleware.dfy` |
| `AuthController` | `auth_controller.dfy` |
| `UserController` | `user_controller.dfy` |
| `PostController` | `post_controller.dfy` |

Each table class has a `Valid()` invariant that its methods preserve:

- **users:** the keys are unique and `isPrivate` is 0 or 1.
- **follows:** the pairs are unique.
- **posts:** the ids are unique and `hidden` is 0 or 1.
- **refreshTokens:** the ids are unique.

## Model

| member | source | states |
|---|---|---|
| `Users.PrivateFlag` | src/models/userModel.ts:49 | `Number(isPrivate)` is 0 or 1, and 1 exactly when the flag is true |
| `Users.NewUser` | src/models/userModel.ts:47-49 | the inserted row carries the given id, username, email, stored password and creation time; the three profile columns are NULL; the flag is stored as 0/1 |
| `Users.AppendKeepsKeysUnique` | src/models/userModel.ts:19-22 | appending a row keeps userId, username and email unique exactly when the table was unique and no row shares a key with the new one |
| `Users.Insertable` | src/models/userModel.ts:19-22 | SQLite accepts the `INSERT` exactly when the lookups by the new id, username and email all find nothing |
| `Users.UserTable.InsertUser` | src/models/userModel.ts:46-57 | succeeds exactly when no row holds the id, username or email; on success appends exactly that row and resolves `user:<uuid>`; on failure the table is unchanged; the invariant is kept |
| `Users.EditedUser` | src/models/userModel.ts:83-94 | the seven listed columns take the edit's values, the flag stored as 0/1 (1 exactly when it is true); userId and createdAt are kept |
| `Users.ApplyUserEdit` | src/models/userModel.ts:83 | the row with that userId is edited, every other row is unchanged, and the length is kept |
| `Users.UpdateConflicts` | src/models/userModel.ts:21-22 | the `UPDATE` is refused exactly when a row has that userId and another row already holds the new username or email |
| `Users.ConflictIsSeenByLookup` | src/models/userModel.ts:21-22 | with unique keys, a conflict is exactly: the edited row exists, and looking up the new username or the new email returns a row with another id |
| `Users.UpdateKeepsKeysUnique` | src/models/userModel.ts:19-22 | on a unique table the edited table is unique exactly when the update does not conflict |
| `Users.ConflictBreaksKeys` | src/models/userModel.ts:21-22 | an update giving the row a username or email held by another row would duplicate a key |
| `Users.NoConflictKeepsKeys` | src/models/userModel.ts:21-22 | an update that does not conflict keeps all three keys unique |
| `Users.UserTable.UpdateUser` | src/models/userModel.ts:81-103 | fails exactly when a row has that userId and another row holds the new username or email; on success the table is the edited table (unchanged when no row has that userId), otherwise unchanged; the invariant is kept |
| `Users.FindUserByUsername` | src/models/userModel.ts:111-118 | returns a row with that username, or nothing exactly when no row has it |
| `Users.FindUserByUserId` | src/models/userModel.ts:125-132 | returns a row with that id, or nothing exactly when no row has it |
| `Users.FindUserByEmail` | src/models/userModel.ts:139-146 | returns a row with that email, or nothing exactly when no row has it |
| `Users.LookupsReturnTheKeyedRow` | src/models/userModel.ts:106-148 | with unique keys, each of the three lookups returns precisely the row holding the key |
| `Follows.FindFollowers` | src/models/followModel.ts:64-81 | `u` is listed exactly when the pair (u, x) is stored and `u` is an existing user; the list is no longer than the table |
| `Follows.FindFollowings` | src/models/followModel.ts:89-105 | `u` is listed exactly when the pair (x, u) is stored and `u` is an existing user |
| `Follows.FollowersMirrorFollowings` | src/models/followModel.ts:60-107 | for existing users `u` and `x`, `u` is among the followers of `x` exactly when `x` is among the followings of `u` |
| `Follows.FollowersAreDistinct` | src/models/followModel.ts:14 | with unique pairs no follower is listed twice |
| `Follows.FollowTable.CreateFollow` | src/models/followModel.ts:21-38 | succeeds exactly when the pair is absent, a self-follow included; on success appends exactly the pair, otherwise nothing changes |
| `Follows.FollowTable.DeleteFollow` | src/models/followModel.ts:41-57 | afterwards the pair is absent; every other pair is present exactly when it was before; an absent pair changes nothing |
| `Posts.NewPost` | src/models/postModel.ts:47-51 | the inserted post carries the given id, owner, content, media and position; it is not hidden and is stamped with the current time |
| `Posts.PostTable.InsertPost` | src/models/postModel.ts:46-59 | succeeds exactly when the id `post:<uuid>` is free; on success appends exactly the new post and resolves that id, otherwise the table is unchanged |
| `Posts.EditedPost` | src/models/postModel.ts:80-83 | content, mediaUrl, latitude, longitude and hidden take the edit's values; postId, userId and createdAt are kept |
| `Posts.ApplyPostEdit` | src/models/postModel.ts:81 | rows with that postId are edited; every other row and the length are unchanged |
| `Posts.PostTable.UpdatePost` | src/models/postModel.ts:63-93 | the table becomes the edited table, and the invariant is kept |
| `Posts.FindPostByPostId` | src/models/postModel.ts:96-107 | returns a post with that id, or nothing exactly when none has it |
| `Posts.PostsByFollowedUsers` | src/models/postModel.ts:110-135 | a post is returned exactly when it is stored, not hidden, inside the date clause, and its author is followed by `userId` |
| `Posts.FeedCandidate` | src/models/postModel.ts:115-122 | a post can enter the feed exactly when `hidden` is 0 and its creation instant lies in the seven-day window (no date) or in the requested day (a readable date); never for an unreadable date |
| `Posts.FollowedPostsAreAFilter` | src/models/postModel.ts:119-123 | with unique follow pairs the join equals a filter of the posts table, in table order |
| `Posts.FollowedPostsAreDistinct` | src/models/postModel.ts:121 | with unique follow pairs and post ids, no post appears twice in the join |
| `Posts.PostsByUserId` | src/models/postModel.ts:137-159 | a post is returned exactly when it is stored, owned by `userId` and inside the default seven-day window, hidden or not |
| `Posts.DayOf` | src/models/postModel.ts:117 | the calendar day of an instant is the one whose span of milliseconds contains it |
| `Posts.InRecentWindow` | src/models/postModel.ts:142-143 | a post is in the default window exactly when it was created at or after the start of the day seven days before today |
| `Posts.MatchesDate` | src/models/postModel.ts:115-117 | without a date, the default window; with a readable date, exactly the instants of that day; with a date `DATE(?)` cannot read, no post |
| `RefreshTokens.FindRefreshToken` | src/models/RefreshTokenModel.ts:53-68 | returns a stored row with that token, or nothing exactly when none has it |
| `RefreshTokens.WithoutId` | src/models/RefreshTokenModel.ts:73 | a row remains exactly when it was stored and has another id |
| `RefreshTokens.WithoutUser` | src/models/RefreshTokenModel.ts:91 | a row remains exactly when it was stored and belongs to another user |
| `RefreshTokens.WithoutIdKeepsIdsUnique` | src/models/RefreshTokenModel.ts:71-82 | deleting by id keeps the ids unique and removes at most one row |
| `RefreshTokens.IdsUniqueFilter` | src/models/RefreshTokenModel.ts:16 | any filter of a table with unique ids has unique ids |
| `RefreshTokens.DeleteOneId` | src/models/RefreshTokenModel.ts:73 | with unique ids, deleting by id removes at most one row |
| `RefreshTokens.RefreshTokenTable.InsertRefreshToken` | src/models/RefreshTokenModel.ts:38-50 | succeeds exactly when `refreshToken:<uuid>` is free; on success appends exactly one row with the given user, token and expiry, otherwise nothing changes |
| `RefreshTokens.RefreshTokenTable.DeleteRefreshToken` | src/models/RefreshTokenModel.ts:71-82 | the table loses the row with that id and only it |
| `RefreshTokens.RefreshTokenTable.DeleteRefreshTokensByUserId` | src/models/RefreshTokenModel.ts:85-100 | the rows of that user are removed, no row of that user remains, and the rows of other users are kept in order |
| `AuthMiddleware.Split` | src/middlewares/authMiddleware.ts:13 | splitting yields at least one field, and exactly one when the separator does not occur |
| `AuthMiddleware.SplitFieldsLackSeparator` | src/middlewares/authMiddleware.ts:13 | no field holds the separator |
| `AuthMiddleware.JoinSplit` | src/middlewares/authMiddleware.ts:13 | joining the fields with the separator gives back the header |
| `AuthMiddleware.BearerToken` | src/middlewares/authMiddleware.ts:13 | a token is found exactly when there is a header containing a space, and the token contains no space |
| `AuthMiddleware.SecondFieldIsBearerToken` | src/middlewares/authMiddleware.ts:13 | for a header made of a space-free scheme, one space, the token, then nothing or a space-led remainder, the token found is that token |
| `AuthMiddleware.BearerTokenIsSecondField` | src/middlewares/authMiddleware.ts:13 | every token found is the field after the first space of a header of that shape |
| `AuthMiddleware.Authenticate` | src/middlewares/authMiddleware.ts:13-26 | 401 exactly when the token is missing or empty; 403 exactly when a non-empty token fails verification; otherwise the request proceeds with the verified claims |
| `UploadMiddleware.Extname` | src/middlewares/uploadMiddleware.ts:21-23 | a non-empty extension is a trailing part of the name (trailing slashes removed) that does not start at its first character, begins with a dot and holds no other dot and no slash: the last segment from its last dot on. It is empty exactly when the last segment has no dot after its first character, or is `..` |
| `UploadMiddleware.LeadingDotNameIsRejected` | src/middlewares/uploadMiddleware.ts:21-30 | a name whose only dot is its first character, such as `.png`, has no extension and is rejected |
| `UploadMiddleware.ExtnameOfPlainName` | src/middlewares/uploadMiddleware.ts:22 | the extension of a plain name `stem.ext` is `.ext` |
| `UploadMiddleware.LowerAscii` | src/middlewares/uploadMiddleware.ts:22 | lower-casing keeps the length and maps `A`..`Z` to `a`..`z`, position by position |
| `UploadMiddleware.Contains` | src/middlewares/uploadMiddleware.ts:20 | the unanchored test holds exactly when the word occurs at some index |
| `UploadMiddleware.MatchesMediaPattern` | src/middlewares/uploadMiddleware.ts:20-24 | the pattern test holds exactly when one of the seven words occurs at some index; a string shorter than three characters never matches |
| `UploadMiddleware.FileFilter` | src/middlewares/uploadMiddleware.ts:15-31 | accepts exactly when both the lower-cased extension and the MIME type contain one of the seven words; any other outcome is an error with the fixed message |
| `UploadMiddleware.NoExtensionIsRejected` | src/middlewares/uploadMiddleware.ts:21-30 | a name without an extension is rejected with an error whatever the MIME type |
| `UploadMiddleware.DotlessNameIsRejected` | src/middlewares/uploadMiddleware.ts:21-30 | a name without a dot is rejected |
| `UploadMiddleware.PlainNamePasses` | src/middlewares/uploadMiddleware.ts:20-27 | `stem.ext` passes with a matching MIME type when a word occurs anywhere in its lower-cased extension |
| `UploadMiddleware.PlainNameFails` | src/middlewares/uploadMiddleware.ts:26-30 | `stem.ext` is rejected when its lower-cased extension has none of the letters j, p, g, m, a |
| `UploadMiddleware.ExtensionCaseIsIgnored` | src/middlewares/uploadMiddleware.ts:21-23 | `stem.ext` and `stem.lower(ext)` get the same verdict |
| `UploadMiddleware.UpperCaseMimeTypeIsRejected` | src/middlewares/uploadMiddleware.ts:24 | a MIME type with no lower-case letter is rejected, because the MIME type is not lower-cased |
| `UploadMiddleware.OnlyLastExtensionCounts` | src/middlewares/uploadMiddleware.ts:22 | `stem.inner.ext` gets the verdict of `stem.ext` |
| `UploadMiddleware.StoredFilename` | src/middlewares/uploadMiddleware.ts:9-11 | the stored name is longer than the original name plus the dash |
| `UploadMiddleware.StoredFilenameRoundTrip` | src/middlewares/uploadMiddleware.ts:10 | the stored name `<now>-<originalname>` gives back both the time and the original name, even when the original name contains dashes |
| `UploadMiddleware.DecimalRoundTrip` | src/middlewares/uploadMiddleware.ts:10 | the decimal form of the timestamp reads back as the same number |
| `UploadMiddleware.MaxFileSizeIsTenMebibytes` | src/middlewares/uploadMiddleware.ts:33-36 | the size limit is 10485760 bytes, a tenth of the 100MB its comment names |
| `PostController.UploadPost` | src/controllers/postController.ts:14-28 | 201 with the new id exactly when the id is free, and the new post belongs to the requester; otherwise 400 and the table is unchanged |
| `PostController.EditPost` | src/controllers/postController.ts:31-50 | 403 and no change exactly when the post is missing or owned by someone else; otherwise 200 and the table is the edited table |
| `PostController.OwnsPost` | src/controllers/postController.ts:34-35 | the edit passes the ownership test exactly when the post looked up by id exists and its owner is the requester |
| `PostController.OwnsPostIsStoredOwnership` | src/controllers/postController.ts:34-35 | with unique post ids, the requester passes the ownership test exactly when the stored post with that id is theirs |
| `PostController.OwnerEditTouchesOnlyThatPost` | src/controllers/postController.ts:39-46 | an accepted edit rewrites exactly one row, the requester's post, and keeps every other row |
| `PostController.GetPost` | src/controllers/postController.ts:52-81 | a post is in the feed exactly when it is a visible followed post that passes the as-written privacy test, or one of the requester's own posts from the default window |
| `PostController.ShownAsWritten` | src/controllers/postController.ts:60-64 | a followed author's post passes when the author row is missing or public, or when the requester follows themself and is a user, whoever the author is |
| `PostController.FeedIsFollowedThenOwn` | src/controllers/postController.ts:58-75 | with unique follow pairs, the feed is the kept followed posts in table order, then all the requester's recent posts, without de-duplication or sorting |
| `PostController.PrivateOutcomeIsUniform` | src/controllers/postController.ts:60-65 | authors who are public or missing always pass; every private author passes or fails alike, according to whether the requester follows themself |
| `PostController.SelfFollowRepeatsOwnPosts` | src/controllers/postController.ts:71-75 | in the feed without a date, a requester who follows themself sees each own visible recent post at least twice |
| `PostController.GetPostMutual` | src/controllers/postController.ts:61-64 | the feed with the mutual-follow test: membership is as in `GetPost`, with that test in place of the as-written one |
| `PostController.ShownMutual` | src/controllers/postController.ts:61-64 | the corrected test: a private author's post passes exactly when requester and author follow each other and the requester is a user |
| `PostController.PrivatePostNeedsMutualFollow` | src/controllers/postController.ts:61-64 | in the corrected feed, a private author's visible post is shown exactly when requester and author follow each other |
| `PostController.MutualFollowerMissesPrivatePost` | src/controllers/postController.ts:61-63 | the as-written feed hides a private author's post from a mutual follower who does not follow themself, and the corrected feed shows it |
| `PostController.SelfFollowerSeesPrivatePost` | src/controllers/postController.ts:61-63 | the as-written feed shows a private author's post to a self-following requester the author does not follow back, and the corrected feed hides it |
| `UserController.StripPassword` | src/controllers/userController.ts:92-97 | the profile keeps every column of the row except the password, which it has no field for |
| `UserController.StripPasswordDropsOnlyPassword` | src/controllers/userController.ts:107-112 | the row is the profile plus its password, and rows differing only in the password give the same profile |
| `UserController.GetUser` | src/controllers/userController.ts:83-120 | 404 with no body exactly when the user is unknown; 200 with the password-free profile exactly when the account is public or the two users follow each other; 400 otherwise |
| `UserController.ProfileVisible` | src/controllers/userController.ts:91-106 | a profile may be shown when the account is public, or when each of the two users, both existing, follows the other |
| `UserController.PrivateGateIsSymmetric` | src/controllers/userController.ts:101-116 | between two private accounts, each sees the other's profile or neither does |
| `UserController.GetFollowers` | src/controllers/userController.ts:62-69 | 200 with exactly the existing users who follow the requester |
| `UserController.GetFollowings` | src/controllers/userController.ts:71-81 | 200 with exactly the existing users the requester follows |
| `UserController.FollowUser` | src/controllers/userController.ts:42-50 | 200 and the pair (requester, followedId) appended exactly when it was absent; otherwise 500 and no change |
| `UserController.UnFollowUser` | src/controllers/userController.ts:52-60 | 200; the pair (requester, followedId) is gone and every other pair is kept |
| `UserController.EditUser` | src/controllers/userController.ts:12-40 | 200 exactly when the update does not conflict; then the requester's row holds the new columns with `hash(password)` as its password and the other rows are kept; otherwise 500 and no change |
| `AuthController.Register` | src/controllers/authController.ts:22-36 | 201 with the new id exactly when the user is insertable, storing `hash(password)`; otherwise 400 and no change |
| `AuthController.Falsy` | src/controllers/authController.ts:43 | `!username` for an optional string: absent or empty |
| `AuthController.LoginLookup` | src/controllers/authController.ts:42-47 | by email when the username is absent or empty, by username otherwise; the account found has that email or username |
| `AuthController.LoginFindsTheAccount` | src/controllers/authController.ts:43-47 | with unique keys, a login by an account's non-empty username, or by its email when the username is absent or empty, finds that account |
| `AuthController.IssuedRow` | src/controllers/authController.ts:62-69 | the stored refresh token row belongs to the user, holds the token, and expires 604800000 ms after it is issued |
| `AuthController.Login` | src/controllers/authController.ts:39-76 | 404 for an unknown account and 401 for a wrong password, both with the token table unchanged; otherwise 200 with exactly one row appended for the account, or 500 when that insert is refused |
| `AuthController.Rotated` | src/controllers/authController.ts:98-107 | after rotation a row is present exactly when it was stored with another id, or it is the newly issued row |
| `AuthController.RotationRetiresToken` | src/controllers/authController.ts:83-107 | when no other stored row carries the presented token string and the new token differs from it, after a rotation the presented token is found no more, so presenting it again is refused; the new token finds the new row unless another row already carried it |
| `AuthController.SameSecondLoginsAcceptTokenTwice` | src/controllers/authController.ts:83-99 | with two rows carrying one token, as two logins of a user within one second store, a rotation leaves the second row to be found, so the token is accepted again; the rotation by token finds nothing |
| `AuthController.RotatedByToken` | src/controllers/authController.ts:98-107 | after the corrected rotation a row is present exactly when it was stored with another token string, or it is the newly issued row |
| `AuthController.RotationByTokenRetiresToken` | src/controllers/authController.ts:83-107 | after the corrected rotation the presented token finds nothing, whatever the table held, or only the new row when the new token is the same string |
| `AuthController.RefreshToken` | src/controllers/authController.ts:79-112 | 403 and no change exactly when the token is not stored or does not verify; otherwise the stored row is deleted by id and a row for the verified user is inserted (200), or no reply is sent when that insert is refused; the presented row's id is then held by at most the new row |

## Left out

- Row order: SQL without `ORDER BY` is free to return rows in any order. The model returns them in insertion order, so claims about order (`FeedIsFollowedThenOwn`) hold for that order.
- Dates and times: instants are integer milliseconds and a calendar date is a day number. Timezones, the `localtime` modifier, calendar arithmetic and the text encoding of timestamps are not modelled.
  - The seven-day window keeps a post whose day is at least `today - 7`: comparing a `YYYY-MM-DD HH:MM:SS` text with a bare date has that effect.
  - A `date` query argument is absent or empty, a day, or a string `DATE(?)` cannot read (no post matches).
- The dated variant of `getPostsByUserId` is not modelled. Its SQL has a second placeholder that is never bound, and no caller passes a date.
- Missing or ill-typed request-body fields are not modelled, and neither are `NOT NULL` violations. Fields are strings, booleans or reals as the handlers expect. The one exception is the login `username`/`email` pair, which may be absent.
- `VARCHAR` lengths are not enforced by SQLite and are not modelled.
- Foreign keys: the store never enables them, so none are enforced. Rows may name users that do not exist.
- Store errors other than key violations (disk, locking, connection) are not modelled. A refused statement is a key violation; `findRefreshToken` and the other reads never fail.
- Cryptography is not modelled: bcrypt and JSON web tokens are parameters.
  - Token expiry is whatever `verify` decides.
  - The default-secret fallback of the secret configuration is not part of this model.
  - Two tokens signed for the same user in the same second are equal strings.
- AuthController.RotationRetiresToken: holds only when no other stored row carries the presented token string and the new token differs from it. Two logins of one user within the same second store two rows with the same token; that case is the second row of "## Findings".
- `AuthController.RefreshToken`: when the insert after the delete is refused, the handler has no error handler. That is modelled as "no reply". Node's unhandled-rejection behaviour is not modelled.
- `UploadMiddleware.LowerAscii`: models `toLocaleLowerCase` on ASCII letters only; other locale or Unicode case mappings are not modelled. So the model can reject a name the service accepts: `x.AVİ` (capital dotted I) lower-cases to `x.avi̇` in the service, which contains `avi` and passes the filter, while the model keeps `İ`, finds no media type in `.avİ` and rejects it.
- The upload: writing files to disk, the destination directory, multer's multipart parsing and the enforcement of the size limit are I/O. Only the limit's value is modelled. `uploadFile` is not modelled: it answers 200 with the stored file's path; without a file it sends 400, does not return, and then fails reading the missing file's name. `protectedRoute`, which sends back the verified claims, is not modelled either.
- Concurrency: each handler runs as one sequential step. `Promise.all` and interleaving across requests are not modelled.
- Wiring: the routers and server start-up are not modelled. `src/app.ts` creates only the users, posts and follows tables and mounts only the user and post routers, so in the running service the authentication routes and the `refreshTokens` table are never set up.
- The message texts of error replies are not modelled; a reply carries its status and, on success, its payload.

## Findings

| source | as written | input that shows it | evidently intended | confidence | as-written member | corrected member |
|---|---|---|---|---|---|---|
| src/controllers/postController.ts:61-63 | the flag `isFollowedEachOther` asks whether the requester is among the requester's own followers | requester A follows private author B, B follows A, and A does not follow A: B's posts are hidden from A (and with A following B and A, but B not following A, they are shown) | the flag asks whether the two users follow each other, as `getUser` does at src/controllers/userController.ts:101-106 | not executed | `PostController.MutualFollowerMissesPrivatePost` | `PostController.PrivatePostNeedsMutualFollow` |
| src/controllers/authController.ts:83-99 | the presented token is looked up by its string, but only the row found first is deleted, by its id, and the `token` column is not unique (src/models/RefreshTokenModel.ts:16-23) | one user logs in twice within the same second: both logins sign the same refresh token, whose issue time counts whole seconds, and store two rows carrying it; a refresh with it deletes the first row and answers 200, and a second refresh with the same token finds the other row and answers 200 again | a refresh token is accepted once: every row carrying the presented token is retired | not executed | `AuthController.SameSecondLoginsAcceptTokenTwice` | `AuthController.RotationByTokenRetiresToken` |
