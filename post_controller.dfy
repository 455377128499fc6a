/** The post handlers (src/controllers/postController.ts): creating a post
    for the authenticated user, editing one's own post, and composing the
    feed. The requester is the `userId` the access token carried. */
module PostController {
  import opened Common
  import opened Users
  import opened Follows
  import opened Posts

  // ---------------------------------------------------------------------
  // uploadPost and editPost
  // ---------------------------------------------------------------------

  /** `uploadPost`: the new post belongs to the requester whatever the
      body says; 201 with the new id, or 400 when the insert is refused. */
  method UploadPost(table: PostTable, requester: string, uuid: string, content: string,
                    mediaUrl: string, latitude: real, longitude: real, now: int)
    returns (reply: Reply<string>)
    requires table.Valid()
    modifies table
    ensures table.Valid()
    ensures reply.status == 201 || reply.status == 400
    ensures reply.status == 201 <==> forall p :: p in old(table.rows) ==> p.postId != PostIdPrefix + uuid
    ensures reply.status == 201 ==>
      reply.body == Some(PostIdPrefix + uuid) &&
      table.rows == old(table.rows) +
        [NewPost(PostIdPrefix + uuid, requester, content, mediaUrl, latitude, longitude, now)]
    ensures reply.status == 400 ==> reply.body.None? && table.rows == old(table.rows)
  {
    var r := table.InsertPost(uuid, requester, content, mediaUrl, latitude, longitude, now);
    if r.Some? {
      reply := Reply(201, Some(r.value));
    } else {
      reply := Reply(400, None);
    }
  }

  /** The ownership test of `editPost`: the post looked up by id exists and
      belongs to the requester (`postToEdit?.userId !== req.user.userId`
      is false). */
  predicate OwnsPost(rows: seq<Post>, requester: string, postId: string)
  {
    var found := FindPostByPostId(rows, postId);
    found.Some? && found.value.userId == requester
  }

  /** With unique post ids, the requester owns the post exactly when the
      stored post with that id is theirs. */
  lemma OwnsPostIsStoredOwnership(rows: seq<Post>, requester: string, postId: string)
    requires PostIdsUnique(rows)
    ensures OwnsPost(rows, requester, postId) <==>
      exists q :: q in rows && q.postId == postId && q.userId == requester
  {
    if q :| q in rows && q.postId == postId && q.userId == requester {
      var found := FindPostByPostId(rows, postId).value;
      var i :| 0 <= i < |rows| && rows[i] == q;
      var j :| 0 <= j < |rows| && rows[j] == found;
      assert i == j;
    }
  }

  /** `editPost`: 403 and no change when the post is missing or owned by
      someone else; otherwise the five editable columns of that post are
      overwritten and 200 is sent. */
  method EditPost(table: PostTable, requester: string, postId: string, edit: PostEdit)
    returns (status: nat)
    requires table.Valid()
    modifies table
    ensures table.Valid()
    ensures status == 200 || status == 403
    ensures status == 403 <==> !OwnsPost(old(table.rows), requester, postId)
    ensures status == 403 ==> table.rows == old(table.rows)
    ensures status == 200 ==> table.rows == ApplyPostEdit(old(table.rows), postId, edit)
  {
    var found := FindPostByPostId(table.rows, postId);
    if found.None? || found.value.userId != requester {
      status := 403;
      return;
    }
    table.UpdatePost(postId, edit);
    status := 200;
  }

  /** An accepted edit rewrites one post of the requester and nothing else:
      every other row is kept, and no post changes owner or creation time. */
  lemma {:induction false} OwnerEditTouchesOnlyThatPost(rows: seq<Post>, requester: string,
                                                       postId: string, edit: PostEdit)
    requires PostIdsUnique(rows) && OwnsPost(rows, requester, postId)
    ensures var r := ApplyPostEdit(rows, postId, edit);
      |r| == |rows| &&
      (exists i :: 0 <= i < |rows| && rows[i].postId == postId && rows[i].userId == requester &&
                   r[i] == EditedPost(rows[i], edit) &&
                   forall j :: 0 <= j < |rows| && j != i ==> r[j] == rows[j])
  {
    var r := ApplyPostEdit(rows, postId, edit);
    var p := FindPostByPostId(rows, postId).value;
    var i :| 0 <= i < |rows| && rows[i] == p;
    forall j | 0 <= j < |rows| && j != i ensures r[j] == rows[j] {
      assert rows[j].postId != postId;
    }
  }

  // ---------------------------------------------------------------------
  // getPost, as written
  // ---------------------------------------------------------------------

  /** The visibility test `getPost` applies to a followed author's post:
      the author row is missing or not private, or the requester is among
      the requester's own followers. */
  function ShownAsWritten(users: seq<User>, follows: seq<Follow>, requester: string, authorId: string)
    : (shown: bool)
    ensures var poster := FindUserByUserId(users, authorId);
      shown <==> poster.None? || poster.value.isPrivate == 0 ||
                 (Follow(requester, requester) in follows && UserExists(users, requester))
  {
    var poster := FindUserByUserId(users, authorId);
    poster.None? || poster.value.isPrivate == 0 ||
    requester in FindFollowers(users, follows, requester)
  }

  /** `getPost`: the followed authors' visible posts that pass the
      visibility test, then every post of the requester from the default
      window, whatever the date argument and whether hidden or not. */
  function GetPost(users: seq<User>, follows: seq<Follow>, posts: seq<Post>, requester: string,
                   date: DateArg, today: int): (feed: seq<Post>)
    ensures forall p :: p in feed <==>
      (p in posts && FeedCandidate(p, date, today) && Follow(requester, p.userId) in follows &&
       ShownAsWritten(users, follows, requester, p.userId)) ||
      (p in posts && p.userId == requester && InRecentWindow(p.createdAt, today))
  {
    Filter(PostsByFollowedUsers(posts, follows, requester, date, today),
           (p: Post) => ShownAsWritten(users, follows, requester, p.userId))
    + PostsByUserId(posts, requester, today)
  }

  /** With unique follow pairs the feed is two filters of the posts table
      laid end to end: the kept posts of followed authors in table order,
      then the requester's own recent posts in table order. */
  lemma FeedIsFollowedThenOwn(users: seq<User>, follows: seq<Follow>, posts: seq<Post>,
                              requester: string, date: DateArg, today: int)
    requires NoDuplicates(follows)
    ensures GetPost(users, follows, posts, requester, date, today) ==
      Filter(posts, (p: Post) => FeedCandidate(p, date, today) && Follow(requester, p.userId) in follows &&
                                 ShownAsWritten(users, follows, requester, p.userId))
      + PostsByUserId(posts, requester, today)
  {
    FollowedPostsAreAFilter(posts, follows, requester, date, today);
    FilterFilter(posts,
      (p: Post) => FeedCandidate(p, date, today) && Follow(requester, p.userId) in follows,
      (p: Post) => ShownAsWritten(users, follows, requester, p.userId),
      (p: Post) => FeedCandidate(p, date, today) && Follow(requester, p.userId) in follows &&
                   ShownAsWritten(users, follows, requester, p.userId));
  }

  /** The test passes for an author that is not private, and for an author
      the users table does not hold. For every private author the outcome
      is one and the same: whether the requester follows themself. */
  lemma PrivateOutcomeIsUniform(users: seq<User>, follows: seq<Follow>, requester: string, authorId: string)
    ensures FindUserByUserId(users, authorId).None? ==> ShownAsWritten(users, follows, requester, authorId)
    ensures FindUserByUserId(users, authorId).Some? && FindUserByUserId(users, authorId).value.isPrivate == 0
      ==> ShownAsWritten(users, follows, requester, authorId)
    ensures FindUserByUserId(users, authorId).Some? && FindUserByUserId(users, authorId).value.isPrivate != 0
      ==> (ShownAsWritten(users, follows, requester, authorId) <==>
           Follow(requester, requester) in follows && UserExists(users, requester))
  {
  }

  /** The feed is not de-duplicated: a requester who follows themself sees
      each of their own visible recent posts twice. */
  lemma SelfFollowRepeatsOwnPosts(users: seq<User>, follows: seq<Follow>, posts: seq<Post>,
                                  requester: string, today: int, p: Post)
    requires p in posts && p.userId == requester && p.hidden == 0 && InRecentWindow(p.createdAt, today)
    requires Follow(requester, requester) in follows
    ensures multiset(GetPost(users, follows, posts, requester, NoDate, today))[p] >= 2
  {
    var followed := PostsByFollowedUsers(posts, follows, requester, NoDate, today);
    var kept := Filter(followed, (q: Post) => ShownAsWritten(users, follows, requester, q.userId));
    var own := PostsByUserId(posts, requester, today);
    assert ShownAsWritten(users, follows, requester, p.userId);
    assert p in kept && p in own;
    assert multiset(kept + own) == multiset(kept) + multiset(own);
  }

  // ---------------------------------------------------------------------
  // getPost, with the mutual-follow test its variable name describes
  // ---------------------------------------------------------------------

  /** The intended test: a private author's post is shown when the
      requester follows the author and the author follows the requester,
      the test `getUser` applies to profiles. */
  function ShownMutual(users: seq<User>, follows: seq<Follow>, requester: string, authorId: string)
    : (shown: bool)
    ensures var poster := FindUserByUserId(users, authorId);
      shown <==> poster.None? || poster.value.isPrivate == 0 ||
                 (Follow(requester, authorId) in follows && Follow(authorId, requester) in follows &&
                  UserExists(users, requester))
  {
    var poster := FindUserByUserId(users, authorId);
    if poster.None? || poster.value.isPrivate == 0 then true
    else
      assert UserExists(users, authorId) by { assert poster.value in users; }
      requester in FindFollowers(users, follows, authorId) &&
      authorId in FindFollowers(users, follows, requester)
  }

  /** The feed with the mutual-follow test. */
  function GetPostMutual(users: seq<User>, follows: seq<Follow>, posts: seq<Post>, requester: string,
                         date: DateArg, today: int): (feed: seq<Post>)
    ensures forall p :: p in feed <==>
      (p in posts && FeedCandidate(p, date, today) && Follow(requester, p.userId) in follows &&
       ShownMutual(users, follows, requester, p.userId)) ||
      (p in posts && p.userId == requester && InRecentWindow(p.createdAt, today))
  {
    Filter(PostsByFollowedUsers(posts, follows, requester, date, today),
           (p: Post) => ShownMutual(users, follows, requester, p.userId))
    + PostsByUserId(posts, requester, today)
  }

  /** A visible post of a private author other than the requester reaches
      the corrected feed exactly when the two follow each other (and the
      requester is a user). */
  lemma PrivatePostNeedsMutualFollow(users: seq<User>, follows: seq<Follow>, posts: seq<Post>,
                                     requester: string, date: DateArg, today: int, p: Post)
    requires p in posts && FeedCandidate(p, date, today) && p.userId != requester
    requires FindUserByUserId(users, p.userId).Some? && FindUserByUserId(users, p.userId).value.isPrivate != 0
    ensures p in GetPostMutual(users, follows, posts, requester, date, today) <==>
      Follow(requester, p.userId) in follows && Follow(p.userId, requester) in follows &&
      UserExists(users, requester)
  {
    assert UserExists(users, p.userId);
  }

  /** The as-written test hides a private author's post from a mutual
      follower who does not follow themself; the corrected feed shows it. */
  lemma MutualFollowerMissesPrivatePost(ua: User, ub: User, p: Post, today: int)
    requires ua.userId != ub.userId && ub.isPrivate == 1
    requires p.userId == ub.userId && p.hidden == 0 && InRecentWindow(p.createdAt, today)
    ensures var users := [ua, ub];
      var follows := [Follow(ua.userId, ub.userId), Follow(ub.userId, ua.userId)];
      p !in GetPost(users, follows, [p], ua.userId, NoDate, today) &&
      p in GetPostMutual(users, follows, [p], ua.userId, NoDate, today)
  {
    var users := [ua, ub];
    var follows := [Follow(ua.userId, ub.userId), Follow(ub.userId, ua.userId)];
    assert FindUserByUserId(users, ub.userId) == Some(ub);
    assert Follow(ua.userId, ua.userId) !in follows;
    assert ua.userId !in FindFollowers(users, follows, ua.userId);
    assert ub in users && ua in users;
    assert ub.userId in FindFollowers(users, follows, ua.userId);
    assert ua.userId in FindFollowers(users, follows, ub.userId);
  }

  /** The as-written test shows a private author's post to a requester
      who follows the author and themself, though the author does not
      follow back; the corrected feed hides it. */
  lemma SelfFollowerSeesPrivatePost(ua: User, ub: User, p: Post, today: int)
    requires ua.userId != ub.userId && ub.isPrivate == 1
    requires p.userId == ub.userId && p.hidden == 0 && InRecentWindow(p.createdAt, today)
    ensures var users := [ua, ub];
      var follows := [Follow(ua.userId, ub.userId), Follow(ua.userId, ua.userId)];
      p in GetPost(users, follows, [p], ua.userId, NoDate, today) &&
      p !in GetPostMutual(users, follows, [p], ua.userId, NoDate, today)
  {
    var users := [ua, ub];
    var follows := [Follow(ua.userId, ub.userId), Follow(ua.userId, ua.userId)];
    assert FindUserByUserId(users, ub.userId) == Some(ub);
    assert ua in users;
    assert ua.userId in FindFollowers(users, follows, ua.userId);
    assert Follow(ub.userId, ua.userId) !in follows;
    assert ub.userId !in FindFollowers(users, follows, ua.userId);
  }
}
