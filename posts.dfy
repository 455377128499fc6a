/** The `posts` table (src/models/postModel.ts) and its three queries.
    Instants are milliseconds; a calendar date is the day number
    `DayOf(t)`, and the current date is passed in as `today`. */
module Posts {
  import opened Common
  import opened Follows

  /** A row of `posts`. Latitude and longitude are carried and never
      computed with; `hidden` is the 0/1 integer the column keeps. */
  datatype Post = Post(
    postId: string,
    userId: string,
    content: string,
    mediaUrl: string,
    latitude: real,
    longitude: real,
    createdAt: int,
    hidden: int)

  /** The five columns `updatePost` overwrites. */
  datatype PostEdit = PostEdit(
    content: string,
    mediaUrl: string,
    latitude: real,
    longitude: real,
    hidden: bool)

  /** The optional `date` argument of the feed query: absent (or the empty
      string), a calendar day, or a string `DATE(?)` cannot read, which
      makes the comparison NULL for every row. */
  datatype DateArg = NoDate | OnDate(day: int) | BadDate

  /** Every generated post id is `post:` followed by a UUID. */
  const PostIdPrefix := "post:"

  const MsPerDay := 86400000

  /** Length of the default window, `DATE('now', '-7 days')`. */
  const WindowDays := 7

  /** The calendar day an instant falls on, `DATE(t)`: the day whose
      span of milliseconds contains it. */
  function DayOf(t: int): (d: int)
    ensures MsPerDay * d <= t < MsPerDay * (d + 1)
  {
    t / MsPerDay
  }

  /** `p.createdAt >= DATE('now', '-7 days')`: comparing the stored
      timestamp text with a bare date keeps every post from the start of
      the day seven days back onward. */
  function InRecentWindow(createdAt: int, today: int): (recent: bool)
    ensures recent <==> createdAt >= MsPerDay * (today - WindowDays)
  {
    DayOf(createdAt) >= today - WindowDays
  }

  /** The date clause of the feed query: the default window, the posts of
      the day asked for, or nothing for a date `DATE(?)` cannot read. */
  function MatchesDate(createdAt: int, date: DateArg, today: int): (m: bool)
    ensures date.NoDate? ==> (m <==> createdAt >= MsPerDay * (today - WindowDays))
    ensures date.OnDate? ==> (m <==> MsPerDay * date.day <= createdAt < MsPerDay * (date.day + 1))
    ensures date.BadDate? ==> !m
  {
    match date
    case NoDate => InRecentWindow(createdAt, today)
    case OnDate(d) => DayOf(createdAt) == d
    case BadDate => false
  }

  /** The primary key holds. */
  predicate PostIdsUnique(rows: seq<Post>)
  {
    forall i, j :: 0 <= i < j < |rows| ==> rows[i].postId != rows[j].postId
  }

  /** The row `insertPost` writes: not hidden, stamped with the store's clock. */
  function NewPost(postId: string, userId: string, content: string, mediaUrl: string,
                   latitude: real, longitude: real, now: int): (p: Post)
    ensures p.postId == postId && p.userId == userId && p.content == content
    ensures p.mediaUrl == mediaUrl && p.latitude == latitude && p.longitude == longitude
    ensures p.createdAt == now && p.hidden == 0
  {
    Post(postId, userId, content, mediaUrl, latitude, longitude, now, 0)
  }

  /** The row `updatePost` leaves behind: the five listed columns are
      overwritten, the id, the owner and the creation time are kept. */
  function EditedPost(p: Post, edit: PostEdit): (q: Post)
    ensures q.postId == p.postId && q.userId == p.userId && q.createdAt == p.createdAt
    ensures q.content == edit.content && q.mediaUrl == edit.mediaUrl
    ensures q.latitude == edit.latitude && q.longitude == edit.longitude
    ensures q.hidden == 0 || q.hidden == 1
    ensures q.hidden == 1 <==> edit.hidden
  {
    p.(content := edit.content, mediaUrl := edit.mediaUrl, latitude := edit.latitude,
       longitude := edit.longitude, hidden := if edit.hidden then 1 else 0)
  }

  /** The table after `UPDATE posts SET ... WHERE postId = ?`. */
  function ApplyPostEdit(rows: seq<Post>, postId: string, edit: PostEdit): (r: seq<Post>)
    ensures |r| == |rows|
    ensures forall i :: 0 <= i < |rows| && rows[i].postId == postId ==> r[i] == EditedPost(rows[i], edit)
    ensures forall i :: 0 <= i < |rows| && rows[i].postId != postId ==> r[i] == rows[i]
  {
    MapRows(rows, (p: Post) => if p.postId == postId then EditedPost(p, edit) else p)
  }

  /** `SELECT * FROM posts WHERE postId = ?` */
  function FindPostByPostId(rows: seq<Post>, postId: string): (r: Option<Post>)
    ensures r.Some? ==> r.value in rows && r.value.postId == postId
    ensures r.None? <==> forall p :: p in rows ==> p.postId != postId
  {
    FirstWhere(rows, (p: Post) => p.postId == postId)
  }

  /** `n` copies of one post. */
  function Repeat(p: Post, n: nat): (r: seq<Post>)
    ensures |r| == n
    ensures forall q :: q in r ==> q == p
    decreases n
  {
    if n == 0 then [] else [p] + Repeat(p, n - 1)
  }

  /** A post the feed query can return for `userId` once a follows row
      links them: visible and inside the date clause. */
  predicate FeedCandidate(p: Post, date: DateArg, today: int): (c: bool)
    ensures c <==>
      (p.hidden == 0 &&
       match date
       case NoDate => p.createdAt >= MsPerDay * (today - WindowDays)
       case OnDate(d) => MsPerDay * d <= p.createdAt < MsPerDay * (d + 1)
       case BadDate => false)
  {
    p.hidden == 0 && MatchesDate(p.createdAt, date, today)
  }

  /** `getPostsByFollowedUsers`: `SELECT p.* FROM posts p JOIN follows f
      ON p.userId = f.followedId WHERE f.followerId = ? AND p.hidden = 0`
      plus the date clause. The join yields a post once for every follows
      row that links `userId` to its author. */
  function PostsByFollowedUsers(posts: seq<Post>, follows: seq<Follow>, userId: string,
                                date: DateArg, today: int): (r: seq<Post>)
    ensures forall p :: p in r <==>
      p in posts && FeedCandidate(p, date, today) && Follow(userId, p.userId) in follows
    decreases |posts|
  {
    if posts == [] then []
    else
      var p := posts[0];
      (if FeedCandidate(p, date, today)
       then Repeat(p, multiset(follows)[Follow(userId, p.userId)]) else [])
      + PostsByFollowedUsers(posts[1..], follows, userId, date, today)
  }

  /** With unique follow pairs the join is a plain filter of the posts
      table: each qualifying post appears once, in table order. */
  lemma {:induction false} FollowedPostsAreAFilter(posts: seq<Post>, follows: seq<Follow>,
                                                    userId: string, date: DateArg, today: int)
    requires NoDuplicates(follows)
    ensures PostsByFollowedUsers(posts, follows, userId, date, today)
         == Filter(posts, (p: Post) => FeedCandidate(p, date, today) && Follow(userId, p.userId) in follows)
    decreases |posts|
  {
    if posts != [] {
      var p := posts[0];
      NoDuplicatesCount(follows, Follow(userId, p.userId));
      FollowedPostsAreAFilter(posts[1..], follows, userId, date, today);
      if FeedCandidate(p, date, today) && Follow(userId, p.userId) in follows {
        assert Repeat(p, 1) == [p];
      }
    }
  }

  /** Because follow pairs are unique, no post appears twice in the feed
      query's result. */
  lemma FollowedPostsAreDistinct(posts: seq<Post>, follows: seq<Follow>, userId: string,
                                 date: DateArg, today: int)
    requires NoDuplicates(follows) && PostIdsUnique(posts)
    ensures NoDuplicates(PostsByFollowedUsers(posts, follows, userId, date, today))
  {
    FollowedPostsAreAFilter(posts, follows, userId, date, today);
    FilterNoDuplicates(posts, (p: Post) => FeedCandidate(p, date, today) && Follow(userId, p.userId) in follows);
  }

  /** `getPostsByUserId` without a date: every post of `userId` from the
      default window, hidden or not, in table order. */
  function PostsByUserId(posts: seq<Post>, userId: string, today: int): (r: seq<Post>)
    ensures forall p :: p in r <==> p in posts && p.userId == userId && InRecentWindow(p.createdAt, today)
  {
    Filter(posts, (p: Post) => p.userId == userId && InRecentWindow(p.createdAt, today))
  }

  /** The `posts` table. */
  class PostTable {
    var rows: seq<Post>

    ghost predicate Valid()
      reads this
    {
      PostIdsUnique(rows) && forall p :: p in rows ==> p.hidden == 0 || p.hidden == 1
    }

    constructor ()
      ensures Valid() && rows == []
    {
      rows := [];
    }

    /** `insertPost`: writes one visible row under the id `post:<uuid>` and
        resolves that id, or is rejected by the primary key and changes
        nothing when the id is already taken. */
    method InsertPost(uuid: string, userId: string, content: string, mediaUrl: string,
                      latitude: real, longitude: real, now: int) returns (r: Option<string>)
      requires Valid()
      modifies this
      ensures Valid()
      ensures r.Some? <==> forall p :: p in old(rows) ==> p.postId != PostIdPrefix + uuid
      ensures if r.Some? then
                r.value == PostIdPrefix + uuid &&
                rows == old(rows) + [NewPost(r.value, userId, content, mediaUrl, latitude, longitude, now)]
              else rows == old(rows)
    {
      var id := PostIdPrefix + uuid;
      if FindPostByPostId(rows, id).Some? {
        r := None;
      } else {
        var row := NewPost(id, userId, content, mediaUrl, latitude, longitude, now);
        assert forall i :: 0 <= i < |rows| ==> rows[i] in rows;
        rows := rows + [row];
        r := Some(id);
      }
    }

    /** `updatePost`: rewrites the row with that id and no other; with no
        such row nothing changes. */
    method UpdatePost(postId: string, edit: PostEdit)
      requires Valid()
      modifies this
      ensures Valid()
      ensures rows == ApplyPostEdit(old(rows), postId, edit)
    {
      var r := ApplyPostEdit(rows, postId, edit);
      forall q | q in r ensures q.hidden == 0 || q.hidden == 1 {
        var i :| 0 <= i < |r| && r[i] == q;
        assert rows[i] in rows;
      }
      rows := r;
    }
  }
}
