/** The user handlers (src/controllers/userController.ts): editing one's own
    profile, following and unfollowing, listing followers and followings,
    and the profile lookup with its private-account gate. The requester is
    the `userId` the access token carried. */
module UserController {
  import opened Common
  import opened Users
  import opened Follows

  // ---------------------------------------------------------------------
  // Profiles
  // ---------------------------------------------------------------------

  /** A user row with the `password` key removed: what `getUser` sends. */
  datatype Profile = Profile(
    userId: string,
    username: string,
    email: string,
    createdAt: int,
    fullName: Option<string>,
    bio: Option<string>,
    profilePictureUrl: Option<string>,
    isPrivate: int)

  /** The `Object.entries(user).filter(key !== "password")` projection. */
  function StripPassword(u: User): (pr: Profile)
    ensures pr.userId == u.userId && pr.username == u.username && pr.email == u.email
    ensures pr.createdAt == u.createdAt && pr.fullName == u.fullName && pr.bio == u.bio
    ensures pr.profilePictureUrl == u.profilePictureUrl && pr.isPrivate == u.isPrivate
  {
    Profile(u.userId, u.username, u.email, u.createdAt, u.fullName, u.bio, u.profilePictureUrl, u.isPrivate)
  }

  /** The row a profile was projected from, given the password back. */
  function WithPassword(pr: Profile, password: string): User
  {
    User(pr.userId, pr.username, pr.email, password, pr.createdAt, pr.fullName, pr.bio,
         pr.profilePictureUrl, pr.isPrivate)
  }

  /** The projection drops the password and nothing else: the row is the
      profile plus its password, and rows that differ only in the password
      give the same profile. */
  lemma StripPasswordDropsOnlyPassword(u: User, password: string)
    ensures WithPassword(StripPassword(u), u.password) == u
    ensures StripPassword(u.(password := password)) == StripPassword(u)
  {
  }

  /** Whether the profile of `userId` may be shown to `requester`: a public
      account always; a private one when the requester is among its
      followers and it is among the requester's followers. */
  function ProfileVisible(users: seq<User>, follows: seq<Follow>, requester: string, target: User)
    : (visible: bool)
    ensures visible <==>
      target.isPrivate == 0 ||
      (Follow(requester, target.userId) in follows && UserExists(users, requester) &&
       Follow(target.userId, requester) in follows && UserExists(users, target.userId))
  {
    target.isPrivate == 0 ||
    (requester in FindFollowers(users, follows, target.userId) &&
     target.userId in FindFollowers(users, follows, requester))
  }

  /** `getUser`: 404 when no user has the id; the password-free profile with
      200 when the account is public or the two users follow each other;
      400 "Account is private" otherwise. */
  function GetUser(users: seq<User>, follows: seq<Follow>, requester: string, userId: string)
    : (r: Reply<Profile>)
    ensures r.status == 200 || r.status == 400 || r.status == 404
    ensures r.status == 404 <==> FindUserByUserId(users, userId).None?
    ensures r.status == 200 <==>
      FindUserByUserId(users, userId).Some? &&
      (FindUserByUserId(users, userId).value.isPrivate == 0 ||
       (Follow(requester, userId) in follows && UserExists(users, requester) &&
        Follow(userId, requester) in follows))
    ensures r.status == 200 ==> r.body == Some(StripPassword(FindUserByUserId(users, userId).value))
    ensures r.status != 200 ==> r.body.None?
  {
    match FindUserByUserId(users, userId)
    case None => Reply(404, None)
    case Some(u) =>
      assert UserExists(users, u.userId);
      if ProfileVisible(users, follows, requester, u) then Reply(200, Some(StripPassword(u)))
      else Reply(400, None)
  }

  /** Between two private accounts the gate is symmetric: each may see the
      other's profile or neither may. */
  lemma PrivateGateIsSymmetric(users: seq<User>, follows: seq<Follow>, a: User, b: User)
    requires KeysUnique(users) && a in users && b in users
    requires a.isPrivate != 0 && b.isPrivate != 0
    ensures GetUser(users, follows, a.userId, b.userId).status ==
            GetUser(users, follows, b.userId, a.userId).status
  {
    LookupsReturnTheKeyedRow(users, a);
    LookupsReturnTheKeyedRow(users, b);
  }

  // ---------------------------------------------------------------------
  // Listings
  // ---------------------------------------------------------------------

  /** `getFollowers`: 200 with the existing users who follow the requester. */
  function GetFollowers(users: seq<User>, follows: seq<Follow>, requester: string): (r: Reply<seq<string>>)
    ensures r.status == 200 && r.body.Some?
    ensures forall u :: u in r.body.value <==> Follow(u, requester) in follows && UserExists(users, u)
  {
    Reply(200, Some(FindFollowers(users, follows, requester)))
  }

  /** `getFollowings`: 200 with the existing users the requester follows. */
  function GetFollowings(users: seq<User>, follows: seq<Follow>, requester: string): (r: Reply<seq<string>>)
    ensures r.status == 200 && r.body.Some?
    ensures forall u :: u in r.body.value <==> Follow(requester, u) in follows && UserExists(users, u)
  {
    Reply(200, Some(FindFollowings(users, follows, requester)))
  }

  // ---------------------------------------------------------------------
  // Changes
  // ---------------------------------------------------------------------

  /** `followUser`: adds the pair (requester, followedId) and answers 200,
      or answers 500 and changes nothing when the pair is already there. */
  method FollowUser(table: FollowTable, requester: string, followedId: string) returns (status: nat)
    requires table.Valid()
    modifies table
    ensures table.Valid()
    ensures status == 200 || status == 500
    ensures status == 200 <==> Follow(requester, followedId) !in old(table.rows)
    ensures status == 200 ==> table.rows == old(table.rows) + [Follow(requester, followedId)]
    ensures status == 500 ==> table.rows == old(table.rows)
  {
    var ok := table.CreateFollow(requester, followedId);
    status := if ok then 200 else 500;
  }

  /** `unFollowUser`: removes the pair (requester, followedId), if present,
      keeps every other pair, and answers 200. */
  method UnFollowUser(table: FollowTable, requester: string, followedId: string) returns (status: nat)
    requires table.Valid()
    modifies table
    ensures table.Valid()
    ensures status == 200
    ensures Follow(requester, followedId) !in table.rows
    ensures forall f :: f != Follow(requester, followedId) ==> (f in table.rows <==> f in old(table.rows))
  {
    table.DeleteFollow(requester, followedId);
    status := 200;
  }

  /** `editUser`: overwrites the requester's seven columns, storing
      `hash(password)` in place of the password given, and answers 200; or
      answers 500 and changes nothing when the new username or email is
      held by another user. */
  method EditUser(table: UserTable, requester: string, hash: string -> string,
                  username: string, email: string, password: string, fullName: string,
                  bio: string, profilePictureUrl: string, isPrivate: bool) returns (status: nat)
    requires table.Valid()
    modifies table
    ensures table.Valid()
    ensures var edit := UserEdit(username, email, hash(password), fullName, bio, profilePictureUrl, isPrivate);
      (status == 200 <==> !UpdateConflicts(old(table.rows), requester, edit)) &&
      (status == 200 ==> table.rows == ApplyUserEdit(old(table.rows), requester, edit))
    ensures status == 200 || status == 500
    ensures status == 500 ==> table.rows == old(table.rows)
    ensures status == 200 ==> forall u :: u in table.rows && u.userId == requester ==> u.password == hash(password)
    ensures |table.rows| == |old(table.rows)|
    ensures forall i :: 0 <= i < |old(table.rows)| && old(table.rows)[i].userId != requester ==>
      table.rows[i] == old(table.rows)[i]
  {
    var edit := UserEdit(username, email, hash(password), fullName, bio, profilePictureUrl, isPrivate);
    var ok := table.UpdateUser(requester, edit);
    status := if ok then 200 else 500;
  }
}
