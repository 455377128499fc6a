/** The `follows` table (src/models/followModel.ts): one row per ordered
    pair (followerId, followedId), the pair being the primary key. The
    `REFERENCES users` clauses are not enforced (the store never turns
    foreign keys on), so a row may name a user that does not exist; the
    two listing queries join with `users` and drop such rows. */
module Follows {
  import opened Common
  import opened Users

  /** A row of `follows`: `followerId` follows `followedId`. */
  datatype Follow = Follow(followerId: string, followedId: string)

  /** `SELECT u.userId FROM users u JOIN follows f ON u.userId = f.followerId
      WHERE f.followedId = ?`: the existing users who follow `followedId`,
      one entry per matching row, in table order. */
  function FindFollowers(users: seq<User>, follows: seq<Follow>, followedId: string): (ids: seq<string>)
    ensures |ids| <= |follows|
    ensures forall u :: u in ids <==> Follow(u, followedId) in follows && UserExists(users, u)
    decreases |follows|
  {
    if follows == [] then []
    else
      var f := follows[0];
      (if f.followedId == followedId && UserExists(users, f.followerId) then [f.followerId] else [])
      + FindFollowers(users, follows[1..], followedId)
  }

  /** `SELECT u.userId FROM users u JOIN follows f ON u.userId = f.followedId
      WHERE f.followerId = ?`: the existing users `followerId` follows. */
  function FindFollowings(users: seq<User>, follows: seq<Follow>, followerId: string): (ids: seq<string>)
    ensures |ids| <= |follows|
    ensures forall u :: u in ids <==> Follow(followerId, u) in follows && UserExists(users, u)
    decreases |follows|
  {
    if follows == [] then []
    else
      var f := follows[0];
      (if f.followerId == followerId && UserExists(users, f.followedId) then [f.followedId] else [])
      + FindFollowings(users, follows[1..], followerId)
  }

  /** Between existing users the two listings are the two sides of one
      relation: `u` is among the followers of `x` exactly when `x` is among
      the followings of `u`. */
  lemma FollowersMirrorFollowings(users: seq<User>, follows: seq<Follow>, u: string, x: string)
    requires UserExists(users, u) && UserExists(users, x)
    ensures u in FindFollowers(users, follows, x) <==> x in FindFollowings(users, follows, u)
  {
  }

  /** On a table with unique pairs no follower is listed twice. */
  lemma {:induction false} FollowersAreDistinct(users: seq<User>, follows: seq<Follow>, followedId: string)
    requires NoDuplicates(follows)
    ensures NoDuplicates(FindFollowers(users, follows, followedId))
    decreases |follows|
  {
    if follows != [] {
      var f := follows[0];
      FollowersAreDistinct(users, follows[1..], followedId);
      if f.followedId == followedId && UserExists(users, f.followerId) {
        assert f !in follows[1..];
        assert f.followerId !in FindFollowers(users, follows[1..], followedId);
      }
    }
  }

  /** The `follows` table. */
  class FollowTable {
    var rows: seq<Follow>

    ghost predicate Valid()
      reads this
    {
      NoDuplicates(rows)
    }

    constructor ()
      ensures Valid() && rows == []
    {
      rows := [];
    }

    /** `createFollow`: adds exactly the pair, or is rejected by the
        primary key and changes nothing when the pair is already there.
        A self-follow is accepted like any other pair. */
    method CreateFollow(followerId: string, followedId: string) returns (ok: bool)
      requires Valid()
      modifies this
      ensures Valid()
      ensures ok <==> Follow(followerId, followedId) !in old(rows)
      ensures rows == if ok then old(rows) + [Follow(followerId, followedId)] else old(rows)
    {
      var pair := Follow(followerId, followedId);
      if pair in rows {
        ok := false;
      } else {
        rows := rows + [pair];
        ok := true;
      }
    }

    /** `delteFollow`: removes the matching pair, keeps every other row in
        order, and succeeds without change when the pair is absent. */
    method DeleteFollow(followerId: string, followedId: string)
      requires Valid()
      modifies this
      ensures Valid()
      ensures rows == Filter(old(rows), (f: Follow) => f != Follow(followerId, followedId))
      ensures Follow(followerId, followedId) !in rows
      ensures forall f :: f != Follow(followerId, followedId) ==> (f in rows <==> f in old(rows))
    {
      FilterNoDuplicates(rows, (f: Follow) => f != Follow(followerId, followedId));
      rows := Filter(rows, (f: Follow) => f != Follow(followerId, followedId));
    }
  }
}
