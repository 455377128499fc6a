/** The `refreshTokens` table (src/models/RefreshTokenModel.ts): `id` is
    the primary key; the token column carries no uniqueness constraint,
    so one token string may sit in several rows. */
module RefreshTokens {
  import opened Common

  /** A row of `refreshTokens`; instants are milliseconds. */
  datatype RefreshTokenRow = RefreshTokenRow(
    id: string,
    userId: string,
    token: string,
    createdAt: int,
    expiresAt: int)

  /** Every generated row id is `refreshToken:` followed by a UUID. */
  const RefreshTokenIdPrefix := "refreshToken:"

  /** The primary key holds. */
  predicate IdsUnique(rows: seq<RefreshTokenRow>)
  {
    forall i, j :: 0 <= i < j < |rows| ==> rows[i].id != rows[j].id
  }

  /** `SELECT * FROM refreshTokens WHERE token = ?` through `db.get`: the
      first row holding the token, or `undefined`. */
  function FindRefreshToken(rows: seq<RefreshTokenRow>, token: string): (r: Option<RefreshTokenRow>)
    ensures r.Some? ==> r.value in rows && r.value.token == token
    ensures r.None? <==> forall t :: t in rows ==> t.token != token
  {
    FirstWhere(rows, (t: RefreshTokenRow) => t.token == token)
  }

  /** `DELETE FROM refreshTokens WHERE id = ?` */
  function WithoutId(rows: seq<RefreshTokenRow>, id: string): (r: seq<RefreshTokenRow>)
    ensures forall t :: t in r <==> t in rows && t.id != id
  {
    Filter(rows, (t: RefreshTokenRow) => t.id != id)
  }

  /** `DELETE FROM refreshTokens WHERE userId = ?` */
  function WithoutUser(rows: seq<RefreshTokenRow>, userId: string): (r: seq<RefreshTokenRow>)
    ensures forall t :: t in r <==> t in rows && t.userId != userId
  {
    Filter(rows, (t: RefreshTokenRow) => t.userId != userId)
  }

  /** Deleting one id keeps the other rows in their order and keeps the
      primary key unique. */
  lemma WithoutIdKeepsIdsUnique(rows: seq<RefreshTokenRow>, id: string)
    requires IdsUnique(rows)
    ensures IdsUnique(WithoutId(rows, id))
    ensures |WithoutId(rows, id)| >= |rows| - 1
  {
    IdsUniqueFilter(rows, (t: RefreshTokenRow) => t.id != id);
    DeleteOneId(rows, id);
  }

  /** A filter of a table with a unique key keeps the key unique. */
  lemma {:induction false} IdsUniqueFilter(rows: seq<RefreshTokenRow>, p: RefreshTokenRow -> bool)
    requires IdsUnique(rows)
    ensures IdsUnique(Filter(rows, p))
    decreases |rows|
  {
    if rows != [] {
      IdsUniqueFilter(rows[1..], p);
      var rest := Filter(rows[1..], p);
      if p(rows[0]) {
        forall t | t in rest ensures t.id != rows[0].id {
          var j :| 0 <= j < |rows[1..]| && rows[1..][j] == t;
          assert rows[j + 1] == t;
        }
        var r := [rows[0]] + rest;
        forall i, j | 0 <= i < j < |r| ensures r[i].id != r[j].id {
          if i == 0 {
            assert r[j] in rest;
          } else {
            assert r[i] == rest[i - 1] && r[j] == rest[j - 1];
          }
        }
      }
    }
  }

  /** With unique ids, deleting by id removes at most one row. */
  lemma {:induction false} DeleteOneId(rows: seq<RefreshTokenRow>, id: string)
    requires IdsUnique(rows)
    ensures |WithoutId(rows, id)| >= |rows| - 1
    decreases |rows|
  {
    if rows != [] {
      DeleteOneId(rows[1..], id);
      if rows[0].id == id {
        forall t | t in rows[1..] ensures t.id != id {
          var j :| 0 <= j < |rows[1..]| && rows[1..][j] == t;
          assert rows[j + 1] == t;
        }
        FilterKeepsAll(rows[1..], (t: RefreshTokenRow) => t.id != id);
      }
    }
  }

  /** The `refreshTokens` table. */
  class RefreshTokenTable {
    var rows: seq<RefreshTokenRow>

    ghost predicate Valid()
      reads this
    {
      IdsUnique(rows)
    }

    constructor ()
      ensures Valid() && rows == []
    {
      rows := [];
    }

    /** `insertRefreshToken`: writes one row under the id
        `refreshToken:<uuid>` and resolves that id, or is rejected by the
        primary key and changes nothing when the id is already taken. */
    method InsertRefreshToken(uuid: string, userId: string, token: string, expiresAt: int, now: int)
      returns (r: Option<string>)
      requires Valid()
      modifies this
      ensures Valid()
      ensures r.Some? <==> forall t :: t in old(rows) ==> t.id != RefreshTokenIdPrefix + uuid
      ensures if r.Some? then
                r.value == RefreshTokenIdPrefix + uuid &&
                rows == old(rows) + [RefreshTokenRow(r.value, userId, token, now, expiresAt)]
              else rows == old(rows)
    {
      var id := RefreshTokenIdPrefix + uuid;
      if exists t :: t in rows && t.id == id {
        r := None;
      } else {
        assert forall i :: 0 <= i < |rows| ==> rows[i] in rows;
        rows := rows + [RefreshTokenRow(id, userId, token, now, expiresAt)];
        r := Some(id);
      }
    }

    /** `deleteRefreshToken`: removes the row with that id and only it. */
    method DeleteRefreshToken(id: string)
      requires Valid()
      modifies this
      ensures Valid()
      ensures rows == WithoutId(old(rows), id)
    {
      WithoutIdKeepsIdsUnique(rows, id);
      rows := WithoutId(rows, id);
    }

    /** `deleteRefreshTokensByUserId`: removes every row of that user and
        leaves the rows of other users in place. */
    method DeleteRefreshTokensByUserId(userId: string)
      requires Valid()
      modifies this
      ensures Valid()
      ensures rows == WithoutUser(old(rows), userId)
      ensures forall t :: t in rows ==> t.userId != userId
    {
      IdsUniqueFilter(rows, (t: RefreshTokenRow) => t.userId != userId);
      rows := WithoutUser(rows, userId);
    }
  }
}
