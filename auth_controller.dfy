/** The authentication handlers (src/controllers/authController.ts):
    registration, login with the issue of a refresh token, and the
    single-use rotation of refresh tokens. bcrypt and the JSON web token
    functions are parameters: `hash` and `compare` stand for bcrypt,
    `signAccess`/`signRefresh` for signing `{ userId }` with the access and
    refresh keys at instant `now`, and `verifyRefresh` for checking a token
    with the refresh key. */
module AuthController {
  import opened Common
  import opened Users
  import opened RefreshTokens
  import opened AuthMiddleware

  /** The two tokens a successful login or refresh sends back. */
  datatype TokenPair = TokenPair(accessToken: string, refreshToken: string)

  /** Seven days in milliseconds: how long a stored refresh token is valid. */
  const RefreshLifetimeMs := 7 * 24 * 60 * 60 * 1000

  /** The row a login or a refresh stores for the refresh token it issues. */
  function IssuedRow(uuid: string, userId: string, token: string, now: int): (t: RefreshTokenRow)
    ensures t.id == RefreshTokenIdPrefix + uuid && t.userId == userId && t.token == token
    ensures t.createdAt == now && t.expiresAt == now + 604800000
  {
    RefreshTokenRow(RefreshTokenIdPrefix + uuid, userId, token, now, now + RefreshLifetimeMs)
  }

  // ---------------------------------------------------------------------
  // register
  // ---------------------------------------------------------------------

  /** `register`: stores the user with `hash(password)` as its password and
      answers 201 with the new id, or 400 when the insert is refused. */
  method Register(users: UserTable, hash: string -> string, uuid: string, username: string,
                  email: string, password: string, isPrivate: bool, now: int)
    returns (reply: Reply<string>)
    requires users.Valid()
    modifies users
    ensures users.Valid()
    ensures reply.status == 201 || reply.status == 400
    ensures var row := NewUser(UserIdPrefix + uuid, username, email, hash(password), isPrivate, now);
      (reply.status == 201 <==> Insertable(old(users.rows), row)) &&
      (reply.status == 201 ==> reply.body == Some(row.userId) && users.rows == old(users.rows) + [row])
    ensures reply.status == 400 ==> reply.body.None? && users.rows == old(users.rows)
  {
    var r := users.InsertUser(uuid, username, email, hash(password), isPrivate, now);
    if r.Some? {
      reply := Reply(201, Some(r.value));
    } else {
      reply := Reply(400, None);
    }
  }

  // ---------------------------------------------------------------------
  // login
  // ---------------------------------------------------------------------

  /** `!value` for an optional body field: absent or the empty string. */
  predicate Falsy(value: Option<string>)
  {
    value.None? || value.value == ""
  }

  /** The account `login` looks up: by email when the username is falsy
      (an absent email matches no row), by username otherwise. */
  function LoginLookup(users: seq<User>, username: Option<string>, email: Option<string>): (r: Option<User>)
    ensures r.Some? ==> r.value in users
    ensures r.Some? && Falsy(username) ==> email == Some(r.value.email)
    ensures r.Some? && !Falsy(username) ==> username == Some(r.value.username)
    ensures r.None? <==>
      if Falsy(username) then email.None? || forall u :: u in users ==> u.email != email.value
      else forall u :: u in users ==> u.username != username.value
  {
    if Falsy(username) then
      if email.None? then None else FindUserByEmail(users, email.value)
    else FindUserByUsername(users, username.value)
  }

  /** With unique keys the lookup finds an account by its username, and by
      its email when no username is given. */
  lemma LoginFindsTheAccount(users: seq<User>, u: User, username: Option<string>, email: Option<string>)
    requires KeysUnique(users) && u in users
    ensures u.username != "" ==> LoginLookup(users, Some(u.username), email) == Some(u)
    ensures Falsy(username) ==> LoginLookup(users, username, Some(u.email)) == Some(u)
  {
    LookupsReturnTheKeyedRow(users, u);
  }

  /** `login`: 404 when no account is found and 401 when the password does
      not match, both without touching the token table; otherwise one
      refresh-token row for the account is stored and the two tokens are
      sent with 200, or 500 is sent when that insert is refused. */
  method Login(users: UserTable, tokens: RefreshTokenTable, username: Option<string>,
               email: Option<string>, password: string, compare: (string, string) -> bool,
               signAccess: (string, int) -> string, signRefresh: (string, int) -> string,
               uuid: string, now: int) returns (reply: Reply<TokenPair>)
    requires tokens.Valid()
    modifies tokens
    ensures tokens.Valid()
    ensures reply.status in {200, 401, 404, 500}
    ensures reply.status == 404 <==> LoginLookup(users.rows, username, email).None?
    ensures reply.status == 401 <==>
      LoginLookup(users.rows, username, email).Some? &&
      !compare(password, LoginLookup(users.rows, username, email).value.password)
    ensures reply.status != 200 ==> reply.body.None? && tokens.rows == old(tokens.rows)
    ensures reply.status == 200 || reply.status == 500 ==>
      var u := LoginLookup(users.rows, username, email).value;
      var row := IssuedRow(uuid, u.userId, signRefresh(u.userId, now), now);
      (reply.status == 200 <==> forall t :: t in old(tokens.rows) ==> t.id != row.id) &&
      (reply.status == 200 ==>
         reply.body == Some(TokenPair(signAccess(u.userId, now), row.token)) &&
         tokens.rows == old(tokens.rows) + [row])
  {
    var user := LoginLookup(users.rows, username, email);
    if user.None? {
      return Reply(404, None);
    }
    var u := user.value;
    if !compare(password, u.password) {
      return Reply(401, None);
    }
    var accessToken := signAccess(u.userId, now);
    var refreshToken := signRefresh(u.userId, now);
    var r := tokens.InsertRefreshToken(uuid, u.userId, refreshToken, now + RefreshLifetimeMs, now);
    if r.Some? {
      reply := Reply(200, Some(TokenPair(accessToken, refreshToken)));
    } else {
      reply := Reply(500, None);
    }
  }

  // ---------------------------------------------------------------------
  // refreshToken
  // ---------------------------------------------------------------------

  /** The token table after a rotation: the presented row deleted by id and
      the newly issued row appended. */
  function Rotated(rows: seq<RefreshTokenRow>, id: string, issued: RefreshTokenRow): (r: seq<RefreshTokenRow>)
    ensures forall t :: t in r <==> (t in rows && t.id != id) || t == issued
  {
    WithoutId(rows, id) + [issued]
  }

  /** A rotation retires the presented token: when no other row carries the
      same token string and the new token differs from it, presenting it
      again finds nothing, so it is answered with 403. */
  lemma RotationRetiresToken(rows: seq<RefreshTokenRow>, stored: RefreshTokenRow,
                             issued: RefreshTokenRow, token: string)
    requires stored in rows && stored.token == token
    requires forall t :: t in rows && t.token == token ==> t.id == stored.id
    requires issued.token != token
    ensures FindRefreshToken(Rotated(rows, stored.id, issued), token).None?
    ensures FindRefreshToken(Rotated(rows, stored.id, issued), issued.token) == Some(issued) ||
            exists t :: t in rows && t.id != stored.id && t.token == issued.token
  {
    var r := Rotated(rows, stored.id, issued);
    var found := FindRefreshToken(r, issued.token);
    if forall t :: t in rows && t.id != stored.id ==> t.token != issued.token {
      var k := |r| - 1;
      assert r[k] == issued;
      forall i | 0 <= i < k ensures r[i].token != issued.token {
        assert r[i] in WithoutId(rows, stored.id);
      }
      FirstWhereIsFirst(r, (t: RefreshTokenRow) => t.token == issued.token, k);
    }
  }

  /** Two logins of one user within the same second sign the same refresh
      token, so the table can hold two rows carrying it. Refreshing with it
      deletes only the row found first, by its id, and the same token is
      then accepted a second time through the other row. The rotation that
      deletes by token leaves nothing to accept. */
  lemma SameSecondLoginsAcceptTokenTwice(uuid1: string, uuid2: string, userId: string, token: string,
                                          now: int, issued: RefreshTokenRow)
    requires uuid1 != uuid2 && issued.token != token
    ensures var first := IssuedRow(uuid1, userId, token, now);
      var second := IssuedRow(uuid2, userId, token, now);
      FindRefreshToken([first, second], token) == Some(first) &&
      FindRefreshToken(Rotated([first, second], first.id, issued), token) == Some(second) &&
      FindRefreshToken(RotatedByToken([first, second], token, issued), token).None?
  {
    var first := IssuedRow(uuid1, userId, token, now);
    var second := IssuedRow(uuid2, userId, token, now);
    assert first.id != second.id by {
      assert first.id[|RefreshTokenIdPrefix|..] == uuid1;
      assert second.id[|RefreshTokenIdPrefix|..] == uuid2;
    }
    assert WithoutId([first, second], first.id) == [second];
    RotationByTokenRetiresToken([first, second], token, issued);
  }

  /** The rotation that retires a token however many rows carry it: every
      row holding the presented token string is deleted, then the newly
      issued row is appended. */
  function RotatedByToken(rows: seq<RefreshTokenRow>, token: string, issued: RefreshTokenRow)
    : (r: seq<RefreshTokenRow>)
    ensures forall t :: t in r <==> (t in rows && t.token != token) || t == issued
  {
    Filter(rows, (t: RefreshTokenRow) => t.token != token) + [issued]
  }

  /** After the rotation by token, presenting the old token finds nothing,
      whatever the table held, unless the new token is the very same
      string, in which case it finds only the new row. */
  lemma RotationByTokenRetiresToken(rows: seq<RefreshTokenRow>, token: string, issued: RefreshTokenRow)
    ensures FindRefreshToken(RotatedByToken(rows, token, issued), token) ==
            if issued.token == token then Some(issued) else None
  {
    var r := RotatedByToken(rows, token, issued);
    if issued.token == token {
      var k := |r| - 1;
      assert r[k] == issued;
      forall i | 0 <= i < k ensures r[i].token != token {
        assert r[i] in Filter(rows, (t: RefreshTokenRow) => t.token != token);
      }
      FirstWhereIsFirst(r, (t: RefreshTokenRow) => t.token == token, k);
    }
  }

  /** `refreshToken`: 403 and no change when the token is not stored or does
      not verify; otherwise the stored row is deleted by id and a row for the
      new refresh token of the verified user is inserted, and the new pair is
      sent with 200. The handler has no error handler, so when that insert
      is refused after the delete no reply is sent (`status` is `None`). */
  method RefreshToken(tokens: RefreshTokenTable, token: string, verifyRefresh: string -> Option<Claims>,
                      signAccess: (string, int) -> string, signRefresh: (string, int) -> string,
                      uuid: string, now: int) returns (status: Option<nat>, pair: Option<TokenPair>)
    requires tokens.Valid()
    modifies tokens
    ensures tokens.Valid()
    ensures status == None || status == Some(200) || status == Some(403)
    ensures status == Some(403) <==>
      FindRefreshToken(old(tokens.rows), token).None? || verifyRefresh(token).None?
    ensures status != Some(200) ==> pair.None?
    ensures status == Some(403) ==> tokens.rows == old(tokens.rows)
    ensures status != Some(403) ==>
      var stored := FindRefreshToken(old(tokens.rows), token).value;
      var userId := verifyRefresh(token).value.userId;
      var issued := IssuedRow(uuid, userId, signRefresh(userId, now), now);
      (status == Some(200) <==> forall t :: t in WithoutId(old(tokens.rows), stored.id) ==> t.id != issued.id) &&
      (status == Some(200) ==>
         tokens.rows == Rotated(old(tokens.rows), stored.id, issued) &&
         pair == Some(TokenPair(signAccess(userId, now), issued.token))) &&
      (status == None ==> tokens.rows == WithoutId(old(tokens.rows), stored.id)) &&
      (forall t :: t in tokens.rows && t.id == stored.id ==> t == issued)
  {
    var stored := FindRefreshToken(tokens.rows, token);
    if stored.None? {
      return Some(403), None;
    }
    var payload := verifyRefresh(token);
    if payload.None? {
      return Some(403), None;
    }
    var userId := payload.value.userId;
    var accessToken := signAccess(userId, now);
    var refreshToken := signRefresh(userId, now);
    tokens.DeleteRefreshToken(stored.value.id);
    var r := tokens.InsertRefreshToken(uuid, userId, refreshToken, now + RefreshLifetimeMs, now);
    if r.Some? {
      status, pair := Some(200), Some(TokenPair(accessToken, refreshToken));
    } else {
      status, pair := None, None;
    }
  }
}
