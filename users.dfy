/** The `users` table (src/models/userModel.ts): `userId` is the primary
    key and `username` and `email` are UNIQUE, so an insert or an update
    that would repeat one of them is refused by the store. */
module Users {
  import opened Common

  /** A row of `users`. `password` holds the stored digest, the three
      optional profile columns are NULL until `updateUser` sets them, and
      `isPrivate` is the 0/1 integer the column keeps. */
  datatype User = User(
    userId: string,
    username: string,
    email: string,
    password: string,
    createdAt: int,
    fullName: Option<string>,
    bio: Option<string>,
    profilePictureUrl: Option<string>,
    isPrivate: int)

  /** The seven columns `updateUser` overwrites. */
  datatype UserEdit = UserEdit(
    username: string,
    email: string,
    password: string,
    fullName: string,
    bio: string,
    profilePictureUrl: string,
    isPrivate: bool)

  /** Every generated user id is `user:` followed by a UUID. */
  const UserIdPrefix := "user:"

  /** `Number(isPrivate)`: the integer a boolean flag is stored as. */
  function PrivateFlag(b: bool): (n: int)
    ensures n == 0 || n == 1
    ensures n == 1 <==> b
  {
    if b then 1 else 0
  }

  /** The PRIMARY KEY and both UNIQUE constraints hold. */
  predicate KeysUnique(rows: seq<User>)
  {
    forall i, j :: 0 <= i < j < |rows| ==>
      rows[i].userId != rows[j].userId &&
      rows[i].username != rows[j].username &&
      rows[i].email != rows[j].email
  }

  /** No existing row shares a key with `row`: the condition under which
      SQLite accepts the `INSERT`. */
  predicate Insertable(rows: seq<User>, row: User): (ok: bool)
    ensures ok <==> FindUserByUserId(rows, row.userId).None? &&
                    FindUserByUsername(rows, row.username).None? &&
                    FindUserByEmail(rows, row.email).None?
  {
    forall u :: u in rows ==>
      u.userId != row.userId && u.username != row.username && u.email != row.email
  }

  /** The row `insertUser` writes: the defaulted columns are NULL, the
      creation time is the store's clock and the flag is stored as 0/1. */
  function NewUser(userId: string, username: string, email: string, password: string,
                   isPrivate: bool, now: int): (u: User)
    ensures u.userId == userId && u.username == username && u.email == email
    ensures u.password == password && u.createdAt == now
    ensures u.fullName.None? && u.bio.None? && u.profilePictureUrl.None?
    ensures u.isPrivate == 0 || u.isPrivate == 1
    ensures u.isPrivate == 1 <==> isPrivate
  {
    User(userId, username, email, password, now, None, None, None, PrivateFlag(isPrivate))
  }

  /** Appending a row keeps every key unique exactly when the table was
      unique and the row is insertable: the store refuses precisely the
      inserts that would break a constraint. */
  lemma AppendKeepsKeysUnique(rows: seq<User>, row: User)
    ensures KeysUnique(rows + [row]) <==> KeysUnique(rows) && Insertable(rows, row)
  {
    var s := rows + [row];
    if KeysUnique(s) {
      forall u | u in rows
        ensures u.userId != row.userId && u.username != row.username && u.email != row.email
      {
        var i :| 0 <= i < |rows| && rows[i] == u;
        assert s[i] == u && s[|rows|] == row;
      }
      forall i, j | 0 <= i < j < |rows|
        ensures rows[i].userId != rows[j].userId && rows[i].username != rows[j].username
        ensures rows[i].email != rows[j].email
      {
        assert s[i] == rows[i] && s[j] == rows[j];
      }
    }
    if KeysUnique(rows) && Insertable(rows, row) {
      forall i, j | 0 <= i < j < |s|
        ensures s[i].userId != s[j].userId && s[i].username != s[j].username
        ensures s[i].email != s[j].email
      {
        if j == |rows| {
          assert s[i] in rows;
        }
      }
    }
  }

  /** The row `updateUser` leaves behind: the seven listed columns are
      overwritten and `userId` and `createdAt` are kept. */
  function EditedUser(u: User, edit: UserEdit): (v: User)
    ensures v.userId == u.userId && v.createdAt == u.createdAt
    ensures v.username == edit.username && v.email == edit.email
    ensures v.password == edit.password
    ensures v.fullName == Some(edit.fullName) && v.bio == Some(edit.bio)
    ensures v.profilePictureUrl == Some(edit.profilePictureUrl)
    ensures v.isPrivate == 0 || v.isPrivate == 1
    ensures v.isPrivate == 1 <==> edit.isPrivate
  {
    u.(username := edit.username, email := edit.email, password := edit.password,
       fullName := Some(edit.fullName), bio := Some(edit.bio),
       profilePictureUrl := Some(edit.profilePictureUrl),
       isPrivate := PrivateFlag(edit.isPrivate))
  }

  /** The table after `UPDATE users SET ... WHERE userId = ?`. */
  function ApplyUserEdit(rows: seq<User>, userId: string, edit: UserEdit): (r: seq<User>)
    ensures |r| == |rows|
    ensures forall i :: 0 <= i < |rows| && rows[i].userId == userId ==> r[i] == EditedUser(rows[i], edit)
    ensures forall i :: 0 <= i < |rows| && rows[i].userId != userId ==> r[i] == rows[i]
  {
    MapRows(rows, (u: User) => if u.userId == userId then EditedUser(u, edit) else u)
  }

  /** The update touches a row and the new username or email is already
      held by some other row: SQLite rejects the statement. */
  predicate UpdateConflicts(rows: seq<User>, userId: string, edit: UserEdit)
  {
    (exists u :: u in rows && u.userId == userId) &&
    (exists v :: v in rows && v.userId != userId &&
                 (v.username == edit.username || v.email == edit.email))
  }

  /** With unique keys, a conflict is what the three lookups see: the row
      being edited exists, and the lookup of the new username or of the new
      email returns a row with another id. */
  lemma ConflictIsSeenByLookup(rows: seq<User>, userId: string, edit: UserEdit)
    requires KeysUnique(rows)
    ensures UpdateConflicts(rows, userId, edit) <==>
      FindUserByUserId(rows, userId).Some? &&
      ((FindUserByUsername(rows, edit.username).Some? &&
        FindUserByUsername(rows, edit.username).value.userId != userId) ||
       (FindUserByEmail(rows, edit.email).Some? &&
        FindUserByEmail(rows, edit.email).value.userId != userId))
  {
    if UpdateConflicts(rows, userId, edit) {
      var v :| v in rows && v.userId != userId &&
               (v.username == edit.username || v.email == edit.email);
      LookupsReturnTheKeyedRow(rows, v);
    }
  }

  /** On a table whose keys are unique, the edited table is unique exactly
      when the update does not conflict: the store rejects the updates
      that would break uniqueness and only those. */
  lemma UpdateKeepsKeysUnique(rows: seq<User>, userId: string, edit: UserEdit)
    requires KeysUnique(rows)
    ensures KeysUnique(ApplyUserEdit(rows, userId, edit)) <==> !UpdateConflicts(rows, userId, edit)
  {
    if UpdateConflicts(rows, userId, edit) {
      ConflictBreaksKeys(rows, userId, edit);
    } else {
      NoConflictKeepsKeys(rows, userId, edit);
    }
  }

  /** A conflicting update would leave two rows sharing a username or an
      email. */
  lemma ConflictBreaksKeys(rows: seq<User>, userId: string, edit: UserEdit)
    requires UpdateConflicts(rows, userId, edit)
    ensures !KeysUnique(ApplyUserEdit(rows, userId, edit))
  {
    var r := ApplyUserEdit(rows, userId, edit);
    var u :| u in rows && u.userId == userId;
    var v :| v in rows && v.userId != userId &&
             (v.username == edit.username || v.email == edit.email);
    var i :| 0 <= i < |rows| && rows[i] == u;
    var j :| 0 <= j < |rows| && rows[j] == v;
    assert r[i] == EditedUser(u, edit) && r[j] == v;
    if i < j {
      assert !(r[i].username != r[j].username && r[i].email != r[j].email);
    } else {
      assert !(r[j].username != r[i].username && r[j].email != r[i].email);
    }
  }

  /** An update that does not conflict keeps every key unique. */
  lemma NoConflictKeepsKeys(rows: seq<User>, userId: string, edit: UserEdit)
    requires KeysUnique(rows) && !UpdateConflicts(rows, userId, edit)
    ensures KeysUnique(ApplyUserEdit(rows, userId, edit))
  {
    var r := ApplyUserEdit(rows, userId, edit);
    forall i, j | 0 <= i < j < |r|
      ensures r[i].userId != r[j].userId && r[i].username != r[j].username
      ensures r[i].email != r[j].email
    {
      if rows[i].userId == userId {
        assert rows[i] in rows && rows[j] in rows;
        assert rows[j].username != edit.username && rows[j].email != edit.email;
      } else if rows[j].userId == userId {
        assert rows[i] in rows && rows[j] in rows;
        assert rows[i].username != edit.username && rows[i].email != edit.email;
      }
    }
  }

  /** `SELECT * FROM users WHERE username = ?` */
  function FindUserByUsername(rows: seq<User>, username: string): (r: Option<User>)
    ensures r.Some? ==> r.value in rows && r.value.username == username
    ensures r.None? <==> forall u :: u in rows ==> u.username != username
  {
    FirstWhere(rows, (u: User) => u.username == username)
  }

  /** `SELECT * FROM users WHERE userId = ?` */
  function FindUserByUserId(rows: seq<User>, userId: string): (r: Option<User>)
    ensures r.Some? ==> r.value in rows && r.value.userId == userId
    ensures r.None? <==> forall u :: u in rows ==> u.userId != userId
  {
    FirstWhere(rows, (u: User) => u.userId == userId)
  }

  /** `SELECT * FROM users WHERE email = ?` */
  function FindUserByEmail(rows: seq<User>, email: string): (r: Option<User>)
    ensures r.Some? ==> r.value in rows && r.value.email == email
    ensures r.None? <==> forall u :: u in rows ==> u.email != email
  {
    FirstWhere(rows, (u: User) => u.email == email)
  }

  /** Some row has this user id: the `JOIN users` in the follow queries. */
  predicate UserExists(rows: seq<User>, userId: string)
  {
    exists u :: u in rows && u.userId == userId
  }

  /** With unique keys, each lookup returns the one row holding that key. */
  lemma LookupsReturnTheKeyedRow(rows: seq<User>, u: User)
    requires KeysUnique(rows) && u in rows
    ensures FindUserByUserId(rows, u.userId) == Some(u)
    ensures FindUserByUsername(rows, u.username) == Some(u)
    ensures FindUserByEmail(rows, u.email) == Some(u)
  {
    var i :| 0 <= i < |rows| && rows[i] == u;
    var a := FindUserByUserId(rows, u.userId).value;
    var b := FindUserByUsername(rows, u.username).value;
    var c := FindUserByEmail(rows, u.email).value;
    var ja :| 0 <= ja < |rows| && rows[ja] == a;
    var jb :| 0 <= jb < |rows| && rows[jb] == b;
    var jc :| 0 <= jc < |rows| && rows[jc] == c;
    assert ja == i && jb == i && jc == i;
  }

  /** The `users` table. */
  class UserTable {
    var rows: seq<User>

    ghost predicate Valid()
      reads this
    {
      KeysUnique(rows) && forall u :: u in rows ==> u.isPrivate == 0 || u.isPrivate == 1
    }

    constructor ()
      ensures Valid() && rows == []
    {
      rows := [];
    }

    /** `insertUser`: writes one row under the id `user:<uuid>` and
        resolves that id, or is rejected and changes nothing when the id,
        the username or the email is already taken. */
    method InsertUser(uuid: string, username: string, email: string, password: string,
                      isPrivate: bool, now: int) returns (r: Option<string>)
      requires Valid()
      modifies this
      ensures Valid()
      ensures var row := NewUser(UserIdPrefix + uuid, username, email, password, isPrivate, now);
        r.Some? <==> Insertable(old(rows), row)
      ensures var row := NewUser(UserIdPrefix + uuid, username, email, password, isPrivate, now);
        if r.Some? then r.value == row.userId && rows == old(rows) + [row]
        else rows == old(rows)
    {
      var row := NewUser(UserIdPrefix + uuid, username, email, password, isPrivate, now);
      AppendKeepsKeysUnique(rows, row);
      if Insertable(rows, row) {
        rows := rows + [row];
        r := Some(row.userId);
      } else {
        r := None;
      }
    }

    /** `updateUser`: overwrites the seven columns of the row with that id
        (no row: nothing changes), or is rejected and changes nothing when
        the new username or email belongs to another row. */
    method UpdateUser(userId: string, edit: UserEdit) returns (ok: bool)
      requires Valid()
      modifies this
      ensures Valid()
      ensures ok <==> !UpdateConflicts(old(rows), userId, edit)
      ensures rows == if ok then ApplyUserEdit(old(rows), userId, edit) else old(rows)
    {
      UpdateKeepsKeysUnique(rows, userId, edit);
      if UpdateConflicts(rows, userId, edit) {
        ok := false;
      } else {
        var r := ApplyUserEdit(rows, userId, edit);
        forall v | v in r ensures v.isPrivate == 0 || v.isPrivate == 1 {
          var i :| 0 <= i < |r| && r[i] == v;
          assert rows[i] in rows;
        }
        rows := r;
        ok := true;
      }
    }
  }
}
