/**
 * The account tables as values: users, user groups and the three token tables.
 * A table is a sequence of rows in storage order. A lookup returns the first row that
 * matches, which is what `.scalars().first()` returns. The write operations are the row
 * inserts, updates and deletes that the repository performs.
 */
module Accounts {
  import opened Common

  const SecondsPerDay := 86400
  const DefaultRefreshDays := 30

  /** `UserGroupEnum`: the roles a user group can have. */
  datatype GroupName = USER | MODERATOR | ADMIN

  datatype UserGroup = UserGroup(id: nat, name: GroupName)

  /** A row of `users`. `hashedPassword` is the stored digest, never the raw password. */
  datatype User = User(id: nat, email: string, hashedPassword: string, isActive: bool, groupId: nat)

  /** A row of `activation_tokens`, `refresh_tokens` or `password_reset_tokens`. */
  datatype Token = Token(id: nat, token: string, userId: nat, expiresAt: int)

  datatype TokenTable = ActivationTokens | RefreshTokens | ResetTokens

  /**
   * The whole store. `nextId` is the next primary key to hand out; one counter serves every
   * table.
   */
  datatype Db = Db(
    users: seq<User>,
    groups: seq<UserGroup>,
    activation: seq<Token>,
    refresh: seq<Token>,
    reset: seq<Token>,
    nextId: nat)
  {
    function Table(t: TokenTable): seq<Token> {
      match t
      case ActivationTokens => activation
      case RefreshTokens => refresh
      case ResetTokens => reset
    }

    function WithTable(t: TokenTable, rows: seq<Token>): Db {
      match t
      case ActivationTokens => this.(activation := rows)
      case RefreshTokens => this.(refresh := rows)
      case ResetTokens => this.(reset := rows)
    }
  }

  const EmptyDb := Db([], [], [], [], [], 0)

  // ---------------------------------------------------------------------------
  // Row selection

  /** The first element of `s` that satisfies `p`, if any. */
  function FirstWhere<T>(s: seq<T>, p: T -> bool): (r: Option<T>)
    ensures r.Some? ==> r.value in s && p(r.value)
    ensures r.None? <==> forall x :: x in s ==> !p(x)
  {
    if s == [] then None
    else if p(s[0]) then Some(s[0])
    else FirstWhere(s[1..], p)
  }

  /** The elements of `s` that satisfy `keep`, in order: an SQL `DELETE ... WHERE not keep`. */
  function Where<T>(s: seq<T>, keep: T -> bool): (r: seq<T>)
    ensures forall x :: x in r ==> x in s && keep(x)
    ensures forall x :: x in s && keep(x) ==> x in r
    ensures |r| <= |s|
  {
    if s == [] then []
    else (if keep(s[0]) then [s[0]] else []) + Where(s[1..], keep)
  }

  // ---------------------------------------------------------------------------
  // Lookups (the repository's read queries)

  /** `get_user_by_email`: a user with exactly this email, or none when no user has it. */
  function UserByEmail(users: seq<User>, email: string): (r: Option<User>)
    ensures r.Some? ==> r.value in users && r.value.email == email
    ensures r.None? <==> forall u :: u in users ==> u.email != email
  {
    FirstWhere(users, (u: User) => u.email == email)
  }

  /** `get_user_by_id`: a user with this primary key, or none. */
  function UserById(users: seq<User>, id: nat): (r: Option<User>)
    ensures r.Some? ==> r.value in users && r.value.id == id
    ensures r.None? <==> forall u :: u in users ==> u.id != id
  {
    FirstWhere(users, (u: User) => u.id == id)
  }

  /** `get_user_group`: a group with this name, or none. */
  function GroupByName(groups: seq<UserGroup>, name: GroupName): (r: Option<UserGroup>)
    ensures r.Some? ==> r.value in groups && r.value.name == name
    ensures r.None? <==> forall g :: g in groups ==> g.name != name
  {
    FirstWhere(groups, (g: UserGroup) => g.name == name)
  }

  /** The token row belongs to a user (joined on `user_id`) whose email is `email`. */
  predicate OwnedByEmail(users: seq<User>, t: Token, email: string) {
    exists u :: u in users && u.id == t.userId && u.email == email
  }

  /**
   * `get_activation_token`: an activation row whose token equals `token` and whose owning
   * user has the email `email`, or none.
   */
  function ActivationByEmailAndToken(users: seq<User>, rows: seq<Token>, email: string, token: string)
    : (r: Option<Token>)
    ensures r.Some? ==> r.value in rows && r.value.token == token && OwnedByEmail(users, r.value, email)
    ensures r.None? <==> forall t :: t in rows ==> t.token != token || !OwnedByEmail(users, t, email)
  {
    FirstWhere(rows, (t: Token) => t.token == token && OwnedByEmail(users, t, email))
  }

  /** `get_refresh_token`: a row whose token string equals `token`, or none. */
  function TokenByValue(rows: seq<Token>, token: string): (r: Option<Token>)
    ensures r.Some? ==> r.value in rows && r.value.token == token
    ensures r.None? <==> forall t :: t in rows ==> t.token != token
  {
    FirstWhere(rows, (t: Token) => t.token == token)
  }

  /** `get_password_reset_token`: a row owned by user `userId`, or none. */
  function TokenOfUser(rows: seq<Token>, userId: nat): (r: Option<Token>)
    ensures r.Some? ==> r.value in rows && r.value.userId == userId
    ensures r.None? <==> forall t :: t in rows ==> t.userId != userId
  {
    FirstWhere(rows, (t: Token) => t.userId == userId)
  }

  // ---------------------------------------------------------------------------
  // Writes (the repository's inserts, updates and deletes)

  /** A store after an insert, with the inserted row. */
  datatype Inserted<T> = Inserted(db: Db, row: T)

  /** `create_user_group`: a new group row under a fresh primary key. */
  function InsertGroup(db: Db, name: GroupName): Inserted<UserGroup> {
    var g := UserGroup(db.nextId, name);
    Inserted(db.(groups := db.groups + [g], nextId := db.nextId + 1), g)
  }

  /**
   * `create_user`: a new inactive user with the given digest. The unique index on
   * `users.email` makes the insert fail when the email is taken; that failure is `None`.
   */
  function InsertUser(db: Db, email: string, hashedPassword: string, groupId: nat)
    : (r: Option<Inserted<User>>)
    ensures r.None? <==> UserByEmail(db.users, email).Some?
    ensures r.Some? ==> UserByEmail(r.value.db.users, email) == Some(r.value.row)
    ensures r.Some? ==> !r.value.row.isActive && r.value.row.hashedPassword == hashedPassword
    ensures r.Some? ==> r.value.row.email == email && r.value.row.groupId == groupId
    ensures r.Some? ==> r.value.row.id == db.nextId
    ensures r.Some? ==> r.value.db == db.(users := db.users + [r.value.row], nextId := db.nextId + 1)
  {
    if UserByEmail(db.users, email).Some? then None
    else
      var u := User(db.nextId, email, hashedPassword, false, groupId);
      var users := db.users + [u];
      assert UserByEmail(users, email) == Some(u) by {
        assert forall v :: v in users && v.email == email ==> v == u;
      }
      Some(Inserted(db.(users := users, nextId := db.nextId + 1), u))
  }

  /** `create_activation_token`, `create_refresh_token`, `create_password_reset_token`. */
  function InsertToken(db: Db, table: TokenTable, userId: nat, token: string, expiresAt: int)
    : Inserted<Token>
  {
    var t := Token(db.nextId, token, userId, expiresAt);
    Inserted(db.WithTable(table, db.Table(table) + [t]).(nextId := db.nextId + 1), t)
  }

  /** Replaces the users whose id is `id` by `f` of them; every other row stays as it was. */
  function UpdateUser(users: seq<User>, id: nat, f: User -> User): (r: seq<User>)
    ensures |r| == |users|
    ensures forall i :: 0 <= i < |users| && users[i].id != id ==> r[i] == users[i]
    ensures forall i :: 0 <= i < |users| && users[i].id == id ==> r[i] == f(users[i])
  {
    seq(|users|, i requires 0 <= i < |users| => if users[i].id == id then f(users[i]) else users[i])
  }

  function Activated(u: User): User {
    u.(isActive := true)
  }

  function WithDigest(hashedPassword: string): User -> User {
    (u: User) => u.(hashedPassword := hashedPassword)
  }

  /** `activate_user`: sets `is_active` on the user with this id and changes nothing else. */
  function SetActive(db: Db, id: nat): (r: Db)
    ensures r.(users := db.users) == db && |r.users| == |db.users|
    ensures forall i :: 0 <= i < |db.users| ==>
      r.users[i].(isActive := db.users[i].isActive) == db.users[i] &&
      (r.users[i].isActive <==> db.users[i].isActive || db.users[i].id == id)
  {
    db.(users := UpdateUser(db.users, id, Activated))
  }

  /** `update_user_password`: stores a new digest for the user with this id only. */
  function SetPassword(db: Db, id: nat, hashedPassword: string): (r: Db)
    ensures r.(users := db.users) == db && |r.users| == |db.users|
    ensures forall i :: 0 <= i < |db.users| ==>
      r.users[i].(hashedPassword := db.users[i].hashedPassword) == db.users[i] &&
      (db.users[i].id == id ==> r.users[i].hashedPassword == hashedPassword) &&
      (db.users[i].id != id ==> r.users[i] == db.users[i])
  {
    db.(users := UpdateUser(db.users, id, WithDigest(hashedPassword)))
  }

  /** Keeps the rows whose primary key is not `id`. */
  function NotRow(id: nat): Token -> bool {
    (t: Token) => t.id != id
  }

  /** Keeps the rows not owned by user `userId`. */
  function NotOwnedBy(userId: nat): Token -> bool {
    (t: Token) => t.userId != userId
  }

  /** `delete_token`: removes the row with the primary key of `row` from its table. */
  function DeleteRow(db: Db, table: TokenTable, row: Token): (r: Db)
    ensures forall t :: t in r.Table(table) <==> t in db.Table(table) && t.id != row.id
  {
    db.WithTable(table, Where(db.Table(table), NotRow(row.id)))
  }

  /** `delete_password_reset_tokens`: removes every reset row owned by `userId`. */
  function DeleteResetTokensOf(db: Db, userId: nat): (r: Db)
    ensures forall t :: t in r.reset <==> t in db.reset && t.userId != userId
    ensures r.(reset := db.reset) == db
  {
    db.(reset := Where(db.reset, NotOwnedBy(userId)))
  }

  // ---------------------------------------------------------------------------
  // Store invariants

  /** Primary keys identify rows; every key, including every token's owner, was handed out. */
  ghost predicate RowsValid(rows: seq<Token>, nextId: nat) {
    && (forall t, s :: t in rows && s in rows && t.id == s.id ==> t == s)
    && (forall t :: t in rows ==> t.id < nextId && t.userId < nextId)
  }

  /** No two user rows share an id or an email. */
  ghost predicate UniqueUsers(users: seq<User>) {
    && (forall u, v :: u in users && v in users && u.id == v.id ==> u == v)
    && (forall u, v :: u in users && v in users && u.email == v.email ==> u == v)
  }

  /**
   * What the schema guarantees: unique user ids and emails (`ix_users_email`), unique primary
   * keys in each table, and keys below the counter.
   */
  ghost predicate Valid(db: Db) {
    && UniqueUsers(db.users)
    && (forall u :: u in db.users ==> u.id < db.nextId)
    && (forall g :: g in db.groups ==> g.id < db.nextId)
    && RowsValid(db.activation, db.nextId)
    && RowsValid(db.refresh, db.nextId)
    && RowsValid(db.reset, db.nextId)
  }

  /** At most one row per user in `rows`. */
  ghost predicate OnePerUser(rows: seq<Token>) {
    forall t, s :: t in rows && s in rows && t.userId == s.userId ==> t == s
  }

  /**
   * The deletion discipline of the service: a user holds at most one activation token and at
   * most one password-reset token. The schema does not enforce it; the flows keep it.
   */
  ghost predicate Disciplined(db: Db) {
    OnePerUser(db.activation) && OnePerUser(db.reset)
  }

  // ---------------------------------------------------------------------------
  // What the writes do to the invariants and to the lookups

  /** `delete_token` removes exactly the given row; the other tables are untouched. */
  lemma DeleteRowExact(db: Db, table: TokenTable, row: Token)
    requires RowsValid(db.Table(table), db.nextId) && row in db.Table(table)
    ensures var r := DeleteRow(db, table, row);
      && (forall t :: t in r.Table(table) <==> t in db.Table(table) && t != row)
      && r.users == db.users && r.groups == db.groups && r.nextId == db.nextId
      && (forall other :: other != table ==> r.Table(other) == db.Table(other))
  {
  }

  /** Appending a row for a user who holds none keeps at most one row per user. */
  lemma OnePerUserAppend(rows: seq<Token>, row: Token)
    requires OnePerUser(rows) && forall t :: t in rows ==> t.userId != row.userId
    ensures OnePerUser(rows + [row])
  {
    var all := rows + [row];
    forall t, s | t in all && s in all && t.userId == s.userId ensures t == s {
      assert (t in rows || t == row) && (s in rows || s == row);
    }
  }

  /** A table that only loses rows keeps its keys unique and its owners at most one per user. */
  lemma FewerRows(rows: seq<Token>, fewer: seq<Token>, nextId: nat)
    requires forall t :: t in fewer ==> t in rows
    ensures RowsValid(rows, nextId) ==> RowsValid(fewer, nextId)
    ensures OnePerUser(rows) ==> OnePerUser(fewer)
  {
  }

  lemma DeleteRowKeeps(db: Db, table: TokenTable, row: Token)
    requires Valid(db)
    ensures Valid(DeleteRow(db, table, row))
    ensures Disciplined(db) ==> Disciplined(DeleteRow(db, table, row))
  {
    var r := DeleteRow(db, table, row);
    FewerRows(db.Table(table), r.Table(table), db.nextId);
    assert r.Table(table) == Where(db.Table(table), NotRow(row.id));
  }

  lemma DeleteResetTokensOfKeeps(db: Db, userId: nat)
    requires Valid(db)
    ensures Valid(DeleteResetTokensOf(db, userId))
    ensures Disciplined(db) ==> Disciplined(DeleteResetTokensOf(db, userId))
  {
    FewerRows(db.reset, DeleteResetTokensOf(db, userId).reset, db.nextId);
  }

  /** `f` changes neither the id nor the email of a user. */
  ghost predicate KeepsIdentity(f: User -> User) {
    forall u :: f(u).id == u.id && f(u).email == u.email
  }

  /** Every row after the update comes from the row at the same position before it. */
  lemma UpdateUserOrigin(users: seq<User>, id: nat, f: User -> User, v: User)
    requires KeepsIdentity(f) && v in UpdateUser(users, id, f)
    ensures exists w :: w in users && w.id == v.id && w.email == v.email
  {
    var r := UpdateUser(users, id, f);
    var i :| 0 <= i < |r| && r[i] == v;
    assert users[i] in users;
  }

  /** Changing user rows in place without touching ids or emails keeps them unique. */
  lemma UpdateUserKeeps(db: Db, id: nat, f: User -> User)
    requires Valid(db) && KeepsIdentity(f)
    ensures Valid(db.(users := UpdateUser(db.users, id, f)))
  {
    var users := UpdateUser(db.users, id, f);
    forall u, v | u in users && v in users && (u.id == v.id || u.email == v.email) ensures u == v {
      var i :| 0 <= i < |users| && users[i] == u;
      var j :| 0 <= j < |users| && users[j] == v;
      assert db.users[i] == db.users[j];
    }
    forall u | u in users ensures u.id < db.nextId {
      UpdateUserOrigin(db.users, id, f, u);
    }
  }

  /** After updating user `u` in place, looking up its email finds the updated row. */
  lemma UpdatedUserFound(users: seq<User>, u: User, f: User -> User)
    requires UniqueUsers(users) && u in users && KeepsIdentity(f)
    ensures UserByEmail(UpdateUser(users, u.id, f), u.email) == Some(f(u))
  {
    var r := UpdateUser(users, u.id, f);
    var i :| 0 <= i < |users| && users[i] == u;
    assert r[i] == f(u) && r[i] in r;
    forall j | 0 <= j < |r| && r[j].email == u.email ensures r[j] == f(u) {
      assert users[j] in users;
    }
  }

  /** A token row owned by a user with an email after an in-place update was owned so before. */
  lemma UpdateUserOwnership(users: seq<User>, id: nat, f: User -> User, t: Token, email: string)
    requires KeepsIdentity(f)
    ensures OwnedByEmail(UpdateUser(users, id, f), t, email) ==> OwnedByEmail(users, t, email)
  {
    if OwnedByEmail(UpdateUser(users, id, f), t, email) {
      var v :| v in UpdateUser(users, id, f) && v.id == t.userId && v.email == email;
      UpdateUserOrigin(users, id, f, v);
    }
  }

  lemma SetActiveKeeps(db: Db, id: nat)
    requires Valid(db)
    ensures Valid(SetActive(db, id))
    ensures Disciplined(db) ==> Disciplined(SetActive(db, id))
  {
    assert KeepsIdentity(Activated);
    UpdateUserKeeps(db, id, Activated);
  }

  /** After `update_user_password`, looking the user up by email finds the new digest. */
  lemma SetPasswordFound(db: Db, u: User, hashedPassword: string)
    requires UniqueUsers(db.users) && u in db.users
    ensures UserByEmail(SetPassword(db, u.id, hashedPassword).users, u.email) ==
            Some(u.(hashedPassword := hashedPassword))
  {
    assert KeepsIdentity(WithDigest(hashedPassword));
    UpdatedUserFound(db.users, u, WithDigest(hashedPassword));
  }

  lemma SetPasswordKeeps(db: Db, id: nat, hashedPassword: string)
    requires Valid(db)
    ensures Valid(SetPassword(db, id, hashedPassword))
    ensures Disciplined(db) ==> Disciplined(SetPassword(db, id, hashedPassword))
  {
    assert KeepsIdentity(WithDigest(hashedPassword));
    UpdateUserKeeps(db, id, WithDigest(hashedPassword));
  }

  /** After `create_user_group(name)`, `get_user_group(name)` finds a group with that name. */
  lemma InsertGroupKeeps(db: Db, name: GroupName)
    requires Valid(db)
    ensures var c := InsertGroup(db, name);
      Valid(c.db) && (Disciplined(db) ==> Disciplined(c.db)) &&
      GroupByName(c.db.groups, name).Some? && GroupByName(c.db.groups, name).value.name == name
  {
    var c := InsertGroup(db, name);
    assert c.row in c.db.groups;
  }

  lemma InsertUserKeeps(db: Db, email: string, hashedPassword: string, groupId: nat)
    requires Valid(db) && UserByEmail(db.users, email).None?
    ensures var c := InsertUser(db, email, hashedPassword, groupId).value;
      Valid(c.db) && (Disciplined(db) ==> Disciplined(c.db)) &&
      c.db.users == db.users + [c.row] && c.row.id == db.nextId && c.db.nextId == db.nextId + 1
  {
  }

  /** A new token row gets a fresh key; a new activation or reset row must be its user's only one. */
  lemma InsertTokenKeeps(db: Db, table: TokenTable, userId: nat, token: string, expiresAt: int)
    requires Valid(db) && userId < db.nextId
    ensures var c := InsertToken(db, table, userId, token, expiresAt);
      && Valid(c.db)
      && c.db.Table(table) == db.Table(table) + [c.row]
      && c.row == Token(db.nextId, token, userId, expiresAt)
      && c.db.users == db.users && c.db.groups == db.groups
      && (forall other :: other != table ==> c.db.Table(other) == db.Table(other))
  {
    var c := InsertToken(db, table, userId, token, expiresAt);
    var rows := c.db.Table(table);
    forall t, s | t in rows && s in rows && t.id == s.id ensures t == s {
      if t != c.row && s != c.row {
        assert t in db.Table(table) && s in db.Table(table);
      }
    }
  }
}
