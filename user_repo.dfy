/**
 * `UserRepository`: the persistence boundary. Each table is a field that the write methods
 * reassign; the read queries are the pure lookups of module Accounts applied to the fields.
 * Every write method states the whole new store as an operation of Accounts on the old one.
 */
module UserRepo {
  import opened Common
  import opened Accounts

  class UserRepository {
    var users: seq<User>
    var groups: seq<UserGroup>
    var activationTokens: seq<Token>
    var refreshTokens: seq<Token>
    var resetTokens: seq<Token>
    var nextId: nat
    /** The one-way password hash applied when a user is created or a password is set. */
    const hash: string -> string

    /** The store as a value. */
    function Snapshot(): Db
      reads this
    {
      Db(users, groups, activationTokens, refreshTokens, resetTokens, nextId)
    }

    constructor (hash: string -> string)
      ensures Snapshot() == EmptyDb && this.hash == hash
    {
      users, groups := [], [];
      activationTokens, refreshTokens, resetTokens := [], [], [];
      nextId := 0;
      this.hash := hash;
    }

    /** `create_user_group`. */
    method CreateUserGroup(name: GroupName) returns (group: UserGroup)
      modifies this
      ensures var c := InsertGroup(old(Snapshot()), name); Snapshot() == c.db && group == c.row
      ensures group.name == name && GroupByName(groups, name).Some?
    {
      group := UserGroup(nextId, name);
      groups := groups + [group];
      nextId := nextId + 1;
    }

    /** `create_user`: the flush fails on the unique email index when the email is taken. */
    method CreateUser(email: string, rawPassword: string, groupId: nat) returns (user: Option<User>)
      modifies this
      ensures var c := InsertUser(old(Snapshot()), email, hash(rawPassword), groupId);
              if c.None? then user.None? && Snapshot() == old(Snapshot())
              else user == Some(c.value.row) && Snapshot() == c.value.db
    {
      if UserByEmail(users, email).Some? {
        return None;
      }
      var u := User(nextId, email, hash(rawPassword), false, groupId);
      users := users + [u];
      nextId := nextId + 1;
      return Some(u);
    }

    /** `activate_user`: sets `is_active` and nothing else. */
    method ActivateUser(user: User)
      modifies this
      ensures Snapshot() == SetActive(old(Snapshot()), user.id)
    {
      users := UpdateUser(users, user.id, Activated);
    }

    /** `create_activation_token`; the random token string and its expiry are inputs here. */
    method CreateActivationToken(userId: nat, token: string, expiresAt: int) returns (row: Token)
      modifies this
      ensures var c := InsertToken(old(Snapshot()), ActivationTokens, userId, token, expiresAt);
              Snapshot() == c.db && row == c.row
    {
      row := Token(nextId, token, userId, expiresAt);
      activationTokens := activationTokens + [row];
      nextId := nextId + 1;
    }

    /** `delete_token`: deletes the row `row` from the table it belongs to. */
    method DeleteToken(table: TokenTable, row: Token)
      modifies this
      ensures Snapshot() == DeleteRow(old(Snapshot()), table, row)
    {
      match table
      case ActivationTokens => activationTokens := Where(activationTokens, NotRow(row.id));
      case RefreshTokens => refreshTokens := Where(refreshTokens, NotRow(row.id));
      case ResetTokens => resetTokens := Where(resetTokens, NotRow(row.id));
    }

    /** `create_refresh_token`: the row expires `daysValid` days after `now`. */
    method CreateRefreshToken(userId: nat, token: string, now: int, daysValid: int := DefaultRefreshDays)
      returns (row: Token)
      modifies this
      ensures var c := InsertToken(old(Snapshot()), RefreshTokens, userId, token, now + daysValid * SecondsPerDay);
              Snapshot() == c.db && row == c.row
    {
      row := Token(nextId, token, userId, now + daysValid * SecondsPerDay);
      refreshTokens := refreshTokens + [row];
      nextId := nextId + 1;
    }

    /** `delete_password_reset_tokens`. */
    method DeletePasswordResetTokens(userId: nat)
      modifies this
      ensures Snapshot() == DeleteResetTokensOf(old(Snapshot()), userId)
    {
      resetTokens := Where(resetTokens, NotOwnedBy(userId));
    }

    /** `create_password_reset_token`; the random token string and its expiry are inputs here. */
    method CreatePasswordResetToken(userId: nat, token: string, expiresAt: int) returns (row: Token)
      modifies this
      ensures var c := InsertToken(old(Snapshot()), ResetTokens, userId, token, expiresAt);
              Snapshot() == c.db && row == c.row
    {
      row := Token(nextId, token, userId, expiresAt);
      resetTokens := resetTokens + [row];
      nextId := nextId + 1;
    }

    /** `update_user_password`: stores the digest of the new password for this user only. */
    method UpdateUserPassword(user: User, newPassword: string)
      modifies this
      ensures Snapshot() == SetPassword(old(Snapshot()), user.id, hash(newPassword))
    {
      users := UpdateUser(users, user.id, WithDigest(hash(newPassword)));
    }
  }
}
