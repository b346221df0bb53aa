/**
 * Properties of the account flows: which error each branch raises and in what order, which
 * token rows each branch deletes, that activation and reset tokens cannot be replayed, and
 * that every flow keeps the store invariants.
 */
module Lifecycle {
  import opened Common
  import opened Accounts
  import opened Flows

  /** The schema invariants together with the one-token-per-user discipline. */
  ghost predicate Consistent(db: Db) {
    Valid(db) && Disciplined(db)
  }

  /** A fresh repository starts consistent: no rows and the counter at the first key. */
  lemma EmptyConsistent()
    ensures Consistent(EmptyDb)
  {
  }

  // ---------------------------------------------------------------------------
  // register_user

  /** A taken email is refused with "A user with this email ... already exists." and no table changes. */
  lemma RegisterTakenEmail(db: Db, hash: string -> string, sender: Option<EmailSender>,
                           email: string, password: string, token: string, expiresAt: int)
    requires UserByEmail(db.users, email).Some?
    ensures Register(db, hash, sender, email, password, token, expiresAt) == Step(db, Err(EmailTaken(email)))
  {
  }

  /** The steps of a registration on a free email, as the store values between them. */
  lemma RegisterSteps(db: Db, hash: string -> string, sender: Option<EmailSender>,
                      email: string, password: string, token: string, expiresAt: int)
    returns (grouped: Inserted<UserGroup>, u: User, row: Token)
    requires Valid(db) && UserByEmail(db.users, email).None?
    ensures Valid(grouped.db) && grouped.db.users == db.users && grouped.db.nextId >= db.nextId
    ensures grouped.row in grouped.db.groups && grouped.row.name == USER
    ensures GroupByName(db.groups, USER).Some? ==> grouped.db == db
    ensures GroupByName(db.groups, USER).None? ==> grouped == InsertGroup(db, USER)
    ensures u == User(grouped.db.nextId, email, hash(password), false, grouped.row.id)
    ensures row == Token(grouped.db.nextId + 1, token, u.id, expiresAt)
    ensures var s := Register(db, hash, sender, email, password, token, expiresAt);
      && s.db == grouped.db.(users := db.users + [u], activation := db.activation + [row],
                             nextId := grouped.db.nextId + 2)
      && s.result == (if sender.Some? && sender.value.sendActivationEmail(email, token).Some?
                      then Err(DeliveryFailed(sender.value.sendActivationEmail(email, token).value))
                      else Ok(Registration(u, token)))
  {
    var existing := GroupByName(db.groups, USER);
    grouped := if existing.Some? then Inserted(db, existing.value) else InsertGroup(db, USER);
    if existing.None? {
      InsertGroupKeeps(db, USER);
    }
    var created := InsertUser(grouped.db, email, hash(password), grouped.row.id).value;
    u := created.row;
    row := InsertToken(created.db, ActivationTokens, u.id, token, expiresAt).row;
  }

  /** The newest activation row is the one `get_activation_token` finds for a brand-new email. */
  lemma NewestActivationFound(users: seq<User>, rows: seq<Token>, u: User, row: Token,
                              email: string, token: string)
    requires forall v :: v in users ==> v.email != email
    requires forall t :: t in rows ==> t.userId < u.id
    requires u.email == email && row.token == token && row.userId == u.id
    ensures ActivationByEmailAndToken(users + [u], rows + [row], email, token) == Some(row)
  {
    var all := users + [u];
    assert u in all;
    forall t, v | t in rows && v in all ensures v.id != t.userId || v.email != email {
      assert v in users || v == u;
    }
    assert forall t :: t in rows + [row] && t != row ==> t in rows;
  }

  /**
   * On a free email, registration adds one inactive user with the hashed password, in a USER
   * group that is reused when one exists and created otherwise. The result is that user and
   * the activation token string, or the email sender's failure, raised after the writes.
   */
  lemma RegisterCreatesUser(db: Db, hash: string -> string, sender: Option<EmailSender>,
                            email: string, password: string, token: string, expiresAt: int)
    requires Valid(db) && UserByEmail(db.users, email).None?
    ensures var s := Register(db, hash, sender, email, password, token, expiresAt);
      && UserByEmail(s.db.users, email).Some?
      && var u := UserByEmail(s.db.users, email).value;
      && s.db.users == db.users + [u]
      && !u.isActive && u.hashedPassword == hash(password) && u.id >= db.nextId
      && (exists g :: g in s.db.groups && g.id == u.groupId && g.name == USER)
      && (GroupByName(db.groups, USER).Some? ==> s.db.groups == db.groups)
      && (GroupByName(db.groups, USER).None? ==>
            |s.db.groups| == |db.groups| + 1 && s.db.groups[..|db.groups|] == db.groups)
      && (s.result.Ok? ==> s.result.value == Registration(u, token))
      && (s.result.Err? ==> s.result.error.DeliveryFailed?)
  {
    var grouped, u, row := RegisterSteps(db, hash, sender, email, password, token, expiresAt);
    var users := db.users + [u];
    assert u in users;
    assert forall v :: v in users && v.email == email ==> v == u;
    assert UserByEmail(users, email) == Some(u);
  }

  /**
   * Registration adds exactly one activation row, owned by the new user and expiring at the
   * given instant, and `get_activation_token(email, token)` then finds that row. The refresh
   * and reset tables are untouched.
   */
  lemma RegisterIssuesActivation(db: Db, hash: string -> string, sender: Option<EmailSender>,
                                 email: string, password: string, token: string, expiresAt: int)
    requires Valid(db) && UserByEmail(db.users, email).None?
    ensures var s := Register(db, hash, sender, email, password, token, expiresAt);
      && |s.db.activation| == |db.activation| + 1
      && s.db.activation[..|db.activation|] == db.activation
      && var row := s.db.activation[|db.activation|];
      && ActivationByEmailAndToken(s.db.users, s.db.activation, email, token) == Some(row)
      && UserById(s.db.users, row.userId) == UserByEmail(s.db.users, email)
      && row.expiresAt == expiresAt
      && s.db.refresh == db.refresh && s.db.reset == db.reset
  {
    var grouped, u, row := RegisterSteps(db, hash, sender, email, password, token, expiresAt);
    var s := Register(db, hash, sender, email, password, token, expiresAt);
    assert s.db.activation == db.activation + [row];
    assert s.db.activation[|db.activation|] == row;
    assert s.db.users == db.users + [u];
    NewestActivationFound(db.users, db.activation, u, row, email, token);
    UserOfNewRow(db.users, u);
  }

  /** A user appended under a fresh id and a free email is what both lookups find. */
  lemma UserOfNewRow(users: seq<User>, u: User)
    requires forall v :: v in users ==> v.email != u.email && v.id != u.id
    ensures UserByEmail(users + [u], u.email) == Some(u)
    ensures UserById(users + [u], u.id) == Some(u)
  {
    var all := users + [u];
    assert u in all;
    assert forall v :: v in all && v.email == u.email ==> v == u;
    assert forall v :: v in all && v.id == u.id ==> v == u;
  }

  // ---------------------------------------------------------------------------
  // login_user

  /** An unknown email and a wrong password give the same error and change nothing. */
  lemma LoginBadCredentials(db: Db, hash: string -> string, jwt: JwtManager,
                            email: string, password: string, now: int)
    requires UserByEmail(db.users, email).None? ||
             !VerifyPassword(hash, UserByEmail(db.users, email).value, password)
    ensures Login(db, hash, jwt, email, password, now) == Step(db, Err(InvalidCredentials))
    ensures Message(Login(db, hash, jwt, email, password, now).result.error) == "Invalid email or password."
  {
  }

  /**
   * "User account is not activated." is raised exactly when the user exists, the password
   * matched and the account is inactive; then nothing changes.
   */
  lemma LoginNotActivated(db: Db, hash: string -> string, jwt: JwtManager,
                          email: string, password: string, now: int)
    ensures var s := Login(db, hash, jwt, email, password, now);
      s.result == Err(NotActivated) <==>
        (UserByEmail(db.users, email).Some? &&
         VerifyPassword(hash, UserByEmail(db.users, email).value, password) &&
         !UserByEmail(db.users, email).value.isActive)
    ensures Login(db, hash, jwt, email, password, now).result == Err(NotActivated) ==>
      Login(db, hash, jwt, email, password, now).db == db
  {
  }

  /**
   * A successful login stores exactly one refresh row, owned by the user, whose token is the
   * returned refresh token; `get_refresh_token` then finds it.
   */
  lemma LoginStoresRefreshToken(db: Db, hash: string -> string, jwt: JwtManager,
                                email: string, password: string, now: int)
    requires Valid(db)
    requires Login(db, hash, jwt, email, password, now).result.Ok?
    ensures var s := Login(db, hash, jwt, email, password, now);
      && UserByEmail(db.users, email).Some?
      && var u := UserByEmail(db.users, email).value;
      && VerifyPassword(hash, u, password) && u.isActive
      && |s.db.refresh| == |db.refresh| + 1
      && s.db.refresh[..|db.refresh|] == db.refresh
      && s.db.refresh[|db.refresh|].token == s.result.value.refreshToken
      && s.db.refresh[|db.refresh|].userId == u.id
      && s.db.refresh[|db.refresh|].expiresAt == now + DefaultRefreshDays * SecondsPerDay
      && TokenByValue(s.db.refresh, s.result.value.refreshToken).Some?
      && s.db.users == db.users && s.db.groups == db.groups
      && s.db.activation == db.activation && s.db.reset == db.reset && s.db.nextId == db.nextId + 1
      && Valid(s.db)
  {
    var s := Login(db, hash, jwt, email, password, now);
    var u := UserByEmail(db.users, email).value;
    assert u in db.users;
    InsertTokenKeeps(db, RefreshTokens, u.id, jwt.createRefreshToken(u.id, now),
                     now + DefaultRefreshDays * SecondsPerDay);
    assert s.db.refresh[|db.refresh|] in s.db.refresh;
  }

  // ---------------------------------------------------------------------------
  // activate_account

  /** No row for (email, token): "Invalid or expired activation token." and nothing changes. */
  lemma ActivateNotFound(db: Db, email: string, token: string, now: int)
    requires ActivationByEmailAndToken(db.users, db.activation, email, token).None?
    ensures Activate(db, email, token, now) == Step(db, Err(InvalidOrExpiredActivation))
  {
  }

  /** A found row with `expires_at < now` is refused and that row, and only it, is deleted. */
  lemma ActivateExpired(db: Db, email: string, token: string, now: int)
    requires Valid(db)
    requires ActivationByEmailAndToken(db.users, db.activation, email, token).Some?
    requires ActivationByEmailAndToken(db.users, db.activation, email, token).value.expiresAt < now
    ensures var row := ActivationByEmailAndToken(db.users, db.activation, email, token).value;
      var s := Activate(db, email, token, now);
      && s.result == Err(InvalidOrExpiredActivation)
      && (forall t :: t in s.db.activation <==> t in db.activation && t != row)
      && s.db.(activation := db.activation) == db
  {
    var row := ActivationByEmailAndToken(db.users, db.activation, email, token).value;
    DeleteRowExact(db, ActivationTokens, row);
  }

  /**
   * A found, unexpired row whose user is already active: "User account is already active."
   * and the token stays in place.
   */
  lemma ActivateAlreadyActive(db: Db, email: string, token: string, now: int, user: User)
    requires Valid(db)
    requires ActivationByEmailAndToken(db.users, db.activation, email, token).Some?
    requires now <= ActivationByEmailAndToken(db.users, db.activation, email, token).value.expiresAt
    requires UserByEmail(db.users, email) == Some(user) && user.isActive
    ensures Activate(db, email, token, now) == Step(db, Err(AlreadyActive))
  {
    var row := ActivationByEmailAndToken(db.users, db.activation, email, token).value;
    OwnerIsUserWithEmail(db, row, email);
  }

  /** The owner that the join found is the one user with that email. */
  lemma OwnerIsUserWithEmail(db: Db, row: Token, email: string)
    requires Valid(db) && OwnedByEmail(db.users, row, email)
    ensures UserById(db.users, row.userId).Some?
    ensures UserById(db.users, row.userId) == UserByEmail(db.users, email)
  {
    var v :| v in db.users && v.id == row.userId && v.email == email;
    assert UserById(db.users, row.userId).Some?;
    assert UserById(db.users, row.userId).value == v;
    assert UserByEmail(db.users, email).value == v;
  }

  /**
   * Success sets `is_active` on the user with that email, deletes the row, and nothing else
   * changes. A token exactly at its `expires_at` is still accepted.
   */
  lemma ActivateSucceeds(db: Db, email: string, token: string, now: int)
    requires Valid(db)
    requires ActivationByEmailAndToken(db.users, db.activation, email, token).Some?
    requires now <= ActivationByEmailAndToken(db.users, db.activation, email, token).value.expiresAt
    requires !UserByEmail(db.users, email).value.isActive
    ensures var row := ActivationByEmailAndToken(db.users, db.activation, email, token).value;
      var s := Activate(db, email, token, now);
      var u := UserByEmail(db.users, email).value;
      && s.result == Ok(())
      && s.db == DeleteRow(SetActive(db, u.id), ActivationTokens, row)
      && UserByEmail(s.db.users, email) == Some(u.(isActive := true))
      && (forall t :: t in s.db.activation <==> t in db.activation && t != row)
  {
    var row := ActivationByEmailAndToken(db.users, db.activation, email, token).value;
    OwnerIsUserWithEmail(db, row, email);
    var u := UserByEmail(db.users, email).value;
    var mid := SetActive(db, u.id);
    SetActiveKeeps(db, u.id);
    assert KeepsIdentity(Activated);
    UpdatedUserFound(db.users, u, Activated);
    DeleteRowExact(mid, ActivationTokens, row);
  }

  /**
   * An activation token works once: after a successful activation the same (email, token)
   * is refused as "Invalid or expired activation token." and changes nothing.
   */
  lemma ActivateReplayFails(db: Db, email: string, token: string, now: int, later: int)
    requires Consistent(db)
    requires Activate(db, email, token, now).result.Ok?
    ensures var s := Activate(db, email, token, now);
      Activate(s.db, email, token, later) == Step(s.db, Err(InvalidOrExpiredActivation))
  {
    var row := ActivationByEmailAndToken(db.users, db.activation, email, token).value;
    OwnerIsUserWithEmail(db, row, email);
    var u := UserByEmail(db.users, email).value;
    var s := Activate(db, email, token, now);
    var mid := SetActive(db, u.id);
    assert s.db == DeleteRow(mid, ActivationTokens, row);
    DeleteRowExact(mid, ActivationTokens, row);
    assert KeepsIdentity(Activated);
    forall t | t in s.db.activation ensures !OwnedByEmail(s.db.users, t, email) {
      UpdateUserOwnership(db.users, u.id, Activated, t, email);
      OnlyRowOfOwner(db, db.activation, row, t, email);
    }
  }

  /** Under the one-token-per-user discipline, a row owned by the email's user is that user's row. */
  lemma OnlyRowOfOwner(db: Db, rows: seq<Token>, row: Token, t: Token, email: string)
    requires Valid(db) && OnePerUser(rows)
    requires row in rows && t in rows && OwnedByEmail(db.users, row, email)
    ensures OwnedByEmail(db.users, t, email) ==> t == row
  {
    OwnerIsUserWithEmail(db, row, email);
    if OwnedByEmail(db.users, t, email) {
      OwnerIsUserWithEmail(db, t, email);
    }
  }

  // ---------------------------------------------------------------------------
  // refresh_token

  /**
   * The stored row's `expires_at` is never consulted: any store that holds the same token
   * strings in its refresh table gives the same outcome.
   */
  lemma RefreshIgnoresStoredExpiry(db: Db, rows: seq<Token>, jwt: JwtManager, refreshToken: string, now: int)
    requires |rows| == |db.refresh|
    requires forall i :: 0 <= i < |rows| ==> rows[i].token == db.refresh[i].token
    ensures Refresh(db.(refresh := rows), jwt, refreshToken, now) == Refresh(db, jwt, refreshToken, now)
  {
    if TokenByValue(rows, refreshToken).Some? {
      var i :| 0 <= i < |rows| && rows[i] == TokenByValue(rows, refreshToken).value;
      assert db.refresh[i] in db.refresh;
    }
    if TokenByValue(db.refresh, refreshToken).Some? {
      var i :| 0 <= i < |db.refresh| && db.refresh[i] == TokenByValue(db.refresh, refreshToken).value;
      assert rows[i] in rows;
    }
  }

  /**
   * The refresh outcome: the decoder's error first, then "Refresh token not found." when no
   * row holds the token string, then "User not found." when the decoded `user_id` selects no
   * user, and otherwise a new access token for that id.
   */
  lemma RefreshOutcome(db: Db, jwt: JwtManager, refreshToken: string, now: int)
    ensures var r := Refresh(db, jwt, refreshToken, now);
      var d := jwt.decodeRefreshToken(refreshToken);
      && (d.Err? ==> r == Err(InvalidToken(d.error)))
      && (d.Ok? ==>
            (r == Err(RefreshTokenNotFound) <==> forall t :: t in db.refresh ==> t.token != refreshToken))
      && (d.Ok? && (exists t :: t in db.refresh && t.token == refreshToken) ==>
            var id := d.value.userId;
            && (r == Err(UserNotFound) <==> id.None? || forall u :: u in db.users ==> u.id != id.value)
            && (id.Some? && (exists u :: u in db.users && u.id == id.value) ==>
                  r == Ok(jwt.createAccessToken(id.value, now))))
      && (r.Ok? ==>
            && d.Ok?
            && (exists t :: t in db.refresh && t.token == refreshToken)
            && var id := d.value.userId;
            && id.Some? && (exists u :: u in db.users && u.id == id.value)
            && r.value == jwt.createAccessToken(id.value, now))
  {
    var r := Refresh(db, jwt, refreshToken, now);
    var d := jwt.decodeRefreshToken(refreshToken);
    if d.Ok? && TokenByValue(db.refresh, refreshToken).Some? {
      var t := TokenByValue(db.refresh, refreshToken).value;
      var id := d.value.userId;
      if id.Some? && UserById(db.users, id.value).Some? {
        var u := UserById(db.users, id.value).value;
      }
    }
  }

  /** A login's refresh token can be exchanged while its row is stored and it decodes to the user. */
  lemma LoginThenRefresh(db: Db, hash: string -> string, jwt: JwtManager,
                         email: string, password: string, now: int, later: int)
    requires Valid(db)
    requires Login(db, hash, jwt, email, password, now).result.Ok?
    requires var s := Login(db, hash, jwt, email, password, now);
      jwt.decodeRefreshToken(s.result.value.refreshToken) ==
        Ok(Claims(Some(UserByEmail(db.users, email).value.id)))
    ensures var s := Login(db, hash, jwt, email, password, now);
      Refresh(s.db, jwt, s.result.value.refreshToken, later) ==
        Ok(jwt.createAccessToken(UserByEmail(db.users, email).value.id, later))
  {
    LoginStoresRefreshToken(db, hash, jwt, email, password, now);
    var u := UserByEmail(db.users, email).value;
    assert UserById(db.users, u.id).Some?;
  }

  // ---------------------------------------------------------------------------
  // request_password_reset

  /** An absent or inactive user gets `False` and nothing changes. */
  lemma RequestResetNoUser(db: Db, sender: Option<EmailSender>, email: string, token: string, expiresAt: int)
    requires UserByEmail(db.users, email).None? || !UserByEmail(db.users, email).value.isActive
    ensures RequestReset(db, sender, email, token, expiresAt) == Step(db, Ok(false))
  {
  }

  /**
   * For an active user every older reset row of that user is deleted and one new row is
   * created, so afterwards the user holds exactly that one reset token; other users' reset
   * rows are untouched. The result is `True`, or the sender's failure raised after the writes.
   */
  lemma RequestResetIssuesOne(db: Db, sender: Option<EmailSender>, email: string, token: string, expiresAt: int)
    requires Valid(db)
    requires UserByEmail(db.users, email).Some? && UserByEmail(db.users, email).value.isActive
    ensures var s := RequestReset(db, sender, email, token, expiresAt);
      var u := UserByEmail(db.users, email).value;
      && (s.result == Ok(true) || (s.result.Err? && s.result.error.DeliveryFailed?))
      && (s.result == Ok(true) <==> sender.None? || sender.value.sendPasswordResetEmail(email, token).None?)
      && TokenOfUser(s.db.reset, u.id).Some?
      && var row := TokenOfUser(s.db.reset, u.id).value;
      && row.token == token && row.expiresAt == expiresAt
      && (forall t :: t in s.db.reset && t.userId == u.id ==> t == row)
      && (forall t :: t in db.reset && t.userId != u.id ==> t in s.db.reset)
      && (forall t :: t in s.db.reset && t.userId != u.id ==> t in db.reset)
      && s.db.users == db.users && s.db.activation == db.activation && s.db.refresh == db.refresh
  {
    var u := UserByEmail(db.users, email).value;
    assert u in db.users;
    var cleared := DeleteResetTokensOf(db, u.id);
    DeleteResetTokensOfKeeps(db, u.id);
    InsertTokenKeeps(cleared, ResetTokens, u.id, token, expiresAt);
    var issued := InsertToken(cleared, ResetTokens, u.id, token, expiresAt);
    assert issued.row in issued.db.reset;
  }

  // ---------------------------------------------------------------------------
  // reset_password

  /** Every failure of `reset_password` is the same "Invalid email or token.". */
  lemma ResetFailsUniformly(db: Db, hash: string -> string, email: string, token: string,
                            newPassword: string, now: int)
    ensures var s := ResetPassword(db, hash, email, token, newPassword, now);
      s.result.Err? ==> s.result.error == InvalidEmailOrToken &&
                        Message(s.result.error) == "Invalid email or token."
  {
  }

  /**
   * A stored reset row that does not match the token, or has `expires_at < now`, is deleted
   * on the way to the error, and nothing else changes.
   */
  lemma ResetMismatchOrExpiredDeletes(db: Db, hash: string -> string, email: string, token: string,
                                      newPassword: string, now: int)
    requires Valid(db)
    requires UserByEmail(db.users, email).Some? && UserByEmail(db.users, email).value.isActive
    requires TokenOfUser(db.reset, UserByEmail(db.users, email).value.id).Some?
    requires var row := TokenOfUser(db.reset, UserByEmail(db.users, email).value.id).value;
      row.token != token || row.expiresAt < now
    ensures var row := TokenOfUser(db.reset, UserByEmail(db.users, email).value.id).value;
      var s := ResetPassword(db, hash, email, token, newPassword, now);
      && s.result == Err(InvalidEmailOrToken)
      && (forall t :: t in s.db.reset <==> t in db.reset && t != row)
      && s.db.(reset := db.reset) == db
  {
    var row := TokenOfUser(db.reset, UserByEmail(db.users, email).value.id).value;
    DeleteRowExact(db, ResetTokens, row);
  }

  /** The only way `reset_password` succeeds: an active user whose reset row matches and is live. */
  lemma ResetSuccessBranch(db: Db, hash: string -> string, email: string, token: string,
                           newPassword: string, now: int)
    requires ResetPassword(db, hash, email, token, newPassword, now).result.Ok?
    ensures UserByEmail(db.users, email).Some? && UserByEmail(db.users, email).value.isActive
    ensures var u := UserByEmail(db.users, email).value;
      && TokenOfUser(db.reset, u.id).Some?
      && var row := TokenOfUser(db.reset, u.id).value;
      && row.token == token && !Expired(row, now)
      && ResetPassword(db, hash, email, token, newPassword, now).db ==
         DeleteRow(SetPassword(db, u.id, hash(newPassword)), ResetTokens, row)
  {
  }

  /**
   * Success needs the user's reset row to carry the given token and not to have expired, and
   * it stores the digest of the new password for that user, which then verifies.
   */
  lemma ResetSucceeds(db: Db, hash: string -> string, email: string, token: string,
                      newPassword: string, now: int)
    requires Valid(db)
    requires ResetPassword(db, hash, email, token, newPassword, now).result.Ok?
    ensures var s := ResetPassword(db, hash, email, token, newPassword, now);
      var u := UserByEmail(db.users, email).value;
      var row := TokenOfUser(db.reset, u.id).value;
      && row.token == token && now <= row.expiresAt
      && UserByEmail(s.db.users, email) == Some(u.(hashedPassword := hash(newPassword)))
      && VerifyPassword(hash, UserByEmail(s.db.users, email).value, newPassword)
  {
    ResetSuccessBranch(db, hash, email, token, newPassword, now);
    var u := UserByEmail(db.users, email).value;
    var updated := SetPassword(db, u.id, hash(newPassword));
    assert ResetPassword(db, hash, email, token, newPassword, now).db.users == updated.users;
    SetPasswordFound(db, u, hash(newPassword));
  }

  /** Success deletes exactly the user's reset row; the other token tables and groups stay. */
  lemma ResetConsumesToken(db: Db, hash: string -> string, email: string, token: string,
                           newPassword: string, now: int)
    requires Valid(db)
    requires ResetPassword(db, hash, email, token, newPassword, now).result.Ok?
    ensures var s := ResetPassword(db, hash, email, token, newPassword, now);
      var row := TokenOfUser(db.reset, UserByEmail(db.users, email).value.id).value;
      && (forall t :: t in s.db.reset <==> t in db.reset && t != row)
      && s.db.activation == db.activation && s.db.refresh == db.refresh && s.db.groups == db.groups
  {
    ResetSuccessBranch(db, hash, email, token, newPassword, now);
    var u := UserByEmail(db.users, email).value;
    var row := TokenOfUser(db.reset, u.id).value;
    DeleteRowExact(SetPassword(db, u.id, hash(newPassword)), ResetTokens, row);
  }

  /**
   * A reset token works once: after a successful reset, every later reset for that email
   * fails, whatever token and password it is given, until a new reset is requested.
   */
  lemma ResetReplayFails(db: Db, hash: string -> string, email: string, token: string,
                         newPassword: string, now: int,
                         otherToken: string, otherPassword: string, later: int)
    requires Consistent(db)
    requires ResetPassword(db, hash, email, token, newPassword, now).result.Ok?
    ensures var s := ResetPassword(db, hash, email, token, newPassword, now);
      ResetPassword(s.db, hash, email, otherToken, otherPassword, later).result == Err(InvalidEmailOrToken)
  {
    ResetSuccessBranch(db, hash, email, token, newPassword, now);
    ResetConsumesToken(db, hash, email, token, newPassword, now);
    ResetSucceeds(db, hash, email, token, newPassword, now);
    var u := UserByEmail(db.users, email).value;
    var row := TokenOfUser(db.reset, u.id).value;
    var s := ResetPassword(db, hash, email, token, newPassword, now);
    forall t | t in s.db.reset ensures t.userId != u.id {
      assert t in db.reset && t != row;
    }
    ResetWithoutRow(s.db, hash, email, otherToken, otherPassword, later);
  }

  /** With no reset row for the email's user, `reset_password` refuses whatever it is given. */
  lemma ResetWithoutRow(db: Db, hash: string -> string, email: string, token: string,
                        newPassword: string, now: int)
    requires UserByEmail(db.users, email).Some? ==>
      TokenOfUser(db.reset, UserByEmail(db.users, email).value.id).None?
    ensures ResetPassword(db, hash, email, token, newPassword, now) == Step(db, Err(InvalidEmailOrToken))
  {
  }

  /**
   * A wrong token burns the pending reset token: after a mismatch the correct token is
   * refused too.
   */
  lemma ResetAfterMismatchFails(db: Db, hash: string -> string, email: string, wrong: string,
                                right: string, newPassword: string, now: int, later: int)
    requires Consistent(db)
    requires UserByEmail(db.users, email).Some? && UserByEmail(db.users, email).value.isActive
    requires TokenOfUser(db.reset, UserByEmail(db.users, email).value.id).Some?
    requires TokenOfUser(db.reset, UserByEmail(db.users, email).value.id).value.token != wrong
    ensures var s := ResetPassword(db, hash, email, wrong, newPassword, now);
      ResetPassword(s.db, hash, email, right, newPassword, later).result == Err(InvalidEmailOrToken)
  {
    ResetMismatchOrExpiredDeletes(db, hash, email, wrong, newPassword, now);
    var u := UserByEmail(db.users, email).value;
    var row := TokenOfUser(db.reset, u.id).value;
    var s := ResetPassword(db, hash, email, wrong, newPassword, now);
    assert s.db.users == db.users;
    forall t | t in s.db.reset ensures t.userId != u.id {
      assert t in db.reset && t != row;
    }
  }

  // ---------------------------------------------------------------------------
  // Every flow keeps the store consistent

  lemma RegisterPreserves(db: Db, hash: string -> string, sender: Option<EmailSender>,
                          email: string, password: string, token: string, expiresAt: int)
    requires Consistent(db)
    ensures Consistent(Register(db, hash, sender, email, password, token, expiresAt).db)
  {
    if UserByEmail(db.users, email).None? {
      var grouped, u, row := RegisterSteps(db, hash, sender, email, password, token, expiresAt);
      assert Disciplined(grouped.db);
      InsertUserKeeps(grouped.db, email, hash(password), grouped.row.id);
      var created := InsertUser(grouped.db, email, hash(password), grouped.row.id).value;
      InsertTokenKeeps(created.db, ActivationTokens, u.id, token, expiresAt);
      assert forall t :: t in created.db.activation ==> t.userId != u.id;
      OnePerUserAppend(created.db.activation, row);
    }
  }

  lemma LoginPreserves(db: Db, hash: string -> string, jwt: JwtManager,
                       email: string, password: string, now: int)
    requires Consistent(db)
    ensures Consistent(Login(db, hash, jwt, email, password, now).db)
  {
    var user := UserByEmail(db.users, email);
    if user.Some? && VerifyPassword(hash, user.value, password) && user.value.isActive {
      assert user.value in db.users;
      InsertTokenKeeps(db, RefreshTokens, user.value.id, jwt.createRefreshToken(user.value.id, now),
                       now + DefaultRefreshDays * SecondsPerDay);
    }
  }

  lemma ActivatePreserves(db: Db, email: string, token: string, now: int)
    requires Consistent(db)
    ensures Consistent(Activate(db, email, token, now).db)
  {
    var found := ActivationByEmailAndToken(db.users, db.activation, email, token);
    if found.Some? {
      DeleteRowKeeps(db, ActivationTokens, found.value);
      if !Expired(found.value, now) {
        var user := UserById(db.users, found.value.userId);
        if user.Some? {
          SetActiveKeeps(db, user.value.id);
          DeleteRowKeeps(SetActive(db, user.value.id), ActivationTokens, found.value);
        }
      }
    }
  }

  lemma RequestResetPreserves(db: Db, sender: Option<EmailSender>, email: string, token: string, expiresAt: int)
    requires Consistent(db)
    ensures Consistent(RequestReset(db, sender, email, token, expiresAt).db)
  {
    var user := UserByEmail(db.users, email);
    if user.Some? && user.value.isActive {
      var u := user.value;
      assert u in db.users;
      var cleared := DeleteResetTokensOf(db, u.id);
      DeleteResetTokensOfKeeps(db, u.id);
      InsertTokenKeeps(cleared, ResetTokens, u.id, token, expiresAt);
      var issued := InsertToken(cleared, ResetTokens, u.id, token, expiresAt);
      assert Consistent(issued.db) by {
        assert issued.db.reset == cleared.reset + [issued.row];
        assert issued.db.activation == db.activation;
        OnePerUserAppend(cleared.reset, issued.row);
      }
      assert RequestReset(db, sender, email, token, expiresAt).db == issued.db;
    }
  }

  lemma ResetPasswordPreserves(db: Db, hash: string -> string, email: string, token: string,
                               newPassword: string, now: int)
    requires Consistent(db)
    ensures Consistent(ResetPassword(db, hash, email, token, newPassword, now).db)
  {
    var user := UserByEmail(db.users, email);
    if user.Some? && user.value.isActive {
      var found := TokenOfUser(db.reset, user.value.id);
      if found.Some? {
        if found.value.token != token || Expired(found.value, now) {
          DeleteRowKeeps(db, ResetTokens, found.value);
        } else {
          var mid := SetPassword(db, user.value.id, hash(newPassword));
          SetPasswordKeeps(db, user.value.id, hash(newPassword));
          DeleteRowKeeps(mid, ResetTokens, found.value);
        }
      }
    }
  }

  // ---------------------------------------------------------------------------
  // Whole account lifecycles

  /**
   * Register, then activate with the emailed token before it expires, then log in with the
   * same password: every step succeeds. In the model every write takes effect at once, so
   * this holds even when the activation email could not be delivered.
   */
  lemma RegisterActivateLogin(db: Db, hash: string -> string, sender: Option<EmailSender>,
                              jwt: JwtManager, email: string, password: string, token: string,
                              expiresAt: int, now: int, later: int)
    requires Consistent(db) && UserByEmail(db.users, email).None?
    requires now <= expiresAt
    ensures var r := Register(db, hash, sender, email, password, token, expiresAt);
      var a := Activate(r.db, email, token, now);
      a.result == Ok(()) && Login(a.db, hash, jwt, email, password, later).result.Ok?
  {
    var r := Register(db, hash, sender, email, password, token, expiresAt);
    assert && Valid(r.db)
           && UserByEmail(r.db.users, email).Some?
           && !UserByEmail(r.db.users, email).value.isActive
           && UserByEmail(r.db.users, email).value.hashedPassword == hash(password)
           && ActivationByEmailAndToken(r.db.users, r.db.activation, email, token).Some?
           && now <= ActivationByEmailAndToken(r.db.users, r.db.activation, email, token).value.expiresAt
    by {
      RegisterCreatesUser(db, hash, sender, email, password, token, expiresAt);
      RegisterIssuesActivation(db, hash, sender, email, password, token, expiresAt);
      RegisterPreserves(db, hash, sender, email, password, token, expiresAt);
    }
    var u := UserByEmail(r.db.users, email).value;
    ActivateSucceeds(r.db, email, token, now);
    var a := Activate(r.db, email, token, now);
    assert a.result == Ok(());
    LoginAccepts(a.db, hash, jwt, email, password, later);
  }

  /**
   * `login_user` succeeds for an active user whose stored digest is that of the password, and
   * returns the access and refresh tokens the JWT manager makes for that user's id.
   */
  lemma LoginAccepts(db: Db, hash: string -> string, jwt: JwtManager,
                     email: string, password: string, now: int)
    requires UserByEmail(db.users, email).Some?
    requires UserByEmail(db.users, email).value.isActive
    requires UserByEmail(db.users, email).value.hashedPassword == hash(password)
    ensures var id := UserByEmail(db.users, email).value.id;
      Login(db, hash, jwt, email, password, now).result ==
        Ok(LoginTokens(jwt.createAccessToken(id, now), jwt.createRefreshToken(id, now)))
  {
  }

  /**
   * Request a reset for an active user, then reset with the emailed token before it expires:
   * the reset succeeds and the new password verifies, whatever reset tokens existed before.
   */
  lemma RequestThenReset(db: Db, hash: string -> string, sender: Option<EmailSender>,
                         email: string, token: string, expiresAt: int, newPassword: string, now: int)
    requires Consistent(db)
    requires UserByEmail(db.users, email).Some? && UserByEmail(db.users, email).value.isActive
    requires now <= expiresAt
    ensures var q := RequestReset(db, sender, email, token, expiresAt);
      var s := ResetPassword(q.db, hash, email, token, newPassword, now);
      && s.result == Ok(())
      && UserByEmail(s.db.users, email).Some?
      && VerifyPassword(hash, UserByEmail(s.db.users, email).value, newPassword)
  {
    var q := RequestReset(db, sender, email, token, expiresAt);
    assert Valid(q.db) by {
      RequestResetPreserves(db, sender, email, token, expiresAt);
    }
    assert ResetPassword(q.db, hash, email, token, newPassword, now).result == Ok(()) by {
      RequestResetIssuesOne(db, sender, email, token, expiresAt);
      ResetAccepts(q.db, hash, email, token, newPassword, now);
    }
    ResetSucceeds(q.db, hash, email, token, newPassword, now);
  }

  /** `reset_password` succeeds for an active user whose reset row matches and has not expired. */
  lemma ResetAccepts(db: Db, hash: string -> string, email: string, token: string,
                     newPassword: string, now: int)
    requires UserByEmail(db.users, email).Some? && UserByEmail(db.users, email).value.isActive
    requires var u := UserByEmail(db.users, email).value;
      TokenOfUser(db.reset, u.id).Some? && TokenOfUser(db.reset, u.id).value.token == token &&
      now <= TokenOfUser(db.reset, u.id).value.expiresAt
    ensures ResetPassword(db, hash, email, token, newPassword, now).result == Ok(())
  {
  }
}
