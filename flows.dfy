/**
 * The account lifecycle of `UserService`, flow by flow, as functions from the store before
 * the call to the store after it and the outcome (`Step`).
 *
 * Collaborators the service cannot see are inputs: the clock (`now`), the random token
 * strings and their expiry instants, the JWT manager and the email sender.
 */
module Flows {
  import opened Common
  import opened Accounts

  /** The errors the flows raise; `Message` gives the text each one carries. */
  datatype ServiceError =
    | EmailTaken(email: string)
    | InvalidCredentials
    | NotActivated
    | InvalidOrExpiredActivation
    | AlreadyActive
    | InvalidToken(reason: string)  // a security error raised while decoding a refresh token
    | RefreshTokenNotFound
    | UserNotFound
    | InvalidEmailOrToken
    | DeliveryFailed(reason: string)  // an exception raised by the email sender, not caught

  function Message(e: ServiceError): string {
    match e
    case EmailTaken(email) => "A user with this email " + email + " already exists."
    case InvalidCredentials => "Invalid email or password."
    case NotActivated => "User account is not activated."
    case InvalidOrExpiredActivation => "Invalid or expired activation token."
    case AlreadyActive => "User account is already active."
    case InvalidToken(reason) => reason
    case RefreshTokenNotFound => "Refresh token not found."
    case UserNotFound => "User not found."
    case InvalidEmailOrToken => "Invalid email or token."
    case DeliveryFailed(reason) => reason
  }

  /** The claims decoded from a refresh token; `user_id` may be missing. */
  datatype Claims = Claims(userId: Option<nat>)

  /**
   * The JWT manager: tokens issued for a user id at an instant, and decoding, which fails
   * with a security error on a bad signature or an expired token.
   */
  datatype JwtManager = JwtManager(
    createAccessToken: (nat, int) -> string,
    createRefreshToken: (nat, int) -> string,
    decodeRefreshToken: string -> Result<Claims, string>)

  /** The email sender: `Some(reason)` stands for a send that raised an error with that message. */
  datatype EmailSender = EmailSender(
    sendActivationEmail: (string, string) -> Option<string>,
    sendPasswordResetEmail: (string, string) -> Option<string>)

  /** What registration returns: the new user and the activation token string. */
  datatype Registration = Registration(user: User, activationToken: string)

  datatype LoginTokens = LoginTokens(accessToken: string, refreshToken: string)

  /** The store after a flow and the flow's outcome. */
  datatype Step<T> = Step(db: Db, result: Result<T, ServiceError>)

  /** `UserModel.verify_password` against the stored digest. */
  predicate VerifyPassword(hash: string -> string, user: User, raw: string) {
    hash(raw) == user.hashedPassword
  }

  /** The only expiry test the flows use: a token is expired strictly after `expires_at`. */
  predicate Expired(t: Token, now: int) {
    t.expiresAt < now
  }

  // ---------------------------------------------------------------------------
  // The flows as functions of the store

  /** `register_user`. */
  function Register(db: Db, hash: string -> string, sender: Option<EmailSender>,
                    email: string, password: string, token: string, expiresAt: int): Step<Registration>
  {
    if UserByEmail(db.users, email).Some? then Step(db, Err(EmailTaken(email)))
    else
      var existing := GroupByName(db.groups, USER);
      var grouped := if existing.Some? then Inserted(db, existing.value) else InsertGroup(db, USER);
      var created := InsertUser(grouped.db, email, hash(password), grouped.row.id).value;
      var issued := InsertToken(created.db, ActivationTokens, created.row.id, token, expiresAt);
      var failure := if sender.Some? then sender.value.sendActivationEmail(created.row.email, issued.row.token)
                     else None;
      if failure.Some? then
        Step(issued.db, Err(DeliveryFailed(failure.value)))
      else
        Step(issued.db, Ok(Registration(created.row, issued.row.token)))
  }

  /** `login_user`. */
  function Login(db: Db, hash: string -> string, jwt: JwtManager,
                 email: string, password: string, now: int): Step<LoginTokens>
  {
    var user := UserByEmail(db.users, email);
    if user.None? || !VerifyPassword(hash, user.value, password) then Step(db, Err(InvalidCredentials))
    else if !user.value.isActive then Step(db, Err(NotActivated))
    else
      var refreshToken := jwt.createRefreshToken(user.value.id, now);
      var stored := InsertToken(db, RefreshTokens, user.value.id, refreshToken,
                                now + DefaultRefreshDays * SecondsPerDay);
      Step(stored.db, Ok(LoginTokens(jwt.createAccessToken(user.value.id, now), refreshToken)))
  }

  /** `activate_account`. */
  function Activate(db: Db, email: string, token: string, now: int): Step<()>
  {
    var found := ActivationByEmailAndToken(db.users, db.activation, email, token);
    if found.None? then Step(db, Err(InvalidOrExpiredActivation))
    else if Expired(found.value, now) then
      Step(DeleteRow(db, ActivationTokens, found.value), Err(InvalidOrExpiredActivation))
    else
      var user := UserById(db.users, found.value.userId).value;
      if user.isActive then Step(db, Err(AlreadyActive))
      else Step(DeleteRow(SetActive(db, user.id), ActivationTokens, found.value), Ok(()))
  }

  /** `refresh_token`: reads the store and never changes it. */
  function Refresh(db: Db, jwt: JwtManager, refreshToken: string, now: int): Result<string, ServiceError>
  {
    match jwt.decodeRefreshToken(refreshToken)
    case Err(reason) => Err(InvalidToken(reason))
    case Ok(claims) =>
      if TokenByValue(db.refresh, refreshToken).None? then Err(RefreshTokenNotFound)
      // a missing `user_id` claim selects no user
      else if claims.userId.None? || UserById(db.users, claims.userId.value).None? then Err(UserNotFound)
      else Ok(jwt.createAccessToken(claims.userId.value, now))
  }

  /** `request_password_reset`. */
  function RequestReset(db: Db, sender: Option<EmailSender>,
                        email: string, token: string, expiresAt: int): Step<bool>
  {
    var user := UserByEmail(db.users, email);
    if user.None? || !user.value.isActive then Step(db, Ok(false))
    else
      var cleared := DeleteResetTokensOf(db, user.value.id);
      var issued := InsertToken(cleared, ResetTokens, user.value.id, token, expiresAt);
      var failure := if sender.Some? then sender.value.sendPasswordResetEmail(email, issued.row.token)
                     else None;
      if failure.Some? then
        Step(issued.db, Err(DeliveryFailed(failure.value)))
      else
        Step(issued.db, Ok(true))
  }

  /** `reset_password`. */
  function ResetPassword(db: Db, hash: string -> string,
                         email: string, token: string, newPassword: string, now: int): Step<()>
  {
    var user := UserByEmail(db.users, email);
    if user.None? || !user.value.isActive then Step(db, Err(InvalidEmailOrToken))
    else
      var found := TokenOfUser(db.reset, user.value.id);
      if found.None? then Step(db, Err(InvalidEmailOrToken))
      else if found.value.token != token then
        Step(DeleteRow(db, ResetTokens, found.value), Err(InvalidEmailOrToken))
      else if Expired(found.value, now) then
        Step(DeleteRow(db, ResetTokens, found.value), Err(InvalidEmailOrToken))
      else
        Step(DeleteRow(SetPassword(db, user.value.id, hash(newPassword)), ResetTokens, found.value),
             Ok(()))
  }
}
