/**
 * `UserService`: runs each flow of module Flows step by step against a UserRepository and
 * promises exactly the store and outcome the flow function gives. Each mutating method also
 * keeps the store consistent.
 */
module UserServices {
  import opened Common
  import opened Accounts
  import opened Flows
  import opened Lifecycle
  import UserRepo

  // ---------------------------------------------------------------------------
  // The service object

  class UserService {
    const repository: UserRepo.UserRepository
    const jwtManager: JwtManager
    const emailSender: Option<EmailSender>

    constructor (repository: UserRepo.UserRepository, jwtManager: JwtManager,
                 emailSender: Option<EmailSender>)
      ensures this.repository == repository && this.jwtManager == jwtManager
      ensures this.emailSender == emailSender
    {
      this.repository := repository;
      this.jwtManager := jwtManager;
      this.emailSender := emailSender;
    }

    method RegisterUser(email: string, password: string, activationToken: string, expiresAt: int)
      returns (r: Result<Registration, ServiceError>)
      modifies repository
      requires Consistent(repository.Snapshot())
      ensures Consistent(repository.Snapshot())
      ensures var s := Register(old(repository.Snapshot()), repository.hash, emailSender,
                                email, password, activationToken, expiresAt);
              repository.Snapshot() == s.db && r == s.result
    {
      RegisterPreserves(repository.Snapshot(), repository.hash, emailSender, email, password, activationToken, expiresAt);
      var existing := UserByEmail(repository.users, email);
      if existing.Some? {
        return Err(EmailTaken(email));
      }
      var group := GroupByName(repository.groups, USER);
      var userGroup: UserGroup;
      if group.None? {
        userGroup := repository.CreateUserGroup(USER);
      } else {
        userGroup := group.value;
      }
      var created := repository.CreateUser(email, password, userGroup.id);
      var newUser := created.value;
      var row := repository.CreateActivationToken(newUser.id, activationToken, expiresAt);
      if emailSender.Some? {
        var failure := emailSender.value.sendActivationEmail(newUser.email, row.token);
        if failure.Some? {
          return Err(DeliveryFailed(failure.value));
        }
      }
      return Ok(Registration(newUser, row.token));
    }

    method LoginUser(email: string, password: string, now: int) returns (r: Result<LoginTokens, ServiceError>)
      modifies repository
      requires Consistent(repository.Snapshot())
      ensures Consistent(repository.Snapshot())
      ensures var s := Login(old(repository.Snapshot()), repository.hash, jwtManager, email, password, now);
              repository.Snapshot() == s.db && r == s.result
    {
      LoginPreserves(repository.Snapshot(), repository.hash, jwtManager, email, password, now);
      var user := UserByEmail(repository.users, email);
      if user.None? || !VerifyPassword(repository.hash, user.value, password) {
        return Err(InvalidCredentials);
      }
      if !user.value.isActive {
        return Err(NotActivated);
      }
      var jwtRefreshToken := jwtManager.createRefreshToken(user.value.id, now);
      var _ := repository.CreateRefreshToken(user.value.id, jwtRefreshToken, now);
      var jwtAccessToken := jwtManager.createAccessToken(user.value.id, now);
      return Ok(LoginTokens(jwtAccessToken, jwtRefreshToken));
    }

    method ActivateAccount(email: string, token: string, now: int) returns (r: Result<(), ServiceError>)
      modifies repository
      requires Consistent(repository.Snapshot())
      ensures Consistent(repository.Snapshot())
      ensures var s := Activate(old(repository.Snapshot()), email, token, now);
              repository.Snapshot() == s.db && r == s.result
    {
      ActivatePreserves(repository.Snapshot(), email, token, now);
      var record := ActivationByEmailAndToken(repository.users, repository.activationTokens, email, token);
      if record.None? || Expired(record.value, now) {
        if record.Some? {
          repository.DeleteToken(ActivationTokens, record.value);
        }
        return Err(InvalidOrExpiredActivation);
      }
      var user := UserById(repository.users, record.value.userId).value;
      if user.isActive {
        return Err(AlreadyActive);
      }
      repository.ActivateUser(user);
      repository.DeleteToken(ActivationTokens, record.value);
      return Ok(());
    }

    method RefreshToken(refreshToken: string, now: int) returns (r: Result<string, ServiceError>)
      ensures r == Refresh(repository.Snapshot(), jwtManager, refreshToken, now)
      ensures r.Ok? ==> TokenByValue(repository.refreshTokens, refreshToken).Some?
    {
      var decoded := jwtManager.decodeRefreshToken(refreshToken);
      if decoded.Err? {
        return Err(InvalidToken(decoded.error));
      }
      var userId := decoded.value.userId;
      var record := TokenByValue(repository.refreshTokens, refreshToken);
      if record.None? {
        return Err(RefreshTokenNotFound);
      }
      var user := if userId.Some? then UserById(repository.users, userId.value) else None;
      if user.None? {
        return Err(UserNotFound);
      }
      return Ok(jwtManager.createAccessToken(userId.value, now));
    }

    method RequestPasswordReset(email: string, resetToken: string, expiresAt: int)
      returns (r: Result<bool, ServiceError>)
      modifies repository
      requires Consistent(repository.Snapshot())
      ensures Consistent(repository.Snapshot())
      ensures var s := RequestReset(old(repository.Snapshot()), emailSender, email, resetToken, expiresAt);
              repository.Snapshot() == s.db && r == s.result
    {
      RequestResetPreserves(repository.Snapshot(), emailSender, email, resetToken, expiresAt);
      var user := UserByEmail(repository.users, email);
      if user.None? || !user.value.isActive {
        return Ok(false);
      }
      repository.DeletePasswordResetTokens(user.value.id);
      var row := repository.CreatePasswordResetToken(user.value.id, resetToken, expiresAt);
      if emailSender.Some? {
        var failure := emailSender.value.sendPasswordResetEmail(email, row.token);
        if failure.Some? {
          return Err(DeliveryFailed(failure.value));
        }
      }
      return Ok(true);
    }

    method ResetUserPassword(email: string, token: string, newPassword: string, now: int)
      returns (r: Result<(), ServiceError>)
      modifies repository
      requires Consistent(repository.Snapshot())
      ensures Consistent(repository.Snapshot())
      ensures var s := ResetPassword(old(repository.Snapshot()), repository.hash, email, token, newPassword, now);
              repository.Snapshot() == s.db && r == s.result
    {
      ResetPasswordPreserves(repository.Snapshot(), repository.hash, email, token, newPassword, now);
      var user := UserByEmail(repository.users, email);
      if user.None? || !user.value.isActive {
        return Err(InvalidEmailOrToken);
      }
      var record := TokenOfUser(repository.resetTokens, user.value.id);
      if record.None? || record.value.token != token {
        if record.Some? {
          repository.DeleteToken(ResetTokens, record.value);
        }
        return Err(InvalidEmailOrToken);
      }
      if Expired(record.value, now) {
        repository.DeleteToken(ResetTokens, record.value);
        return Err(InvalidEmailOrToken);
      }
      repository.UpdateUserPassword(user.value, newPassword);
      repository.DeleteToken(ResetTokens, record.value);
      return Ok(());
    }
  }
}
