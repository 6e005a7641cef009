/**
 * `CustomTokenAuthentication`: bearer tokens that expire a fixed number of
 * seconds (the `USER_AUTH_TOKEN_EXPIRATION_SECONDS` setting, here `lifetime`)
 * after creation. Authentication fails, in this order, on an unknown key, on
 * an inactive user, and on an expired token, which it also deletes.
 */
module TokenAuth {
  import opened Wrappers
  import opened Orm

  /** `expires_in(token)`: the seconds left, negative once the lifetime has passed. */
  function ExpiresIn(created: nat, now: nat, lifetime: int): int {
    lifetime - (now - created)
  }

  /** `is_expired(token)`. */
  function IsExpired(created: nat, now: nat, lifetime: int): (expired: bool)
    ensures expired <==> now - created > lifetime
  {
    ExpiresIn(created, now, lifetime) < 0
  }

  datatype AuthFailure = InvalidToken | UserInactive | TokenExpired

  /** The text of the `AuthenticationFailed` raised for each failure. */
  function Message(f: AuthFailure): string {
    match f
    case InvalidToken => "Invalid token."
    case UserInactive => "User inactive or deleted."
    case TokenExpired => "Token expired."
  }

  /** The outcome of `authenticate_credentials(key)` against the token table at time `now`. */
  function Authenticate(tokens: map<string, AuthToken>, users: map<string, User>, key: string, now: nat, lifetime: int)
    : Result<(User, AuthToken), AuthFailure>
    requires key in tokens ==> tokens[key].userEmail in users
  {
    if key !in tokens then Failure(InvalidToken)
    else
      var token := tokens[key];
      if !users[token.userEmail].isActive then Failure(UserInactive)
      else if IsExpired(token.created, now, lifetime) then Failure(TokenExpired)
      else Success((users[token.userEmail], token))
  }

  /**
   * `authenticate_credentials(key)`: the outcome above; an expired token is
   * removed from the table before the failure is raised, and otherwise the
   * table is unchanged.
   */
  method AuthenticateCredentials(db: Db, key: string, now: nat, lifetime: int)
    returns (r: Result<(User, AuthToken), AuthFailure>)
    requires db.Valid()
    modifies db`authTokens
    ensures db.Valid()
    ensures r == Authenticate(old(db.authTokens), db.users, key, now, lifetime)
    ensures db.authTokens == if r == Failure(TokenExpired) then old(db.authTokens) - {key} else old(db.authTokens)
  {
    if key !in db.authTokens {
      return Failure(InvalidToken);
    }
    var token := db.authTokens[key];
    if !db.users[token.userEmail].isActive {
      return Failure(UserInactive);
    }
    if IsExpired(token.created, now, lifetime) {
      db.authTokens := db.authTokens - {key};
      return Failure(TokenExpired);
    }
    return Success((db.users[token.userEmail], token));
  }

  /**
   * The checks run in a fixed order: an unknown key is reported first, then
   * an inactive user (even when the token has also expired), then expiry.
   */
  lemma CheckOrder(tokens: map<string, AuthToken>, users: map<string, User>, key: string, now: nat, lifetime: int)
    requires key in tokens ==> tokens[key].userEmail in users
    ensures key !in tokens ==> Authenticate(tokens, users, key, now, lifetime) == Failure(InvalidToken)
    ensures key in tokens && !users[tokens[key].userEmail].isActive
      ==> Authenticate(tokens, users, key, now, lifetime) == Failure(UserInactive)
    ensures key in tokens && users[tokens[key].userEmail].isActive && now - tokens[key].created > lifetime
      ==> Authenticate(tokens, users, key, now, lifetime) == Failure(TokenExpired)
  {
  }

  /**
   * Authentication succeeds exactly for a known key of an active user whose
   * token has not outlived `lifetime`, and returns that user and token.
   */
  lemma SucceedsIff(tokens: map<string, AuthToken>, users: map<string, User>, key: string, now: nat, lifetime: int)
    requires key in tokens ==> tokens[key].userEmail in users
    ensures Authenticate(tokens, users, key, now, lifetime).Success?
      <==> key in tokens && users[tokens[key].userEmail].isActive && now - tokens[key].created <= lifetime
    ensures Authenticate(tokens, users, key, now, lifetime).Success?
      ==> Authenticate(tokens, users, key, now, lifetime).value == (users[tokens[key].userEmail], tokens[key])
  {
  }

  /** Once an expired token has been deleted, presenting it again reports an unknown key. */
  lemma ExpiredTokenIsGone(tokens: map<string, AuthToken>, users: map<string, User>, key: string, now: nat, later: nat, lifetime: int)
    requires key in tokens ==> tokens[key].userEmail in users
    requires Authenticate(tokens, users, key, now, lifetime) == Failure(TokenExpired)
    ensures Authenticate(tokens - {key}, users, key, later, lifetime) == Failure(InvalidToken)
  {
  }
}
