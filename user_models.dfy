/**
 * The `User` model: its hidden fields, building a user from validated data
 * (the password is hashed first), the profile-photo URL, and the
 * password-reset protocol over the `PasswordResetWhitelist` table, where
 * sending a reset inserts a (token, email) row and verifying a reset
 * consumes it.
 */
module UserModels {
  import opened Wrappers
  import opened Values
  import Text
  import Hashers
  import ActivationTokens
  import CoreModels
  import UuidText
  import opened Orm

  /** The names `User._meta.fields` lists. */
  const UserFields: seq<string> := [
    "password", "last_login", "is_superuser", "is_staff", "is_active", "date_joined",
    "id", "created_at", "updated_at", "is_deleted", "deleted_at",
    "username", "full_name", "email", "user_type", "is_verified",
    "street", "state", "city", "zip_code", "contact_no", "_profile_photo"]

  const ExtraHiddenFields: seq<string> :=
    ["is_staff", "is_superuser", "is_verified", "_profile_photo", "is_active", "date_joined"]

  /** `User.get_hidden_fields()`: the core model's hidden fields, then the six user ones. */
  function GetHiddenFields(): (r: seq<string>)
    ensures |r| == |CoreModels.GetHiddenFields()| + 6
    ensures r[..|CoreModels.GetHiddenFields()|] == CoreModels.GetHiddenFields()
    ensures r[|CoreModels.GetHiddenFields()|..] == ExtraHiddenFields
    ensures forall f :: f in r ==> f in UserFields
  {
    CoreModels.GetHiddenFields() + ExtraHiddenFields
  }

  /** The validated data once its password has been replaced by the password's encoding. */
  function HashedPassword(data: Row): (r: Row)
    requires "password" in data
    ensures r.Keys == data.Keys
    ensures r["password"] == VStr(Hashers.MakePassword(data["password"]))
    ensures forall k :: k in data && k != "password" ==> r[k] == data[k]
  {
    data["password" := VStr(Hashers.MakePassword(data["password"]))]
  }

  /**
   * `User.from_validated_data`: a missing password raises KeyError before
   * anything changes; otherwise the password is hashed and the user is built
   * from exactly the field-named entries, which are popped from the dict.
   */
  method FromValidatedData(id: UuidText.Uuid, data: Dict) returns (r: Result<CoreModels.Instance, KeyError>)
    modifies data
    ensures "password" !in old(data.items) ==> r == Failure(KeyError("password")) && data.items == old(data.items)
    ensures "password" in old(data.items) ==>
      && r.Success? && fresh(r.value) && r.value.id == id
      && r.value.attrs == CoreModels.FieldPart(HashedPassword(old(data.items)), UserFields)
      && r.value.attrs["password"] == VStr(Hashers.MakePassword(old(data.items)["password"]))
      && data.items == CoreModels.RestPart(old(data.items), UserFields)
  {
    if "password" !in data.items {
      return Failure(KeyError("password"));
    }
    ghost var original := data.items;
    var raw := data.Pop("password");
    data.Put("password", VStr(Hashers.MakePassword(raw)));
    assert data.items == HashedPassword(original);
    var obj := CoreModels.FromValidatedData(id, UserFields, data);
    assert CoreModels.RestPart(HashedPassword(original), UserFields) == CoreModels.RestPart(original, UserFields);
    return Success(obj);
  }

  /** The `profile_photo` property: the site domain followed by the file's URL, or None without a file. */
  function ProfilePhoto(domain: string, photoName: string, photoUrl: string): (r: Option<string>)
    ensures r.Some? <==> photoName != ""
    ensures r.Some? ==> |r.value| == |domain| + |photoUrl| && r.value[..|domain|] == domain && r.value[|domain|..] == photoUrl
  {
    if photoName != "" then Some(domain + photoUrl) else None
  }

  /** The link in the verification mail: `FRONTEND_URL/email-verification?token=<token>`. */
  function VerificationLink(frontendUrl: string, token: string): (link: string)
    ensures link == frontendUrl + "/email-verification?token=" + token
  {
    assert [frontendUrl, "email-verification"][1..] == ["email-verification"];
    assert Text.Join("/", [frontendUrl, "email-verification"]) == frontendUrl + "/" + "email-verification";
    assert "/" + "email-verification" + "?token=" == "/email-verification?token=";
    Text.Join("/", [frontendUrl, "email-verification"]) + "?token=" + token
  }

  /** The link in the reset mail: `FRONTEND_URL/password-reset?token=<token>`. */
  function ResetLink(frontendUrl: string, token: string): (link: string)
    ensures link == frontendUrl + "/password-reset?token=" + token
  {
    assert [frontendUrl, "password-reset"][1..] == ["password-reset"];
    assert Text.Join("/", [frontendUrl, "password-reset"]) == frontendUrl + "/" + "password-reset";
    assert "/" + "password-reset" + "?token=" == "/password-reset?token=";
    Text.Join("/", [frontendUrl, "password-reset"]) + "?token=" + token
  }

  /** How the reset protocol fails. */
  datatype ResetError =
    | AlreadySent    // the whitelist insert violates a unique constraint
    | InvalidToken   // ValidationError("Invalid token.")
    | MalformedTime  // the ValueError that `get_token_value` lets through

  function ResetMessage(e: ResetError): string {
    match e
    case AlreadySent => "Password reset mail is already sent."
    case InvalidToken => "Invalid token."
    case MalformedTime => "time data does not match format"
  }

  /** The email already has a whitelist row. */
  predicate HasEntry(whitelist: map<string, string>, email: string) {
    exists t :: t in whitelist && whitelist[t] == email
  }

  /** The whitelist insert: it fails when either unique column (email, token) would repeat. */
  function SendReset(whitelist: map<string, string>, email: string, token: string): Result<map<string, string>, ResetError> {
    if HasEntry(whitelist, email) || token in whitelist then Failure(AlreadySent)
    else Success(whitelist[token := email])
  }

  /**
   * `verify_password_reset(token, password)`: the token must be whitelisted,
   * must decode, and its email must name a user; the user's password is then
   * set and the whitelist row deleted.
   */
  function VerifyReset(users: map<string, User>, whitelist: map<string, string>, token: string, password: string, now: nat)
    : Result<(map<string, User>, map<string, string>), ResetError>
  {
    if token !in whitelist then Failure(InvalidToken)
    else
      match ActivationTokens.GetTokenValue(token, now)
      case Failure(err) => Failure(if err == ActivationTokens.InvalidToken then InvalidToken else MalformedTime)
      case Success(email) =>
        if email !in users then Failure(InvalidToken)
        else Success((users[email := users[email].(password := Hashers.MakePassword(VStr(password)))], whitelist - {token}))
  }

  /**
   * `send_password_reset_mail` as written: the token for `email` issued at
   * `now` is inserted; a unique-constraint violation is reported as
   * "already sent" and changes nothing. On success the mail's link is returned.
   */
  method SendPasswordResetMail(db: Db, email: string, now: nat, frontendUrl: string) returns (r: Result<string, ResetError>)
    requires db.Valid()
    modifies db`resetWhitelist
    ensures db.Valid()
    ensures var token := ActivationTokens.GenerateToken(email, now);
      match SendReset(old(db.resetWhitelist), email, token)
      case Success(whitelist) => db.resetWhitelist == whitelist && r == Success(ResetLink(frontendUrl, token))
      case Failure(e) => db.resetWhitelist == old(db.resetWhitelist) && r == Failure(e)
  {
    var token := ActivationTokens.GenerateToken(email, now);
    if (exists t :: t in db.resetWhitelist && db.resetWhitelist[t] == email) || token in db.resetWhitelist {
      return Failure(AlreadySent);
    }
    SendResetKeepsInvariant(db.resetWhitelist, email, now);
    db.resetWhitelist := db.resetWhitelist[token := email];
    r := Success(ResetLink(frontendUrl, token));
  }

  /** `verify_password_reset` on the tables: the outcome of `VerifyReset`, and no change on failure. */
  method VerifyPasswordReset(db: Db, token: string, password: string, now: nat) returns (r: Result<(), ResetError>)
    requires db.Valid()
    modifies db`users, db`resetWhitelist
    ensures db.Valid()
    ensures match VerifyReset(old(db.users), old(db.resetWhitelist), token, password, now)
      case Success((users, whitelist)) => r == Success(()) && db.users == users && db.resetWhitelist == whitelist
      case Failure(e) => r == Failure(e) && db.users == old(db.users) && db.resetWhitelist == old(db.resetWhitelist)
  {
    if token !in db.resetWhitelist {
      return Failure(InvalidToken);
    }
    var decoded := ActivationTokens.GetTokenValue(token, now);
    if decoded.Failure? {
      return Failure(if decoded.error == ActivationTokens.InvalidToken then InvalidToken else MalformedTime);
    }
    var email := decoded.value;
    if email !in db.users {
      return Failure(InvalidToken);
    }
    db.users := db.users[email := db.users[email].(password := Hashers.MakePassword(VStr(password)))];
    db.resetWhitelist := db.resetWhitelist - {token};
    return Success(());
  }

  /** A successful insert keeps emails unique and every token generated for its email. */
  lemma SendResetKeepsInvariant(whitelist: map<string, string>, email: string, now: nat)
    requires UniqueEmails(whitelist) && TokensEncodeEmails(whitelist)
    ensures var token := ActivationTokens.GenerateToken(email, now);
      SendReset(whitelist, email, token).Success? ==>
        UniqueEmails(SendReset(whitelist, email, token).value) && TokensEncodeEmails(SendReset(whitelist, email, token).value)
  {
    var token := ActivationTokens.GenerateToken(email, now);
    if SendReset(whitelist, email, token).Success? {
      var w := whitelist[token := email];
      forall t | t in w ensures exists issued: nat :: t == ActivationTokens.GenerateToken(w[t], issued) {
        if t == token {
          assert t == ActivationTokens.GenerateToken(w[t], now);
        } else {
          assert w[t] == whitelist[t];
        }
      }
    }
  }

  /**
   * On a whitelist that keeps its invariant, sending a reset for `email` fails
   * exactly when the email already has a row; on success exactly one row,
   * (token, email), is added.
   */
  lemma SendResetFailsIffEntryExists(whitelist: map<string, string>, email: string, now: nat)
    requires UniqueEmails(whitelist) && TokensEncodeEmails(whitelist)
    ensures var token := ActivationTokens.GenerateToken(email, now);
      && (SendReset(whitelist, email, token) == Failure(AlreadySent) <==> HasEntry(whitelist, email))
      && (SendReset(whitelist, email, token).Success? ==>
            && token !in whitelist
            && SendReset(whitelist, email, token).value == whitelist[token := email])
  {
    var token := ActivationTokens.GenerateToken(email, now);
    if token in whitelist {
      var issued: nat :| token == ActivationTokens.GenerateToken(whitelist[token], issued);
      ActivationTokens.GeneratedTokenDeterminesText(email, now, whitelist[token], issued);
    }
  }

  /** After a successful send, a second send for the same email fails, whatever its token. */
  lemma SecondSendFails(whitelist: map<string, string>, email: string, token: string, token2: string)
    requires SendReset(whitelist, email, token).Success?
    ensures SendReset(SendReset(whitelist, email, token).value, email, token2) == Failure(AlreadySent)
  {
    assert SendReset(whitelist, email, token).value[token] == email;
  }

  /** A whitelisted token decodes to the email beside it, or is rejected as expired; it never fails to parse. */
  lemma WhitelistedTokenDecodes(whitelist: map<string, string>, token: string, now: nat)
    requires TokensEncodeEmails(whitelist) && token in whitelist
    ensures ActivationTokens.GetTokenValue(token, now) == Success(whitelist[token])
         || ActivationTokens.GetTokenValue(token, now) == Failure(ActivationTokens.InvalidToken)
  {
    var issued: nat :| token == ActivationTokens.GenerateToken(whitelist[token], issued);
    ActivationTokens.RoundTrip(whitelist[token], issued, now);
  }

  /**
   * On tables that keep their invariant, verifying a reset succeeds exactly
   * for a whitelisted, unexpired token whose email is a user; it then sets
   * that user's password, changes no other user, and deletes exactly that
   * row. Every failure is "Invalid token.".
   */
  lemma VerifyResetOutcome(users: map<string, User>, whitelist: map<string, string>, token: string, password: string, now: nat)
    requires TokensEncodeEmails(whitelist)
    ensures var r := VerifyReset(users, whitelist, token, password, now);
      && (r.Success? <==>
            token in whitelist && ActivationTokens.GetTokenValue(token, now).Success? && whitelist[token] in users)
      && (r.Failure? ==> r.error == InvalidToken)
      && (r.Success? ==>
            && Hashers.CheckPassword(VStr(password), r.value.0[whitelist[token]].password)
            && r.value.0.Keys == users.Keys
            && (forall e :: e in users && e != whitelist[token] ==> r.value.0[e] == users[e])
            && r.value.1 == whitelist - {token})
  {
    if token in whitelist {
      WhitelistedTokenDecodes(whitelist, token, now);
    }
  }

  /** A token that reset a password cannot be used again: its row is gone. */
  lemma NoReplay(users: map<string, User>, whitelist: map<string, string>, token: string, password: string, password2: string, now: nat, later: nat)
    requires VerifyReset(users, whitelist, token, password, now).Success?
    ensures var (users2, whitelist2) := VerifyReset(users, whitelist, token, password, now).value;
      VerifyReset(users2, whitelist2, token, password2, later) == Failure(InvalidToken)
  {
  }

  /**
   * The protocol end to end: for a user without a row, a reset sent at
   * `issued` and verified within three days sets the new password and leaves
   * the whitelist as it was before the send.
   */
  lemma ResetProtocol(users: map<string, User>, whitelist: map<string, string>, email: string, password: string, issued: nat, now: nat)
    requires UniqueEmails(whitelist) && TokensEncodeEmails(whitelist)
    requires email in users && !HasEntry(whitelist, email)
    requires issued <= now <= issued + ActivationTokens.ExpirationSeconds
    ensures var token := ActivationTokens.GenerateToken(email, issued);
      && SendReset(whitelist, email, token).Success?
      && var r := VerifyReset(users, SendReset(whitelist, email, token).value, token, password, now);
         && r.Success?
         && Hashers.CheckPassword(VStr(password), r.value.0[email].password)
         && r.value.1 == whitelist
  {
    var token := ActivationTokens.GenerateToken(email, issued);
    SendResetFailsIffEntryExists(whitelist, email, issued);
    var w := whitelist[token := email];
    SendResetKeepsInvariant(whitelist, email, issued);
    ActivationTokens.RoundTrip(email, issued, now);
    VerifyResetOutcome(users, w, token, password, now);
    assert w - {token} == whitelist;
  }

  /**
   * As written, a row outlives its token: once the token issued at `issued`
   * has expired, verifying it fails and keeps the row, and every further
   * send for that email fails, so the email can never reset its password
   * again.
   */
  lemma ExpiredEntryLocksOut(users: map<string, User>, whitelist: map<string, string>, email: string, issued: nat, now: nat, token2: string, password: string)
    requires ActivationTokens.GenerateToken(email, issued) in whitelist
    requires whitelist[ActivationTokens.GenerateToken(email, issued)] == email
    requires ActivationTokens.Expired(issued, now)
    ensures VerifyReset(users, whitelist, ActivationTokens.GenerateToken(email, issued), password, now) == Failure(InvalidToken)
    ensures SendReset(whitelist, email, token2) == Failure(AlreadySent)
  {
    ActivationTokens.RoundTrip(email, issued, now);
  }

  /** The lock-out on a concrete run: a reset sent at time 0, then another one three days and a second later. */
  lemma LockOutExample(users: map<string, User>)
    ensures var email := "user@example.com";
      var first := SendReset(map[], email, ActivationTokens.GenerateToken(email, 0));
      var later := ActivationTokens.ExpirationSeconds + 1;
      && first.Success?
      && VerifyReset(users, first.value, ActivationTokens.GenerateToken(email, 0), "new-password", later) == Failure(InvalidToken)
      && SendReset(first.value, email, ActivationTokens.GenerateToken(email, later)) == Failure(AlreadySent)
  {
    var email := "user@example.com";
    var token := ActivationTokens.GenerateToken(email, 0);
    var w := map[token := email];
    ExpiredEntryLocksOut(users, w, email, 0, ActivationTokens.ExpirationSeconds + 1,
      ActivationTokens.GenerateToken(email, ActivationTokens.ExpirationSeconds + 1), "new-password");
  }

  /** The whitelist without the rows of `email` whose token no longer decodes at `now`. */
  function RemoveStale(whitelist: map<string, string>, email: string, now: nat): (r: map<string, string>)
    ensures forall t :: t in r <==> t in whitelist && (whitelist[t] != email || ActivationTokens.GetTokenValue(t, now).Success?)
    ensures forall t :: t in r ==> r[t] == whitelist[t]
  {
    map t | t in whitelist && (whitelist[t] != email || ActivationTokens.GetTokenValue(t, now).Success?) :: whitelist[t]
  }

  /** The corrected send: the email's stale rows are removed before the insert. */
  function SendResetRenewing(whitelist: map<string, string>, email: string, token: string, now: nat): Result<map<string, string>, ResetError> {
    SendReset(RemoveStale(whitelist, email, now), email, token)
  }

  /** The corrected send keeps the whitelist invariant. */
  lemma RenewingKeepsInvariant(whitelist: map<string, string>, email: string, now: nat)
    requires UniqueEmails(whitelist) && TokensEncodeEmails(whitelist)
    ensures var r := SendResetRenewing(whitelist, email, ActivationTokens.GenerateToken(email, now), now);
      r.Success? ==> UniqueEmails(r.value) && TokensEncodeEmails(r.value)
  {
    var w := RemoveStale(whitelist, email, now);
    forall t | t in w ensures exists issued: nat :: t == ActivationTokens.GenerateToken(w[t], issued) {
      assert w[t] == whitelist[t];
    }
    SendResetKeepsInvariant(w, email, now);
  }

  /**
   * With the corrected send, a row whose token has expired no longer blocks
   * the email: the new send replaces it. A row whose token is still live
   * blocks it as before.
   */
  lemma RenewingReplacesExpiredEntry(whitelist: map<string, string>, email: string, issued: nat, now: nat)
    requires UniqueEmails(whitelist) && TokensEncodeEmails(whitelist)
    requires ActivationTokens.GenerateToken(email, issued) in whitelist
    requires whitelist[ActivationTokens.GenerateToken(email, issued)] == email
    requires ActivationTokens.Expired(issued, now)
    ensures var oldToken := ActivationTokens.GenerateToken(email, issued);
      var token := ActivationTokens.GenerateToken(email, now);
      SendResetRenewing(whitelist, email, token, now) == Success((whitelist - {oldToken})[token := email])
  {
    var oldToken := ActivationTokens.GenerateToken(email, issued);
    var token := ActivationTokens.GenerateToken(email, now);
    StaleEntryRemoved(whitelist, email, issued, now);
    var w := RemoveStale(whitelist, email, now);
    if token in w {
      var i: nat :| token == ActivationTokens.GenerateToken(whitelist[token], i);
      ActivationTokens.GeneratedTokenDeterminesText(email, now, whitelist[token], i);
    }
  }

  /** Removing stale rows drops exactly the email's expired row, its only one. */
  lemma StaleEntryRemoved(whitelist: map<string, string>, email: string, issued: nat, now: nat)
    requires UniqueEmails(whitelist)
    requires ActivationTokens.GenerateToken(email, issued) in whitelist
    requires whitelist[ActivationTokens.GenerateToken(email, issued)] == email
    requires ActivationTokens.Expired(issued, now)
    ensures RemoveStale(whitelist, email, now) == whitelist - {ActivationTokens.GenerateToken(email, issued)}
    ensures !HasEntry(RemoveStale(whitelist, email, now), email)
  {
    ActivationTokens.RoundTrip(email, issued, now);
  }

  lemma RenewingRejectsLiveEntry(whitelist: map<string, string>, email: string, issued: nat, now: nat, token: string)
    requires ActivationTokens.GenerateToken(email, issued) in whitelist
    requires whitelist[ActivationTokens.GenerateToken(email, issued)] == email
    requires !ActivationTokens.Expired(issued, now)
    ensures SendResetRenewing(whitelist, email, token, now) == Failure(AlreadySent)
  {
    var oldToken := ActivationTokens.GenerateToken(email, issued);
    ActivationTokens.RoundTrip(email, issued, now);
    assert oldToken in RemoveStale(whitelist, email, now);
  }

  /** `send_password_reset_mail` corrected: stale rows of the email are deleted first. */
  method SendPasswordResetMailRenewing(db: Db, email: string, now: nat, frontendUrl: string) returns (r: Result<string, ResetError>)
    requires db.Valid()
    modifies db`resetWhitelist
    ensures db.Valid()
    ensures var token := ActivationTokens.GenerateToken(email, now);
      match SendResetRenewing(old(db.resetWhitelist), email, token, now)
      case Success(whitelist) => db.resetWhitelist == whitelist && r == Success(ResetLink(frontendUrl, token))
      case Failure(e) => db.resetWhitelist == old(db.resetWhitelist) && r == Failure(e)
  {
    var token := ActivationTokens.GenerateToken(email, now);
    var w := map t | t in db.resetWhitelist && (db.resetWhitelist[t] != email || ActivationTokens.GetTokenValue(t, now).Success?)
      :: db.resetWhitelist[t];
    assert w == RemoveStale(db.resetWhitelist, email, now);
    if (exists t :: t in w && w[t] == email) || token in w {
      return Failure(AlreadySent);
    }
    RenewingKeepsInvariant(db.resetWhitelist, email, now);
    db.resetWhitelist := w[token := email];
    r := Success(ResetLink(frontendUrl, token));
  }
}
