/**
 * `AbstractAccountSettingsSerializer`: changing the password (old and new
 * password together), deleting the account (the password and a reason), and
 * the notification email, checked against the requesting user's password.
 */
module AccountSettings {
  import opened Wrappers
  import opened Values
  import Hashers
  import CoreModels
  import TokenAuth
  import opened Orm

  /** How `validate` fails. */
  datatype SettingsError =
    | NeedNewPassword    // ValidationError
    | NeedOldPassword    // ValidationError
    | NeedDeleteReason   // ValidationError
    | IncorrectPassword  // AuthenticationFailed

  function SettingsMessage(e: SettingsError): string {
    match e
    case NeedNewPassword => "you need to provide new password!"
    case NeedOldPassword => "you need to provide old password!"
    case NeedDeleteReason => "you need to provide the reason of account deletion!"
    case IncorrectPassword => "Incorrect password!"
  }

  /** `validate(data)` for a user whose encoded password is `password`; the checks run in this order. */
  function Validate(data: Row, password: string): Result<Row, SettingsError> {
    if Truthy(Get(data, "old_password")) && !Truthy(Get(data, "new_password")) then Failure(NeedNewPassword)
    else if Truthy(Get(data, "new_password")) && !Truthy(Get(data, "old_password")) then Failure(NeedOldPassword)
    else if Truthy(Get(data, "account_delete_password")) && !Truthy(Get(data, "reason_to_delete")) then Failure(NeedDeleteReason)
    else if "old_password" in data && "new_password" in data && !Hashers.CheckPassword(Get(data, "old_password"), password) then Failure(IncorrectPassword)
    else if "account_delete_password" in data && !Hashers.CheckPassword(Get(data, "account_delete_password"), password) then Failure(IncorrectPassword)
    else Success(data)
  }

  /**
   * Validation accepts exactly when the old and new passwords are given
   * together or not at all, a delete password comes with a reason, a given
   * old password (with the new one) is the user's, and a given delete
   * password is the user's; it then returns the data unchanged. A null
   * password sent with its partner key is an incorrect password.
   */
  lemma ValidateAcceptsIff(data: Row, password: string)
    ensures Validate(data, password).Success? <==>
      && (Truthy(Get(data, "old_password")) <==> Truthy(Get(data, "new_password")))
      && (Truthy(Get(data, "account_delete_password")) ==> Truthy(Get(data, "reason_to_delete")))
      && ("old_password" in data && "new_password" in data ==> Hashers.CheckPassword(data["old_password"], password))
      && ("account_delete_password" in data ==> Hashers.CheckPassword(data["account_delete_password"], password))
    ensures Validate(data, password).Success? ==> Validate(data, password).value == data
    ensures "old_password" in data && "new_password" in data && data["old_password"] == VNone && data["new_password"] == VNone
      && !Truthy(Get(data, "account_delete_password"))
      ==> Validate(data, password) == Failure(IncorrectPassword)
  {
  }

  /** What `update` produces: the user, the settings object's attributes, and what is left of the data. */
  datatype SettingsChange = SettingsChange(user: User, attrs: Row, data: Row)

  /**
   * `update(instance, validated_data)`: a truthy old password replaces the
   * password by the new one's encoding (KeyError, before anything changes,
   * when the new one is missing); a truthy delete password deactivates and
   * soft-deletes the user and marks the object deleted, taking the reason
   * when it is truthy; a truthy notification email is taken. Each taken
   * value is popped from the data.
   */
  function ApplySettings(user: User, attrs: Row, data: Row): Result<SettingsChange, KeyError> {
    match ChangePassword(user, data)
    case Failure(e) => Failure(e)
    case Success((user1, data1)) =>
      var (user2, attrs1, data2) := MarkDeleted(user1, attrs, data1);
      var (attrs2, data3) := TakeNotificationEmail(attrs1, data2);
      Success(SettingsChange(user2, attrs2, data3))
  }

  /** The password step of `update`. */
  function ChangePassword(user: User, data: Row): Result<(User, Row), KeyError> {
    if !Truthy(Get(data, "old_password")) then Success((user, data))
    else if "new_password" !in data then Failure(KeyError("new_password"))
    else Success((user.(password := Hashers.MakePassword(data["new_password"])), data - {"new_password"}))
  }

  /** The account-deletion step of `update`. */
  function MarkDeleted(user: User, attrs: Row, data: Row): (User, Row, Row) {
    if !Truthy(Get(data, "account_delete_password")) then (user, attrs, data)
    else
      var deleted := user.(isActive := false, isDeleted := true);
      var marked := attrs["is_deleted" := VBool(true)];
      if Truthy(Get(data, "reason_to_delete")) then
        (deleted, marked["reason_to_delete" := data["reason_to_delete"]], data - {"reason_to_delete"})
      else (deleted, marked, data)
  }

  /** The notification-email step of `update`. */
  function TakeNotificationEmail(attrs: Row, data: Row): (Row, Row) {
    if Truthy(Get(data, "notification_email")) then
      (attrs["notification_email" := data["notification_email"]], data - {"notification_email"})
    else (attrs, data)
  }

  /** The serializer's fields are character fields: every value is a string or None. */
  predicate CharFields(data: Row) {
    forall k :: k in data ==> data[k].VStr? || data[k].VNone?
  }

  /**
   * A validated password change takes effect: afterwards the new password
   * checks against the user's password and the email is kept; the flags are
   * kept too unless the same request also deletes the account.
   */
  lemma PasswordChangeTakesEffect(user: User, attrs: Row, data: Row)
    requires CharFields(data)
    requires Validate(data, user.password).Success?
    requires Truthy(Get(data, "old_password"))
    ensures ApplySettings(user, attrs, data).Success?
    ensures var c := ApplySettings(user, attrs, data).value;
      && Hashers.CheckPassword(data["new_password"], c.user.password)
      && c.user.email == user.email
      && "new_password" !in c.data
      && (!Truthy(Get(data, "account_delete_password")) ==>
            c.user.isActive == user.isActive && c.user.isDeleted == user.isDeleted)
  {
  }

  /**
   * A validated account deletion deactivates and soft-deletes the user and
   * marks the object deleted; from then on every bearer token of that user
   * is refused as belonging to an inactive user.
   */
  lemma DeletionDeactivates(users: map<string, User>, tokens: map<string, AuthToken>, email: string, attrs: Row, data: Row, key: string, now: nat, lifetime: int)
    requires email in users && users[email].email == email
    requires forall k :: k in tokens ==> tokens[k].userEmail in users
    requires Validate(data, users[email].password).Success?
    requires Truthy(Get(data, "account_delete_password"))
    requires key in tokens && tokens[key].userEmail == email
    ensures ApplySettings(users[email], attrs, data).Success?
    ensures var c := ApplySettings(users[email], attrs, data).value;
      && !c.user.isActive && c.user.isDeleted
      && c.attrs["is_deleted"] == VBool(true)
      && c.attrs["reason_to_delete"] == data["reason_to_delete"]
      && TokenAuth.Authenticate(tokens, users[email := c.user], key, now, lifetime) == Failure(TokenAuth.UserInactive)
  {
  }

  /** Without a truthy old password, delete password or notification email, nothing changes. */
  lemma NothingToApply(user: User, attrs: Row, data: Row)
    requires !Truthy(Get(data, "old_password"))
    requires !Truthy(Get(data, "account_delete_password"))
    requires !Truthy(Get(data, "notification_email"))
    ensures ApplySettings(user, attrs, data) == Success(SettingsChange(user, attrs, data))
  {
  }

  /**
   * `update` on the tables: the requesting user's row and the settings
   * object change as `ApplySettings` describes, and both are saved; a
   * KeyError leaves everything as it was.
   */
  method Update(db: Db, email: string, instance: CoreModels.Instance, data: Dict) returns (r: Result<(), KeyError>)
    requires db.Valid() && email in db.users
    modifies db`users, instance`attrs, instance`stored, data
    ensures db.Valid()
    ensures match ApplySettings(old(db.users[email]), old(instance.attrs), old(data.items))
      case Success(c) =>
        && r == Success(())
        && db.users == old(db.users)[email := c.user]
        && instance.attrs == c.attrs && instance.stored == c.attrs
        && data.items == c.data
      case Failure(e) =>
        && r == Failure(e)
        && db.users == old(db.users)
        && instance.attrs == old(instance.attrs) && instance.stored == old(instance.stored)
        && data.items == old(data.items)
  {
    var changed := ChangePasswordStep(db.users[email], data);
    if changed.Failure? {
      return Failure(changed.error);
    }
    var user := MarkDeletedStep(changed.value, instance, data);
    TakeNotificationEmailStep(instance, data);
    db.users := db.users[email := user];
    instance.Save();
    return Success(());
  }

  /** The password step of `update` on the validated-data dict. */
  method ChangePasswordStep(user: User, data: Dict) returns (r: Result<User, KeyError>)
    modifies data
    ensures match ChangePassword(user, old(data.items))
      case Success((user1, data1)) => r == Success(user1) && data.items == data1
      case Failure(e) => r == Failure(e) && data.items == old(data.items)
  {
    if Truthy(Get(data.items, "old_password")) {
      if "new_password" !in data.items {
        return Failure(KeyError("new_password"));
      }
      var newPassword := data.Pop("new_password");
      return Success(user.(password := Hashers.MakePassword(newPassword)));
    }
    return Success(user);
  }

  /** The account-deletion step of `update` on the user, the settings object and the dict. */
  method MarkDeletedStep(user: User, instance: CoreModels.Instance, data: Dict) returns (user2: User)
    modifies instance`attrs, data
    ensures (user2, instance.attrs, data.items) == MarkDeleted(user, old(instance.attrs), old(data.items))
  {
    user2 := user;
    if Truthy(Get(data.items, "account_delete_password")) {
      user2 := user2.(isActive := false, isDeleted := true);
      instance.attrs := instance.attrs["is_deleted" := VBool(true)];
      if Truthy(Get(data.items, "reason_to_delete")) {
        var reason := data.Pop("reason_to_delete");
        instance.attrs := instance.attrs["reason_to_delete" := reason];
      }
    }
  }

  /** The notification-email step of `update` on the settings object and the dict. */
  method TakeNotificationEmailStep(instance: CoreModels.Instance, data: Dict)
    modifies instance`attrs, data
    ensures (instance.attrs, data.items) == TakeNotificationEmail(old(instance.attrs), old(data.items))
  {
    if Truthy(Get(data.items, "notification_email")) {
      var notificationEmail := data.Pop("notification_email");
      instance.attrs := instance.attrs["notification_email" := notificationEmail];
    }
  }
}
