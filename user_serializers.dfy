/**
 * The user serializers: the field lists of the login and sign-up
 * serializers, sign-up (rejecting a known email, then building the user with
 * a hashed password and an optional photo), email verification (activating
 * the user a verification token names) and the reset-mail request (attaching
 * the user an email names).
 */
module UserSerializers {
  import opened Wrappers
  import opened Values
  import Hashers
  import ActivationTokens
  import CoreModels
  import UuidText
  import opened Orm
  import UserModels

  /** Which names are model fields, as the serializers below rely on. */
  lemma FieldNameFacts()
    ensures "email" in UserModels.UserFields && "password" in UserModels.UserFields && "id" in UserModels.UserFields
    ensures "is_active" in UserModels.UserFields && "is_verified" in UserModels.UserFields
    ensures "_profile_photo" in UserModels.UserFields && "profile_photo" !in UserModels.UserFields
    ensures "email" !in UserModels.GetHiddenFields() && "password" !in UserModels.GetHiddenFields()
  {
    CredentialsAreFields();
    FlagsAreFields();
    ProfilePhotoIsNoField();
    HiddenFieldsExcludeCredentials();
  }

  lemma CredentialsAreFields()
    ensures "email" in UserModels.UserFields && "password" in UserModels.UserFields && "id" in UserModels.UserFields
  {
    var fields := UserModels.UserFields;
    assert fields[0] == "password" && fields[6] == "id" && fields[13] == "email";
  }

  lemma FlagsAreFields()
    ensures "is_active" in UserModels.UserFields && "is_verified" in UserModels.UserFields
    ensures "_profile_photo" in UserModels.UserFields
  {
    var fields := UserModels.UserFields;
    assert fields[4] == "is_active" && fields[15] == "is_verified" && fields[21] == "_profile_photo";
  }

  lemma ProfilePhotoIsNoField()
    ensures "profile_photo" !in UserModels.UserFields
  {
  }

  lemma HiddenFieldsExcludeCredentials()
    ensures "email" !in UserModels.GetHiddenFields() && "password" !in UserModels.GetHiddenFields()
  {
    var hidden := UserModels.GetHiddenFields();
    assert hidden == CoreModels.GetHiddenFields() + UserModels.ExtraHiddenFields;
    forall i | 0 <= i < |hidden| ensures hidden[i] != "email" && hidden[i] != "password" {
      assert hidden[i][0] != 'e' && hidden[i][0] != 'p';
    }
  }

  /** The names of the model's fields, as the set `set(field.name for field in model._meta.fields)`. */
  function ModelFieldNames(): (r: set<string>)
    ensures forall f :: f in r <==> f in UserModels.UserFields
  {
    set f | f in UserModels.UserFields
  }

  /** `UserLoginSerializer.Meta.fields`: the model's fields without the photo file, plus three computed ones. */
  function LoginFields(): (r: set<string>)
    ensures forall f :: f in r <==> (f in UserModels.UserFields && f != "_profile_photo") || f in {"token", "profile_photo", "username"}
  {
    ModelFieldNames() - {"_profile_photo"} + {"token", "profile_photo", "username"}
  }

  /** The per-field options of an `extra_kwargs` entry the login serializer uses. */
  datatype FieldOption = ReadOnly | WriteOnly

  /** `UserLoginSerializer.Meta.extra_kwargs`: every field read-only, then password write-only, then email's entry deleted. */
  function LoginExtraKwargs(): (r: map<string, FieldOption>)
    ensures r.Keys == LoginFields() - {"email"}
    ensures forall f :: f in r ==> r[f] == if f == "password" then WriteOnly else ReadOnly
  {
    (map f | f in LoginFields() :: ReadOnly)["password" := WriteOnly] - {"email"}
  }

  /** The login serializer lists the credentials and the computed photo URL, never the photo file itself. */
  lemma LoginFieldsShape()
    ensures "email" in LoginFields() && "password" in LoginFields() && "id" in LoginFields()
    ensures "profile_photo" in LoginFields() && "_profile_photo" !in LoginFields()
  {
    FieldNameFacts();
  }

  /** Through the login serializer only `email` and `password` can be written; `password` is never read back. */
  lemma LoginWritesOnlyCredentials(f: string)
    requires f in LoginFields()
    ensures (f !in LoginExtraKwargs() || LoginExtraKwargs()[f] == WriteOnly) <==> f == "email" || f == "password"
    ensures f == "password" <==> f in LoginExtraKwargs() && LoginExtraKwargs()[f] == WriteOnly
  {
    FieldNameFacts();
  }

  /** `UserSignUpSerializer.Meta.fields`: the model's fields less the hidden ones, the photo file and `last_login`, plus two computed ones. */
  function SignUpFields(): (r: set<string>)
    ensures forall f :: f in r <==>
      || (f in UserModels.UserFields && f !in UserModels.GetHiddenFields() && f != "_profile_photo" && f != "last_login")
      || f == "token" || f == "profile_photo"
  {
    ModelFieldNames() - (set f | f in UserModels.GetHiddenFields() + ["_profile_photo", "last_login"]) + {"token", "profile_photo"}
  }

  /** Signing up takes the credentials and the photo, and never the photo file or the last login time. */
  lemma SignUpFieldsShape()
    ensures "email" in SignUpFields() && "password" in SignUpFields()
    ensures "profile_photo" in SignUpFields() && "token" in SignUpFields()
    ensures "_profile_photo" !in SignUpFields() && "last_login" !in SignUpFields()
  {
    FieldNameFacts();
  }

  /** Signing up cannot set a flag that grants access or a bookkeeping column: every hidden field is left out. */
  lemma SignUpCannotSetHiddenFields(f: string)
    requires f in UserModels.GetHiddenFields()
    ensures f !in SignUpFields()
  {
  }

  /** The message of a serializer `ValidationError`, or the `ValueError` that a malformed token time raises. */
  datatype SerializerError = Rejected(message: string) | BadTimestamp

  /** `UserSignUpSerializer.validate`: an email that is already taken is rejected; otherwise the attributes pass unchanged. */
  function SignUpValidate(users: map<string, User>, attrs: Row): (r: Result<Row, SerializerError>)
    requires "email" in attrs && attrs["email"].VStr?
    ensures r.Failure? <==> attrs["email"].s in users
    ensures r.Failure? ==> r.error == Rejected("User with this mail already exists.")
    ensures r.Success? ==> r.value == attrs
  {
    if attrs["email"].s in users then Failure(Rejected("User with this mail already exists.")) else Success(attrs)
  }

  /** The field values of the user `create` builds from validated data holding a password. */
  function SignedUpAttrs(data: Row, photoFile: string): Row
    requires "password" in data
  {
    var attrs := CoreModels.FieldPart(UserModels.HashedPassword(data), UserModels.UserFields);
    if Truthy(Get(data, "profile_photo")) then attrs["_profile_photo" := VStr(photoFile)] else attrs
  }

  /**
   * The signed-up user has the given email, the encoding of the given
   * password, the photo when `profile_photo` is truthy, and the model's
   * defaults for the flags the data does not set: active, not verified.
   */
  lemma SignedUpUserFields(data: Row, photoFile: string)
    requires "password" in data && "email" in data && data["email"].VStr?
    ensures var u := UserFromRow(SignedUpAttrs(data, photoFile));
      && u.email == data["email"].s
      && u.password == Hashers.MakePassword(data["password"])
      && u.photoName == (if Truthy(Get(data, "profile_photo")) then photoFile else TextOr(Get(data, "_profile_photo"), ""))
      && u.isActive == FlagOr(Get(data, "is_active"), true)
      && u.isVerified == FlagOr(Get(data, "is_verified"), false)
  {
    FieldNameFacts();
  }

  /**
   * `UserSignUpSerializer.create`, after `validate` has passed: the user is
   * built from the validated data with its password hashed, receives the
   * photo when `profile_photo` is truthy (`photoFile` is the name the file
   * storage gives it), and is saved. It is the only user added or changed.
   */
  method SignUpCreate(db: Db, id: UuidText.Uuid, data: Dict, photoFile: string) returns (r: Result<User, KeyError>)
    requires db.Valid()
    requires "email" in data.items && data.items["email"].VStr?
    requires SignUpValidate(db.users, data.items).Success?
    modifies db`users, data
    ensures db.Valid()
    ensures "password" !in old(data.items) ==> r == Failure(KeyError("password")) && db.users == old(db.users)
    ensures "password" in old(data.items) ==>
      && r == Success(UserFromRow(SignedUpAttrs(old(data.items), photoFile)))
      && db.users == old(db.users)[r.value.email := r.value]
  {
    r := BuildUser(id, data, photoFile);
    if r.Success? {
      db.users := db.users[r.value.email := r.value];
    }
  }

  /** The user `create` saves: built from the validated data, with the photo when one is given. */
  method BuildUser(id: UuidText.Uuid, data: Dict, photoFile: string) returns (r: Result<User, KeyError>)
    modifies data
    ensures "password" !in old(data.items) ==> r == Failure(KeyError("password"))
    ensures "password" in old(data.items) ==> r == Success(UserFromRow(SignedUpAttrs(old(data.items), photoFile)))
  {
    ghost var original := data.items;
    var built := UserModels.FromValidatedData(id, data);
    if built.Failure? {
      return Failure(built.error);
    }
    var obj := built.value;
    FieldNameFacts();
    assert Get(data.items, "profile_photo") == Get(original, "profile_photo");
    if Truthy(Get(data.items, "profile_photo")) {
      obj.attrs := obj.attrs["_profile_photo" := VStr(photoFile)];
    }
    obj.Save();
    return Success(UserFromRow(obj.attrs));
  }

  /**
   * `VerifyEmailSerializer.validate` on the user table: the token must decode
   * (an expired or forged token raises "Invalid token." inside the token
   * generator, a malformed time its ValueError) to the email of a known
   * user, who is then made active and verified.
   */
  function VerifyEmailResult(users: map<string, User>, token: string, now: nat): Result<map<string, User>, SerializerError> {
    match ActivationTokens.GetTokenValue(token, now)
    case Failure(err) => Failure(if err == ActivationTokens.InvalidToken then Rejected("Invalid token.") else BadTimestamp)
    case Success(email) =>
      if email !in users then Failure(Rejected("User does not exist"))
      else Success(users[email := users[email].(isActive := true, isVerified := true)])
  }

  /**
   * `VerifyEmailSerializer.validate`: on success the user is activated and
   * attached to the data as `data["user"]`; on failure nothing changes.
   */
  method VerifyEmailValidate(db: Db, data: Dict, now: nat) returns (r: Result<(), SerializerError>)
    requires db.Valid()
    requires "token" in data.items && data.items["token"].VStr?
    modifies db`users, data
    ensures db.Valid()
    ensures match VerifyEmailResult(old(db.users), old(data.items)["token"].s, now)
      case Failure(e) => r == Failure(e) && db.users == old(db.users) && data.items == old(data.items)
      case Success(users) =>
        && r == Success(())
        && db.users == users
        && data.items == old(data.items)["user" := VUser(ActivationTokens.GetTokenValue(old(data.items)["token"].s, now).value)]
  {
    var decoded := ActivationTokens.GetTokenValue(data.items["token"].s, now);
    if decoded.Failure? {
      return Failure(if decoded.error == ActivationTokens.InvalidToken then Rejected("Invalid token.") else BadTimestamp);
    }
    var email := decoded.value;
    if email !in db.users {
      return Failure(Rejected("User does not exist"));
    }
    data.Put("user", VUser(email));
    db.users := db.users[email := db.users[email].(isActive := true, isVerified := true)];
    return Success(());
  }

  /**
   * Verification succeeds exactly when the token decodes to a known email;
   * it then activates and verifies that user, keeps the password, and leaves
   * every other user as it was.
   */
  lemma VerifyEmailOutcome(users: map<string, User>, token: string, now: nat)
    ensures VerifyEmailResult(users, token, now).Success?
        <==> ActivationTokens.GetTokenValue(token, now).Success? && ActivationTokens.GetTokenValue(token, now).value in users
    ensures VerifyEmailResult(users, token, now).Success? ==>
      var email := ActivationTokens.GetTokenValue(token, now).value;
      var after := VerifyEmailResult(users, token, now).value;
      && after.Keys == users.Keys
      && after[email].isActive && after[email].isVerified
      && after[email].password == users[email].password
      && (forall e :: e in users && e != email ==> after[e] == users[e])
  {
  }

  /**
   * The link of the verification mail works: the token generated for a
   * known email verifies that user for three days, and is then rejected as
   * invalid with no change.
   */
  lemma VerificationTokenRoundTrip(users: map<string, User>, email: string, issued: nat, now: nat)
    requires email in users
    ensures var r := VerifyEmailResult(users, ActivationTokens.GenerateToken(email, issued), now);
      if ActivationTokens.Expired(issued, now) then r == Failure(Rejected("Invalid token."))
      else r == Success(users[email := users[email].(isActive := true, isVerified := true)])
  {
    ActivationTokens.RoundTrip(email, issued, now);
  }

  /** Verifying a second time changes nothing more. */
  lemma {:induction false} VerifyEmailIdempotent(users: map<string, User>, token: string, now: nat)
    requires VerifyEmailResult(users, token, now).Success?
    ensures VerifyEmailResult(VerifyEmailResult(users, token, now).value, token, now) == VerifyEmailResult(users, token, now)
  {
    var email := ActivationTokens.GetTokenValue(token, now).value;
    var after := users[email := users[email].(isActive := true, isVerified := true)];
    assert after[email := after[email].(isActive := true, isVerified := true)] == after;
  }

  /**
   * A user who has just signed up, and so is unverified, is verified by the
   * token their verification mail carries while it is fresh; the password
   * set at sign-up is kept.
   */
  lemma SignUpThenVerify(users: map<string, User>, user: User, issued: nat, now: nat)
    requires !ActivationTokens.Expired(issued, now)
    ensures var after := VerifyEmailResult(users[user.email := user], ActivationTokens.GenerateToken(user.email, issued), now);
      && after.Success?
      && after.value[user.email] == user.(isActive := true, isVerified := true)
  {
    VerificationTokenRoundTrip(users[user.email := user], user.email, issued, now);
  }

  /** `PasswordResetEmailSerializer.validate`: an unknown email is rejected; a known one's user is attached as `data["user"]`. */
  method PasswordResetEmailValidate(users: map<string, User>, data: Dict) returns (r: Result<(), SerializerError>)
    requires "email" in data.items && data.items["email"].VStr?
    modifies data
    ensures old(data.items)["email"].s !in users ==> r == Failure(Rejected("User does not exist")) && data.items == old(data.items)
    ensures old(data.items)["email"].s in users ==>
      r == Success(()) && data.items == old(data.items)["user" := VUser(old(data.items)["email"].s)]
  {
    var email := data.items["email"].s;
    if email !in users {
      return Failure(Rejected("User does not exist"));
    }
    data.Put("user", VUser(email));
    return Success(());
  }
}
