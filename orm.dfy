/**
 * The database tables the core reads and writes, held in memory: users keyed
 * by their unique email, bearer tokens keyed by their key, and the
 * password-reset whitelist keyed by its unique token.
 */
module Orm {
  import opened Values
  import ActivationTokens

  /** The user columns the core reads or writes. */
  datatype User = User(
    email: string,
    password: string,
    isActive: bool,
    isVerified: bool,
    isDeleted: bool,
    photoName: string)

  /** A bearer token: its key, its owner's email and its creation time in seconds. */
  datatype AuthToken = AuthToken(key: string, userEmail: string, created: nat)

  function TextOr(v: Value, default: string): string {
    if v.VStr? then v.s else default
  }

  function FlagOr(v: Value, default: bool): bool {
    if v.VBool? then v.b else default
  }

  /** The user that `User(**kwargs)` builds; absent fields take the model's defaults. */
  function UserFromRow(kwargs: Row): (u: User)
    ensures "email" in kwargs && kwargs["email"].VStr? ==> u.email == kwargs["email"].s
    ensures "is_active" !in kwargs ==> u.isActive
    ensures "is_verified" !in kwargs ==> !u.isVerified
  {
    User(
      TextOr(Get(kwargs, "email"), ""),
      TextOr(Get(kwargs, "password"), ""),
      FlagOr(Get(kwargs, "is_active"), true),
      FlagOr(Get(kwargs, "is_verified"), false),
      FlagOr(Get(kwargs, "is_deleted"), false),
      TextOr(Get(kwargs, "_profile_photo"), ""))
  }

  /** The whitelist's `unique=True` on email: no email has two tokens. */
  predicate UniqueEmails(whitelist: map<string, string>) {
    forall t1, t2 :: t1 in whitelist && t2 in whitelist && whitelist[t1] == whitelist[t2] ==> t1 == t2
  }

  /** Every whitelist token was generated for the email stored beside it. */
  ghost predicate TokensEncodeEmails(whitelist: map<string, string>) {
    forall t :: t in whitelist ==> exists issued: nat :: t == ActivationTokens.GenerateToken(whitelist[t], issued)
  }

  class Db {
    var users: map<string, User>
    var authTokens: map<string, AuthToken>
    var resetWhitelist: map<string, string>

    ghost predicate Valid()
      reads this
    {
      && (forall e :: e in users ==> users[e].email == e)
      && (forall k :: k in authTokens ==> authTokens[k].key == k && authTokens[k].userEmail in users)
      && UniqueEmails(resetWhitelist)
      && TokensEncodeEmails(resetWhitelist)
    }

    constructor ()
      ensures Valid()
      ensures users == map[] && authTokens == map[] && resetWhitelist == map[]
    {
      users, authTokens, resetWhitelist := map[], map[], map[];
    }
  }
}
