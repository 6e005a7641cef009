/**
 * A stand-in for the framework's password hashers (`make_password`,
 * `check_password`). The digest is not a cryptographic hash; the model only
 * relies on `CheckMakePassword` and on unusable passwords never checking.
 */
module Hashers {
  import opened Values
  import Text

  const Algorithm: string := "pbkdf2_sha256$"

  /** The encoded password that `make_password(None)` returns. */
  const Unusable: string := "!"

  function Digest(s: string): nat
    decreases |s|
  {
    if |s| == 0 then 7
    else (Digest(s[..|s| - 1]) * 31 + s[|s| - 1] as int) % 1_000_000_007
  }

  /** `make_password(raw)`: the encoded form of a raw password, unusable for None. */
  function MakePassword(raw: Value): (encoded: string)
    ensures raw.VStr? <==> encoded != Unusable
  {
    if raw.VStr? then Algorithm + Text.NatToString(Digest(raw.s)) else Unusable
  }

  /** `check_password(raw, encoded)`: None and unusable passwords never match. */
  predicate CheckPassword(raw: Value, encoded: string) {
    raw.VStr? && encoded != Unusable && encoded == MakePassword(raw)
  }

  /** A password checks against its own encoding. */
  lemma CheckMakePassword(raw: string)
    ensures CheckPassword(VStr(raw), MakePassword(VStr(raw)))
  {
  }
}
