/**
 * `ExpiringActivationTokenGenerator`: an opaque token for email verification
 * and password reset. The plaintext is the text, a `|` and the issue time;
 * it is encrypted with Fernet. Decoding splits the plaintext at its LAST `|`
 * and rejects tokens issued more than three days ago.
 */
module ActivationTokens {
  import opened Wrappers
  import Text
  import Fernet
  import TimeFormat

  const Separator: char := '|'

  /** `EXPIRATION_DAYS`; `timedelta(3)` is three days. */
  const ExpirationDays: nat := 3
  const ExpirationSeconds: nat := ExpirationDays * TimeFormat.SecondsPerDay

  /** How `get_token_value` fails. */
  datatype TokenError =
    | InvalidToken   // ValidationError("Invalid token."): the token does not decrypt, or it has expired
    | MalformedTime  // ValueError from `strptime`, which `except InvalidToken` lets through

  /** The plaintext `text + "|" + _get_time()`. */
  function Payload(text: string, issued: nat): string {
    text + [Separator] + TimeFormat.FormatTime(issued)
  }

  /** `generate_token(text)` at time `issued`. */
  function GenerateToken(text: string, issued: nat): string {
    Fernet.Encrypt(Payload(text, issued))
  }

  /** `token_time + timedelta(EXPIRATION_DAYS) < utcnow()`: the comparison is strict. */
  predicate Expired(issued: nat, now: nat) {
    issued + ExpirationSeconds < now
  }

  /** `get_token_value(token)` at time `now`. */
  function GetTokenValue(token: string, now: nat): Result<string, TokenError> {
    match Fernet.Decrypt(token)
    case None => Failure(InvalidToken)
    case Some(value) =>
      var pos := Text.LastIndexOf(value, Separator);
      var text := Text.PrefixTo(value, pos);
      match TimeFormat.ParseTime(value[pos + 1..])
      case None => Failure(MalformedTime)
      case Some(issued) => if Expired(issued, now) then Failure(InvalidToken) else Success(text)
  }

  /** The last `|` of a payload is the one after the text, whatever the text holds. */
  lemma PayloadLastSeparator(text: string, issued: nat)
    ensures Text.LastIndexOf(Payload(text, issued), Separator) == |text|
  {
    var p := Payload(text, issued);
    var stamp := TimeFormat.FormatTime(issued);
    TimeFormat.FormatTimeHasNoBar(issued);
    assert p[|text|] == Separator;
    forall k | |text| < k < |p| ensures p[k] != Separator {
      assert p[k] == stamp[k - |text| - 1];
    }
  }

  /**
   * Round trip: a generated token decodes to its text, including a text that
   * holds `|`, until it is more than three days old, and is then rejected as
   * an invalid token.
   */
  lemma {:induction false} RoundTrip(text: string, issued: nat, now: nat)
    ensures GetTokenValue(GenerateToken(text, issued), now)
         == if Expired(issued, now) then Failure(InvalidToken) else Success(text)
  {
    var p := Payload(text, issued);
    Fernet.DecryptEncrypt(p);
    PayloadLastSeparator(text, issued);
    assert p[|text| + 1..] == TimeFormat.FormatTime(issued);
    TimeFormat.ParseFormatTime(issued);
    assert Text.PrefixTo(p, |text|) == text;
  }

  /** A token exactly three days old is still accepted; one second later it is not. */
  lemma ExpiryBoundary(text: string, issued: nat)
    ensures GetTokenValue(GenerateToken(text, issued), issued + ExpirationSeconds) == Success(text)
    ensures GetTokenValue(GenerateToken(text, issued), issued + ExpirationSeconds + 1) == Failure(InvalidToken)
  {
    RoundTrip(text, issued, issued + ExpirationSeconds);
    RoundTrip(text, issued, issued + ExpirationSeconds + 1);
  }

  /**
   * A plaintext that decodes to `text` at time `now`: either the text, a `|`
   * and a fresh time with no `|` after it, or (a plaintext the generator never
   * makes) no `|` at all, the whole of it a fresh time, and the text is the
   * plaintext without its last character.
   */
  predicate AcceptedPlaintext(value: string, text: string, now: nat) {
    if Separator in value then
      && |text| < |value|
      && value == text + [Separator] + value[|text| + 1..]
      && Separator !in value[|text| + 1..]
      && TimeFormat.ParseTime(value[|text| + 1..]).Some?
      && !Expired(TimeFormat.ParseTime(value[|text| + 1..]).value, now)
    else
      && |value| > 0
      && text == value[..|value| - 1]
      && TimeFormat.ParseTime(value).Some?
      && !Expired(TimeFormat.ParseTime(value).value, now)
  }

  /** What an accepted token is: it decrypts to an accepted plaintext. */
  lemma AcceptedTokenShape(token: string, now: nat, text: string)
    requires GetTokenValue(token, now) == Success(text)
    ensures Fernet.Decrypt(token).Some?
    ensures AcceptedPlaintext(Fernet.Decrypt(token).value, text, now)
  {
    var value := Fernet.Decrypt(token).value;
    var pos := Text.LastIndexOf(value, Separator);
    var stamp := TimeFormat.ParseTime(value[pos + 1..]);
    assert stamp.Some? && !Expired(stamp.value, now);
    assert text == Text.PrefixTo(value, pos);
    if pos >= 0 {
      AcceptedAtSeparator(value, text, now, pos);
    } else {
      assert value[pos + 1..] == value;
      AcceptedWithoutSeparator(value, text, now);
    }
  }

  lemma AcceptedWithoutSeparator(value: string, text: string, now: nat)
    requires Separator !in value
    requires text == Text.PrefixTo(value, -1)
    requires TimeFormat.ParseTime(value).Some?
    requires !Expired(TimeFormat.ParseTime(value).value, now)
    ensures AcceptedPlaintext(value, text, now)
  {
    assert |value| > 0;
    assert text == value[..|value| - 1];
  }

  lemma AcceptedAtSeparator(value: string, text: string, now: nat, pos: nat)
    requires pos == Text.LastIndexOf(value, Separator)
    requires text == value[..pos]
    requires TimeFormat.ParseTime(value[pos + 1..]).Some?
    requires !Expired(TimeFormat.ParseTime(value[pos + 1..]).value, now)
    ensures AcceptedPlaintext(value, text, now)
  {
    AfterLastSeparator(value, pos);
    assert |text| == pos;
  }

  /** Cutting a string at its last `|`. */
  lemma AfterLastSeparator(value: string, pos: nat)
    requires pos == Text.LastIndexOf(value, Separator)
    ensures value == value[..pos] + [Separator] + value[pos + 1..]
    ensures Separator !in value[pos + 1..]
  {
    var rest := value[pos + 1..];
    forall k | 0 <= k < |rest| ensures rest[k] != Separator {
      assert rest[k] == value[pos + 1 + k];
    }
  }

  /**
   * Failures: a token that does not decrypt is an invalid token; the
   * ValueError arises only from a plaintext that decrypts but whose part
   * after the last `|` is not a time.
   */
  lemma FailureKinds(token: string, now: nat)
    ensures Fernet.Decrypt(token).None? ==> GetTokenValue(token, now) == Failure(InvalidToken)
    ensures GetTokenValue(token, now) == Failure(MalformedTime) <==>
      && Fernet.Decrypt(token).Some?
      && var value := Fernet.Decrypt(token).value;
         TimeFormat.ParseTime(value[Text.LastIndexOf(value, Separator) + 1..]).None?
  {
  }

  /** Two generated tokens that are equal carry the same text, whenever they were issued. */
  lemma GeneratedTokenDeterminesText(text1: string, issued1: nat, text2: string, issued2: nat)
    requires GenerateToken(text1, issued1) == GenerateToken(text2, issued2)
    ensures text1 == text2
  {
    RoundTrip(text1, issued1, 0);
    RoundTrip(text2, issued2, 0);
  }
}
