/**
 * Time of day as whole UTC seconds, and its text form inside activation
 * tokens. The text form stands in for `strftime("%Y-%m-%d %H-%M-%S")` and
 * `strptime` with that format: it is the decimal count of seconds, which keeps
 * the properties the token codec needs (one-second resolution, no `|`, and
 * parsing inverts formatting).
 */
module TimeFormat {
  import opened Wrappers
  import Text

  const SecondsPerDay: nat := 86400

  /** `_get_time`: the current time as text. */
  function FormatTime(t: nat): (s: string)
    ensures |s| > 0 && Text.AllDigits(s)
  {
    Text.NatToString(t)
  }

  /** `_parse_time`: None where `strptime` raises ValueError. */
  function ParseTime(s: string): Option<nat> {
    if |s| > 0 && Text.AllDigits(s) then Some(Text.StringToNat(s)) else None
  }

  lemma ParseFormatTime(t: nat)
    ensures ParseTime(FormatTime(t)) == Some(t)
  {
    Text.StringToNatOfNatToString(t);
  }

  /** The text of a time never holds the token separator `|`. */
  lemma FormatTimeHasNoBar(t: nat)
    ensures '|' !in FormatTime(t)
  {
    var s := FormatTime(t);
    forall i | 0 <= i < |s| ensures s[i] != '|' {
      assert Text.IsDigit(s[i]);
    }
  }
}
