/**
 * The text form of a UUID, as Python's `str(uuid)` gives it: 32 lower-case
 * hexadecimal digits grouped 8-4-4-4-12 by dashes.
 */
module UuidText {
  import opened Wrappers

  function Pow16(n: nat): (p: nat)
    ensures p > 0
  {
    if n == 0 then 1 else 16 * Pow16(n - 1)
  }

  /** The largest UUID value plus one: 2^128. */
  const Bound: nat := Pow16(32)

  /** A 128-bit UUID. */
  type Uuid = n: nat | n < Bound

  predicate IsHexDigit(ch: char) {
    ('0' <= ch <= '9') || ('a' <= ch <= 'f')
  }

  function HexChar(d: nat): (ch: char)
    requires d < 16
    ensures IsHexDigit(ch)
  {
    if d < 10 then ('0' as int + d) as char else ('a' as int + d - 10) as char
  }

  function HexCharValue(ch: char): (d: nat)
    requires IsHexDigit(ch)
    ensures d < 16
  {
    if '0' <= ch <= '9' then ch as int - '0' as int else ch as int - 'a' as int + 10
  }

  /** The `width` low hexadecimal digits of `n`, most significant first. */
  function Hex(n: nat, width: nat): (s: string)
    ensures |s| == width
    ensures forall i :: 0 <= i < |s| ==> IsHexDigit(s[i])
  {
    if width == 0 then [] else Hex(n / 16, width - 1) + [HexChar(n % 16)]
  }

  function HexValue(s: string): nat
    requires forall i :: 0 <= i < |s| ==> IsHexDigit(s[i])
  {
    if |s| == 0 then 0 else 16 * HexValue(s[..|s| - 1]) + HexCharValue(s[|s| - 1])
  }

  lemma {:induction false} HexValueOfHex(n: nat, width: nat)
    requires n < Pow16(width)
    ensures HexValue(Hex(n, width)) == n
    decreases width
  {
    if width > 0 {
      HexValueOfHex(n / 16, width - 1);
      var s := Hex(n, width);
      assert s[..|s| - 1] == Hex(n / 16, width - 1);
    }
  }

  /** `str(uuid)`. */
  function UuidString(id: nat): (s: string)
    requires id < Bound
  {
    var h := Hex(id, 32);
    h[..8] + "-" + h[8..12] + "-" + h[12..16] + "-" + h[16..20] + "-" + h[20..]
  }

  /** `uuid.UUID(s)` for the canonical form only: None where the text is not one. */
  function ParseUuid(s: string): Option<nat> {
    if |s| == 36 && s[8] == '-' && s[13] == '-' && s[18] == '-' && s[23] == '-' then
      var h := s[..8] + s[9..13] + s[14..18] + s[19..23] + s[24..];
      if forall i :: 0 <= i < |h| ==> IsHexDigit(h[i]) then Some(HexValue(h)) else None
    else None
  }

  /** The text form has 36 characters, dashes at the group borders, and reads back as the UUID. */
  lemma ParseUuidString(id: nat)
    requires id < Bound
    ensures |UuidString(id)| == 36
    ensures ParseUuid(UuidString(id)) == Some(id)
  {
    var h := Hex(id, 32);
    var s := UuidString(id);
    assert s[..8] == h[..8];
    assert s[9..13] == h[8..12];
    assert s[14..18] == h[12..16];
    assert s[19..23] == h[16..20];
    assert s[24..] == h[20..];
    assert s[8] == '-' && s[13] == '-' && s[18] == '-' && s[23] == '-';
    assert h[..8] + h[8..12] + h[12..16] + h[16..20] + h[20..] == h;
    assert s[..8] + s[9..13] + s[14..18] + s[19..23] + s[24..] == h;
    assert forall i :: 0 <= i < |h| ==> IsHexDigit(h[i]);
    HexValueOfHex(id, 32);
  }

  /** Distinct UUIDs have distinct text forms. */
  lemma UuidStringInjective(a: nat, b: nat)
    requires a < Bound && b < Bound
    requires UuidString(a) == UuidString(b)
    ensures a == b
  {
    ParseUuidString(a);
    ParseUuidString(b);
  }
}
