/**
 * A stand-in for Fernet authenticated encryption. The model relies only on
 * the two lemmas below: decryption inverts encryption, and decryption
 * succeeds on nothing but the image of encryption (any other string fails,
 * as a forged or corrupted Fernet token does).
 */
module Fernet {
  import opened Wrappers

  /** Every Fernet token starts with the base64 of its version byte. */
  const Version: string := "gAAAAA"

  function Encrypt(plaintext: string): (token: string)
    ensures |token| > |plaintext|
  {
    Version + plaintext
  }

  function Decrypt(token: string): Option<string> {
    if |token| >= |Version| && token[..|Version|] == Version then Some(token[|Version|..]) else None
  }

  lemma DecryptEncrypt(plaintext: string)
    ensures Decrypt(Encrypt(plaintext)) == Some(plaintext)
  {
    assert (Version + plaintext)[..|Version|] == Version;
  }

  lemma DecryptOnlyTokens(token: string)
    ensures Decrypt(token).Some? ==> token == Encrypt(Decrypt(token).value)
  {
    if Decrypt(token).Some? {
      assert token == token[..|Version|] + token[|Version|..];
    }
  }

  /** Distinct plaintexts give distinct tokens. */
  lemma EncryptInjective(p: string, q: string)
    requires Encrypt(p) == Encrypt(q)
    ensures p == q
  {
    DecryptEncrypt(p);
    DecryptEncrypt(q);
  }
}
