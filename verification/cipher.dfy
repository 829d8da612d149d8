/**
  The symmetric encryption wrapper around stored secrets.

  The program seals every secret with one Fernet key that is created on first
  use and never rotated. The model keeps that single key implicit and treats a
  token as opaque: other modules only build tokens with `Encrypt` and read them
  with `Decrypt`. Fernet draws a fresh IV and timestamp for every token; that
  randomness is the `nonce` parameter, so two encryptions of one plaintext are
  different tokens that decrypt to the same text.
*/
module Cipher {

  /** A self-contained authenticated token, as stored in the JSON records. */
  datatype Ciphertext = Token(nonce: nat, sealed: string)

  /** Seals `plaintext`; the round trip through `Decrypt` gives it back. */
  function Encrypt(nonce: nat, plaintext: string): (c: Ciphertext)
    ensures Decrypt(c) == plaintext
    ensures c.nonce == nonce
  {
    Token(nonce, plaintext)
  }

  /** Opens a token sealed with the process key. */
  function Decrypt(c: Ciphertext): string
  {
    c.sealed
  }

  /** Tokens are randomised: the same plaintext sealed twice with different
      randomness gives different tokens, yet both decrypt to the plaintext. */
  lemma Randomised(n1: nat, n2: nat, p: string)
    requires n1 != n2
    ensures Encrypt(n1, p) != Encrypt(n2, p)
    ensures Decrypt(Encrypt(n1, p)) == Decrypt(Encrypt(n2, p)) == p
  {
  }
}
