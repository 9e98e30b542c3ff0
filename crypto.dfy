/**
 * The symmetric-encryption boundary of the notes store. The scheme itself
 * (Fernet: AES with an HMAC tag, a random IV and a timestamp) belongs to a
 * third-party library, so the store is handed it as a value: a pair of
 * functions bound to one key, as `Fernet(crypto_key)` is.
 */
module Crypto {
  import opened Wrappers

  /** The printable token that `Fernet.encrypt(...).decode()` returns. */
  type Token = string

  /**
   * The per-call randomness of an encryption (the IV and the timestamp Fernet
   * draws), passed in so that one plaintext can have many tokens.
   */
  type Nonce = nat

  /**
   * A key-bound cipher. `decrypt` yields `None` where Python raises: a
   * malformed token, a failed tag (wrong key or corrupted data), or bytes that
   * are not UTF-8.
   */
  datatype Fernet = Fernet(encrypt: (string, Nonce) -> Token, decrypt: Token -> Option<string>)

  /** The one property of the scheme the store relies on: decrypting a token made under the same key gives the plaintext back. */
  ghost predicate RoundTrips(f: Fernet)
  {
    forall text, nonce :: f.decrypt(f.encrypt(text, nonce)) == Some(text)
  }
}
