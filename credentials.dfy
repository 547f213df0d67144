/**
 * Password hashing and token signing, kept abstract.  The key-derivation
 * function (bcrypt at cost 10) and the token signer (a JSON Web Token over
 * the claims, with the secret, the expiry and the clock folded in) are
 * parameters; only how the handlers use them is modelled.
 */
module Credentials {
  type Salt = seq<bv8>

  /** The derivation of a digest from a password and a salt. */
  type Kdf = (string, Salt) -> seq<bv8>

  /** A stored password hash carries its own salt, as a bcrypt hash string does. */
  datatype PasswordHash = PasswordHash(salt: Salt, digest: seq<bv8>)

  /** The claims a token is signed over. */
  datatype Claims = Claims(id: int)

  /**
   * The token signer at one instant: the secret, the issue time and the expiry
   * are fixed inside it, so tokens for the same claims differ between instants.
   */
  type Signer = Claims -> string

  /** Checks a password against a stored hash by re-deriving with the stored salt. */
  predicate Verify(kdf: Kdf, password: string, stored: PasswordHash)
  {
    kdf(password, stored.salt) == stored.digest
  }

  /** Hashes a password under a freshly generated salt; the hash verifies the password it came from. */
  function Hash(kdf: Kdf, password: string, salt: Salt): (h: PasswordHash)
    ensures h.salt == salt
    ensures Verify(kdf, password, h)
  {
    PasswordHash(salt, kdf(password, salt))
  }
}
