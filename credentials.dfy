/** The password hashing the application takes from werkzeug
    (`generate_password_hash` / `check_password_hash`), abstracted: a salted
    key-derivation function is a parameter, and the only assumption made
    about it is that, for a fixed salt, different passwords give different
    digests. */
module Credentials {

  type Salt = nat
  type Digest = nat

  /** The key-derivation function: salt and password to digest. */
  type Kdf = (Salt, string) -> Digest

  /** What is stored in the `password_hash` column: the salt and the digest,
      never the password itself. */
  datatype PasswordHash = PasswordHash(salt: Salt, digest: Digest)

  ghost predicate CollisionFree(kdf: Kdf) {
    forall salt, p, q :: kdf(salt, p) == kdf(salt, q) ==> p == q
  }

  /** `generate_password_hash(password)`; the random salt is a parameter.
      The hash keeps its salt, and it accepts the password it was made from. */
  function GenerateHash(kdf: Kdf, salt: Salt, password: string): (h: PasswordHash)
    ensures h.salt == salt && CheckHash(kdf, h, password)
  {
    PasswordHash(salt, kdf(salt, password))
  }

  /** `check_password_hash(hash, password)`: re-derive with the stored salt
      and compare. */
  function CheckHash(kdf: Kdf, hash: PasswordHash, password: string): bool {
    kdf(hash.salt, password) == hash.digest
  }

  /** A generated hash accepts exactly the password it was made from. */
  lemma CheckGeneratedHash(kdf: Kdf, salt: Salt, p: string, q: string)
    requires CollisionFree(kdf)
    ensures CheckHash(kdf, GenerateHash(kdf, salt, p), q) <==> p == q
  {
  }
}
