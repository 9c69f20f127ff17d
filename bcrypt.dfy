/**
 * The password-hashing primitive (bcryptjs) as the handlers use it:
 * `hash(password, rounds)` draws a fresh salt and returns a digest that
 * embeds it, and `compare(password, digest)` re-derives the checksum from
 * the salt stored in the digest. The salt is a parameter here (it is
 * random in the library); the checksum function is a stand-in for the
 * real key-derivation, and callers rely only on `CompareHash`.
 */
module Bcrypt {
  /** A stored password: the salt it was hashed with and the resulting checksum. */
  datatype Digest = Digest(salt: nat, checksum: nat)

  /** Stand-in for the key-derivation from a salt and a password. */
  function Checksum(salt: nat, password: string): nat
  {
    if password == [] then salt
    else Checksum(salt, password[1..]) * 0x11_0000 + password[0] as nat
  }

  /** `bcryptjs.hash(password, 8)` with the salt it drew. */
  function Hash(password: string, salt: nat): Digest
  {
    Digest(salt, Checksum(salt, password))
  }

  /** `bcryptjs.compare(password, digest)`. */
  predicate Compare(password: string, digest: Digest)
  {
    Checksum(digest.salt, password) == digest.checksum
  }

  /** A password always matches its own digest, whatever salt was drawn. */
  lemma CompareHash(password: string, salt: nat)
    ensures Compare(password, Hash(password, salt))
  {
  }
}
