/**
 * Password hashing as the controllers use it (`bcrypt.hash(p, 10)` and
 * `bcrypt.compare(p, hash)`), modelled as an ideal hash: a digest remembers
 * the salt it was made with and the password it was made from, and
 * comparison succeeds for that password only.
 */
module Hashing {

  /** A stored password hash. */
  datatype Digest = Digest(salt: string, preimage: string)

  /** `bcrypt.compare(plain, digest)`. */
  predicate Compare(plain: string, digest: Digest) {
    digest.preimage == plain
  }

  /**
   * `bcrypt.hash(plain, 10)` with the salt bcrypt would draw at random
   * passed in: the digest verifies against `plain` and against no other
   * password.
   */
  function Hash(plain: string, salt: string): (d: Digest)
    ensures Compare(plain, d)
    ensures forall other :: Compare(other, d) ==> other == plain
    ensures d.salt == salt
  {
    Digest(salt, plain)
  }

  /**
   * The text stored in the `password` column: the bcrypt header naming
   * cost 10, then the salt, never the password.
   */
  function Encoded(d: Digest): (text: string)
    ensures "$2a$10$" <= text && |text| == 7 + |d.salt|
    ensures text[7..] == d.salt
  {
    "$2a$10$" + d.salt
  }
}
