/**
 * The password-hashing context of the backend (a bcrypt `CryptContext`),
 * reduced to what the handlers rely on: `Hash` turns a plaintext into a
 * stored digest, and `Verify` checks a plaintext against a stored digest.
 *
 * bcrypt draws a fresh random salt on every call; the salt is therefore an
 * explicit parameter of `Hash`. The digest is modelled as an ideal,
 * collision-free salted hash: the datatype keeps the preimage only so that
 * `Verify` can be defined, and no other part of the model looks inside it.
 */
module Passwords {

  type Password = string

  /** The random salt bcrypt embeds in each digest. */
  type Salt = nat

  /** A stored bcrypt digest; never a plaintext string. */
  datatype PasswordHash = Bcrypt(salt: Salt, preimage: Password)

  /** Hashing a plaintext with a given salt. */
  function Hash(salt: Salt, p: Password): PasswordHash
  {
    Bcrypt(salt, p)
  }

  /** Checking a plaintext against a stored digest. */
  predicate Verify(p: Password, h: PasswordHash)
  {
    h.preimage == p
  }

  /** A digest accepts exactly the plaintext it was made from, whatever the salt. */
  lemma VerifyHash(salt: Salt, p: Password, q: Password)
    ensures Verify(q, Hash(salt, p)) <==> q == p
  {
  }
}
