/**
 * The token primitive (jsonwebtoken) as the handlers use it. A header value
 * is either a well-formed token, abstracted to its claims and the key its
 * signature was made with, or text that does not parse as a token.
 * `jwt.verify` returns the claims when the signature checks under the key
 * and throws otherwise; the throw is the `Rejected` verdict.
 */
module Jwt {
  import opened Users

  /** The one signing and verification key, a literal in both core files. */
  const KEY: string := "passwordKey"

  /** The decoded payload: `{ id }`, or a falsy payload such as the empty string. */
  datatype Claims = IdClaim(id: UserId) | EmptyPayload

  datatype Token = Signed(claims: Claims, signedWith: string) | Malformed(text: string)

  datatype Verification = Decoded(claims: Claims) | Rejected

  /** `jwt.sign({ id }, key)`: no expiry is set. */
  function Sign(key: string, id: UserId): Token
  {
    Signed(IdClaim(id), key)
  }

  /** `jwt.verify(token, key)`: a bad signature or a malformed token throws. */
  function Verify(key: string, token: Token): Verification
  {
    match token
    case Signed(claims, k) => if k == key then Decoded(claims) else Rejected
    case Malformed(_) => Rejected
  }

  /** A signed token verifies under its key to the id it was signed for. */
  lemma VerifySign(key: string, id: UserId)
    ensures Verify(key, Sign(key, id)) == Decoded(IdClaim(id))
  {
  }

  /** A token signed with another key does not verify. */
  lemma VerifyOtherKey(key: string, other: string, id: UserId)
    requires other != key
    ensures Verify(key, Sign(other, id)) == Rejected
  {
  }

  /** The only tokens that verify to an id are the ones signed for it with the key. */
  lemma VerifiedOnlyIfSigned(key: string, token: Token, id: UserId)
    ensures Verify(key, token) == Decoded(IdClaim(id)) <==> token == Sign(key, id)
  {
  }
}
