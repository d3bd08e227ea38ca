/** Signed tokens. Signing and signature/expiry checking (HS256 through the
    golang-jwt library) are abstract: a Signer turns claims into a token
    string or fails, and a Verifier says, at the current instant, which
    claims a token string carries, if its signature holds and it has not
    expired. The one rule of the token layer the model states is the type
    discriminator of ParseToken. */
module Tokens {
  import opened Base

  const AccessType: string := "access"
  const QrType: string := "qr"

  datatype Claims = Claims(userId: nat, tokenType: string, expiresAt: Instant)

  type Verifier = string -> Option<Claims>
  type Signer = Claims -> Result<string>

  /** The error every rejected token yields. */
  const InvalidToken: Error := Message("invalid token")

  /** utils.ParseToken: verified claims whose type matches the expected type
      (an empty expected type accepts any). */
  function ParseToken(verify: Verifier, token: string, expectedType: string): (r: Result<Claims>)
    ensures r.Ok? <==> verify(token).Some? && (expectedType == "" || verify(token).value.tokenType == expectedType)
    ensures r.Ok? ==> r.value == verify(token).value && (expectedType != "" ==> r.value.tokenType == expectedType)
    ensures r.Err? ==> r.error == InvalidToken
  {
    match verify(token)
    case None => Err(InvalidToken)
    case Some(c) => if expectedType != "" && c.tokenType != expectedType then Err(InvalidToken) else Ok(c)
  }

  /** utils.newToken: claims for the user, of that type, expiring ttl seconds from now. */
  function NewToken(sign: Signer, userId: nat, tokenType: string, ttl: int, now: Instant): Result<string>
  {
    sign(Claims(userId, tokenType, now + ttl))
  }

  /** A token accepted for one type is refused for any other type. */
  lemma TypeSeparatesTokens(verify: Verifier, token: string, t1: string, t2: string)
    requires t1 != "" && t2 != "" && t1 != t2
    ensures !(ParseToken(verify, token, t1).Ok? && ParseToken(verify, token, t2).Ok?)
  {
  }
}
