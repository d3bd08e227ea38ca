/** The bearer-token gate in front of the authenticated routes (the Bearer
    scheme of section 2.1 of RFC 6750; the scheme name compared without
    regard to case, as section 2.1 of RFC 7235 allows). The middleware is a
    pure classification of the Authorization header: it either answers 401
    with an error envelope or lets the request through with the user id
    stored under "userId". */
module AuthMiddleware {
  import opened Base
  import opened Text
  import opened Tokens
  import opened CommonDto

  const UserIdLocalKey: string := "userId"
  const StatusUnauthorized: int := 401

  const MissingHeader: string := "missing Authorization header"
  const InvalidHeader: string := "invalid Authorization header"
  const InvalidOrExpired: string := "invalid or expired token"

  /** What `c.Locals("userId")` holds. */
  datatype Local = NoValue | UintValue(n: nat) | OtherValue

  /** Reject: the 401 answer. Proceed: the stored user id; the next handler runs. */
  datatype AuthOutcome = Reject(status: int, body: ApiResponse<()>) | Proceed(userId: nat)

  function Unauthorized(reason: string): AuthOutcome
  {
    Reject(StatusUnauthorized, NewErrorResponse("Unauthorized", reason))
  }

  /** strings.SplitN(s, " ", 2): split at the first space only. */
  function SplitFirst(s: string): (parts: seq<string>)
    ensures 1 <= |parts| <= 2
    ensures |parts| == 1 <==> ' ' !in s
    ensures |parts| == 1 ==> parts[0] == s
    ensures |parts| == 2 ==> s == parts[0] + " " + parts[1] && ' ' !in parts[0]
  {
    match IndexOf(s, ' ')
    case None => [s]
    case Some(i) =>
      assert s == s[..i] + " " + s[i + 1..];
      [s[..i], s[i + 1..]]
  }

  /** middleware.RequireAuth on the header value. */
  function RequireAuth(header: string, verify: Verifier): (r: AuthOutcome)
    ensures header == "" ==> r == Unauthorized(MissingHeader)
    ensures r.Reject? ==> r.status == StatusUnauthorized && !r.body.success
  {
    if header == "" then Unauthorized(MissingHeader)
    else
      var parts := SplitFirst(header);
      if |parts| != 2 || !EqualFold(parts[0], "Bearer") then Unauthorized(InvalidHeader)
      else
        match ParseToken(verify, parts[1], AccessType)
        case Err(_) => Unauthorized(InvalidOrExpired)
        case Ok(claims) => Proceed(claims.userId)
  }

  /** middleware.GetUserID on the stored value. */
  function GetUserID(v: Local): (r: Result<nat>)
    ensures r.Ok? <==> v.UintValue?
    ensures v.UintValue? ==> r.value == v.n
    ensures v.NoValue? ==> r == Err(Message("missing user context"))
    ensures v.OtherValue? ==> r == Err(Message("invalid user context"))
  {
    match v
    case NoValue => Err(Message("missing user context"))
    case OtherValue => Err(Message("invalid user context"))
    case UintValue(n) => Ok(n)
  }

  /** A header without a space, or whose first word is not "Bearer" in any
      case, is a malformed header, and only those are. */
  lemma MalformedHeader(header: string, verify: Verifier)
    requires header != ""
    ensures RequireAuth(header, verify) == Unauthorized(InvalidHeader)
        <==> (' ' !in header || !EqualFold(SplitFirst(header)[0], "Bearer"))
  {
  }

  /** Under a scheme word equal to "Bearer" up to case, the token is everything
      after the first space, later spaces included, and the outcome is decided
      by checking that token as an access token. */
  lemma {:induction false} TokenIsRestOfHeader(scheme: string, token: string, verify: Verifier)
    requires ' ' !in scheme && EqualFold(scheme, "Bearer")
    ensures SplitFirst(scheme + " " + token) == [scheme, token]
    ensures RequireAuth(scheme + " " + token, verify)
         == match ParseToken(verify, token, AccessType)
            case Err(_) => Unauthorized(InvalidOrExpired)
            case Ok(claims) => Proceed(claims.userId)
  {
    var h := scheme + " " + token;
    IndexOfAfterWord(scheme, ' ', token);
    assert h[..|scheme|] == scheme;
    assert h[|scheme| + 1..] == token;
  }

  /** "bearer" and "BEARER" are both accepted as the scheme. */
  lemma SchemeIgnoresCase()
    ensures EqualFold("bearer", "Bearer") && EqualFold("BEARER", "Bearer")
    ensures !EqualFold("Basic", "Bearer")
  {
  }

  /** A valid QR token presented as a bearer token is refused: its type is not "access". */
  lemma QrTokenIsNoAccessToken(token: string, verify: Verifier)
    requires verify(token).Some? && verify(token).value.tokenType == QrType
    ensures RequireAuth("Bearer " + token, verify) == Unauthorized(InvalidOrExpired)
  {
    assert "Bearer " + token == "Bearer" + " " + token;
    assert EqualFold("Bearer", "Bearer");
    TokenIsRestOfHeader("Bearer", token, verify);
  }

  /** What RequireAuth stores, GetUserID reads back. */
  lemma AdmittedUserIsReadBack(header: string, verify: Verifier)
    requires RequireAuth(header, verify).Proceed?
    ensures GetUserID(UintValue(RequireAuth(header, verify).userId)) == Ok(RequireAuth(header, verify).userId)
    ensures verify(SplitFirst(header)[1]).Some?
    ensures RequireAuth(header, verify).userId == verify(SplitFirst(header)[1]).value.userId
  {
  }
}
