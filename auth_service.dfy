/** Password login: look the account up by email, compare the password with
    the stored bcrypt hash and issue an access token whose lifetime comes
    from the JWT_ACCESS_TTL_MINUTES setting. */
module AuthService {
  import opened Base
  import opened Decimal
  import opened Tokens
  import opened UserModel
  import opened UserRepository
  import opened UserService
  import opened Text
  import opened AuthMiddleware

  /** 24 hours, in minutes. */
  const DefaultTtlMinutes: int := 24 * 60

  const InvalidCredentials: Error := Message("invalid credentials")
  const BearerType: string := "Bearer"

  datatype LoginResponse = LoginResponse(accessToken: string, tokenType: string, expiresIn: int, user: UserResponse)

  /** accessTokenTTL, in minutes: the setting when it is a positive decimal
      integer, 24 hours when it is empty, not an integer, or not positive. */
  function AccessTokenTtlMinutes(setting: string): (minutes: int)
    ensures minutes > 0
    ensures setting == "" ==> minutes == DefaultTtlMinutes
    ensures Atoi(setting).None? ==> minutes == DefaultTtlMinutes
    ensures Atoi(setting).Some? && Atoi(setting).value <= 0 ==> minutes == DefaultTtlMinutes
    ensures Atoi(setting).Some? && Atoi(setting).value > 0 ==> minutes == Atoi(setting).value
  {
    if setting == "" then DefaultTtlMinutes
    else match Atoi(setting)
      case None => DefaultTtlMinutes
      case Some(n) => if n <= 0 then DefaultTtlMinutes else n
  }

  /** Any positive minute count written in decimal is taken as it is. */
  lemma TtlReadsDecimal(n: int)
    requires 0 < n <= MaxInt64
    ensures AccessTokenTtlMinutes(Itoa(n)) == n
  {
    AtoiItoa(n);
  }

  /** A zero or negative setting falls back to 24 hours. */
  lemma TtlRejectsNonPositive(n: int)
    requires MinInt64 <= n <= 0
    ensures AccessTokenTtlMinutes(Itoa(n)) == DefaultTtlMinutes
  {
    AtoiItoa(n);
  }

  /** What Login answers on a users table. */
  function LoginOutcome(rows: seq<UserRow>, email: string, password: string, setting: string,
                        now: Instant, sign: Signer, lookupFault: Option<string>): (r: Result<LoginResponse>)
    ensures lookupFault.Some? ==> r == Err(Driver(lookupFault.value))
    ensures lookupFault.None? && IndexOfEmail(rows, email).None? ==> r == Err(InvalidCredentials)
    ensures (lookupFault.None? && IndexOfEmail(rows, email).Some? &&
             !Matches(rows[IndexOfEmail(rows, email).value].passwordHash, password)) ==> r == Err(InvalidCredentials)
    ensures (lookupFault.None? && IndexOfEmail(rows, email).Some? &&
             Matches(rows[IndexOfEmail(rows, email).value].passwordHash, password)) ==>
              var claims := Claims(rows[IndexOfEmail(rows, email).value].userId, AccessType,
                                   now + AccessTokenTtlMinutes(setting) * 60);
              && (r.Ok? <==> sign(claims).Ok?)
              && (sign(claims).Err? ==> r == Err(sign(claims).error))
    ensures r.Ok? ==>
              var i := IndexOfEmail(rows, email);
              var ttl := AccessTokenTtlMinutes(setting);
              && lookupFault.None? && i.Some? && rows[i.value].email == Some(email)
              && Matches(rows[i.value].passwordHash, password)
              && sign(Claims(rows[i.value].userId, AccessType, now + ttl * 60)) == Ok(r.value.accessToken)
              && r.value.tokenType == BearerType && r.value.expiresIn == ttl * 60 && r.value.expiresIn > 0
              && r.value.user == ToUserResponse(rows[i.value])
  {
    if lookupFault.Some? then Err(Driver(lookupFault.value))
    else match IndexOfEmail(rows, email)
      case None => Err(InvalidCredentials)
      case Some(i) =>
        if !Matches(rows[i].passwordHash, password) then Err(InvalidCredentials)
        else
          var ttl := AccessTokenTtlMinutes(setting);
          match NewToken(sign, rows[i].userId, AccessType, ttl * 60, now)
          case Err(e) => Err(e)
          case Ok(token) => Ok(LoginResponse(token, BearerType, ttl * 60, ToUserResponse(rows[i])))
  }

  /** An unknown email and a wrong password are indistinguishable to the
      caller: when signing cannot fail, every failed login without a driver
      fault says "invalid credentials". */
  lemma CredentialsFailAlike(rows: seq<UserRow>, email: string, password: string, setting: string,
                             now: Instant, sign: Signer)
    requires forall c :: sign(c).Ok?
    requires LoginOutcome(rows, email, password, setting, now, sign, None).Err?
    ensures LoginOutcome(rows, email, password, setting, now, sign, None).error == InvalidCredentials
  {
  }

  /** A token Login issues, presented as "Bearer <token>" to a verifier
      that reads back what the signer signed, admits exactly the account
      that logged in. */
  lemma LoginTokenAdmitted(rows: seq<UserRow>, email: string, password: string, setting: string,
                           now: Instant, sign: Signer, verify: Verifier)
    requires forall c :: sign(c).Ok? ==> verify(sign(c).value) == Some(c)
    requires LoginOutcome(rows, email, password, setting, now, sign, None).Ok?
    ensures IndexOfEmail(rows, email).Some?
    ensures var resp := LoginOutcome(rows, email, password, setting, now, sign, None).value;
            RequireAuth(BearerType + " " + resp.accessToken, verify) == Proceed(rows[IndexOfEmail(rows, email).value].userId)
  {
    var resp := LoginOutcome(rows, email, password, setting, now, sign, None).value;
    var i := IndexOfEmail(rows, email).value;
    var claims := Claims(rows[i].userId, AccessType, now + AccessTokenTtlMinutes(setting) * 60);
    assert sign(claims) == Ok(resp.accessToken);
    assert verify(resp.accessToken) == Some(claims);
    assert ' ' !in BearerType;
    assert EqualFold(BearerType, "Bearer");
    TokenIsRestOfHeader(BearerType, resp.accessToken, verify);
  }

  class AuthService {
    const repo: UserTable

    constructor (repo: UserTable)
      ensures this.repo == repo
    {
      this.repo := repo;
    }

    /** authService.Login. */
    method Login(email: string, password: string, setting: string, now: Instant, sign: Signer,
                 lookupFault: Option<string>) returns (r: Result<LoginResponse>)
      ensures r == LoginOutcome(repo.rows, email, password, setting, now, sign, lookupFault)
    {
      var found := repo.FindByEmail(email, lookupFault);
      if found.Err? {
        if found.error == RecordNotFound {
          return Err(InvalidCredentials);
        }
        return Err(found.error);
      }
      var user := found.value;
      if !Matches(user.passwordHash, password) {
        return Err(InvalidCredentials);
      }
      var ttl := AccessTokenTtlMinutes(setting);
      var token := NewToken(sign, user.userId, AccessType, ttl * 60, now);
      if token.Err? {
        return Err(token.error);
      }
      r := Ok(LoginResponse(token.value, BearerType, ttl * 60, ToUserResponse(user.Row())));
    }
  }
}
