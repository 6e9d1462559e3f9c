/** UserController: the login endpoint, which authenticates and hands out an access token with a new
    refresh token, and the refresh endpoint, which trades a stored, unexpired refresh token for a new
    access token. The authentication manager and the JWT service are collaborators whose code is not
    part of this model: they appear as function values fixed when the controller is built. */
module Controllers {
  import opened Wrappers
  import opened Model
  import opened RefreshTokens

  /** The message of the UsernameNotFoundException thrown when authentication is not granted. */
  const INVALID_USER_REQUEST := "invalid user request..!!"

  /** The message of the RuntimeException thrown when the refresh pipeline ends empty. */
  const NOT_IN_DB := "Refresh Token is not in DB..!!"

  /** What authenticationManager.authenticate does with a username and password: it returns an
      Authentication, granted or not, or it throws an exception with a message. */
  datatype Authentication = Authentication(isAuthenticated: bool) | AuthenticationException(message: string)

  /** authenticationManager.authenticate(new UsernamePasswordAuthenticationToken(username, password)). */
  type Authenticator = (string, string) -> Authentication

  /** jwtService.generateToken(username). */
  type TokenIssuer = string -> string

  /** authenticateAndGetToken: an exception from authentication propagates; an authentication that is
      not granted fails with INVALID_USER_REQUEST; a granted one creates a refresh record for the
      username (whose failure propagates) and returns the generated access token with that record's
      token string. Only a successful login changes the token store, by exactly one record. */
  function Login(s: Service, authenticate: Authenticator, generateToken: TokenIssuer,
                 request: AuthRequest, newToken: string, now: int): (o: Step<JwtResponse>)
    requires newToken !in s.tokens
    ensures o.result.Ok? <==>
              authenticate(request.username, request.password) == Authentication(true) && request.username in s.users
    ensures o.result.Ok? ==>
              && o.result.value == JwtResponse(generateToken(request.username), newToken)
              && o.after == s.(tokens := s.tokens[newToken :=
                   RefreshToken(newToken, s.users[request.username], now + s.refreshTokenExpiration)])
    ensures o.result.Ok? && s.Valid() ==> o.after.tokens[newToken].userInfo.username == request.username
    ensures o.result.Err? ==> o.after == s
    ensures authenticate(request.username, request.password).AuthenticationException? ==>
              o.result == Err(authenticate(request.username, request.password).message)
    ensures authenticate(request.username, request.password) == Authentication(false) ==>
              o.result == Err(INVALID_USER_REQUEST)
    ensures authenticate(request.username, request.password) == Authentication(true) && request.username !in s.users ==>
              o.result == Err(NO_VALUE_PRESENT)
    ensures s.Valid() ==> o.after.Valid()
  {
    match authenticate(request.username, request.password)
    case AuthenticationException(message) => Step(Err(message), s)
    case Authentication(isAuthenticated) =>
      if isAuthenticated then
        var created := s.CreateRefreshToken(request.username, newToken, now);
        match created.result
        case Err(e) => Step(Err(e), created.after)
        case Ok(refreshToken) =>
          Step(Ok(JwtResponse(generateToken(request.username), refreshToken.token)), created.after)
      else
        Step(Err(INVALID_USER_REQUEST), s)
  }

  /** refreshToken: findByToken, then verifyExpiration, then a new access token for the record's owner,
      paired with the refresh string of the request, which is not rotated. An unknown string fails with
      NOT_IN_DB and changes nothing; an expired record is deleted and its exception propagates; a live
      one changes nothing. */
  function Refresh(s: Service, generateToken: TokenIssuer, request: RefreshTokenRequest, now: int): (o: Step<JwtResponse>)
    ensures request.refreshToken !in s.tokens ==> o == Step(Err(NOT_IN_DB), s)
    ensures request.refreshToken in s.tokens ==>
              var record := s.tokens[request.refreshToken];
              && (record.expiryDate < now ==>
                    && o.result == Err(record.token + EXPIRED_SUFFIX)
                    && o.after == s.(tokens := s.tokens - {record.token}))
              && (now <= record.expiryDate ==>
                    o == Step(Ok(JwtResponse(generateToken(record.userInfo.username), request.refreshToken)), s))
    ensures o.result.Ok? ==> o.result.value.refreshToken == request.refreshToken
    ensures o.after.tokens.Keys <= s.tokens.Keys
    ensures forall t :: t in o.after.tokens ==> o.after.tokens[t] == s.tokens[t]
    ensures o.after.users == s.users && o.after.refreshTokenExpiration == s.refreshTokenExpiration
    ensures s.Valid() ==> o.after.Valid()
  {
    match s.FindByToken(request.refreshToken)
    case None => Step(Err(NOT_IN_DB), s)
    case Some(record) =>
      var verified := s.VerifyExpiration(record, now);
      match verified.result
      case Err(e) => Step(Err(e), verified.after)
      case Ok(live) =>
        var accessToken := generateToken(live.userInfo.username);
        Step(Ok(JwtResponse(accessToken, request.refreshToken)), verified.after)
  }

  /** A refresh token handed out by a login can be traded, up to and including its expiry instant,
      for an access token of the same user, and the refresh leaves the store as the login left it. */
  lemma LoginThenRefresh(s: Service, authenticate: Authenticator, generateToken: TokenIssuer,
                         request: AuthRequest, newToken: string, now: int, later: int)
    requires s.Valid() && newToken !in s.tokens
    requires Login(s, authenticate, generateToken, request, newToken, now).result.Ok?
    requires later <= now + s.refreshTokenExpiration
    ensures var login := Login(s, authenticate, generateToken, request, newToken, now);
            var refresh := Refresh(login.after, generateToken, RefreshTokenRequest(login.result.value.refreshToken), later);
            && refresh.result == Ok(JwtResponse(generateToken(request.username), newToken))
            && refresh.after == login.after
  {
  }

  /** A login that fails never reaches the token store: no record is created. */
  lemma FailedLoginCreatesNothing(s: Service, authenticate: Authenticator, generateToken: TokenIssuer,
                                  request: AuthRequest, newToken: string, now: int)
    requires newToken !in s.tokens
    requires authenticate(request.username, request.password) != Authentication(true)
    ensures var login := Login(s, authenticate, generateToken, request, newToken, now);
            login.result.Err? && login.after == s && newToken !in login.after.tokens
  {
  }

  /** Refreshing twice with a live token succeeds both times with the same refresh string, not
      rotated, and an access token generated for the record's owner; the store stays as it was. */
  lemma RefreshTwice(s: Service, generateToken: TokenIssuer, request: RefreshTokenRequest, first: int, second: int)
    requires Refresh(s, generateToken, request, first).result.Ok?
    requires second <= s.tokens[request.refreshToken].expiryDate
    ensures var one := Refresh(s, generateToken, request, first);
            var two := Refresh(one.after, generateToken, request, second);
            && two.after == one.after && one.after == s
            && two.result == Ok(JwtResponse(generateToken(s.tokens[request.refreshToken].userInfo.username),
                                            request.refreshToken))
  {
  }

  /** Once a refresh finds its record expired, the record is gone for good: every later refresh with
      the same string fails as not in the store. Deleted is the terminal state of a token. */
  lemma ExpiredRefreshIsFinal(s: Service, generateToken: TokenIssuer, request: RefreshTokenRequest, now: int, later: int)
    requires request.refreshToken in s.tokens
    requires s.tokens[request.refreshToken].expiryDate < now
    requires s.Valid()
    ensures var one := Refresh(s, generateToken, request, now);
            && one.result == Err(request.refreshToken + EXPIRED_SUFFIX)
            && one.after.tokens == s.tokens - {request.refreshToken}
            && Refresh(one.after, generateToken, request, later) == Step(Err(NOT_IN_DB), one.after)
  {
  }

  /** Neither endpoint brings back a token string that is not in the store, except the one a login is
      given to create. */
  lemma NoResurrection(s: Service, authenticate: Authenticator, generateToken: TokenIssuer,
                       request: AuthRequest, refresh: RefreshTokenRequest, newToken: string, now: int, t: string)
    requires newToken !in s.tokens && t !in s.tokens && t != newToken
    ensures t !in Login(s, authenticate, generateToken, request, newToken, now).after.tokens
    ensures t !in Refresh(s, generateToken, refresh, now).after.tokens
  {
  }

  /** The controller, holding the refresh-token service it delegates to. */
  class UserController {
    const refreshTokenService: RefreshTokenService
    const authenticationManager: Authenticator
    const jwtService: TokenIssuer

    constructor (refreshTokenService: RefreshTokenService, authenticationManager: Authenticator, jwtService: TokenIssuer)
      ensures this.refreshTokenService == refreshTokenService
      ensures this.authenticationManager == authenticationManager
      ensures this.jwtService == jwtService
    {
      this.refreshTokenService := refreshTokenService;
      this.authenticationManager := authenticationManager;
      this.jwtService := jwtService;
    }

    /** authenticateAndGetToken. */
    method AuthenticateAndGetToken(request: AuthRequest, newToken: string, now: int) returns (r: Result<JwtResponse>)
      requires refreshTokenService.Valid() && newToken !in refreshTokenService.tokens
      modifies refreshTokenService`tokens
      ensures refreshTokenService.Valid()
      ensures Step(r, refreshTokenService.State())
              == Login(old(refreshTokenService.State()), authenticationManager, jwtService, request, newToken, now)
    {
      var authentication := authenticationManager(request.username, request.password);
      match authentication
      case AuthenticationException(message) =>
        r := Err(message);
      case Authentication(isAuthenticated) =>
        if isAuthenticated {
          var created := refreshTokenService.CreateRefreshToken(request.username, newToken, now);
          match created
          case Err(e) =>
            r := Err(e);
          case Ok(refreshToken) =>
            r := Ok(JwtResponse(jwtService(request.username), refreshToken.token));
        } else {
          r := Err(INVALID_USER_REQUEST);
        }
    }

    /** refreshToken. */
    method RefreshToken(request: RefreshTokenRequest, now: int) returns (r: Result<JwtResponse>)
      requires refreshTokenService.Valid()
      modifies refreshTokenService`tokens
      ensures refreshTokenService.Valid()
      ensures Step(r, refreshTokenService.State())
              == Refresh(old(refreshTokenService.State()), jwtService, request, now)
    {
      var found := refreshTokenService.FindByToken(request.refreshToken);
      match found
      case None =>
        r := Err(NOT_IN_DB);
      case Some(record) =>
        var verified := refreshTokenService.VerifyExpiration(record, now);
        match verified
        case Err(e) =>
          r := Err(e);
        case Ok(live) =>
          var accessToken := jwtService(live.userInfo.username);
          r := Ok(JwtResponse(accessToken, request.refreshToken));
    }
  }
}
