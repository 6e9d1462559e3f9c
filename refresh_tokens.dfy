/** RefreshTokenService: creates, looks up and expires the refresh-token records kept in the token
    repository, reading users from the user repository. Time is an instant in milliseconds, passed in
    as `now`; the fresh token string (a random UUID in the running system) is passed in as `newToken`. */
module RefreshTokens {
  import opened Wrappers
  import opened Model

  /** The message of the NoSuchElementException thrown by Optional.get on an empty Optional. */
  const NO_VALUE_PRESENT := "No value present"

  /** What verifyExpiration appends to the token string in its exception message. */
  const EXPIRED_SUFFIX := " Refresh token is expired. Please make a new login..!"

  /** The refresh-token repository, keyed by the token string that findByToken searches on. */
  type TokenStore = map<string, RefreshToken>

  /** The user repository, keyed by the username that findByUsername searches on. */
  type UserStore = map<string, UserInfo>

  /** Each record sits under its own token string. */
  predicate TokensKeyed(tokens: TokenStore)
  {
    forall t :: t in tokens ==> tokens[t].token == t
  }

  /** Each user sits under its own username. */
  predicate UsersKeyed(users: UserStore)
  {
    forall u :: u in users ==> users[u].username == u
  }

  /** The result of a call on the service, and the service's state after it. */
  datatype Step<T> = Step(result: Result<T>, after: Service)

  /** The state a RefreshTokenService works on: both repositories and the configured refresh-token
      lifetime (jwt.refreshTokenExpiration), in milliseconds. */
  datatype Service = Service(users: UserStore, tokens: TokenStore, refreshTokenExpiration: int)
  {
    /** Both repositories find what they are asked for under the key they are asked with. */
    predicate Valid()
    {
      TokensKeyed(tokens) && UsersKeyed(users)
    }

    /** userRepository.findByUsername. */
    function FindByUsername(username: string): (r: Option<UserInfo>)
      ensures r.Some? <==> username in users
      ensures r.Some? ==> r.value == users[username]
      ensures r.Some? && Valid() ==> r.value.username == username
    {
      if username in users then Some(users[username]) else None
    }

    /** refreshTokenRepository.findByToken, which is also what RefreshTokenService.findByToken
        returns: the record stored under `token`, or nothing. */
    function FindByToken(token: string): (r: Option<RefreshToken>)
      ensures r.Some? <==> token in tokens
      ensures r.Some? ==> r.value in tokens.Values
      ensures r.Some? && Valid() ==> r.value.token == token
    {
      if token in tokens then Some(tokens[token]) else None
    }

    /** createRefreshToken(username): the stored user for `username` (or the exception of `.get()`
        when there is none, with nothing saved), the new token string, an expiry `refreshTokenExpiration`
        milliseconds after `now`, and the record saved under its token. `newToken` stands for
        UUID.randomUUID().toString(); that it is not already in use is an assumption about UUIDs. */
    function CreateRefreshToken(username: string, newToken: string, now: int): (o: Step<RefreshToken>)
      requires newToken !in tokens
      ensures o.result.Err? <==> username !in users
      ensures o.result.Err? ==> o.result.error == NO_VALUE_PRESENT && o.after == this
      ensures o.result.Ok? ==>
                && o.result.value == RefreshToken(newToken, users[username], now + refreshTokenExpiration)
                && o.after == this.(tokens := tokens[newToken := o.result.value])
      ensures o.result.Ok? ==> |o.after.tokens| == |tokens| + 1
      ensures o.result.Ok? && Valid() ==> o.result.value.userInfo.username == username
      ensures o.result.Ok? && refreshTokenExpiration > 0 ==> o.result.value.expiryDate > now
      ensures Valid() ==> o.after.Valid()
    {
      match FindByUsername(username)
      case None => Step(Err(NO_VALUE_PRESENT), this)
      case Some(user) =>
        var record := RefreshToken(newToken, user, now + refreshTokenExpiration);
        Step(Ok(record), this.(tokens := tokens[record.token := record]))
    }

    /** verifyExpiration(record): a record whose expiry is strictly before `now` is deleted and the call
        fails with the token followed by EXPIRED_SUFFIX; any other record (expiry equal to `now`
        included) is returned unchanged and nothing is deleted. */
    function VerifyExpiration(record: RefreshToken, now: int): (o: Step<RefreshToken>)
      ensures o.result.Ok? <==> now <= record.expiryDate
      ensures o.result.Ok? ==> o.result.value == record && o.after == this
      ensures o.result.Err? ==>
                && o.result.error == record.token + EXPIRED_SUFFIX
                && o.after == this.(tokens := tokens - {record.token})
      ensures Valid() ==> o.after.Valid()
    {
      if record.expiryDate < now then
        Step(Err(record.token + EXPIRED_SUFFIX), this.(tokens := tokens - {record.token}))
      else
        Step(Ok(record), this)
    }
  }

  /** A created refresh token is found afterwards under its own string, and every other lookup gives
      what it gave before. */
  lemma CreatedTokenIsFound(s: Service, username: string, newToken: string, now: int)
    requires s.Valid() && newToken !in s.tokens
    requires s.CreateRefreshToken(username, newToken, now).result.Ok?
    ensures var o := s.CreateRefreshToken(username, newToken, now);
            && o.after.FindByToken(newToken) == Some(o.result.value)
            && o.result.value.token == newToken
            && forall t :: t != newToken ==> o.after.FindByToken(t) == s.FindByToken(t)
  {
  }

  /** A failed creation (unknown user) leaves every lookup as it was. */
  lemma FailedCreationChangesNothing(s: Service, username: string, newToken: string, now: int)
    requires newToken !in s.tokens && username !in s.users
    ensures var o := s.CreateRefreshToken(username, newToken, now);
            o.result == Err(NO_VALUE_PRESENT) && forall t :: o.after.FindByToken(t) == s.FindByToken(t)
  {
  }

  /** Verifying a stored, expired record deletes it, so findByToken no longer finds its string, and
      leaves every other record where it was. */
  lemma ExpiredRecordIsGone(s: Service, token: string, now: int)
    requires s.Valid() && s.FindByToken(token).Some?
    requires s.FindByToken(token).value.expiryDate < now
    ensures var o := s.VerifyExpiration(s.FindByToken(token).value, now);
            && o.result == Err(token + EXPIRED_SUFFIX)
            && o.after.FindByToken(token) == None
            && forall t :: t != token ==> o.after.FindByToken(t) == s.FindByToken(t)
  {
  }

  /** Verifying a stored record that has not expired returns it and leaves it retrievable. */
  lemma LiveRecordStays(s: Service, token: string, now: int)
    requires s.FindByToken(token).Some?
    requires now <= s.FindByToken(token).value.expiryDate
    ensures var o := s.VerifyExpiration(s.FindByToken(token).value, now);
            && o.result == Ok(s.FindByToken(token).value)
            && o.after.FindByToken(token) == s.FindByToken(token)
  {
  }

  /** The service itself: the two repositories as fields the methods update in place, and the
      configured lifetime. */
  class RefreshTokenService {
    var tokens: TokenStore
    var users: UserStore
    const refreshTokenExpiration: int

    /** The state of the service as a value. */
    function State(): Service
      reads this
    {
      Service(users, tokens, refreshTokenExpiration)
    }

    ghost predicate Valid()
      reads this
    {
      State().Valid()
    }

    constructor (users: UserStore, tokens: TokenStore, refreshTokenExpiration: int)
      requires Service(users, tokens, refreshTokenExpiration).Valid()
      ensures Valid()
      ensures State() == Service(users, tokens, refreshTokenExpiration)
    {
      this.users := users;
      this.tokens := tokens;
      this.refreshTokenExpiration := refreshTokenExpiration;
    }

    /** refreshTokenRepository.save: stores the record under its token. */
    method Save(record: RefreshToken) returns (saved: RefreshToken)
      modifies this`tokens
      ensures saved == record
      ensures tokens == old(tokens)[record.token := record]
    {
      tokens := tokens[record.token := record];
      saved := record;
    }

    /** refreshTokenRepository.delete: removes the record stored under the record's token. */
    method Delete(record: RefreshToken)
      modifies this`tokens
      ensures tokens == old(tokens) - {record.token}
    {
      tokens := tokens - {record.token};
    }

    /** createRefreshToken. */
    method CreateRefreshToken(username: string, newToken: string, now: int) returns (r: Result<RefreshToken>)
      requires Valid() && newToken !in tokens
      modifies this`tokens
      ensures Valid()
      ensures Step(r, State()) == old(State()).CreateRefreshToken(username, newToken, now)
    {
      var user := State().FindByUsername(username);
      if user.None? {
        return Err(NO_VALUE_PRESENT);
      }
      var record := RefreshToken(newToken, user.value, now + refreshTokenExpiration);
      var saved := Save(record);
      r := Ok(saved);
    }

    /** findByToken: a lookup that changes nothing. */
    method FindByToken(token: string) returns (r: Option<RefreshToken>)
      ensures r == State().FindByToken(token)
      ensures r.Some? <==> token in tokens
    {
      r := State().FindByToken(token);
    }

    /** verifyExpiration. */
    method VerifyExpiration(record: RefreshToken, now: int) returns (r: Result<RefreshToken>)
      requires Valid()
      modifies this`tokens
      ensures Valid()
      ensures Step(r, State()) == old(State()).VerifyExpiration(record, now)
    {
      if record.expiryDate < now {
        Delete(record);
        return Err(record.token + EXPIRED_SUFFIX);
      }
      r := Ok(record);
    }
  }
}
